/** `services/MembershipService.java`: the list of membership types offered as
    a filter, and creating memberships. */
module MembershipService {
  import opened Common
  import opened Records
  import opened Repositories

  /** `map(Membership::getType).filter(Objects::nonNull)`: the types that are
      set, in the order of the memberships. */
  function KnownTypes(ms: seq<Membership>): (r: seq<string>)
    ensures forall t :: t in r <==> exists m :: m in ms && m.typeName == Some(t)
  {
    if ms == [] then []
    else
      var rest := KnownTypes(ms[1..]);
      assert forall m :: m in ms <==> m == ms[0] || m in ms[1..];
      if ms[0].typeName.Some? then [ms[0].typeName.value] + rest else rest
  }

  /** `distinct()`: the first occurrence of each string, in order. */
  function Distinct(s: seq<string>): (r: seq<string>)
    ensures forall t :: t in r <==> t in s
    ensures forall t :: multiset(r)[t] <= 1
    decreases |s|
  {
    if s == [] then []
    else
      var init := s[..|s| - 1];
      var last := s[|s| - 1];
      var rest := Distinct(init);
      assert s == init + [last];
      if last in rest then rest else rest + [last]
  }

  /** `getAllMembershipTypes`: the distinct types, sorted in natural string
      order. */
  function MembershipTypes(ms: seq<Membership>): (r: seq<string>)
    ensures forall t :: t in r <==> exists m :: m in ms && m.typeName == Some(t)
  {
    var d := Distinct(KnownTypes(ms));
    var r := SortBy(d, CompareStrings);
    SortByPermutes(d, CompareStrings);
    assert forall t :: t in r <==> t in d by {
      forall t ensures t in r <==> t in d {
        assert t in r <==> t in multiset(r);
      }
    }
    r
  }

  /** Natural string order is a total preorder on every set of strings. */
  lemma CompareStringsPreorder(xs: set<string>)
    ensures PreorderOn(CompareStrings, xs)
  {
    forall a, b | a in xs && b in xs
      ensures CompareStrings(a, b) <= 0 || CompareStrings(b, a) <= 0
    {
      StringLessTotal(a, b);
      if a == b {
        StringLessIrreflexive(a);
      }
    }
    forall a, b, c | a in xs && b in xs && c in xs && CompareStrings(a, b) <= 0 && CompareStrings(b, c) <= 0
      ensures CompareStrings(a, c) <= 0
    {
      StringLessTotal(a, b);
      StringLessTotal(b, c);
      StringLessIrreflexive(a);
      StringLessIrreflexive(b);
      if a != b && b != c {
        StringLessTransitive(a, b, c);
        StringLessAsymmetric(a, c);
      } else if a == b && b != c {
        StringLessAsymmetric(b, c);
      } else if a != b && b == c {
        StringLessAsymmetric(a, b);
      }
    }
  }

  /** A value that occurs at most once in a sequence is at no other position. */
  lemma OnceMeansDistinct(s: seq<string>, i: int, j: int)
    requires 0 <= i < j < |s| && multiset(s)[s[i]] <= 1
    ensures s[i] != s[j]
  {
    assert s == s[..j] + s[j..];
    assert s[..j][i] == s[i] && s[j..][0] == s[j];
    assert s[i] in multiset(s[..j]) && s[j] in multiset(s[j..]);
  }

  /** The type list is strictly increasing in natural string order, so it has
      no duplicates and is sorted. */
  lemma MembershipTypesStrictlySorted(ms: seq<Membership>)
    ensures var r := MembershipTypes(ms);
      forall i, j :: 0 <= i < j < |r| ==> StringLess(r[i], r[j])
  {
    var d := Distinct(KnownTypes(ms));
    var r := SortBy(d, CompareStrings);
    SortByPermutes(d, CompareStrings);
    CompareStringsPreorder(set x | x in d);
    SortBySorted(d, CompareStrings);
    forall i, j | 0 <= i < j < |r| ensures StringLess(r[i], r[j]) {
      assert CompareStrings(r[i], r[j]) <= 0;
      assert multiset(d)[r[i]] <= 1;
      OnceMeansDistinct(r, i, j);
      StringLessTotal(r[i], r[j]);
    }
  }

  /** `createMembership`: saves one new membership whose fields are exactly
      the arguments, under a fresh id, after which `findById` finds it. */
  method CreateMembership(repo: MembershipRepository, typeName: Option<string>, organizationName: Option<string>,
                          description: Option<string>)
    returns (m: Membership)
    requires repo.Valid()
    modifies repo
    ensures repo.Valid()
    ensures m == Membership(old(repo.nextId), typeName, organizationName, description)
    ensures repo.memberships == old(repo.memberships) + [m]
    ensures repo.FindById(m.id) == Some(m)
  {
    m := Membership(repo.nextId, typeName, organizationName, description);
    FirstMembershipWithIdAppend(repo.memberships, m);
    repo.SaveNew(m);
  }

  /** Looking an id up in a list with one more membership at the end finds that
      membership when the list had none with that id. */
  lemma {:induction false} FirstMembershipWithIdAppend(s: seq<Membership>, m: Membership)
    requires forall x :: x in s ==> x.id != m.id
    ensures FirstMembershipWithId(s + [m], m.id) == Some(m)
  {
    if s != [] {
      assert (s + [m])[1..] == s[1..] + [m];
      FirstMembershipWithIdAppend(s[1..], m);
    } else {
      assert [m][1..] == [];
    }
  }
}
