/** Shared vocabulary: optional values, Java `long` timestamps, the `String`
    operations the application relies on (trim, ASCII case folding, substring,
    natural order), integer ceiling division and a stable sort by a comparator. */
module Common {

  /** Java's `null` / `Optional.empty()` versus a present value. */
  datatype Option<T> = None | Some(value: T) {
    /** `Optional.orElse(d)`. */
    function GetOr(d: T): T {
      if Some? then value else d
    }
  }

  /** The range of a Java `long`, which `Calendar.getTimeInMillis` returns. */
  const LongMin: int := -0x8000_0000_0000_0000
  const LongMax: int := 0x7FFF_FFFF_FFFF_FFFF

  /** A point in time, as milliseconds since the epoch. */
  type Millis = t: int | LongMin <= t <= LongMax

  // ---------------------------------------------------------------------------
  // Case folding (ASCII only; locale-dependent folding is not modelled)

  function LowerChar(c: char): char {
    if 'A' <= c <= 'Z' then (c as int - 'A' as int + 'a' as int) as char else c
  }

  /** `String.toLowerCase()`, character by character. */
  function Lower(s: string): (r: string)
    ensures |r| == |s|
    ensures forall i :: 0 <= i < |s| ==> r[i] == LowerChar(s[i])
  {
    if s == [] then [] else [LowerChar(s[0])] + Lower(s[1..])
  }

  /** `a.equalsIgnoreCase(b)`; a `null` argument never matches. */
  predicate EqualsIgnoreCase(a: string, b: Option<string>) {
    b.Some? && Lower(a) == Lower(b.value)
  }

  /** `needle` occurs in `hay` starting at offset `k`. */
  predicate OccursAt(hay: string, needle: string, k: int) {
    0 <= k <= |hay| - |needle| && hay[k..k + |needle|] == needle
  }

  // ---------------------------------------------------------------------------
  // Trimming

  /** `String.trim()` removes every leading and trailing character whose code is
      at most U+0020. */
  predicate IsTrimmable(c: char) {
    c <= ' '
  }

  /** How many trimmable characters `s` starts with. */
  function LeadingTrimmable(s: string): (n: nat)
    ensures n <= |s|
    ensures forall i :: 0 <= i < n ==> IsTrimmable(s[i])
    ensures n == |s| || !IsTrimmable(s[n])
  {
    if s != [] && IsTrimmable(s[0]) then 1 + LeadingTrimmable(s[1..]) else 0
  }

  /** How long `s` is without the trimmable characters it ends with. */
  function TrailingStart(s: string): (m: nat)
    ensures m <= |s|
    ensures forall i :: m <= i < |s| ==> IsTrimmable(s[i])
    ensures m == 0 || !IsTrimmable(s[m - 1])
  {
    if s != [] && IsTrimmable(s[|s| - 1]) then TrailingStart(s[..|s| - 1]) else |s|
  }

  /** `r` sits in `s` at offset `k`, and everything of `s` before and after it
      is trimmable. */
  predicate TrimmedAt(s: string, r: string, k: int) {
    && OccursAt(s, r, k)
    && (forall i :: 0 <= i < k ==> IsTrimmable(s[i]))
    && (forall i :: k + |r| <= i < |s| ==> IsTrimmable(s[i]))
  }

  /** `String.trim()`: the result is a contiguous piece of `s` that neither starts
      nor ends with a trimmable character, and everything cut off is trimmable. */
  function Trim(s: string): (r: string)
    ensures |r| <= |s|
    ensures r == [] || (!IsTrimmable(r[0]) && !IsTrimmable(r[|r| - 1]))
    ensures exists k :: TrimmedAt(s, r, k)
  {
    var n := LeadingTrimmable(s);
    if n == |s| then
      assert TrimmedAt(s, [], n);
      []
    else
      var m := TrailingStart(s);
      assert n < m;
      assert TrimmedAt(s, s[n..m], n);
      s[n..m]
  }

  /** The first `k + 1` elements are the first `k` and then the next. */
  lemma TakeOneMore<T>(s: seq<T>, k: nat)
    requires k < |s|
    ensures s[..k + 1] == s[..k] + [s[k]]
  {
  }

  /** Trimming a trimmed string changes nothing. */
  lemma TrimIdempotent(s: string)
    ensures Trim(Trim(s)) == Trim(s)
  {
    var r := Trim(s);
    if r != [] {
      assert LeadingTrimmable(r) == 0;
      assert TrailingStart(r) == |r|;
      assert r[0..|r|] == r;
    }
  }

  /** `s.trim().isEmpty()`. */
  predicate IsBlank(s: string) {
    Trim(s) == []
  }

  /** A string is blank exactly when every character of it is trimmable. */
  lemma BlankIffAllTrimmable(s: string)
    ensures IsBlank(s) <==> forall i :: 0 <= i < |s| ==> IsTrimmable(s[i])
  {
    if LeadingTrimmable(s) < |s| {
      assert !IsTrimmable(s[LeadingTrimmable(s)]);
    }
  }

  // ---------------------------------------------------------------------------
  // Substrings

  predicate IsPrefix(p: string, s: string) {
    |p| <= |s| && s[..|p|] == p
  }

  /** `hay.contains(needle)`. */
  predicate Contains(hay: string, needle: string)
    decreases |hay|
  {
    IsPrefix(needle, hay) || (hay != [] && Contains(hay[1..], needle))
  }

  /** `Contains` holds exactly when `needle` occurs at some offset of `hay`. */
  lemma {:induction false} ContainsIffOccurs(hay: string, needle: string)
    ensures Contains(hay, needle) <==> exists k :: OccursAt(hay, needle, k)
    decreases |hay|
  {
    if IsPrefix(needle, hay) {
      assert OccursAt(hay, needle, 0);
    } else if hay == [] {
    } else {
      ContainsIffOccurs(hay[1..], needle);
      if exists k :: OccursAt(hay, needle, k) {
        var k :| OccursAt(hay, needle, k);
        assert k != 0;
        assert OccursAt(hay[1..], needle, k - 1);
      }
      if Contains(hay[1..], needle) {
        var k :| OccursAt(hay[1..], needle, k);
        assert OccursAt(hay, needle, k + 1);
      }
    }
  }

  /** Every string contains the empty string. */
  lemma ContainsEmpty(hay: string)
    ensures Contains(hay, [])
  {
    assert IsPrefix([], hay);
  }

  // ---------------------------------------------------------------------------
  // Natural order of strings (`String.compareTo`): code unit by code unit, a
  // proper prefix first.

  predicate StringLess(a: string, b: string) {
    if a == [] then b != []
    else if b == [] then false
    else if a[0] != b[0] then a[0] < b[0]
    else StringLess(a[1..], b[1..])
  }

  lemma {:induction false} StringLessIrreflexive(a: string)
    ensures !StringLess(a, a)
  {
    if a != [] {
      StringLessIrreflexive(a[1..]);
    }
  }

  lemma {:induction false} StringLessTransitive(a: string, b: string, c: string)
    requires StringLess(a, b) && StringLess(b, c)
    ensures StringLess(a, c)
  {
    if a != [] && b != [] && c != [] && a[0] == b[0] && b[0] == c[0] {
      StringLessTransitive(a[1..], b[1..], c[1..]);
    }
  }

  /** Any two strings are equal or ordered one way or the other. */
  lemma {:induction false} StringLessTotal(a: string, b: string)
    ensures a == b || StringLess(a, b) || StringLess(b, a)
  {
    if a != [] && b != [] && a[0] == b[0] {
      StringLessTotal(a[1..], b[1..]);
      if a[1..] == b[1..] {
        assert a == [a[0]] + a[1..] && b == [b[0]] + b[1..];
      }
    }
  }

  lemma {:induction false} StringLessAsymmetric(a: string, b: string)
    requires StringLess(a, b)
    ensures !StringLess(b, a)
  {
    if StringLess(b, a) {
      StringLessTransitive(a, b, a);
      StringLessIrreflexive(a);
    }
  }

  /** `a.compareTo(b)`, reduced to its sign. */
  function CompareStrings(a: string, b: string): int {
    if StringLess(a, b) then -1 else if StringLess(b, a) then 1 else 0
  }

  // ---------------------------------------------------------------------------
  // Subsequences

  /** `r` is `s` with some elements left out and the rest in their order. */
  ghost predicate IsSubsequence<T>(r: seq<T>, s: seq<T>)
    decreases |s|
  {
    r == [] || (s != [] && ((r[0] == s[0] && IsSubsequence(r[1..], s[1..])) || IsSubsequence(r, s[1..])))
  }

  // ---------------------------------------------------------------------------
  // Integer ceiling division (`(int) Math.ceil((double) n / d)`)

  function CeilDiv(n: nat, d: nat): (q: nat)
    requires d > 0
    ensures q * d >= n
    ensures q > 0 ==> (q - 1) * d < n
    ensures q == 0 <==> n == 0
  {
    var q := (n + d - 1) / d;
    assert q * d <= n + d - 1 < q * d + d;
    q
  }

  function Min(a: int, b: int): int {
    if a <= b then a else b
  }

  function Max(a: int, b: int): int {
    if a >= b then a else b
  }

  /** The range of a Java `int`. */
  type Int32 = x: int | -0x8000_0000 <= x < 0x8000_0000

  /** Java `int` arithmetic: the result reduced into the `int` range, two's
      complement style. */
  function Wrap32(x: int): (r: Int32)
    ensures (r - x) % 0x1_0000_0000 == 0
    ensures -0x8000_0000 <= x < 0x8000_0000 ==> r == x
  {
    var m := x % 0x1_0000_0000;
    if m < 0x8000_0000 then m else m - 0x1_0000_0000
  }

  /** `Integer.compare` / `Long.compare`. */
  function CompareInts(a: int, b: int): int {
    if a < b then -1 else if a > b then 1 else 0
  }

  // ---------------------------------------------------------------------------
  // Stable sort by a comparator on values (`List.sort`, `Array.prototype.sort`)

  /** Places `x` before the first element it does not follow. */
  function InsertBy<T>(x: T, s: seq<T>, cmp: (T, T) -> int): seq<T> {
    if s == [] || cmp(x, s[0]) <= 0 then [x] + s
    else [s[0]] + InsertBy(x, s[1..], cmp)
  }

  /** One insertion step adds exactly `x`. */
  lemma {:induction false} InsertByPermutes<T>(x: T, s: seq<T>, cmp: (T, T) -> int)
    ensures multiset(InsertBy(x, s, cmp)) == multiset(s) + multiset{x}
  {
    if s != [] && cmp(x, s[0]) > 0 {
      InsertByPermutes(x, s[1..], cmp);
      assert s == [s[0]] + s[1..];
    }
  }

  /** `InsertBy` puts `x` at the first position whose element it does not
      follow. */
  lemma {:induction false} InsertByAt<T>(x: T, t: seq<T>, k: nat, cmp: (T, T) -> int)
    requires k <= |t|
    requires forall m :: 0 <= m < k ==> cmp(x, t[m]) > 0
    requires k == |t| || cmp(x, t[k]) <= 0
    ensures InsertBy(x, t, cmp) == t[..k] + [x] + t[k..]
  {
    if k == 0 {
      assert t[..0] + [x] + t[0..] == [x] + t;
    } else {
      assert cmp(x, t[0]) > 0;
      assert InsertBy(x, t, cmp) == [t[0]] + InsertBy(x, t[1..], cmp);
      InsertByAt(x, t[1..], k - 1, cmp);
      SpliceCons(t, k, x);
    }
  }

  /** Splicing `x` into the tail at `k - 1` and putting the head back splices
      it into the whole at `k`. */
  lemma SpliceCons<T>(t: seq<T>, k: nat, x: T)
    requires 0 < k <= |t|
    ensures [t[0]] + (t[1..][..k - 1] + [x] + t[1..][k - 1..]) == t[..k] + [x] + t[k..]
  {
    assert t[..k] == [t[0]] + t[1..][..k - 1];
    assert t[k..] == t[1..][k - 1..];
  }

  /** Insertion sort: each element goes in front of the already sorted rest,
      ahead of the elements it ties with, so ties keep their input order. */
  function SortBy<T>(s: seq<T>, cmp: (T, T) -> int): seq<T> {
    if s == [] then [] else InsertBy(s[0], SortBy(s[1..], cmp), cmp)
  }

  /** The stable sort returns a permutation of its input. */
  lemma {:induction false} SortByPermutes<T>(s: seq<T>, cmp: (T, T) -> int)
    ensures multiset(SortBy(s, cmp)) == multiset(s)
  {
    if s != [] {
      SortByPermutes(s[1..], cmp);
      InsertByPermutes(s[0], SortBy(s[1..], cmp), cmp);
      assert s == [s[0]] + s[1..];
    }
  }

  /** `cmp` orders the values of `xs` by a total preorder. */
  ghost predicate PreorderOn<T(!new)>(cmp: (T, T) -> int, xs: set<T>) {
    && (forall a, b :: a in xs && b in xs ==> cmp(a, b) <= 0 || cmp(b, a) <= 0)
    && (forall a, b, c :: a in xs && b in xs && c in xs && cmp(a, b) <= 0 && cmp(b, c) <= 0
          ==> cmp(a, c) <= 0)
  }

  ghost predicate SortedBy<T>(s: seq<T>, cmp: (T, T) -> int) {
    forall i, j :: 0 <= i < j < |s| ==> cmp(s[i], s[j]) <= 0
  }

  lemma {:induction false} InsertBySorted<T(!new)>(x: T, s: seq<T>, cmp: (T, T) -> int, xs: set<T>)
    requires PreorderOn(cmp, xs) && x in xs && (forall y :: y in s ==> y in xs)
    requires SortedBy(s, cmp)
    ensures SortedBy(InsertBy(x, s, cmp), cmp)
  {
    if s == [] || cmp(x, s[0]) <= 0 {
      forall z | z in s ensures cmp(x, z) <= 0 {
        assert s[0] in xs && z in xs;
        var k :| 0 <= k < |s| && s[k] == z;
        if k > 0 {
          assert cmp(s[0], s[k]) <= 0;
        }
      }
      SortedCons(x, s, cmp);
    } else {
      InsertBySorted(x, s[1..], cmp, xs);
      HeadNotAfterInserted(x, s, cmp, xs);
      SortedCons(s[0], InsertBy(x, s[1..], cmp), cmp);
    }
  }

  /** Putting in front of a sorted sequence a value that none of its elements
      precedes keeps it sorted. */
  lemma SortedCons<T>(y: T, t: seq<T>, cmp: (T, T) -> int)
    requires SortedBy(t, cmp) && forall z :: z in t ==> cmp(y, z) <= 0
    ensures SortedBy([y] + t, cmp)
  {
    var r := [y] + t;
    forall i, j | 0 <= i < j < |r| ensures cmp(r[i], r[j]) <= 0 {
      assert r[j] == t[j - 1];
      if i > 0 {
        assert r[i] == t[i - 1];
      } else {
        assert r[j] in t;
      }
    }
  }

  /** When `x` goes past the head of a sorted `s`, the head comes before
      everything `x` is inserted among. */
  lemma HeadNotAfterInserted<T(!new)>(x: T, s: seq<T>, cmp: (T, T) -> int, xs: set<T>)
    requires PreorderOn(cmp, xs) && x in xs && (forall y :: y in s ==> y in xs)
    requires SortedBy(s, cmp) && s != [] && cmp(x, s[0]) > 0
    ensures forall y :: y in InsertBy(x, s[1..], cmp) ==> cmp(s[0], y) <= 0
  {
    var t := InsertBy(x, s[1..], cmp);
    InsertByPermutes(x, s[1..], cmp);
    assert cmp(s[0], x) <= 0 by { assert s[0] in xs; }
    forall y | y in t ensures cmp(s[0], y) <= 0 {
      assert y in multiset(t);
      assert y == x || y in multiset(s[1..]);
      if y != x {
        var k :| 1 <= k < |s| && s[k] == y;
      }
    }
  }

  /** On values that `cmp` orders by a total preorder, `SortBy` sorts. */
  lemma {:induction false} SortBySorted<T(!new)>(s: seq<T>, cmp: (T, T) -> int)
    requires PreorderOn(cmp, set x | x in s)
    ensures SortedBy(SortBy(s, cmp), cmp)
  {
    if s != [] {
      var xs := set x | x in s;
      var tail := s[1..];
      assert PreorderOn(cmp, set x | x in tail) by {
        assert (set x | x in tail) <= xs;
      }
      SortBySorted(tail, cmp);
      var t := SortBy(tail, cmp);
      SortByPermutes(tail, cmp);
      forall y | y in t ensures y in xs {
        assert y in multiset(t);
      }
      InsertBySorted(s[0], t, cmp, xs);
    }
  }

  /** The sort of a suffix is its first element inserted into the sort of the
      rest. */
  lemma SortBySuffix<T>(s: seq<T>, i: nat, cmp: (T, T) -> int)
    requires i < |s|
    ensures SortBy(s[i..], cmp) == InsertBy(s[i], SortBy(s[i + 1..], cmp), cmp)
  {
    assert s[i..][1..] == s[i + 1..];
  }

  /** A sequence in which no element follows the next is its own sort. */
  lemma {:induction false} SortByInOrder<T>(s: seq<T>, cmp: (T, T) -> int)
    requires forall k :: 0 <= k < |s| - 1 ==> cmp(s[k], s[k + 1]) <= 0
    ensures SortBy(s, cmp) == s
  {
    if s != [] {
      var tail := s[1..];
      forall k | 0 <= k < |tail| - 1 ensures cmp(tail[k], tail[k + 1]) <= 0 {
        assert tail[k] == s[k + 1] && tail[k + 1] == s[k + 2];
      }
      SortByInOrder(tail, cmp);
      InsertByAt(s[0], tail, 0, cmp);
      SortBySuffix(s, 0, cmp);
      assert s[0..] == s;
    }
  }
}
