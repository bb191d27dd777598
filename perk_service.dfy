/** `services/PerkService.java`: creating perks, filtering the catalogue,
    sorting a list of perks and toggling votes. Filtering and sorting only read
    the perks, so they are functions over the sequence `findAll()` returns;
    creating a perk and toggling a vote change objects, so they are methods. */
module PerkService {
  import opened Common
  import opened Records
  import opened Model
  import opened Repositories

  // ---------------------------------------------------------------------------
  // Filtering (`filterPerks`)

  /** The optional criteria of `filterPerks`; `None` is `Optional.empty()`. */
  datatype Criteria = Criteria(
    membershipType: Option<string>,
    region: Option<string>,
    expiryOnly: Option<bool>,
    userMemberships: Option<set<Membership>>)

  /** No criterion given at all. */
  const NoCriteria: Criteria := Criteria(None, None, None, None)

  /** A missing or blank type filter lets everything through; otherwise the
      perk needs a membership whose type equals the filter ignoring case. */
  predicate MatchesType(p: Perk, filter: Option<string>)
    reads p
  {
    || filter.None?
    || IsBlank(filter.value)
    || (p.membership.Some? && EqualsIgnoreCase(filter.value, p.membership.value.typeName))
  }

  /** A missing or blank region filter lets everything through; otherwise the
      perk's region, lower-cased, must contain the (untrimmed) filter,
      lower-cased. */
  predicate MatchesRegion(p: Perk, filter: Option<string>)
    reads p
  {
    || filter.None?
    || IsBlank(filter.value)
    || (p.region.Some? && Contains(Lower(p.region.value), Lower(filter.value)))
  }

  /** Unless `expiryOnly` is present and true, everything passes; otherwise only
      perks that expire strictly after `now`. */
  predicate MatchesExpiry(p: Perk, expiryOnly: Option<bool>, now: Millis)
    reads p
  {
    !expiryOnly.GetOr(false) || (p.expiryDate.Some? && p.expiryDate.value > now)
  }

  /** A missing set lets everything through; otherwise the perk's membership must
      be one of the user's. */
  predicate MatchesMemberships(p: Perk, ms: Option<set<Membership>>)
    reads p
  {
    ms.None? || (p.membership.Some? && p.membership.value in ms.value)
  }

  /** All four filters of `filterPerks`, as one conjunction. */
  predicate Passes(p: Perk, c: Criteria, now: Millis)
    reads p
  {
    && MatchesType(p, c.membershipType)
    && MatchesRegion(p, c.region)
    && MatchesExpiry(p, c.expiryOnly, now)
    && MatchesMemberships(p, c.userMemberships)
  }

  /** `filterPerks`: the perks of `all` that pass every criterion, in their
      original order and with their original multiplicity. `now` is the clock
      reading the source takes with `Calendar.getInstance()`. */
  function FilterPerks(all: seq<Perk>, c: Criteria, now: Millis): (r: seq<Perk>)
    reads all
    ensures IsSubsequence(r, all)
    ensures forall p :: p in r ==> p in all && Passes(p, c, now)
    ensures forall p :: p in all ==> (p in r <==> Passes(p, c, now))
  {
    if all == [] then []
    else
      var rest := FilterPerks(all[1..], c, now);
      assert all == [all[0]] + all[1..];
      if Passes(all[0], c, now) then
        assert ([all[0]] + rest)[1..] == rest;
        [all[0]] + rest
      else
        rest
  }

  /** Filtering never lengthens the list. */
  lemma {:induction false} FilterNoLonger(all: seq<Perk>, c: Criteria, now: Millis)
    ensures |FilterPerks(all, c, now)| <= |all|
  {
    if all != [] {
      FilterNoLonger(all[1..], c, now);
    }
  }

  /** Filtering keeps every copy of a perk that passes and none of one that
      does not. */
  lemma {:induction false} FilterPerksCounts(all: seq<Perk>, c: Criteria, now: Millis)
    ensures forall p :: p in all ==>
      multiset(FilterPerks(all, c, now))[p] == if Passes(p, c, now) then multiset(all)[p] else 0
  {
    if all != [] {
      FilterPerksCounts(all[1..], c, now);
      assert all == [all[0]] + all[1..];
    }
  }

  /** With no criterion, filtering returns the whole catalogue unchanged. */
  lemma {:induction false} FilterWithoutCriteria(all: seq<Perk>, now: Millis)
    ensures FilterPerks(all, NoCriteria, now) == all
  {
    if all != [] {
      FilterWithoutCriteria(all[1..], now);
    }
  }

  /** Filtering twice by the same criteria is the same as filtering once. */
  lemma {:induction false} FilterIdempotent(all: seq<Perk>, c: Criteria, now: Millis)
    ensures FilterPerks(FilterPerks(all, c, now), c, now) == FilterPerks(all, c, now)
  {
    if all != [] {
      FilterIdempotent(all[1..], c, now);
    }
  }

  /** Filtering by `c1` and then by `c2` keeps the same perks as filtering by
      `c2` and then by `c1`. */
  lemma {:induction false} FilterCommutes(all: seq<Perk>, c1: Criteria, c2: Criteria, now: Millis)
    ensures FilterPerks(FilterPerks(all, c1, now), c2, now) == FilterPerks(FilterPerks(all, c2, now), c1, now)
  {
    if all != [] {
      FilterCommutes(all[1..], c1, c2, now);
    }
  }

  // ---------------------------------------------------------------------------
  // Comparators on perks (the `Comparator` combinators the source builds)

  /** A comparator on perks, built the way the source builds them:
      `comparingInt(Perk::getRating)`, `comparing(getExpiryDate,
      nullsLast(comparingLong(getTimeInMillis)))`, the expiry date with a
      missing date read as `Long.MAX_VALUE`, `reversed()` and
      `thenComparing(...)`. */
  datatype PerkOrder =
    | ByRating
    | ByExpiryNullsLast
    | ByExpiryOrLatest
    | Reversed(inner: PerkOrder)
    | ThenBy(first: PerkOrder, second: PerkOrder)

  /** The expiry date in milliseconds, or `Long.MAX_VALUE` when there is none. */
  function ExpiryOrLatest(p: Perk): (t: Millis)
    reads p
    ensures p.expiryDate.Some? ==> t == p.expiryDate.value
    ensures p.expiryDate.None? ==> t == LongMax
  {
    if p.expiryDate.Some? then p.expiryDate.value else LongMax
  }

  /** `o.compare(a, b)`, reduced to its sign. */
  function Compare(o: PerkOrder, a: Perk, b: Perk): (r: int)
    reads a, b
    ensures -1 <= r <= 1
    decreases o
  {
    match o
    case ByRating => CompareInts(a.Rating(), b.Rating())
    case ByExpiryNullsLast =>
      if a.expiryDate.None? && b.expiryDate.None? then 0
      else if a.expiryDate.None? then 1
      else if b.expiryDate.None? then -1
      else CompareInts(a.expiryDate.value, b.expiryDate.value)
    case ByExpiryOrLatest => CompareInts(ExpiryOrLatest(a), ExpiryOrLatest(b))
    case Reversed(inner) => Compare(inner, b, a)
    case ThenBy(first, second) =>
      var c := Compare(first, a, b);
      if c != 0 then c else Compare(second, a, b)
  }

  /** Swapping the arguments negates the comparison. */
  lemma {:induction false} CompareAntisymmetric(o: PerkOrder, a: Perk, b: Perk)
    ensures Compare(o, a, b) == -Compare(o, b, a)
    decreases o
  {
    match o
    case Reversed(inner) => CompareAntisymmetric(inner, b, a);
    case ThenBy(first, second) =>
      CompareAntisymmetric(first, a, b);
      CompareAntisymmetric(second, a, b);
    case _ =>
  }

  /** Every comparator is transitive, so it orders perks by a total preorder. */
  lemma {:induction false} CompareTransitive(o: PerkOrder, a: Perk, b: Perk, c: Perk)
    requires Compare(o, a, b) <= 0 && Compare(o, b, c) <= 0
    ensures Compare(o, a, c) <= 0
    decreases o
  {
    match o
    case Reversed(inner) => CompareTransitive(inner, c, b, a);
    case ThenBy(first, second) =>
      var fab, fbc := Compare(first, a, b), Compare(first, b, c);
      CompareTransitive(first, a, b, c);
      if Compare(first, a, c) == 0 {
        // a, b and c tie on `first`: if either step were strict, going round
        // the cycle through c would make it strict in the other direction.
        CompareAntisymmetric(first, a, c);
        CompareTransitive(first, c, a, b);
        CompareAntisymmetric(first, b, c);
        CompareTransitive(first, b, c, a);
        CompareAntisymmetric(first, a, b);
        CompareTransitive(second, a, b, c);
      }
    case _ =>
  }

  // ---------------------------------------------------------------------------
  // Stable sorting (`stream().sorted(comparator)`)

  /** Places `x` in front of the first element it does not follow. */
  function InsertPerk(o: PerkOrder, x: Perk, s: seq<Perk>): (r: seq<Perk>)
    reads {x} + set p | p in s
    ensures multiset(r) == multiset(s) + multiset{x}
  {
    if s == [] || Compare(o, x, s[0]) <= 0 then [x] + s
    else
      assert s == [s[0]] + s[1..];
      [s[0]] + InsertPerk(o, x, s[1..])
  }

  /** Insertion sort: each perk goes in front of the sorted rest, ahead of the
      perks it ties with, so perks that compare equal keep their input order. */
  function SortPerksBy(o: PerkOrder, s: seq<Perk>): (r: seq<Perk>)
    reads set p | p in s
    ensures multiset(r) == multiset(s)
  {
    if s == [] then []
    else
      assert s == [s[0]] + s[1..];
      var t := SortPerksBy(o, s[1..]);
      assert forall p :: p in t ==> p in s by {
        forall p | p in t ensures p in s {
          assert p in multiset(s[1..]);
        }
      }
      InsertPerk(o, s[0], t)
  }

  /** Sorted under a perk order. This and `SortedCons` restate the generic
      ones of `Common` because comparing perks reads their vote sets, which a
      plain value comparator cannot. */
  ghost predicate SortedBy(o: PerkOrder, s: seq<Perk>)
    reads s
  {
    forall i, j :: 0 <= i < j < |s| ==> Compare(o, s[i], s[j]) <= 0
  }

  /** Prepending `x` keeps a list sorted when `x` does not follow its head. */
  lemma SortedCons(o: PerkOrder, x: Perk, s: seq<Perk>)
    requires SortedBy(o, s) && (s != [] ==> Compare(o, x, s[0]) <= 0)
    ensures SortedBy(o, [x] + s)
  {
    var r := [x] + s;
    forall i, j | 0 <= i < j < |r| ensures Compare(o, r[i], r[j]) <= 0 {
      if i == 0 {
        if j > 1 {
          assert r[j] == s[j - 1];
          CompareTransitive(o, x, s[0], s[j - 1]);
        }
      } else {
        assert r[i] == s[i - 1] && r[j] == s[j - 1];
      }
    }
  }

  /** Prepending `y` keeps a list sorted when `y` precedes all its elements. */
  lemma SortedConsAll(o: PerkOrder, y: Perk, t: seq<Perk>)
    requires SortedBy(o, t) && forall j :: 0 <= j < |t| ==> Compare(o, y, t[j]) <= 0
    ensures SortedBy(o, [y] + t)
  {
    var r := [y] + t;
    forall i, j | 0 <= i < j < |r| ensures Compare(o, r[i], r[j]) <= 0 {
      assert r[j] == t[j - 1];
      if i > 0 {
        assert r[i] == t[i - 1];
      }
    }
  }

  /** An element of `t`, which holds the tail of a sorted `s` and `x`, does
      not precede the head of `s` when `x` does not. */
  lemma HeadPrecedes(o: PerkOrder, x: Perk, s: seq<Perk>, y: Perk, t: seq<Perk>)
    requires SortedBy(o, s) && s != [] && Compare(o, s[0], x) <= 0
    requires multiset(t) == multiset(s[1..]) + multiset{x} && y in t
    ensures Compare(o, s[0], y) <= 0
  {
    assert y in multiset(t);
    if y != x {
      assert y in multiset(s[1..]);
      var k :| 0 <= k < |s[1..]| && s[1..][k] == y;
      assert s[k + 1] == y;
    }
  }

  lemma {:induction false} InsertPerkSorted(o: PerkOrder, x: Perk, s: seq<Perk>)
    requires SortedBy(o, s)
    ensures SortedBy(o, InsertPerk(o, x, s))
  {
    if s == [] || Compare(o, x, s[0]) <= 0 {
      SortedCons(o, x, s);
    } else {
      var tail := s[1..];
      SortedTail(o, s);
      InsertPerkSorted(o, x, tail);
      var t := InsertPerk(o, x, tail);
      CompareAntisymmetric(o, x, s[0]);
      forall j | 0 <= j < |t| ensures Compare(o, s[0], t[j]) <= 0 {
        HeadPrecedes(o, x, s, t[j], t);
      }
      SortedConsAll(o, s[0], t);
    }
  }

  /** `SortPerksBy` sorts, whatever the comparator. */
  lemma {:induction false} SortPerksBySorted(o: PerkOrder, s: seq<Perk>)
    ensures SortedBy(o, SortPerksBy(o, s))
  {
    if s != [] {
      SortPerksBySorted(o, s[1..]);
      InsertPerkSorted(o, s[0], SortPerksBy(o, s[1..]));
    }
  }

  lemma SortedTail(o: PerkOrder, s: seq<Perk>)
    requires SortedBy(o, s) && s != []
    ensures SortedBy(o, s[1..])
  {
    var tail := s[1..];
    forall i, j | 0 <= i < j < |tail| ensures Compare(o, tail[i], tail[j]) <= 0 {
      assert tail[i] == s[i + 1] && tail[j] == s[j + 1];
    }
  }

  lemma InsertPerkInFront(o: PerkOrder, s: seq<Perk>)
    requires s != [] && (|s| > 1 ==> Compare(o, s[0], s[1]) <= 0)
    ensures InsertPerk(o, s[0], s[1..]) == s
  {
  }

  /** A list that is already sorted comes back unchanged: the sort moves no
      perk past one it ties with. */
  lemma {:induction false} SortPerksByKeepsSorted(o: PerkOrder, s: seq<Perk>)
    requires SortedBy(o, s)
    ensures SortPerksBy(o, s) == s
  {
    if s != [] {
      SortedTail(o, s);
      SortPerksByKeepsSorted(o, s[1..]);
      InsertPerkInFront(o, s);
    }
  }

  /** Sorting twice is the same as sorting once. */
  lemma SortPerksByIdempotent(o: PerkOrder, s: seq<Perk>)
    ensures SortPerksBy(o, SortPerksBy(o, s)) == SortPerksBy(o, s)
  {
    SortPerksBySorted(o, s);
    SortPerksByKeepsSorted(o, SortPerksBy(o, s));
  }

  /** The perks of `s` that tie with `x`, in the order `s` lists them. */
  ghost function Ties(o: PerkOrder, x: Perk, s: seq<Perk>): seq<Perk>
    reads x, s
  {
    if s == [] then []
    else (if Compare(o, x, s[0]) == 0 then [s[0]] else []) + Ties(o, x, s[1..])
  }

  /** `Ties` of a list with one more perk in front. */
  lemma TiesCons(o: PerkOrder, x: Perk, y: Perk, s: seq<Perk>)
    ensures Ties(o, x, [y] + s) == (if Compare(o, x, y) == 0 then [y] else []) + Ties(o, x, s)
  {
    assert ([y] + s)[1..] == s;
  }

  /** Putting `y` in front of both sides keeps `h` first among the perks
      tying with `x`, when `h` follows `y` and so cannot tie with it. */
  lemma TiesStep(o: PerkOrder, x: Perk, h: Perk, y: Perk, rest: seq<Perk>, s: seq<Perk>)
    requires Compare(o, h, y) > 0
    requires Ties(o, x, rest) == (if Compare(o, x, h) == 0 then [h] else []) + Ties(o, x, s)
    ensures Ties(o, x, [y] + rest) == (if Compare(o, x, h) == 0 then [h] else []) + Ties(o, x, [y] + s)
  {
    TiesCons(o, x, y, rest);
    TiesCons(o, x, y, s);
    if Compare(o, x, h) == 0 {
      CompareAntisymmetric(o, x, h);
      if Compare(o, x, y) == 0 {
        CompareTransitive(o, h, x, y);
        assert false;
      }
    }
  }

  /** Inserting `h` puts it ahead of every perk it ties with and behind none
      that ties with it: among the perks tying with `x`, `h` comes first. */
  lemma {:induction false} InsertPerkTies(o: PerkOrder, x: Perk, h: Perk, t: seq<Perk>)
    ensures Ties(o, x, InsertPerk(o, h, t)) == (if Compare(o, x, h) == 0 then [h] else []) + Ties(o, x, t)
  {
    if t == [] || Compare(o, h, t[0]) <= 0 {
      assert InsertPerk(o, h, t) == [h] + t;
      TiesCons(o, x, h, t);
    } else {
      var rest := InsertPerk(o, h, t[1..]);
      assert InsertPerk(o, h, t) == [t[0]] + rest;
      assert t == [t[0]] + t[1..];
      InsertPerkTies(o, x, h, t[1..]);
      TiesStep(o, x, h, t[0], rest, t[1..]);
    }
  }

  /** The sort is stable: for every perk `x`, the perks that tie with `x`
      come out in the order they went in. */
  lemma {:induction false} SortPerksByStable(o: PerkOrder, x: Perk, s: seq<Perk>)
    ensures Ties(o, x, SortPerksBy(o, s)) == Ties(o, x, s)
  {
    if s != [] {
      SortPerksByStable(o, x, s[1..]);
      InsertPerkTies(o, x, s[0], SortPerksBy(o, s[1..]));
    }
  }

  // ---------------------------------------------------------------------------
  // `sortPerks(perks, sortKey, direction)`

  /** The comparator a sort key selects: the key is matched case-sensitively and
      anything other than "rating" or "expiry" selects none. */
  function BaseOrder(key: string): Option<PerkOrder> {
    if key == "rating" then Some(ByRating)
    else if key == "expiry" then Some(ByExpiryNullsLast)
    else None
  }

  /** Ascending unless the direction (defaulting to "asc") is "desc" in any case. */
  predicate IsAscending(direction: Option<string>) {
    !EqualsIgnoreCase("desc", Some(direction.GetOr("asc")))
  }

  /** The comparator `sortPerks` ends up with, if any. */
  function SortOrder(sortKey: Option<string>, direction: Option<string>): Option<PerkOrder> {
    if sortKey.None? then None
    else match BaseOrder(sortKey.value)
      case None => None
      case Some(o) => Some(if IsAscending(direction) then o else Reversed(o))
  }

  /** `sortPerks`: a missing or unknown key returns the list itself; otherwise a
      stable sort by the selected comparator, reversed for a descending
      direction. Either way the result is a permutation of the input. */
  function SortPerks(perks: seq<Perk>, sortKey: Option<string>, direction: Option<string>): (r: seq<Perk>)
    reads perks
    ensures multiset(r) == multiset(perks)
    ensures SortOrder(sortKey, direction).None? ==> r == perks
    ensures SortOrder(sortKey, direction).Some? ==> SortedBy(SortOrder(sortKey, direction).value, r)
  {
    match SortOrder(sortKey, direction)
    case None => perks
    case Some(o) =>
      SortPerksBySorted(o, perks);
      SortPerksBy(o, perks)
  }

  /** Sorting by rating orders ratings ascending, or descending for "desc". */
  lemma SortByRatingOrdersRatings(perks: seq<Perk>, direction: Option<string>)
    ensures var r := SortPerks(perks, Some("rating"), direction);
      forall i, j :: 0 <= i < j < |r| ==>
        if IsAscending(direction) then r[i].Rating() <= r[j].Rating() else r[i].Rating() >= r[j].Rating()
  {
    var r := SortPerks(perks, Some("rating"), direction);
    var o := SortOrder(Some("rating"), direction).value;
    forall i, j | 0 <= i < j < |r|
      ensures if IsAscending(direction) then r[i].Rating() <= r[j].Rating() else r[i].Rating() >= r[j].Rating()
    {
      assert Compare(o, r[i], r[j]) <= 0;
      if !IsAscending(direction) {
        assert Compare(ByRating, r[j], r[i]) <= 0;
      }
    }
  }

  /** Sorting by expiry ascending puts the perks without a date last and orders
      the dated ones by date; descending puts them first and orders the dated
      ones latest first. */
  lemma SortByExpiryPlacesMissingDates(perks: seq<Perk>, direction: Option<string>)
    ensures var r := SortPerks(perks, Some("expiry"), direction);
      forall i, j :: 0 <= i < j < |r| ==>
        if IsAscending(direction) then
          && (r[i].expiryDate.None? ==> r[j].expiryDate.None?)
          && (r[i].expiryDate.Some? && r[j].expiryDate.Some? ==> r[i].expiryDate.value <= r[j].expiryDate.value)
        else
          && (r[j].expiryDate.None? ==> r[i].expiryDate.None?)
          && (r[i].expiryDate.Some? && r[j].expiryDate.Some? ==> r[i].expiryDate.value >= r[j].expiryDate.value)
  {
    var r := SortPerks(perks, Some("expiry"), direction);
    var o := SortOrder(Some("expiry"), direction).value;
    forall i, j | 0 <= i < j < |r|
      ensures if IsAscending(direction) then
          && (r[i].expiryDate.None? ==> r[j].expiryDate.None?)
          && (r[i].expiryDate.Some? && r[j].expiryDate.Some? ==> r[i].expiryDate.value <= r[j].expiryDate.value)
        else
          && (r[j].expiryDate.None? ==> r[i].expiryDate.None?)
          && (r[i].expiryDate.Some? && r[j].expiryDate.Some? ==> r[i].expiryDate.value >= r[j].expiryDate.value)
    {
      assert Compare(o, r[i], r[j]) <= 0;
      if !IsAscending(direction) {
        assert Compare(ByExpiryNullsLast, r[j], r[i]) <= 0;
      }
    }
  }

  /** Sorting an already sorted list again changes nothing. */
  lemma SortPerksIdempotent(perks: seq<Perk>, sortKey: Option<string>, direction: Option<string>)
    ensures SortPerks(SortPerks(perks, sortKey, direction), sortKey, direction) == SortPerks(perks, sortKey, direction)
  {
    if SortOrder(sortKey, direction).Some? {
      SortPerksByIdempotent(SortOrder(sortKey, direction).value, perks);
    }
  }

  /** `sortPerks` is stable: whatever comparator the key and direction
      select, the perks that tie under it keep the order they had in the
      filtered list (perks of equal rating, or of equal or missing expiry). */
  lemma SortPerksStable(perks: seq<Perk>, sortKey: Option<string>, direction: Option<string>, x: Perk)
    ensures SortOrder(sortKey, direction).Some? ==>
      var o := SortOrder(sortKey, direction).value;
      Ties(o, x, SortPerks(perks, sortKey, direction)) == Ties(o, x, perks)
  {
    if SortOrder(sortKey, direction).Some? {
      SortPerksByStable(SortOrder(sortKey, direction).value, x, perks);
    }
  }

  // ---------------------------------------------------------------------------
  // Voting (`toggleUpvotePerk`, `toggleDownvotePerk`)

  /** The two vote sets of one perk. */
  datatype Votes = Votes(up: set<Account>, down: set<Account>) {
    /** Upvotes minus downvotes (`getRating`). */
    function Rating(): int {
      |up| - |down|
    }

    /** How one account voted: 1 up, -1 down, 0 not at all. */
    function VoteOf(a: Account): int {
      if a in up then 1 else if a in down then -1 else 0
    }
  }

  /** The vote sets of a perk. */
  function VotesOf(p: Perk): (v: Votes)
    reads p
    ensures v.Rating() == p.Rating()
  {
    Votes(p.upvotedBy, p.downvotedBy)
  }

  /** An upvote toggle: withdraws the account's upvote if it has one, leaving
      the downvotes alone, otherwise adds one and withdraws any downvote.
      Other accounts are unaffected and the account never ends up on both
      sides. */
  function ToggledUp(v: Votes, a: Account): (r: Votes)
    ensures a in r.up <==> a !in v.up
    ensures !(a in r.up && a in r.down)
    ensures a in v.up ==> r.down == v.down
    ensures r.up - {a} == v.up - {a} && r.down - {a} == v.down - {a}
  {
    if a in v.up then Votes(v.up - {a}, v.down) else Votes(v.up + {a}, v.down - {a})
  }

  /** The downvote counterpart of `ToggledUp`. */
  function ToggledDown(v: Votes, a: Account): (r: Votes)
    ensures a in r.down <==> a !in v.down
    ensures !(a in r.up && a in r.down)
    ensures a in v.down ==> r.up == v.up
    ensures r.up - {a} == v.up - {a} && r.down - {a} == v.down - {a}
  {
    if a in v.down then Votes(v.up, v.down - {a}) else Votes(v.up - {a}, v.down + {a})
  }

  /** Toggling keeps the two sides disjoint. */
  lemma TogglesKeepDisjoint(v: Votes, a: Account)
    requires v.up !! v.down
    ensures ToggledUp(v, a).up !! ToggledUp(v, a).down
    ensures ToggledDown(v, a).up !! ToggledDown(v, a).down
  {
  }

  /** Toggling an upvote twice restores the sets unless the first toggle
      withdrew a downvote; the same holds for downvotes. */
  lemma ToggleTwiceRestores(v: Votes, a: Account)
    ensures a !in v.down ==> ToggledUp(ToggledUp(v, a), a) == v
    ensures a !in v.up ==> ToggledDown(ToggledDown(v, a), a) == v
  {
  }

  /** What an account's own vote becomes: an upvote toggle moves it to 1, or
      back to 0 from 1; a downvote toggle moves it to -1, or back to 0 from -1. */
  lemma ToggleVoteTransitions(v: Votes, a: Account)
    requires v.up !! v.down
    ensures ToggledUp(v, a).VoteOf(a) == if v.VoteOf(a) == 1 then 0 else 1
    ensures ToggledDown(v, a).VoteOf(a) == if v.VoteOf(a) == -1 then 0 else -1
  {
  }

  /** A toggle changes the rating exactly by the change in the account's own
      vote: the other accounts' contribution stays the same. */
  lemma ToggleRatingDelta(v: Votes, a: Account)
    requires v.up !! v.down
    ensures ToggledUp(v, a).Rating() - ToggledUp(v, a).VoteOf(a) == v.Rating() - v.VoteOf(a)
    ensures ToggledDown(v, a).Rating() - ToggledDown(v, a).VoteOf(a) == v.Rating() - v.VoteOf(a)
  {
    if a in v.up {
      assert |v.up - {a}| == |v.up| - 1;
    } else if a in v.down {
      assert |v.down - {a}| == |v.down| - 1;
    }
  }

  /** `toggleUpvotePerk`: on the stored perk with this id (the source throws
      `NoSuchElementException` when there is none; here `found` is false and
      nothing changes), applies `ToggledUp` to its vote sets. */
  method ToggleUpvotePerk(repo: PerkRepository, perkId: int, account: Account) returns (found: bool)
    modifies (set p | p in repo.all && p.id == perkId)`upvotedBy, (set p | p in repo.all && p.id == perkId)`downvotedBy
    ensures found <==> repo.FindById(perkId).Some?
    ensures found ==>
      var p := repo.FindById(perkId).value;
      VotesOf(p) == ToggledUp(old(VotesOf(p)), account)
  {
    var r := repo.FindById(perkId);
    if r.None? {
      return false;
    }
    var p := r.value;
    if account in p.upvotedBy {
      p.upvotedBy := p.upvotedBy - {account};
    } else {
      p.upvotedBy := p.upvotedBy + {account};
      p.downvotedBy := p.downvotedBy - {account};
    }
    found := true;
  }

  /** `toggleDownvotePerk`: the downvote counterpart of `ToggleUpvotePerk`. */
  method ToggleDownvotePerk(repo: PerkRepository, perkId: int, account: Account) returns (found: bool)
    modifies (set p | p in repo.all && p.id == perkId)`upvotedBy, (set p | p in repo.all && p.id == perkId)`downvotedBy
    ensures found <==> repo.FindById(perkId).Some?
    ensures found ==>
      var p := repo.FindById(perkId).value;
      VotesOf(p) == ToggledDown(old(VotesOf(p)), account)
  {
    var r := repo.FindById(perkId);
    if r.None? {
      return false;
    }
    var p := r.value;
    if account in p.downvotedBy {
      p.downvotedBy := p.downvotedBy - {account};
    } else {
      p.downvotedBy := p.downvotedBy + {account};
      p.upvotedBy := p.upvotedBy - {account};
    }
    found := true;
  }

  // ---------------------------------------------------------------------------
  // Creating (`createPerk`)

  /** `createPerk`: a new perk with exactly the given details and no votes,
      linked to its creator and appended to the repository under the next id. */
  method CreatePerk(repo: PerkRepository, creator: Account, membership: Membership, product: Product,
                    benefit: string, expiryDate: Option<Millis>, region: Option<string>) returns (p: Perk)
    requires repo.Valid()
    modifies repo, creator`perks
    ensures fresh(p) && repo.Valid()
    ensures p.id == old(repo.nextId) && repo.all == old(repo.all) + [p]
    ensures p.creator == creator && p.membership == Some(membership) && p.product == Some(product)
    ensures p.benefit == Some(benefit) && p.expiryDate == expiryDate && p.region == region
    ensures p.upvotedBy == {} && p.downvotedBy == {}
    ensures creator.perks == old(creator.perks) + {p}
  {
    p := new Perk(repo.nextId);
    p.creator := creator;
    p.membership := Some(membership);
    p.product := Some(product);
    p.benefit := Some(benefit);
    p.expiryDate := expiryDate;
    p.region := region;
    creator.AddPerk(p);
    repo.SaveNew(p);
  }
}
