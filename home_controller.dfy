/** `controllers/HomeController.java`: the home page shows two lists of perks,
    four at a time: all perks by rating (best first, earliest expiry breaking
    ties) and the perks that have not yet expired (soonest first, best rating
    breaking ties). The page numbers come straight from the request and are
    not clamped, so an out-of-range page fails the request. */
module HomeController {
  import opened Common
  import opened Records
  import opened Model
  import opened PerkService

  /** Perks per page on the home page. */
  const PageSize: nat := 4

  /** `comparingInt(getRating).reversed().thenComparing(expiry or
      Long.MAX_VALUE)`. */
  const TopRatedOrder: PerkOrder := ThenBy(Reversed(ByRating), ByExpiryOrLatest)

  /** `comparing(expiry).thenComparing(comparingInt(getRating).reversed())`; the
      perks it sorts all have an expiry date. */
  const ExpiringOrder: PerkOrder := ThenBy(ByExpiryOrLatest, Reversed(ByRating))

  /** All perks, best rated first; among equal ratings the earliest expiry
      first, and a perk without an expiry date after every dated one. */
  function TopRated(all: seq<Perk>): (r: seq<Perk>)
    reads all
    ensures multiset(r) == multiset(all) && |r| == |all|
  {
    var r := SortPerksBy(TopRatedOrder, all);
    assert |multiset(r)| == |multiset(all)|;
    r
  }

  /** The top-rated list never puts a lower rating ahead of a higher one, and
      among equal ratings never a later expiry ahead of an earlier one. */
  lemma TopRatedOrdered(all: seq<Perk>)
    ensures var r := TopRated(all);
      forall i, j :: 0 <= i < j < |r| ==>
        || r[i].Rating() > r[j].Rating()
        || (r[i].Rating() == r[j].Rating() && ExpiryOrLatest(r[i]) <= ExpiryOrLatest(r[j]))
  {
    var r := TopRated(all);
    SortPerksBySorted(TopRatedOrder, all);
    forall i, j | 0 <= i < j < |r|
      ensures
        || r[i].Rating() > r[j].Rating()
        || (r[i].Rating() == r[j].Rating() && ExpiryOrLatest(r[i]) <= ExpiryOrLatest(r[j]))
    {
      assert Compare(TopRatedOrder, r[i], r[j]) <= 0;
      assert Compare(Reversed(ByRating), r[i], r[j]) == CompareInts(r[j].Rating(), r[i].Rating());
    }
  }

  /** The criteria that keep only perks expiring strictly after `now`. */
  const ExpiryOnly: Criteria := Criteria(None, None, Some(true), None)

  /** The perks with an expiry date strictly after `now`, soonest first; among
      equal dates the best rated first. */
  function ExpiringSoon(all: seq<Perk>, now: Millis): (r: seq<Perk>)
    reads all
    ensures multiset(r) == multiset(FilterPerks(all, ExpiryOnly, now))
    ensures |r| <= |all|
  {
    FilterNoLonger(all, ExpiryOnly, now);
    SortPerksBy(ExpiringOrder, FilterPerks(all, ExpiryOnly, now))
  }

  /** The upcoming list holds exactly the perks of the catalogue that expire
      strictly after `now`. */
  lemma ExpiringSoonContents(all: seq<Perk>, now: Millis)
    ensures forall p :: p in ExpiringSoon(all, now) ==> p in all && p.expiryDate.Some? && p.expiryDate.value > now
    ensures forall p :: p in all && p.expiryDate.Some? && p.expiryDate.value > now ==> p in ExpiringSoon(all, now)
  {
    var upcoming := FilterPerks(all, ExpiryOnly, now);
    var r := ExpiringSoon(all, now);
    forall p | p in r ensures p in upcoming {
      assert p in multiset(r);
    }
    forall p | p in upcoming ensures p in r {
      assert p in multiset(upcoming);
    }
  }

  /** Two dated perks in upcoming order: the first expires no later, and on
      the same date it is rated no lower. */
  lemma ExpiringPairOrdered(a: Perk, b: Perk)
    requires a.expiryDate.Some? && b.expiryDate.Some?
    requires Compare(ExpiringOrder, a, b) <= 0
    ensures || a.expiryDate.value < b.expiryDate.value
            || (a.expiryDate.value == b.expiryDate.value && a.Rating() >= b.Rating())
  {
    assert Compare(ByExpiryOrLatest, a, b) == CompareInts(a.expiryDate.value, b.expiryDate.value);
    assert Compare(Reversed(ByRating), a, b) == CompareInts(b.Rating(), a.Rating());
  }

  /** The upcoming list never puts a later expiry ahead of an earlier one, and
      among equal dates never a lower rating ahead of a higher one. */
  lemma ExpiringSoonOrdered(all: seq<Perk>, now: Millis)
    ensures var r := ExpiringSoon(all, now);
      forall i, j :: 0 <= i < j < |r| ==>
        && r[i].expiryDate.Some? && r[j].expiryDate.Some?
        && (|| r[i].expiryDate.value < r[j].expiryDate.value
            || (r[i].expiryDate.value == r[j].expiryDate.value && r[i].Rating() >= r[j].Rating()))
  {
    var upcoming := FilterPerks(all, ExpiryOnly, now);
    var r := SortPerksBy(ExpiringOrder, upcoming);
    assert r == ExpiringSoon(all, now);
    SortPerksBySorted(ExpiringOrder, upcoming);
    forall p | p in r
      ensures p.expiryDate.Some?
    {
      assert p in multiset(upcoming);
      UpcomingDated(all, now, p);
    }
    SortedDatedOrdered(r);
  }

  /** Every perk that passes the expiry-only filter has a date. */
  lemma UpcomingDated(all: seq<Perk>, now: Millis, p: Perk)
    requires p in FilterPerks(all, ExpiryOnly, now)
    ensures p.expiryDate.Some? && p.expiryDate.value > now
  {
  }

  /** A dated list sorted in upcoming order has the order the page shows. */
  lemma SortedDatedOrdered(r: seq<Perk>)
    requires PerkService.SortedBy(ExpiringOrder, r)
    requires forall p :: p in r ==> p.expiryDate.Some?
    ensures forall i, j :: 0 <= i < j < |r| ==>
      && r[i].expiryDate.Some? && r[j].expiryDate.Some?
      && (|| r[i].expiryDate.value < r[j].expiryDate.value
          || (r[i].expiryDate.value == r[j].expiryDate.value && r[i].Rating() >= r[j].Rating()))
  {
    forall i, j | 0 <= i < j < |r|
      ensures
        && r[i].expiryDate.Some? && r[j].expiryDate.Some?
        && (|| r[i].expiryDate.value < r[j].expiryDate.value
            || (r[i].expiryDate.value == r[j].expiryDate.value && r[i].Rating() >= r[j].Rating()))
    {
      ExpiringPairOrdered(r[i], r[j]);
    }
  }

  /** `(int) Math.ceil((double) n / 4)`: no floor at 1, so an empty list has no
      pages. */
  function PageCount(n: nat): (c: nat)
    ensures c * PageSize >= n && (c > 0 ==> (c - 1) * PageSize < n)
    ensures c == 0 <==> n == 0
  {
    CeilDiv(n, PageSize)
  }

  /** `list.subList(page * 4, Math.min(page * 4 + 4, list.size()))` with Java
      `int` arithmetic: `None` when `subList` throws, that is when the start is
      negative or past the end. */
  function PageOf(list: seq<Perk>, page: Int32): (r: Option<seq<Perk>>)
    requires |list| < 0x8000_0000
    ensures r.Some? ==> |r.value| <= PageSize
  {
    var start := Wrap32(page * PageSize);
    var end := Min(Wrap32(start + PageSize), |list|);
    if 0 <= start <= end then Some(list[start..end]) else None
  }

  /** A page number whose four-item window starts inside the list shows that
      window; any other non-negative or negative page number whose product
      with 4 stays in the `int` range fails the request. */
  lemma PageOfInRange(list: seq<Perk>, page: Int32)
    requires |list| < 0x7FFF_FFF0
    requires -0x2000_0000 <= page < 0x2000_0000
    ensures PageOf(list, page).Some? <==> 0 <= page * 4 <= |list|
    ensures PageOf(list, page).Some? ==>
      PageOf(list, page).value == list[page * 4..Min(page * 4 + 4, |list|)]
  {
    assert Wrap32(page * PageSize) == page * 4;
    if 0 <= page * 4 <= |list| {
      assert Wrap32(page * 4 + PageSize) == page * 4 + 4;
    }
  }

  /** Every page before the page count shows a full window of the list; the
      page at the count shows nothing unless the list is empty, when page 0
      shows the empty list. */
  lemma PagesCoverList(list: seq<Perk>, page: Int32)
    requires |list| < 0x7FFF_FFF0
    requires 0 <= page < PageCount(|list|)
    ensures PageOf(list, page).Some?
    ensures PageOf(list, page).value == list[page * 4..Min(page * 4 + 4, |list|)]
    ensures |PageOf(list, page).value| > 0
  {
    assert page <= PageCount(|list|) - 1;
    assert page * 4 <= (PageCount(|list|) - 1) * 4 < |list|;
    PageOfInRange(list, page);
  }

  /** A huge page number wraps: page 2^30 starts at `2^30 * 4`, which the `int`
      multiplication turns into 0, so it shows the first page instead of
      failing. */
  lemma HugePageWrapsToFirst(list: seq<Perk>)
    requires |list| < 0x7FFF_FFF0
    ensures PageOf(list, 0x4000_0000) == PageOf(list, 0)
  {
    assert Wrap32(0x4000_0000 * PageSize) == 0;
  }

  /** What the home page shows. */
  datatype HomeView = HomeView(
    featuredTopRated: seq<Perk>,
    topPage: int,
    topTotalPages: nat,
    featuredExpiring: seq<Perk>,
    expPage: int,
    expTotalPages: nat)

  /** `index`: both lists and their page counts, or `None` when either page
      number is out of range and the request fails. */
  function Index(all: seq<Perk>, topPage: Int32, expPage: Int32, now: Millis): (v: Option<HomeView>)
    requires |all| < 0x8000_0000
    reads all
    ensures v.Some? <==> PageOf(TopRated(all), topPage).Some? && PageOf(ExpiringSoon(all, now), expPage).Some?
    ensures v.Some? ==>
      && v.value.featuredTopRated == PageOf(TopRated(all), topPage).value
      && v.value.featuredExpiring == PageOf(ExpiringSoon(all, now), expPage).value
      && v.value.topPage == topPage && v.value.expPage == expPage
      && v.value.topTotalPages == PageCount(|all|)
      && v.value.expTotalPages == PageCount(|ExpiringSoon(all, now)|)
  {
    var topRated := TopRated(all);
    var expiring := ExpiringSoon(all, now);
    var top := PageOf(topRated, topPage);
    var exp := PageOf(expiring, expPage);
    if top.None? || exp.None? then None
    else Some(HomeView(top.value, topPage, PageCount(|topRated|), exp.value, expPage, PageCount(|expiring|)))
  }

  /** A perk on a page is a perk of the list. */
  lemma OnPageInList(list: seq<Perk>, page: Int32, p: Perk)
    requires |list| < 0x8000_0000 && PageOf(list, page).Some? && p in PageOf(list, page).value
    ensures p in list
  {
    var start := Wrap32(page * PageSize);
    var r := PageOf(list, page).value;
    var k :| 0 <= k < |r| && r[k] == p;
    assert p == list[start + k];
  }

  /** What a rendered home page features: at most four perks in each list,
      all from the catalogue, and the upcoming ones all expire after `now`. */
  lemma IndexFeatures(all: seq<Perk>, topPage: Int32, expPage: Int32, now: Millis)
    requires |all| < 0x8000_0000 && Index(all, topPage, expPage, now).Some?
    ensures var v := Index(all, topPage, expPage, now).value;
      && |v.featuredTopRated| <= PageSize && |v.featuredExpiring| <= PageSize
      && (forall p :: p in v.featuredTopRated ==> p in all)
      && (forall p :: p in v.featuredExpiring ==> p in all && p.expiryDate.Some? && p.expiryDate.value > now)
  {
    var v := Index(all, topPage, expPage, now).value;
    var top := TopRated(all);
    ExpiringSoonContents(all, now);
    forall p | p in v.featuredTopRated ensures p in all {
      OnPageInList(top, topPage, p);
      assert p in multiset(top);
    }
    forall p | p in v.featuredExpiring ensures p in ExpiringSoon(all, now) {
      OnPageInList(ExpiringSoon(all, now), expPage, p);
    }
  }

  /** The worked example of the home page: ratings 2, 0 and 0, expiring in five
      days, in two days and never. The best rated perk leads the top list. */
  lemma WorkedExampleTopRated(p1: Perk, p2: Perk, p3: Perk)
    requires p1.Rating() == 2 && p2.Rating() == 0 && p3.Rating() == 0
    ensures TopRated([p1, p2, p3])[0] == p1
  {
    var all := [p1, p2, p3];
    var top := TopRated(all);
    TopRatedOrdered(all);
    assert p1 in multiset(top) && top[0] in multiset(all);
    var k :| 0 <= k < |top| && top[k] == p1;
    assert k == 0 || top[0].Rating() >= top[k].Rating();
  }

  /** In the same example only the two dated perks are upcoming. */
  lemma WorkedExampleFilter(p1: Perk, p2: Perk, p3: Perk, now: Millis)
    requires p1.expiryDate.Some? && p1.expiryDate.value > now
    requires p2.expiryDate.Some? && p2.expiryDate.value > now
    requires p3.expiryDate == None
    ensures FilterPerks([p1, p2, p3], ExpiryOnly, now) == [p1, p2]
  {
    assert Passes(p1, ExpiryOnly, now) && Passes(p2, ExpiryOnly, now) && !Passes(p3, ExpiryOnly, now);
    assert FilterPerks([p3], ExpiryOnly, now) == [] by {
      assert [p3][1..] == [];
    }
    assert FilterPerks([p2, p3], ExpiryOnly, now) == [p2] by {
      assert [p2, p3][1..] == [p3];
    }
    assert [p1, p2, p3][1..] == [p2, p3];
  }

  /** A list holding exactly two perks with different expiry dates, in
      expiry order, is the sooner one followed by the later one. */
  lemma TwoInExpiryOrder(r: seq<Perk>, sooner: Perk, later: Perk)
    requires sooner.expiryDate.Some? && later.expiryDate.Some?
    requires sooner.expiryDate.value < later.expiryDate.value
    requires multiset(r) == multiset{sooner, later}
    requires |r| == 2 ==>
      r[0].expiryDate.Some? && r[1].expiryDate.Some? && r[0].expiryDate.value <= r[1].expiryDate.value
    ensures r == [sooner, later]
  {
    assert |r| == |multiset(r)| == 2;
    assert r == [r[0], r[1]];
    assert r[0] in multiset(r) && r[1] in multiset(r);
  }

  /** Of two upcoming perks, the first expires no later than the second. */
  lemma FirstTwoInExpiryOrder(all: seq<Perk>, now: Millis)
    requires |ExpiringSoon(all, now)| == 2
    ensures var r := ExpiringSoon(all, now);
      r[0].expiryDate.Some? && r[1].expiryDate.Some? && r[0].expiryDate.value <= r[1].expiryDate.value
  {
    ExpiringSoonOrdered(all, now);
  }

  /** The upcoming list of the example holds the two dated perks, the one
      expiring in two days first. */
  lemma WorkedExampleExpiring(p1: Perk, p2: Perk, p3: Perk, now: Millis, day: int)
    requires 0 < day && now + 5 * day <= LongMax
    requires p1.expiryDate == Some(now + 5 * day) && p2.expiryDate == Some(now + 2 * day) && p3.expiryDate == None
    ensures ExpiringSoon([p1, p2, p3], now) == [p2, p1]
  {
    var all := [p1, p2, p3];
    var r := ExpiringSoon(all, now);
    assert multiset(r) == multiset{p2, p1} by {
      WorkedExampleFilter(p1, p2, p3, now);
      assert multiset([p1, p2]) == multiset{p2, p1};
    }
    assert |r| == 2 by {
      assert |r| == |multiset(r)|;
    }
    FirstTwoInExpiryOrder(all, now);
    TwoInExpiryOrder(r, p2, p1);
  }
}
