/** `controllers/PerkController.java`: the perk search page (filter, sort,
    paginate, and the per-perk save and vote states shown to a signed-in user),
    the add-perk form, and the vote and save endpoints with their sign-in
    guard. The signed-in user is the optional username the security layer
    supplies; the clock and the form's date parsing are parameters. */
module PerkController {
  import opened Common
  import opened Records
  import opened Model
  import opened Repositories
  import opened PerkService

  // ---------------------------------------------------------------------------
  // Pagination (`listPerks`)

  /** The page actually shown: its number and size after defaulting and
      clamping, the number of pages, and the `[from, to)` slice bounds. */
  datatype PageWindow = PageWindow(page: int, size: int, totalPages: int, from: int, to: int)

  /** The page number, size, page count and start `listPerks` computes: page
      defaults to 0 and is floored at 0, size defaults to 5 and is floored at
      1, the page count is the ceiling of `total / size` but at least 1, and a
      page past the end shows the last page. */
  ghost predicate WindowFor(w: PageWindow, total: nat, page: Option<Int32>, size: Option<Int32>) {
    && w.size == Max(size.GetOr(5), 1)
    && w.totalPages == Max(CeilDiv(total, w.size), 1)
    && w.page == Min(Max(page.GetOr(0), 0), w.totalPages - 1)
    && w.from == w.page * w.size
  }

  /** The arithmetic of `listPerks` in Java `int`s. The start never wraps: it
      lies inside the list, or is 0 for an empty one. The end `from + size`
      wraps when it passes 2^31 - 1; `subList` then throws, since the end is
      negative. Otherwise the slice lies inside the list, is never longer than
      a page, and is not empty when the list is not. */
  method Paginate(total: nat, page: Option<Int32>, size: Option<Int32>) returns (w: PageWindow)
    requires total < 0x8000_0000
    ensures WindowFor(w, total, page, size)
    ensures 0 <= w.page < w.totalPages
    ensures w.to == Min(Wrap32(w.from + w.size), total)
    ensures 0 <= w.from <= total && (total > 0 ==> w.from < total)
    ensures w.from <= w.to <==> w.from + w.size < 0x8000_0000
    ensures w.from + w.size >= 0x8000_0000 ==> w.to < 0
    ensures w.from <= w.to ==> w.to == Min(w.from + w.size, total) && w.to <= total && w.to - w.from <= w.size
    ensures w.from <= w.to && total > 0 ==> w.from < w.to
  {
    var pageNum := Max(page.GetOr(0), 0);
    var pageSize := Max(size.GetOr(5), 1);
    var totalPages := CeilDiv(total, pageSize);
    if totalPages == 0 {
      totalPages := 1;
    }
    if pageNum >= totalPages {
      pageNum := totalPages - 1;
    }
    StartInList(total, pageNum, pageSize, totalPages);
    var from := Wrap32(pageNum * pageSize);
    var end := from + pageSize;
    if end >= 0x8000_0000 {
      WrapHigh(end);
    }
    var to := Min(Wrap32(end), total);
    w := PageWindow(pageNum, pageSize, totalPages, from, to);
  }

  /** With 2^30 + 2 perks and pages of 2^30 + 1, the second page starts at
      2^30 + 1 and its end wraps, so `subList` throws. */
  lemma HugePageSizeWraps(w: PageWindow)
    requires WindowFor(w, 0x4000_0002, Some(1), Some(0x4000_0001))
    ensures w.page == 1 && w.from == 0x4000_0001
    ensures w.from + w.size >= 0x8000_0000 && Wrap32(w.from + w.size) < 0
  {
    assert CeilDiv(0x4000_0002, 0x4000_0001) == 2;
    WrapHigh(w.from + w.size);
  }

  /** The start of the clamped page lies inside the list, or is 0 for an
      empty one. */
  lemma StartInList(total: nat, pageNum: int, pageSize: int, totalPages: int)
    requires pageSize >= 1 && totalPages == Max(CeilDiv(total, pageSize), 1) && 0 <= pageNum < totalPages
    ensures 0 <= pageNum * pageSize <= total && (total > 0 ==> pageNum * pageSize < total)
  {
    if total > 0 {
      MulMonotone(pageNum, totalPages - 1, pageSize);
    }
  }

  /** A sum of two `int`s past the largest `int` wraps to a negative one. */
  lemma WrapHigh(x: int)
    requires 0x8000_0000 <= x < 0x1_0000_0000
    ensures Wrap32(x) == x - 0x1_0000_0000
  {
  }

  lemma MulMonotone(a: nat, b: nat, c: nat)
    requires a <= b
    ensures a * c <= b * c
  {
  }

  /** Every perk of the list is on a page: the one numbered `i / size`, which
      is never clamped. */
  lemma ItemOnItsPage(total: nat, i: nat, size: int)
    requires i < total
    ensures var s := Max(size, 1); var p := i / s;
      && 0 <= p < Max(CeilDiv(total, s), 1)
      && p * s <= i < Min(p * s + s, total)
  {
    var s := Max(size, 1);
    var q := CeilDiv(total, s);
    assert i < q * s;
    DivBelow(i, q, s);
  }

  lemma DivBelow(i: nat, q: nat, s: int)
    requires s > 0 && i < q * s
    ensures i / s < q
  {
  }

  // ---------------------------------------------------------------------------
  // Save and vote states of the page (`listPerks`)

  /** Some account in `voters` has this id (`anyMatch(u -> u.getId().equals(id))`). */
  predicate VotedBy(voters: set<Account>, id: int) {
    exists u :: u in voters && u.id == id
  }

  /** The vote state the page shows: 1 when an upvoter has the user's id, else
      -1 when a downvoter has it, else 0. */
  function VoteState(p: Perk, user: Account): (v: int)
    reads p
    ensures v == 1 <==> VotedBy(p.upvotedBy, user.id)
    ensures v == -1 <==> !VotedBy(p.upvotedBy, user.id) && VotedBy(p.downvotedBy, user.id)
    ensures v == 0 <==> !VotedBy(p.upvotedBy, user.id) && !VotedBy(p.downvotedBy, user.id)
  {
    if VotedBy(p.upvotedBy, user.id) then 1 else if VotedBy(p.downvotedBy, user.id) then -1 else 0
  }

  /** When no other voter of the perk shares the user's id, the vote state the
      page shows is exactly the vote the toggles record for the user. */
  lemma VoteStateIsOwnVote(p: Perk, user: Account)
    requires p.upvotedBy !! p.downvotedBy
    requires forall u :: u in p.upvotedBy + p.downvotedBy && u.id == user.id ==> u == user
    ensures VoteState(p, user) == VotesOf(p).VoteOf(user)
  {
    if VotedBy(p.upvotedBy, user.id) {
      var u :| u in p.upvotedBy && u.id == user.id;
    } else if VotedBy(p.downvotedBy, user.id) {
      var u :| u in p.downvotedBy && u.id == user.id;
    }
  }

  /** The ids of the perks of `items`. */
  function Ids(items: seq<Perk>): (ids: set<int>)
    ensures forall i :: 0 <= i < |items| ==> items[i].id in ids
    ensures forall id :: id in ids ==> exists i :: 0 <= i < |items| && items[i].id == id
  {
    if items == [] then {} else Ids(items[..|items| - 1]) + {items[|items| - 1].id}
  }

  /** The last perk of `items` with this id, if any. */
  function LastWithId(items: seq<Perk>, id: int): (r: Option<Perk>)
    ensures r.None? <==> id !in Ids(items)
    ensures r.Some? ==> r.value in items && r.value.id == id
  {
    if items == [] then None
    else if items[|items| - 1].id == id then Some(items[|items| - 1])
    else LastWithId(items[..|items| - 1], id)
  }

  /** One more perk adds its id. */
  lemma IdsAppend(s: seq<Perk>, p: Perk)
    ensures Ids(s + [p]) == Ids(s) + {p.id}
  {
    assert (s + [p])[..|s|] == s;
  }

  /** One more perk overrides the entry for its id. */
  lemma LastWithIdAppend(s: seq<Perk>, p: Perk)
    ensures forall id :: LastWithId(s + [p], id) == if p.id == id then Some(p) else LastWithId(s, id)
  {
    assert (s + [p])[..|s|] == s;
  }

  /** The loop of `listPerks` over the page: a save state and a vote state per
      perk id. The save state is 1 exactly when the user saved a perk with that
      id; the vote state is that of the last perk on the page with the id. */
  method PageStates(items: seq<Perk>, user: Account) returns (saveStates: map<int, int>, voteStates: map<int, int>)
    ensures saveStates.Keys == voteStates.Keys == Ids(items)
    ensures forall id :: id in saveStates ==> saveStates[id] == if user.HasPerk(id) then 1 else 0
    ensures forall id :: id in voteStates ==> voteStates[id] == VoteState(LastWithId(items, id).value, user)
  {
    saveStates, voteStates := map[], map[];
    for k := 0 to |items|
      invariant saveStates.Keys == Ids(items[..k])
      invariant SaveStatesOf(user, saveStates)
      invariant VoteStatesOf(items[..k], user, voteStates)
    {
      var p := items[k];
      ghost var saves, votes := saveStates, voteStates;
      if user.HasPerk(p.id) {
        saveStates := saveStates[p.id := 1];
      } else {
        saveStates := saveStates[p.id := 0];
      }
      var voteState := 0;
      if VotedBy(p.upvotedBy, user.id) {
        voteState := 1;
      } else if VotedBy(p.downvotedBy, user.id) {
        voteState := -1;
      }
      voteStates := voteStates[p.id := voteState];
      TakeOneMore(items, k);
      IdsAppend(items[..k], p);
      SaveStatesStep(user, saves, p.id);
      VoteStatesStep(items[..k], p, user, votes, voteState);
    }
    assert items[..|items|] == items;
  }

  /** Each save state is 1 exactly when the user saved a perk with that id. */
  ghost predicate SaveStatesOf(user: Account, saveStates: map<int, int>)
    reads user
  {
    forall id :: id in saveStates ==> saveStates[id] == if user.HasPerk(id) then 1 else 0
  }

  /** One vote state per id of `prefix`, that of the last perk with the id. */
  ghost predicate VoteStatesOf(prefix: seq<Perk>, user: Account, voteStates: map<int, int>)
    reads set p | p in prefix
  {
    && voteStates.Keys == Ids(prefix)
    && forall id :: id in voteStates ==> voteStates[id] == VoteState(LastWithId(prefix, id).value, user)
  }

  /** Recording the save state of one more id keeps the save states right. */
  lemma SaveStatesStep(user: Account, saveStates: map<int, int>, id: int)
    requires SaveStatesOf(user, saveStates)
    ensures SaveStatesOf(user, saveStates[id := if user.HasPerk(id) then 1 else 0])
  {
  }

  /** Recording the vote state of the next perk `p` keeps each id's entry
      that of the last perk with the id. */
  lemma VoteStatesStep(prefix: seq<Perk>, p: Perk, user: Account, voteStates: map<int, int>, voteState: int)
    requires VoteStatesOf(prefix, user, voteStates)
    requires voteState == VoteState(p, user)
    ensures VoteStatesOf(prefix + [p], user, voteStates[p.id := voteState])
  {
    var votes := voteStates[p.id := voteState];
    IdsAppend(prefix, p);
    LastWithIdAppend(prefix, p);
    forall id | id in votes
      ensures votes[id] == VoteState(LastWithId(prefix + [p], id).value, user)
    {
      if id != p.id {
        assert LastWithId(prefix + [p], id) == LastWithId(prefix, id);
      }
    }
  }

  /** What the search page shows. */
  datatype PerkListView = PerkListView(
    pageItems: seq<Perk>,
    window: PageWindow,
    total: int,
    saveStates: map<int, int>,
    voteStates: map<int, int>,
    isAuthenticated: bool)

  /** How `listPerks` ends: the signed-in name has no account, `subList`
      rejects the page's bounds because `from + size` wrapped past the largest
      `int`, or the page is shown. The first two show the page's error
      message instead. */
  datatype PerkListOutcome = UnknownUser | PageFailed(window: PageWindow) | Listed(view: PerkListView)

  /** `listPerks`: a signed-in name with no account fails the page (the source
      catches the exception and shows an error); otherwise the page is the
      window of the filtered-then-sorted perks, unless the window's end wraps
      around, which fails the page too. For a signed-in user the state maps
      are those of `PageStates`; for an anonymous user both stay empty. */
  method ListPerks(perks: PerkRepository, accounts: AccountRepository,
                   membershipType: Option<string>, region: Option<string>, expiryOnly: Option<bool>,
                   sort: Option<string>, direction: Option<string>, page: Option<Int32>, size: Option<Int32>,
                   user: Option<string>, now: Millis) returns (r: PerkListOutcome)
    requires |perks.all| < 0x8000_0000
    ensures r.UnknownUser? <==> user.Some? && old(accounts.FindByUsername(user.value)).None?
    ensures r.PageFailed? ==>
      var listed := old(SortPerks(FilterPerks(perks.all, Criteria(membershipType, region, expiryOnly, None), now), sort, direction));
      WindowFor(r.window, |listed|, page, size) && r.window.from + r.window.size >= 0x8000_0000
    ensures r.Listed? ==>
      var listed := old(SortPerks(FilterPerks(perks.all, Criteria(membershipType, region, expiryOnly, None), now), sort, direction));
      var v := r.view;
      && WindowFor(v.window, |listed|, page, size)
      && v.window.from + v.window.size < 0x8000_0000
      && v.total == |listed|
      && 0 <= v.window.from <= v.window.to <= |listed|
      && v.window.to == Min(v.window.from + v.window.size, |listed|)
      && v.pageItems == listed[v.window.from..v.window.to]
      && v.isAuthenticated == user.Some?
      && (user.None? ==> v.saveStates == map[] && v.voteStates == map[])
    ensures r.Listed? && user.Some? ==>
      var v := r.view;
      var u := old(accounts.FindByUsername(user.value)).value;
      && v.saveStates.Keys == v.voteStates.Keys == Ids(v.pageItems)
      && (forall id :: id in v.saveStates ==> v.saveStates[id] == if u.HasPerk(id) then 1 else 0)
      && (forall id :: id in v.voteStates ==> v.voteStates[id] == VoteState(LastWithId(v.pageItems, id).value, u))
  {
    var currentUser: Account? := null;
    if user.Some? {
      var found := accounts.FindByUsername(user.value);
      if found.None? {
        return UnknownUser;
      }
      currentUser := found.value;
    }
    var criteria := Criteria(membershipType, region, expiryOnly, None);
    FilterNoLonger(perks.all, criteria, now);
    var listed := SortPerks(FilterPerks(perks.all, criteria, now), sort, direction);
    assert |listed| == |multiset(listed)| == |FilterPerks(perks.all, criteria, now)|;
    var w := Paginate(|listed|, page, size);
    if w.to < w.from {
      return PageFailed(w);
    }
    var items := listed[w.from..w.to];
    var saveStates: map<int, int> := map[];
    var voteStates: map<int, int> := map[];
    if currentUser != null {
      saveStates, voteStates := PageStates(items, currentUser);
    }
    r := Listed(PerkListView(items, w, |listed|, saveStates, voteStates, currentUser != null));
  }

  // ---------------------------------------------------------------------------
  // The add-perk form (`addPerk`)

  /** The expiry date field as the form's parser sees it: left out (missing or
      empty), not a date, or the start of the given day. */
  datatype DateField = NoDate | Malformed | OnDay(start: Millis)

  predicate BenefitMissing(benefit: Option<string>) {
    benefit.None? || IsBlank(benefit.value)
  }

  /** A malformed date, or a day that begins before today does. */
  predicate ExpiryRejected(expiry: DateField, today: Millis) {
    expiry.Malformed? || (expiry.OnDay? && expiry.start < today)
  }

  /** Some required field is missing or the date is rejected. */
  predicate FormHasErrors(productId: Option<int>, membershipId: Option<int>, benefit: Option<string>,
                          expiry: DateField, today: Millis) {
    BenefitMissing(benefit) || productId.None? || membershipId.None? || ExpiryRejected(expiry, today)
  }

  /** The fields of the add-perk form that can carry an error. */
  datatype PerkField = BenefitField | ProductIdField | MembershipIdField | ExpiryDateField {
    /** The key of the field in the error map. */
    function Name(): string {
      match this
      case BenefitField => "benefit"
      case ProductIdField => "productId"
      case MembershipIdField => "membershipId"
      case ExpiryDateField => "expiryDate"
    }
  }

  /** The field errors of the add-perk form. */
  datatype PerkFormError = BenefitRequired | SelectProduct | SelectMembership | InvalidDate | DateInPast {
    /** The message the form shows. */
    function Message(): string {
      match this
      case BenefitRequired => "Benefit is required"
      case SelectProduct => "Please select a product"
      case SelectMembership => "Please select a membership"
      case InvalidDate => "Invalid date."
      case DateInPast => "Expiry date cannot be in the past."
    }
  }

  /** The field errors of `addPerk`: one entry per offending field, with the
      message the form shows, and no other entries. `today` is the start of the
      current day. */
  method ValidatePerkForm(productId: Option<int>, membershipId: Option<int>, benefit: Option<string>,
                          expiry: DateField, today: Millis) returns (fieldErrors: map<PerkField, PerkFormError>)
    ensures BenefitField in fieldErrors <==> BenefitMissing(benefit)
    ensures ProductIdField in fieldErrors <==> productId.None?
    ensures MembershipIdField in fieldErrors <==> membershipId.None?
    ensures ExpiryDateField in fieldErrors <==> ExpiryRejected(expiry, today)
    ensures fieldErrors == map[] <==> !FormHasErrors(productId, membershipId, benefit, expiry, today)
    ensures BenefitField in fieldErrors ==> fieldErrors[BenefitField] == BenefitRequired
    ensures ProductIdField in fieldErrors ==> fieldErrors[ProductIdField] == SelectProduct
    ensures MembershipIdField in fieldErrors ==> fieldErrors[MembershipIdField] == SelectMembership
    ensures ExpiryDateField in fieldErrors ==>
      fieldErrors[ExpiryDateField] == if expiry.Malformed? then InvalidDate else DateInPast
  {
    fieldErrors := map[];
    if BenefitMissing(benefit) {
      fieldErrors := fieldErrors[BenefitField := BenefitRequired];
    }
    if productId.None? {
      fieldErrors := fieldErrors[ProductIdField := SelectProduct];
    }
    if membershipId.None? {
      fieldErrors := fieldErrors[MembershipIdField := SelectMembership];
    }
    match expiry
    case NoDate =>
    case Malformed =>
      fieldErrors := fieldErrors[ExpiryDateField := InvalidDate];
    case OnDay(start) =>
      if start < today {
        fieldErrors := fieldErrors[ExpiryDateField := DateInPast];
      }
    if fieldErrors == map[] {
      assert BenefitField !in fieldErrors;
    }
  }

  /** How `addPerk` ends: back on the form with field errors, back on the form
      with an error message, or redirected after creating the perk. */
  datatype AddPerkOutcome = FormRejected(fieldErrors: map<PerkField, PerkFormError>) | AddFailed(error: AddPerkFailure) | PerkAdded(perk: Perk)

  /** The lookups of `addPerk` that can fail. */
  datatype AddPerkFailure = LoginToAddPerk | CreatorNotFound | ProductNotFound | MembershipNotFound {
    /** The message the form shows. */
    function Message(): string {
      match this
      case LoginToAddPerk => "Failed to add perk: Please log in to add a perk."
      case CreatorNotFound => "Failed to add perk: Authenticated account not found"
      case ProductNotFound => "Failed to add perk: Product not found"
      case MembershipNotFound => "Failed to add perk: Membership not found"
    }
  }

  /** `addPerk`: rejected forms and failed lookups create nothing; otherwise the
      signed-in account creates a perk with the form's details. */
  method AddPerk(perks: PerkRepository, accounts: AccountRepository, products: seq<Product>,
                 memberships: MembershipRepository,
                 productId: Option<int>, membershipId: Option<int>, benefit: Option<string>,
                 region: Option<string>, expiry: DateField, today: Millis, user: Option<string>)
    returns (outcome: AddPerkOutcome)
    requires perks.Valid()
    modifies perks, (set a | a in accounts.accounts)`perks
    ensures perks.Valid()
    ensures outcome.FormRejected? <==> FormHasErrors(productId, membershipId, benefit, expiry, today)
    ensures outcome.AddFailed? <==>
      && !FormHasErrors(productId, membershipId, benefit, expiry, today)
      && (|| user.None?
          || old(accounts.FindByUsername(user.value)).None?
          || FirstProductWithId(products, productId.value).None?
          || memberships.FindById(membershipId.value).None?)
    ensures outcome.AddFailed? ==>
      outcome.error ==
        if user.None? then LoginToAddPerk
        else if old(accounts.FindByUsername(user.value)).None? then CreatorNotFound
        else if FirstProductWithId(products, productId.value).None? then ProductNotFound
        else MembershipNotFound
    ensures !outcome.PerkAdded? ==>
      perks.all == old(perks.all) && forall a :: a in old(accounts.accounts) ==> a.perks == old(a.perks)
    ensures outcome.PerkAdded? ==>
      && user.Some? && productId.Some? && membershipId.Some?
      && old(accounts.FindByUsername(user.value)).Some?
      && FirstProductWithId(products, productId.value).Some?
      && memberships.FindById(membershipId.value).Some?
    ensures outcome.PerkAdded? ==>
      var p := outcome.perk;
      var creator := old(accounts.FindByUsername(user.value)).value;
      && fresh(p) && perks.all == old(perks.all) + [p]
      && p.creator == creator && creator.perks == old(creator.perks) + {p}
      && (forall a :: a in old(accounts.accounts) && a != creator ==> a.perks == old(a.perks))
      && p.membership == memberships.FindById(membershipId.value)
      && p.product == FirstProductWithId(products, productId.value)
      && p.benefit == benefit && p.region == region
      && p.expiryDate == (if expiry.OnDay? then Some(expiry.start) else None)
      && p.upvotedBy == {} && p.downvotedBy == {}
  {
    var fieldErrors := ValidatePerkForm(productId, membershipId, benefit, expiry, today);
    if fieldErrors != map[] {
      return FormRejected(fieldErrors);
    }
    if user.None? {
      return AddFailed(LoginToAddPerk);
    }
    var creator := accounts.FindByUsername(user.value);
    if creator.None? {
      return AddFailed(CreatorNotFound);
    }
    var product := FirstProductWithId(products, productId.value);
    if product.None? {
      return AddFailed(ProductNotFound);
    }
    var membership := memberships.FindById(membershipId.value);
    if membership.None? {
      return AddFailed(MembershipNotFound);
    }
    var cal := if expiry.OnDay? then Some(expiry.start) else None;
    var p := CreatePerk(perks, creator.value, membership.value, product.value, benefit.value, cal, region);
    outcome := PerkAdded(p);
  }

  // ---------------------------------------------------------------------------
  // Vote and save endpoints

  /** Where an endpoint redirects: to the sign-in page, or back to the perks
      page, carrying the page number only when the action succeeded. */
  datatype Redirect = ToLogin | ToPerks(page: Option<int>)

  /** `toggleUpvote`: an anonymous caller is sent to sign in and nothing
      changes; a name without an account or an unknown perk goes back to the
      perks page without a page number and nothing changes; otherwise the
      account's upvote on the perk is toggled. */
  method ToggleUpvote(perks: PerkRepository, accounts: AccountRepository, id: int, page: int, user: Option<string>)
    returns (r: Redirect)
    modifies (set p | p in perks.all && p.id == id)`upvotedBy, (set p | p in perks.all && p.id == id)`downvotedBy
    ensures user.None? <==> r == ToLogin
    ensures r == ToPerks(Some(page)) <==>
      user.Some? && accounts.FindByUsername(user.value).Some? && perks.FindById(id).Some?
    ensures r != ToPerks(Some(page)) ==> forall p :: p in perks.all ==> VotesOf(p) == old(VotesOf(p))
    ensures r == ToPerks(Some(page)) ==>
      var p := perks.FindById(id).value;
      VotesOf(p) == ToggledUp(old(VotesOf(p)), accounts.FindByUsername(user.value).value)
  {
    if user.None? {
      return ToLogin;
    }
    var account := accounts.FindByUsername(user.value);
    if account.None? {
      return ToPerks(None);
    }
    var found := ToggleUpvotePerk(perks, id, account.value);
    r := if found then ToPerks(Some(page)) else ToPerks(None);
  }

  /** `toggleDownvote`: the downvote counterpart of `ToggleUpvote`. */
  method ToggleDownvote(perks: PerkRepository, accounts: AccountRepository, id: int, page: int, user: Option<string>)
    returns (r: Redirect)
    modifies (set p | p in perks.all && p.id == id)`upvotedBy, (set p | p in perks.all && p.id == id)`downvotedBy
    ensures user.None? <==> r == ToLogin
    ensures r == ToPerks(Some(page)) <==>
      user.Some? && accounts.FindByUsername(user.value).Some? && perks.FindById(id).Some?
    ensures r != ToPerks(Some(page)) ==> forall p :: p in perks.all ==> VotesOf(p) == old(VotesOf(p))
    ensures r == ToPerks(Some(page)) ==>
      var p := perks.FindById(id).value;
      VotesOf(p) == ToggledDown(old(VotesOf(p)), accounts.FindByUsername(user.value).value)
  {
    if user.None? {
      return ToLogin;
    }
    var account := accounts.FindByUsername(user.value);
    if account.None? {
      return ToPerks(None);
    }
    var found := ToggleDownvotePerk(perks, id, account.value);
    r := if found then ToPerks(Some(page)) else ToPerks(None);
  }

  /** `toggleSavePerk`: with the same guard as the vote endpoints, unsaves the
      perk when the account has saved a perk with its id and saves it
      otherwise. Only that account's saved perks change. */
  method ToggleSavePerk(perks: PerkRepository, accounts: AccountRepository, id: int, page: int, user: Option<string>)
    returns (r: Redirect)
    modifies (set a | a in accounts.accounts)`savedPerks
    ensures user.None? <==> r == ToLogin
    ensures r == ToPerks(Some(page)) <==>
      user.Some? && accounts.FindByUsername(user.value).Some? && perks.FindById(id).Some?
    ensures r != ToPerks(Some(page)) ==> forall a :: a in accounts.accounts ==> a.savedPerks == old(a.savedPerks)
    ensures r == ToPerks(Some(page)) ==>
      var a := accounts.FindByUsername(user.value).value;
      var p := perks.FindById(id).value;
      && a.savedPerks == (if old(a.HasPerk(p.id)) then old(a.savedPerks) - {p} else old(a.savedPerks) + {p})
      && forall b :: b in accounts.accounts && b != a ==> b.savedPerks == old(b.savedPerks)
  {
    if user.None? {
      return ToLogin;
    }
    var account := accounts.FindByUsername(user.value);
    if account.None? {
      return ToPerks(None);
    }
    var perk := perks.FindById(id);
    if perk.None? {
      return ToPerks(None);
    }
    var a, p := account.value, perk.value;
    if a.HasPerk(p.id) {
      a.RemovePerkFromProfile(p);
    } else {
      a.AddPerkToProfile(p);
    }
    r := ToPerks(Some(page));
  }
}
