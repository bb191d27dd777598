/** `controllers/MembershipController.java`: the membership list with the
    signed-in account's save marks, the add-membership form, and saving or
    unsaving a membership on the account. */
module MembershipController {
  import opened Common
  import opened Records
  import opened Model
  import opened Repositories
  import AccountService
  import MembershipService

  // ---------------------------------------------------------------------------
  // Listing

  /** `Comparator.comparing(Membership::getOrganizationName)` on memberships
      whose names are all set. */
  function ByOrganization(a: Membership, b: Membership): int {
    CompareStrings(a.organizationName.GetOr([]), b.organizationName.GetOr([]))
  }

  /** Sorting a list of two or more memberships compares every one of them, so
      a missing organization name makes the comparator throw. */
  predicate SortThrows(ms: seq<Membership>) {
    |ms| >= 2 && exists m :: m in ms && m.organizationName.None?
  }

  /** The memberships in organization-name order. */
  function SortedByOrganization(ms: seq<Membership>): (r: seq<Membership>)
    ensures multiset(r) == multiset(ms)
  {
    SortByPermutes(ms, ByOrganization);
    SortBy(ms, ByOrganization)
  }

  /** The list is in natural string order of the organization names (the
      order matters only when every name is set, since otherwise the sort
      throws). */
  lemma SortedByOrganizationOrders(ms: seq<Membership>)
    ensures var r := SortedByOrganization(ms);
      forall i, j :: 0 <= i < j < |r| ==>
        !StringLess(r[j].organizationName.GetOr([]), r[i].organizationName.GetOr([]))
  {
    var xs := set m | m in ms;
    forall a, b | a in xs && b in xs
      ensures ByOrganization(a, b) <= 0 || ByOrganization(b, a) <= 0
    {
      MembershipService.CompareStringsPreorder({a.organizationName.GetOr([]), b.organizationName.GetOr([])});
    }
    forall a, b, c | a in xs && b in xs && c in xs && ByOrganization(a, b) <= 0 && ByOrganization(b, c) <= 0
      ensures ByOrganization(a, c) <= 0
    {
      var na, nb, nc := a.organizationName.GetOr([]), b.organizationName.GetOr([]), c.organizationName.GetOr([]);
      MembershipService.CompareStringsPreorder({na, nb, nc});
    }
    SortBySorted(ms, ByOrganization);
    var r := SortedByOrganization(ms);
    forall i, j | 0 <= i < j < |r|
      ensures !StringLess(r[j].organizationName.GetOr([]), r[i].organizationName.GetOr([]))
    {
      assert ByOrganization(r[i], r[j]) <= 0;
      var ni, nj := r[i].organizationName.GetOr([]), r[j].organizationName.GetOr([]);
      assert CompareStrings(ni, nj) <= 0;
      if StringLess(ni, nj) {
        StringLessAsymmetric(ni, nj);
      }
    }
  }

  /** `saveStates`: for every listed membership id, 1 when the account holds a
      membership with that id and 0 otherwise; no other keys. */
  method MembershipSaveStates(ms: seq<Membership>, user: Account) returns (saveStates: map<int, int>)
    ensures saveStates.Keys == set m | m in ms :: m.id
    ensures forall id :: id in saveStates ==> saveStates[id] == if user.HasMembership(id) then 1 else 0
  {
    saveStates := map[];
    for k := 0 to |ms|
      invariant saveStates.Keys == set m | m in ms[..k] :: m.id
      invariant forall id :: id in saveStates ==> saveStates[id] == if user.HasMembership(id) then 1 else 0
    {
      var m := ms[k];
      assert ms[..k + 1] == ms[..k] + [m];
      if user.HasMembership(m.id) {
        saveStates := saveStates[m.id := 1];
      } else {
        saveStates := saveStates[m.id := 0];
      }
    }
    assert ms[..|ms|] == ms;
  }

  /** The `saveState` the membership list's JSON carries, as the source computes
      it: whether the account has saved a PERK whose id equals the
      membership's id. */
  function JsonSaveStateAsWritten(user: Account?, m: Membership): (s: int)
    reads user
    ensures s == 1 <==> user != null && exists p :: p in user.savedPerks && p.id == m.id
    ensures s == 0 || s == 1
  {
    if user != null && user.HasPerk(m.id) then 1 else 0
  }

  /** The `saveState` the JSON is meant to carry: the same mark as the page's
      `saveStates`, whether the account holds the membership. */
  function JsonSaveState(user: Account?, m: Membership): (s: int)
    reads user
    ensures s == 1 <==> user != null && exists n :: n in user.memberships && n.id == m.id
    ensures s == 0 || s == 1
  {
    if user != null && user.HasMembership(m.id) then 1 else 0
  }

  /** An account that has saved perk 7 and holds no membership is shown as
      holding membership 7 by the JSON as written, and not by the intended
      one. */
  lemma JsonSaveStateAsWrittenDisagrees(user: Account, p: Perk, m: Membership)
    requires p in user.savedPerks && p.id == 7 && m.id == 7 && user.memberships == {}
    ensures JsonSaveStateAsWritten(user, m) == 1
    ensures JsonSaveState(user, m) == 0
  {
  }

  /** The `saveState` of every listed membership in the JSON, in list order. */
  function JsonSaveStates(user: Account?, ms: seq<Membership>): (r: seq<int>)
    reads user
    ensures |r| == |ms| && forall i :: 0 <= i < |ms| ==> r[i] == JsonSaveStateAsWritten(user, ms[i])
  {
    seq(|ms|, i requires 0 <= i < |ms| reads user => JsonSaveStateAsWritten(user, ms[i]))
  }

  /** What the membership list shows: the sorted memberships, the save marks
      of the page and of its JSON, and whether the visitor is signed in. */
  datatype MembershipList = MembershipList(
    memberships: seq<Membership>,
    saveStates: map<int, int>,
    jsonSaveStates: seq<int>,
    isAuthenticated: bool)

  /** `listMemberships` ends on the list page either way; on failure it shows
      an error instead of the list. */
  datatype ListOutcome = UserNotFound | NullOrganizationName | Listed(list: MembershipList)

  /** `listMemberships`: a signed-in name without an account fails with "User
      not found"; a missing organization name among two or more memberships
      fails inside the sort; otherwise the memberships are listed in name order
      with the account's save marks. The JSON carries, for each listed
      membership, the mark as the source computes it, from the saved perks;
      the intended mark would repeat the page's. Nothing is stored. */
  method ListMemberships(accounts: AccountRepository, repo: MembershipRepository, user: Option<string>)
    returns (outcome: ListOutcome)
    ensures outcome == UserNotFound <==> user.Some? && accounts.FindByUsername(user.value).None?
    ensures outcome == NullOrganizationName <==>
      (user.None? || accounts.FindByUsername(user.value).Some?) && SortThrows(repo.memberships)
    ensures outcome.Listed? ==>
      var l := outcome.list;
      && l.memberships == SortedByOrganization(repo.memberships)
      && l.isAuthenticated == user.Some?
      && |l.jsonSaveStates| == |l.memberships|
      && (user.None? ==> l.saveStates == map[] && forall i :: 0 <= i < |l.jsonSaveStates| ==> l.jsonSaveStates[i] == 0)
      && (user.Some? ==>
          var a := accounts.FindByUsername(user.value).value;
          && l.saveStates.Keys == (set m | m in repo.memberships :: m.id)
          && (forall id :: id in l.saveStates ==> l.saveStates[id] == if a.HasMembership(id) then 1 else 0)
          && (forall i :: 0 <= i < |l.memberships| ==>
                l.memberships[i].id in l.saveStates && l.jsonSaveStates[i] == JsonSaveStateAsWritten(a, l.memberships[i]))
          && (forall i :: 0 <= i < |l.memberships| ==>
                JsonSaveState(a, l.memberships[i]) == l.saveStates[l.memberships[i].id]))
  {
    var currentUser: Account? := null;
    if user.Some? {
      var found := accounts.FindByUsername(user.value);
      if found.None? {
        return UserNotFound;
      }
      currentUser := found.value;
    }
    if SortThrows(repo.memberships) {
      return NullOrganizationName;
    }
    var list := MembershipListFor(currentUser, repo.memberships);
    outcome := Listed(list);
  }

  /** The list page once the visitor is known (`null` when signed out): the
      memberships in name order, the page's save marks of a signed-in
      account, and the JSON marks as the source computes them, which the
      intended mark would make equal to the page's. */
  method MembershipListFor(currentUser: Account?, all: seq<Membership>) returns (l: MembershipList)
    ensures l.memberships == SortedByOrganization(all)
    ensures l.isAuthenticated == (currentUser != null)
    ensures |l.jsonSaveStates| == |l.memberships|
    ensures forall i :: 0 <= i < |l.memberships| ==>
      l.jsonSaveStates[i] == JsonSaveStateAsWritten(currentUser, l.memberships[i])
    ensures currentUser == null ==> l.saveStates == map[]
    ensures currentUser != null ==>
      && l.saveStates.Keys == (set m | m in all :: m.id)
      && (forall id :: id in l.saveStates ==> l.saveStates[id] == if currentUser.HasMembership(id) then 1 else 0)
      && (forall i :: 0 <= i < |l.memberships| ==>
            l.memberships[i].id in l.saveStates && JsonSaveState(currentUser, l.memberships[i]) == l.saveStates[l.memberships[i].id])
  {
    var sorted := SortedByOrganization(all);
    var saveStates := map[];
    if currentUser != null {
      saveStates := MembershipSaveStates(sorted, currentUser);
      assert (set m | m in sorted :: m.id) == (set m | m in all :: m.id) by {
        forall m ensures m in sorted <==> m in all {
          assert m in sorted <==> m in multiset(sorted);
        }
      }
      assert forall i :: 0 <= i < |sorted| ==> sorted[i].id in saveStates;
    }
    var json := JsonSaveStates(currentUser, sorted);
    l := MembershipList(sorted, saveStates, json, currentUser != null);
  }

  // ---------------------------------------------------------------------------
  // Add-membership form

  /** `(s != null) ? s.trim() : null`. */
  function Trimmed(s: Option<string>): (r: Option<string>)
    ensures r.None? <==> s.None?
    ensures r.Some? ==> r.value == Trim(s.value)
  {
    if s.Some? then Some(Trim(s.value)) else None
  }

  /** A trimmed field is missing when it is null or empty. */
  predicate Missing(t: Option<string>) {
    t.None? || t.value == []
  }

  /** A trimmed field passes when it is given, non-empty and within its
      limit. */
  predicate Accepted(t: Option<string>, limit: nat) {
    t.Some? && 0 < |t.value| <= limit
  }

  /** The error of one trimmed field: required first, then the length
      limit. */
  function FieldError(t: Option<string>, limit: nat, required: string, tooLong: string): (e: Option<string>)
    ensures e.None? <==> Accepted(t, limit)
    ensures Missing(t) ==> e == Some(required)
    ensures !Missing(t) && e.Some? ==> e == Some(tooLong)
  {
    if Missing(t) then Some(required)
    else if |t.value| > limit then Some(tooLong)
    else None
  }

  const TypeRequired := "Type is required"
  const TypeTooLong := "Type must be at most 100 characters"
  const OrganizationRequired := "Organization name is required"
  const OrganizationTooLong := "Organization name must be at most 100 characters"
  const DescriptionRequired := "Description is required"
  const DescriptionTooLong := "Description must be at most 500 characters"

  function TypeError(typeName: Option<string>): (e: Option<string>)
    ensures e.None? <==> Accepted(Trimmed(typeName), 100)
  {
    FieldError(Trimmed(typeName), 100, TypeRequired, TypeTooLong)
  }

  function OrganizationError(organizationName: Option<string>): (e: Option<string>)
    ensures e.None? <==> Accepted(Trimmed(organizationName), 100)
  {
    FieldError(Trimmed(organizationName), 100, OrganizationRequired, OrganizationTooLong)
  }

  function DescriptionError(description: Option<string>): (e: Option<string>)
    ensures e.None? <==> Accepted(Trimmed(description), 500)
  {
    FieldError(Trimmed(description), 500, DescriptionRequired, DescriptionTooLong)
  }

  /** A field that passes its check was given, and its trimmed value is
      non-empty, within the limit, and trimmed already. */
  lemma AcceptedFieldIsClean(s: Option<string>, limit: nat)
    requires Accepted(Trimmed(s), limit)
    ensures s.Some? && 0 < |Trim(s.value)| <= limit
    ensures Trim(Trim(s.value)) == Trim(s.value)
  {
    TrimIdempotent(s.value);
  }

  /** The fields of the add-membership form that can carry an error. */
  datatype MembershipField = TypeField | OrganizationNameField | DescriptionField {
    /** The key of the field in the error map. */
    function Name(): string {
      match this
      case TypeField => "type"
      case OrganizationNameField => "organizationName"
      case DescriptionField => "description"
    }
  }

  /** The field errors of `addMembership`, one entry per offending field, over
      the trimmed inputs: type and organization name at most 100 characters,
      description at most 500. */
  method ValidateMembershipForm(typeName: Option<string>, organizationName: Option<string>, description: Option<string>)
    returns (fieldErrors: map<MembershipField, string>)
    ensures TypeField in fieldErrors <==> TypeError(typeName).Some?
    ensures OrganizationNameField in fieldErrors <==> OrganizationError(organizationName).Some?
    ensures DescriptionField in fieldErrors <==> DescriptionError(description).Some?
    ensures fieldErrors == map[] <==>
      TypeError(typeName).None? && OrganizationError(organizationName).None? && DescriptionError(description).None?
    ensures TypeField in fieldErrors ==> fieldErrors[TypeField] == TypeError(typeName).value
    ensures OrganizationNameField in fieldErrors ==> fieldErrors[OrganizationNameField] == OrganizationError(organizationName).value
    ensures DescriptionField in fieldErrors ==> fieldErrors[DescriptionField] == DescriptionError(description).value
  {
    fieldErrors := map[];
    var typeError := TypeError(typeName);
    if typeError.Some? {
      fieldErrors := fieldErrors[TypeField := typeError.value];
    }
    var organizationError := OrganizationError(organizationName);
    if organizationError.Some? {
      fieldErrors := fieldErrors[OrganizationNameField := organizationError.value];
    }
    var descriptionError := DescriptionError(description);
    if descriptionError.Some? {
      fieldErrors := fieldErrors[DescriptionField := descriptionError.value];
    }
  }

  /** How `addMembership` ends: back on the form with field errors, or
      redirected to the list after creating the membership. */
  datatype AddMembershipOutcome = MembershipRejected(fieldErrors: map<MembershipField, string>) | MembershipCreated(membership: Membership)

  /** `addMembership`: a form with any field error creates nothing; otherwise
      one membership is created from the trimmed inputs, whose fields are then
      non-empty, within their limits and already trimmed. */
  method AddMembership(repo: MembershipRepository, typeName: Option<string>, organizationName: Option<string>,
                       description: Option<string>)
    returns (outcome: AddMembershipOutcome)
    requires repo.Valid()
    modifies repo
    ensures repo.Valid()
    ensures outcome.MembershipRejected? <==>
      TypeError(typeName).Some? || OrganizationError(organizationName).Some? || DescriptionError(description).Some?
    ensures outcome.MembershipRejected? ==> outcome.fieldErrors != map[] && repo.memberships == old(repo.memberships)
    ensures outcome.MembershipCreated? ==>
      && repo.memberships == old(repo.memberships) + [outcome.membership]
      && outcome.membership == Membership(old(repo.nextId), Trimmed(typeName), Trimmed(organizationName), Trimmed(description))
  {
    var fieldErrors := ValidateMembershipForm(typeName, organizationName, description);
    if fieldErrors != map[] {
      return MembershipRejected(fieldErrors);
    }
    var m := MembershipService.CreateMembership(repo, Trimmed(typeName), Trimmed(organizationName), Trimmed(description));
    outcome := MembershipCreated(m);
  }

  // ---------------------------------------------------------------------------
  // Saving a membership on the account

  /** Where `toggleSaveMembership` redirects. */
  datatype SaveRedirect = ToLogin | ToMemberships

  /** `toggleSaveMembership`: an anonymous caller is sent to sign in; a name
      without an account or an unknown membership changes nothing; otherwise
      the account drops the membership when it holds one with that id and
      gains it otherwise. Only that account's memberships change. */
  method ToggleSaveMembership(accounts: AccountRepository, repo: MembershipRepository, id: int, user: Option<string>)
    returns (r: SaveRedirect, toggled: bool)
    modifies accounts`accounts, (set a | a in accounts.accounts)`memberships
    ensures r == ToLogin <==> user.None?
    ensures toggled <==>
      user.Some? && old(accounts.FindByUsername(user.value)).Some? && repo.FindById(id).Some?
    ensures accounts.accounts == old(accounts.accounts)
    ensures !toggled ==> forall a :: a in old(accounts.accounts) ==> a.memberships == old(a.memberships)
    ensures toggled ==>
      var a := old(accounts.FindByUsername(user.value)).value;
      var m := repo.FindById(id).value;
      && a.memberships == (if old(a.HasMembership(m.id)) then old(a.memberships) - {m} else old(a.memberships) + {m})
      && forall b :: b in old(accounts.accounts) && b != a ==> b.memberships == old(b.memberships)
  {
    if user.None? {
      return ToLogin, false;
    }
    var account := accounts.FindByUsername(user.value);
    if account.None? {
      return ToMemberships, false;
    }
    var membership := repo.FindById(id);
    if membership.None? {
      return ToMemberships, false;
    }
    var a, m := account.value, membership.value;
    if a.HasMembership(m.id) {
      a.RemoveMembership(m);
      accounts.Save(a);
    } else {
      AccountService.AddMembership(accounts, a, m);
    }
    r, toggled := ToMemberships, true;
  }
}
