# PerkManager in Dafny

PerkManager is a Spring web application where members of loyalty and
credit-card programmes share perks. Each perk is a benefit tied to a
membership and a product. Users list, filter, sort and page the perks, vote
them up or down, and save perks and memberships to their profile. The home
page shows the best-rated perks and the perks that expire soon. Two scripts
in the browser re-sort the table and update the vote buttons in place.

This project models the logic at the core of the application:

- the perk query pipeline: `PerkService.filterPerks` and `sortPerks`, the
  pagination of `PerkController.listPerks`, and the two lists of
  `HomeController.index`;
- vote toggling on the server (`toggleUpvotePerk`, `toggleDownvotePerk`) and
  in the browser (`votes.js`);
- the set operations of accounts and perks, in both the `model` package and
  the older root-package entities;
- duplicate-username rejection, the sorted list of membership types, and the
  controllers' login guards;
- the form validation of `addPerk` and `addMembership`;
- the client comparator of `sorting.js`.

Each part follows the form of its source:

- Entities that the source updates in place (`Perk`, `Account`, the legacy
  `Perk` and `Account`) are classes. Their methods name the fields they
  change.
- Repositories are classes over a sequence in `findAll` order, with an id
  counter.
- Pure computations (filtering, sorting, paging, validation, comparators) are
  functions, proved against their contracts and companion lemmas.
- Loops (the state maps of `listPerks` and `listMemberships`, the legacy
  `removePerk(Long)`, the browser's in-place sort) are methods with loop
  invariants.
- `java.util` sorts are stable, so they are modelled as stable insertion
  sorts over a three-way comparator. The perk comparators are a datatype
  that mirrors `Comparator.comparing…`, `reversed` and `thenComparing`.

Modules:

| module | file | models |
|---|---|---|
| Common | common.dfy | `Option`, string trimming, lower-casing and order, ceiling division, Java `int` wrap-around, the generic stable sort |
| Records | records.dfy | `Membership` and `Product` |
| Model | model.dfy | `model/Perk.java`, `model/Account.java` |
| Repositories | repositories.dfy | the perk, account and membership repositories |
| PerkService | perk_service.dfy | `services/PerkService.java` |
| PerkController | perk_controller.dfy | `controllers/PerkController.java` |
| HomeController | home_controller.dfy | `controllers/HomeController.java` |
| AccountService | account_service.dfy | `services/AccountService.java` |
| MembershipService | membership_service.dfy | `services/MembershipService.java` |
| MembershipController | membership_controller.dfy | `controllers/MembershipController.java` |
| Legacy | legacy.dfy | the root-package `Perk.java` and `Account.java` |
| ClientSorting | sorting.dfy | `static/js/sorting.js` |
| ClientVotes | votes.dfy | `static/js/votes.js` |

## Model


| member | source | states |
|---|---|---|
| Common.Trim | src/main/java/com/example/perkmanager/controllers/MembershipController.java:108-110 | `String.trim`: the result sits in the input with only characters up to U+0020 cut off before and after it, and starts and ends with a character above U+0020 |
| Common.TrimIdempotent | src/main/java/com/example/perkmanager/controllers/MembershipController.java:108-110 | trimming a trimmed string changes nothing |
| Common.ContainsIffOccurs | src/main/java/com/example/perkmanager/services/PerkService.java:109-112 | `String.contains` holds iff the needle occurs at some position of the text |
| Common.InsertByPermutes | src/main/resources/static/js/sorting.js:30 | one insertion step of the stable sort adds exactly that element to the multiset |
| Common.InsertByAt | src/main/resources/static/js/sorting.js:30 | the element lands after every element it compares greater than and before the first it does not, so equal elements keep their order |
| Common.SortByPermutes | src/main/resources/static/js/sorting.js:30 | the stable sort returns a permutation of its input |
| Common.InsertBySorted | src/main/resources/static/js/sorting.js:30 | for a comparator that is a total preorder, inserting into a sorted list keeps it sorted |
| Common.SortBySorted | src/main/resources/static/js/sorting.js:30 | for a comparator that is a total preorder on the elements, the sort's result is sorted |
| Common.SortByInOrder | src/main/resources/static/js/sorting.js:30 | the stable sort leaves a sequence whose neighbours are already in comparator order unchanged |
| Common.CeilDiv | src/main/java/com/example/perkmanager/controllers/PerkController.java:71 | `(n + d - 1) / d` is the least count of `d`-sized pages covering `n` items, 0 exactly for no items |
| Common.Wrap32 | src/main/java/com/example/perkmanager/controllers/HomeController.java:74 | Java `int` arithmetic: the result agrees with the exact value modulo 2^32 and equals it when it fits |
| Common.Lower | src/main/resources/static/js/sorting.js:46-47 | lower-casing keeps the length and maps each character by itself |
| Common.LeadingTrimmable | src/main/java/com/example/perkmanager/controllers/MembershipController.java:108-110 | counts exactly the leading characters at or below U+0020: all of them are, and the next one is not |
| Common.TrailingStart | src/main/java/com/example/perkmanager/controllers/MembershipController.java:108-110 | finds where the trailing characters at or below U+0020 begin: all from there on are, and the one before is not |
| Common.BlankIffAllTrimmable | src/main/java/com/example/perkmanager/controllers/PerkController.java:193 | `benefit.trim().isEmpty()` holds iff every character is at or below U+0020 |
| Model.Perk.VoteOf | src/main/java/com/example/perkmanager/model/Perk.java:95-106 | an account's vote on the perk: 1 as an upvoter, -1 as a downvoter only, 0 otherwise |
| ClientVotes.PressSequences | src/main/resources/static/tests/votes.test.js:61-100 | from no vote, up then up gives 0, up then down gives -1, and down then up gives 1 |
| Model.Perk.constructor | src/main/java/com/example/perkmanager/model/Perk.java:95-111 | a new perk has no details, no creator and empty up- and downvote sets |
| Model.Perk.WithDetails | src/main/java/com/example/perkmanager/model/Perk.java:120-124 | the three-argument constructor sets membership, product and benefit exactly, with empty vote sets |
| Model.Perk.TotalRatings | src/main/java/com/example/perkmanager/model/Perk.java:269 | `getTotalRatings` is zero exactly when nobody voted |
| Model.Perk.Rating | src/main/java/com/example/perkmanager/model/Perk.java:262 | `getRating` lies between minus and plus the total, reaching the top iff nobody voted down and the bottom iff nobody voted up |
| Model.Perk.AddUpvote | src/main/java/com/example/perkmanager/model/Perk.java:276 | set insertion into `upvotedBy` only (idempotent) |
| Model.Perk.AddDownvote | src/main/java/com/example/perkmanager/model/Perk.java:283 | set insertion into `downvotedBy` only |
| Model.Perk.RemoveUpvote | src/main/java/com/example/perkmanager/model/Perk.java:291 | true iff the account had voted up; afterwards it is absent, so a second call returns false |
| Model.Perk.RemoveDownvote | src/main/java/com/example/perkmanager/model/Perk.java:299 | true iff the account had voted down; afterwards it is absent |
| Model.Account.constructor | src/main/java/com/example/perkmanager/model/Account.java:44-81 | a new account has the given username, no password, and empty perks, memberships, saved, upvoted and downvoted perk sets |
| Model.Account.AddMembership | src/main/java/com/example/perkmanager/model/Account.java:95-97 | set insertion on `memberships` only, after which `hasMembership(m.id)` holds |
| Model.Account.RemoveMembership | src/main/java/com/example/perkmanager/model/Account.java:104-106 | set deletion on `memberships` only |
| Model.Account.AddPerk | src/main/java/com/example/perkmanager/model/Account.java:145-147 | set insertion on the created perks only |
| Model.Account.RemovePerk | src/main/java/com/example/perkmanager/model/Account.java:155-157 | true iff the perk was among the created perks; afterwards it is absent |
| Model.Account.RemovePerkById | src/main/java/com/example/perkmanager/model/Account.java:165-171 | returns and removes a created perk with the id, or null with the set unchanged exactly when no perk has it |
| Model.Account.AddPerkToProfile | src/main/java/com/example/perkmanager/model/Account.java:184-186 | set insertion on `savedPerks` only, after which `hasPerk(p.id)` holds |
| Model.Account.RemovePerkFromProfile | src/main/java/com/example/perkmanager/model/Account.java:193-195 | set deletion on `savedPerks` only |
| Repositories.FirstPerkWithId | src/main/java/com/example/perkmanager/services/PerkService.java:52-54 | `findById`: a perk with that id from the table, none exactly when no perk has it |
| Repositories.FirstMembershipWithId | src/main/java/com/example/perkmanager/services/MembershipService.java:66-69 | a membership with that id, none exactly when no membership has it |
| Repositories.FirstProductWithId | src/main/java/com/example/perkmanager/controllers/PerkController.java:240-241 | the product lookup of `addPerk`: a product with that id, none exactly when there is none |
| Repositories.FirstAccountNamed | src/main/java/com/example/perkmanager/repositories/AccountRepository.java:25 | `findByUsername`: an account with that username, none exactly when there is none |
| Repositories.PerkRepository.SaveNew | src/main/java/com/example/perkmanager/services/PerkService.java:80 | saving a new perk appends it and advances the id counter |
| Repositories.AccountRepository.FindByUsername | src/main/java/com/example/perkmanager/services/AccountService.java:67-70 | `findByUsername` passes the repository lookup through: a stored account with that name, none iff none has it |
| Repositories.AccountRepository.SaveNew | src/main/java/com/example/perkmanager/services/AccountService.java:58 | saving a new account appends it and advances the id counter |
| Repositories.AccountRepository.Save | src/main/java/com/example/perkmanager/services/AccountService.java:82 | saving a stored account leaves the table as it was; a new one is appended |
| Repositories.MembershipRepository.FindById | src/main/java/com/example/perkmanager/services/MembershipService.java:66-69 | `findById` passes the lookup through: a stored membership with that id, none iff none has it |
| Repositories.MembershipRepository.SaveNew | src/main/java/com/example/perkmanager/services/MembershipService.java:81 | saving a new membership appends it and advances the id counter |
| PerkService.FilterPerks | src/main/java/com/example/perkmanager/services/PerkService.java:95-123 | an order-preserving subsequence of all perks keeping each perk iff it passes the type, region, expiry and membership filters |
| PerkService.FilterPerksCounts | src/main/java/com/example/perkmanager/services/PerkService.java:95-123 | filtering keeps every copy of a perk that passes and none of one that does not |
| PerkService.FilterWithoutCriteria | src/main/java/com/example/perkmanager/services/PerkService.java:104-121 | with every filter absent the list comes back unchanged |
| PerkService.FilterIdempotent | src/main/java/com/example/perkmanager/services/PerkService.java:95-123 | filtering twice with the same criteria equals filtering once |
| PerkService.FilterCommutes | src/main/java/com/example/perkmanager/services/PerkService.java:95-123 | the order in which two filterings are applied does not matter |
| PerkService.ExpiryOrLatest | src/main/java/com/example/perkmanager/controllers/HomeController.java:67-70 | a perk's expiry, or `Long.MAX_VALUE` when it has none |
| PerkService.Compare | src/main/java/com/example/perkmanager/services/PerkService.java:182-199 | the comparators return -1, 0 or 1 |
| PerkService.CompareAntisymmetric | src/main/java/com/example/perkmanager/services/PerkService.java:182-199 | every comparator, reversed or chained, is antisymmetric |
| PerkService.CompareTransitive | src/main/java/com/example/perkmanager/services/PerkService.java:182-199 | every comparator, reversed or chained, is transitive |
| PerkService.InsertPerk | src/main/java/com/example/perkmanager/services/PerkService.java:200 | an insertion step of the stable list sort adds exactly that perk |
| PerkService.SortPerksBy | src/main/java/com/example/perkmanager/services/PerkService.java:200 | the stable list sort returns a permutation |
| PerkService.InsertPerkSorted | src/main/java/com/example/perkmanager/services/PerkService.java:200 | inserting into a sorted list keeps it sorted |
| PerkService.SortPerksBySorted | src/main/java/com/example/perkmanager/services/PerkService.java:200 | the sort's result is sorted by the comparator |
| PerkService.SortPerksByKeepsSorted | src/main/java/com/example/perkmanager/services/PerkService.java:200 | sorting an already sorted list returns it unchanged |
| PerkService.SortPerksByIdempotent | src/main/java/com/example/perkmanager/services/PerkService.java:200 | sorting twice equals sorting once |
| PerkService.InsertPerkTies | src/main/java/com/example/perkmanager/services/PerkService.java:200 | among the perks tying with any perk x, an inserted perk that ties with x comes first and the others keep their order |
| PerkService.SortPerksByStable | src/main/java/com/example/perkmanager/services/PerkService.java:200 | the sort is stable: for every perk x, the perks tying with x come out in the order they went in |
| PerkService.SortPerks | src/main/java/com/example/perkmanager/services/PerkService.java:179-201 | `sortPerks` returns a permutation; an absent or unknown key (case-sensitive) returns the list unchanged; otherwise it is sorted by the selected, possibly reversed, comparator |
| PerkService.SortByRatingOrdersRatings | src/main/java/com/example/perkmanager/services/PerkService.java:182-188 | sorting by rating orders ratings ascending, or descending when the direction is `desc` in any case |
| PerkService.SortByExpiryPlacesMissingDates | src/main/java/com/example/perkmanager/services/PerkService.java:189-199 | sorting by expiry orders dates and puts perks without one last ascending and first descending |
| PerkService.SortPerksIdempotent | src/main/java/com/example/perkmanager/services/PerkService.java:179-201 | sorting a sorted result again changes nothing |
| PerkService.SortPerksStable | src/main/java/com/example/perkmanager/services/PerkService.java:179-201 | `sortPerks` is stable: perks that tie under the selected comparator keep their order in the filtered list |
| PerkService.VotesOf | src/main/java/com/example/perkmanager/model/Perk.java:262 | the vote sets of a perk, whose rating is the perk's rating |
| PerkService.ToggledUp | src/main/java/com/example/perkmanager/services/PerkService.java:136-143 | the account's upvote flips, a withdrawn upvote leaves the downvotes as they were, the account never ends in both sets, and every other account's votes are unchanged |
| PerkService.ToggledDown | src/main/java/com/example/perkmanager/services/PerkService.java:158-165 | the account's downvote flips, a withdrawn downvote leaves the upvotes as they were, the account never ends in both sets, and every other account's votes are unchanged |
| PerkService.TogglesKeepDisjoint | src/main/java/com/example/perkmanager/services/PerkService.java:133-167 | both toggles keep the invariant that no account is both an upvoter and a downvoter |
| PerkService.ToggleTwiceRestores | src/main/java/com/example/perkmanager/services/PerkService.java:133-167 | toggling the same vote twice restores the sets when the account had not voted the other way |
| PerkService.ToggleVoteTransitions | src/main/java/com/example/perkmanager/services/PerkService.java:133-167 | an upvote toggle moves the account's vote from 1 to 0 and otherwise to 1; a downvote toggle from -1 to 0 and otherwise to -1 |
| PerkService.ToggleRatingDelta | src/main/java/com/example/perkmanager/services/PerkService.java:133-167 | a toggle changes the rating by exactly the change in the account's vote |
| PerkService.ToggleUpvotePerk | src/main/java/com/example/perkmanager/services/PerkService.java:133-145 | a missing id changes nothing; otherwise that perk's vote sets become `ToggledUp` of the old ones |
| PerkService.ToggleDownvotePerk | src/main/java/com/example/perkmanager/services/PerkService.java:155-167 | a missing id changes nothing; otherwise that perk's vote sets become `ToggledDown` of the old ones |
| PerkService.CreatePerk | src/main/java/com/example/perkmanager/services/PerkService.java:68-81 | saves one new perk with exactly the given creator, membership, product, benefit, expiry and region and no votes, and links it to the creator |
| PerkController.Paginate | src/main/java/com/example/perkmanager/controllers/PerkController.java:68-76 | defaults page 0 and size 5, size at least 1, page count ceil(total/size) floored at 1, page clamped into range; `from` never wraps and lies in the list; `to` is `min(from + size, total)` in 32-bit `int`s, so it is negative exactly when `from + size` passes 2^31 - 1, and otherwise `from <= to <= total` with at most `size` items, none only for an empty list |
| PerkController.HugePageSizeWraps | src/main/java/com/example/perkmanager/controllers/PerkController.java:68-76 | with 2^30 + 2 perks and `size` 2^30 + 1, page 1 starts at 2^30 + 1 and its end `from + size` wraps to a negative `int` |
| PerkController.ItemOnItsPage | src/main/java/com/example/perkmanager/controllers/PerkController.java:68-76 | every item lies in the window of the page `i / size` |
| PerkController.VoteState | src/main/java/com/example/perkmanager/controllers/PerkController.java:92-94 | 1 if the user's id is among the upvoters, else -1 if among the downvoters, else 0 |
| PerkController.VoteStateIsOwnVote | src/main/java/com/example/perkmanager/controllers/PerkController.java:92-95 | the page's vote state is the user's vote as the service records it |
| PerkController.Ids | src/main/java/com/example/perkmanager/controllers/PerkController.java:82-97 | the set of ids of the page's perks |
| PerkController.LastWithId | src/main/java/com/example/perkmanager/controllers/PerkController.java:82-97 | the perk whose entry a later `put` leaves in the map for that id |
| PerkController.IdsAppend | src/main/java/com/example/perkmanager/controllers/PerkController.java:82-97 | one more perk adds its id to the keys |
| PerkController.LastWithIdAppend | src/main/java/com/example/perkmanager/controllers/PerkController.java:82-97 | one more perk overrides the entry for its id and leaves the entries of the other ids |
| PerkController.VoteStatesStep | src/main/java/com/example/perkmanager/controllers/PerkController.java:84-95 | recording the next perk's vote state keeps every id's entry that of the last perk with the id |
| PerkController.PageStates | src/main/java/com/example/perkmanager/controllers/PerkController.java:82-97 | the save and vote maps have exactly the page's ids as keys, save state 1 iff `hasPerk(id)`, and the vote state of that perk |
| PerkController.ListPerks | src/main/java/com/example/perkmanager/controllers/PerkController.java:46-171 | an unknown signed-in name fails; otherwise, with the window `Paginate` computes for the filtered-then-sorted perks, the page fails exactly when the window's end wraps (`subList` throws) and is otherwise the `[from, to)` slice, with state maps for users and empty maps for anonymous visitors |
| PerkController.ValidatePerkForm | src/main/java/com/example/perkmanager/controllers/PerkController.java:192-224 | a field error, with its message, for exactly a blank benefit, a missing product, a missing membership and a rejected expiry date |
| PerkController.AddPerk | src/main/java/com/example/perkmanager/controllers/PerkController.java:185-254 | field errors reject the form; otherwise a missing user, creator, product or membership fails with its message; either way nothing is created; else one perk with the form's details is created by the signed-in account |
| PerkController.ToggleUpvote | src/main/java/com/example/perkmanager/controllers/PerkController.java:260-277 | anonymous callers go to login; an unknown account or perk changes nothing; otherwise the upvote is toggled |
| PerkController.ToggleDownvote | src/main/java/com/example/perkmanager/controllers/PerkController.java:280-297 | anonymous callers go to login; an unknown account or perk changes nothing; otherwise the downvote is toggled |
| PerkController.ToggleSavePerk | src/main/java/com/example/perkmanager/controllers/PerkController.java:310-334 | anonymous callers go to login; otherwise the perk is unsaved if `hasPerk(id)` and saved if not, touching only that account |
| HomeController.TopRated | src/main/java/com/example/perkmanager/controllers/HomeController.java:65-72 | the top-rated list is a permutation of all perks |
| HomeController.TopRatedOrdered | src/main/java/com/example/perkmanager/controllers/HomeController.java:65-72 | ordered by rating descending, then expiry ascending with a missing expiry as the latest time |
| HomeController.ExpiringSoon | src/main/java/com/example/perkmanager/controllers/HomeController.java:79-86 | the expiring list is a permutation of the perks expiring after now |
| HomeController.ExpiringSoonContents | src/main/java/com/example/perkmanager/controllers/HomeController.java:80-81 | it holds exactly the perks with an expiry strictly after now |
| HomeController.ExpiringPairOrdered | src/main/java/com/example/perkmanager/controllers/HomeController.java:82-85 | the expiring comparator puts an earlier expiry first and, among equal ones, the higher rating |
| HomeController.ExpiringSoonOrdered | src/main/java/com/example/perkmanager/controllers/HomeController.java:82-85 | ordered by expiry ascending, then rating descending |
| PerkService.FilterNoLonger | src/main/java/com/example/perkmanager/services/PerkService.java:95-123 | filtering never lengthens the list |
| HomeController.PageCount | src/main/java/com/example/perkmanager/controllers/HomeController.java:73 | the least count of 4-item pages covering n items, 0 for an empty list |
| HomeController.PageOf | src/main/java/com/example/perkmanager/controllers/HomeController.java:74-76 | a page, when the `subList` succeeds, holds at most 4 perks |
| HomeController.PageOfInRange | src/main/java/com/example/perkmanager/controllers/HomeController.java:74-76 | the page succeeds iff `0 <= p*4 <= n`, and is then the slice `[p*4, min(p*4+4, n))` |
| HomeController.PagesCoverList | src/main/java/com/example/perkmanager/controllers/HomeController.java:73-76 | every page below the page count is a non-empty slice of the list |
| HomeController.HugePageWrapsToFirst | src/main/java/com/example/perkmanager/controllers/HomeController.java:74 | page 2^30 wraps to start 0 and shows the first page |
| HomeController.Index | src/main/java/com/example/perkmanager/controllers/HomeController.java:56-102 | the home page renders iff both pages are in range, and then features the requested page of each list, with the page numbers and page counts of both lists |
| HomeController.OnPageInList | src/main/java/com/example/perkmanager/controllers/HomeController.java:74-76 | a perk on a page is a perk of the list |
| HomeController.IndexFeatures | src/main/java/com/example/perkmanager/controllers/HomeController.java:56-102 | a rendered home page features at most four perks per list, all from the catalogue, the upcoming ones all expiring after now |
| HomeController.WorkedExampleTopRated | src/test/java/com/example/perkmanager/controllers/HomeControllerTest.java:31-90 | with ratings 2, 0, 0 the top-rated list starts with the rating-2 perk |
| HomeController.WorkedExampleFilter | src/test/java/com/example/perkmanager/controllers/HomeControllerTest.java:31-90 | the perk without expiry is filtered out and the other two keep their order |
| HomeController.TwoInExpiryOrder | src/main/java/com/example/perkmanager/controllers/HomeController.java:82-85 | an expiry-ordered permutation of two perks with different dates puts the sooner one first |
| HomeController.FirstTwoInExpiryOrder | src/main/java/com/example/perkmanager/controllers/HomeController.java:80-85 | when two upcoming perks remain, both have dates and the first expires no later than the second |
| HomeController.WorkedExampleExpiring | src/test/java/com/example/perkmanager/controllers/HomeControllerTest.java:31-90 | with expiries +5d, +2d and none, the expiring list is [+2d, +5d] |
| AccountService.AppendKeepsUnique | src/main/java/com/example/perkmanager/services/AccountService.java:52-58 | appending an account with an unused name keeps usernames unique |
| AccountService.CreateAccount | src/main/java/com/example/perkmanager/services/AccountService.java:51-59 | a taken username is refused with nothing saved; otherwise exactly one account with that username and the encoded password is saved and found by that name; usernames stay unique |
| AccountService.SaveAccount | src/main/java/com/example/perkmanager/services/AccountService.java:55-58 | an account under an unused name is appended with that name and the encoded password, found by that name, and usernames stay unique |
| AccountService.NewAccount | src/main/java/com/example/perkmanager/services/AccountService.java:55-57 | the new account carries the given username and password |
| AccountService.FirstAccountNamedAppend | src/main/java/com/example/perkmanager/services/AccountService.java:55-58 | after appending an account with an unused name, the lookup by that name finds it |
| AccountService.LinkPerkToCreator | src/main/java/com/example/perkmanager/services/AccountService.java:79-83 | the perk joins the account's created perks, its creator is the account, and the account is saved |
| AccountService.AddMembership | src/main/java/com/example/perkmanager/services/AccountService.java:95-99 | the membership joins the account's memberships, `hasMembership` holds, and the account is saved |
| MembershipService.KnownTypes | src/main/java/com/example/perkmanager/services/MembershipService.java:52-54 | exactly the non-null types of the memberships |
| MembershipService.Distinct | src/main/java/com/example/perkmanager/services/MembershipService.java:55 | the same elements, each at most once |
| MembershipService.MembershipTypes | src/main/java/com/example/perkmanager/services/MembershipService.java:51-58 | its elements are exactly the non-null membership types |
| MembershipService.CompareStringsPreorder | src/main/java/com/example/perkmanager/services/MembershipService.java:56 | natural string order is a total preorder |
| MembershipService.OnceMeansDistinct | src/main/java/com/example/perkmanager/services/MembershipService.java:55 | an element occurring once differs from every other position |
| MembershipService.MembershipTypesStrictlySorted | src/main/java/com/example/perkmanager/services/MembershipService.java:51-58 | the type list is strictly increasing, so distinct and sorted |
| MembershipService.CreateMembership | src/main/java/com/example/perkmanager/services/MembershipService.java:79-82 | saves one membership whose fields are exactly the arguments, found afterwards by its id |
| MembershipService.FirstMembershipWithIdAppend | src/main/java/com/example/perkmanager/services/MembershipService.java:79-82 | a saved membership with a fresh id is what the lookup by that id finds |
| MembershipController.SortedByOrganization | src/main/java/com/example/perkmanager/controllers/MembershipController.java:44 | a permutation of the memberships |
| MembershipController.SortedByOrganizationOrders | src/main/java/com/example/perkmanager/controllers/MembershipController.java:44 | ordered by organization name |
| MembershipController.MembershipSaveStates | src/main/java/com/example/perkmanager/controllers/MembershipController.java:45-55 | one entry per membership id, 1 iff `hasMembership(id)` and 0 otherwise |
| MembershipController.JsonSaveStateAsWritten | src/main/java/com/example/perkmanager/controllers/MembershipController.java:68-71 | as written: 1 iff the user has saved a perk whose id equals the membership's |
| MembershipController.JsonSaveState | src/main/java/com/example/perkmanager/controllers/MembershipController.java:68-71 | as intended: 1 iff the user holds a membership with that id, the mark the page's `saveStates` gives |
| MembershipController.JsonSaveStateAsWrittenDisagrees | src/main/java/com/example/perkmanager/controllers/MembershipController.java:68-71 | a saved perk with id 7 and no memberships gives 1 as written but 0 as intended |
| MembershipController.ListMemberships | src/main/java/com/example/perkmanager/controllers/MembershipController.java:36-90 | an unknown name fails, a null organization name fails in the sort, otherwise the memberships are listed in name order with the page's save marks (empty for anonymous visitors); the JSON carries the as-written mark from the saved perks (0 for anonymous visitors), and the intended mark would equal the page's |
| MembershipController.MembershipListFor | src/main/java/com/example/perkmanager/controllers/MembershipController.java:43-81 | the memberships in name order; for a signed-in account the page marks by `hasMembership` over exactly the listed ids, none when signed out; the JSON marks as written, from the saved perks, where the intended mark equals the page's |
| MembershipController.Trimmed | src/main/java/com/example/perkmanager/controllers/MembershipController.java:108-110 | null stays null; otherwise the trimmed text |
| MembershipController.FieldError | src/main/java/com/example/perkmanager/controllers/MembershipController.java:115-131 | no error iff present, non-empty and within the limit; a missing value gets the required message, an over-long one the length message |
| MembershipController.TypeError | src/main/java/com/example/perkmanager/controllers/MembershipController.java:115-119 | the type is accepted iff its trimmed text is non-empty and at most 100 characters |
| MembershipController.OrganizationError | src/main/java/com/example/perkmanager/controllers/MembershipController.java:121-125 | the organization name is accepted iff its trimmed text is non-empty and at most 100 characters |
| MembershipController.DescriptionError | src/main/java/com/example/perkmanager/controllers/MembershipController.java:127-131 | the description is accepted iff its trimmed text is non-empty and at most 500 characters |
| MembershipController.AcceptedFieldIsClean | src/main/java/com/example/perkmanager/controllers/MembershipController.java:108-131 | an accepted field is present, non-empty, within its limit and already trimmed |
| MembershipController.ValidateMembershipForm | src/main/java/com/example/perkmanager/controllers/MembershipController.java:115-131 | a field error, with its message, for exactly the fields that fail |
| MembershipController.AddMembership | src/main/java/com/example/perkmanager/controllers/MembershipController.java:101-142 | any field error rejects the form with nothing saved; otherwise one membership with the trimmed values is created |
| MembershipController.ToggleSaveMembership | src/main/java/com/example/perkmanager/controllers/MembershipController.java:152-174 | anonymous callers go to login; an unknown account or membership changes nothing; otherwise the membership is removed if linked and added if not, touching only that account |
| Legacy.Perk.constructor | src/main/java/com/example/perkmanager/Perk.java:38-41 | a new perk has no columns set and empty vote sets |
| Legacy.Perk.WithDetails | src/main/java/com/example/perkmanager/Perk.java:43-49 | membership, product and benefit exactly, with empty vote sets |
| Legacy.Perk.SetId | src/main/java/com/example/perkmanager/Perk.java:55-57 | the id is replaced |
| Legacy.Perk.Upvotes | src/main/java/com/example/perkmanager/Perk.java:99-101 | `getUpvotes` is the size of the upvote set, zero iff it is empty |
| Legacy.Perk.Downvotes | src/main/java/com/example/perkmanager/Perk.java:111-113 | `getDownvotes` is the size of the downvote set, zero iff it is empty |
| Legacy.Perk.TotalRatings | src/main/java/com/example/perkmanager/Perk.java:127-129 | at least each direction's count, zero iff nobody voted |
| Legacy.Perk.Rating | src/main/java/com/example/perkmanager/Perk.java:123-125 | between minus and plus the total, equal to the total iff nobody voted down, positive iff more up than down votes |
| Legacy.Perk.SetUpvoteList | src/main/java/com/example/perkmanager/Perk.java:103-109 | the upvote set is replaced and its count is the new set's size |
| Legacy.Perk.SetDownvoteList | src/main/java/com/example/perkmanager/Perk.java:115-121 | the downvote set is replaced and its count is the new set's size |
| Legacy.Perk.AddUpvote | src/main/java/com/example/perkmanager/Perk.java:131-133 | insertion into the upvote set only; the count grows by one iff the account was new |
| Legacy.Perk.AddDownvote | src/main/java/com/example/perkmanager/Perk.java:135-137 | insertion into the downvote set only; the count grows by one iff the account was new |
| Legacy.Perk.RemoveUpvote | src/main/java/com/example/perkmanager/Perk.java:139-141 | true iff the account had voted up, and afterwards it is absent, so a second call is false |
| Legacy.Perk.RemoveDownvote | src/main/java/com/example/perkmanager/Perk.java:143-145 | true iff the account had voted down, and afterwards it is absent |
| Legacy.Account.constructor | src/main/java/com/example/perkmanager/Account.java:25-27 | no credentials and no perks |
| Legacy.Account.WithCredentials | src/main/java/com/example/perkmanager/Account.java:29-33 | the given username and password and no perks |
| Legacy.Account.SetId | src/main/java/com/example/perkmanager/Account.java:39-41 | the id is replaced |
| Legacy.Account.SetPassword | src/main/java/com/example/perkmanager/Account.java:52-54 | the password is replaced |
| Legacy.Account.IsCorrectPassword | src/main/java/com/example/perkmanager/Account.java:56-58 | true iff the argument equals the stored password; a missing stored password throws |
| Legacy.Account.SetPerks | src/main/java/com/example/perkmanager/Account.java:60-66 | the perk set is replaced, so `getPerks` returns it |
| Legacy.Account.AddPerk | src/main/java/com/example/perkmanager/Account.java:69-71 | set insertion |
| Legacy.Account.RemovePerk | src/main/java/com/example/perkmanager/Account.java:73-75 | true iff the perk was present, and afterwards it is absent |
| Legacy.Account.RemovePerkById | src/main/java/com/example/perkmanager/Account.java:83-93 | removes and returns a perk with the id, or changes nothing: no match iff every perk has another id, and an unsaved perk can make the loop throw |
| ClientSorting.DateOf | src/main/resources/static/js/sorting.js:39-40 | a `Date`'s time value lies within the JavaScript date range, or is NaN |
| ClientSorting.KeyOf | src/main/resources/static/js/sorting.js:38-47 | a falsy expiry becomes the maximum date; null and undefined become the empty string; strings are lower-cased |
| ClientSorting.LessIrreflexive | src/main/resources/static/js/sorting.js:49-50 | no key is less than itself under `<` |
| ClientSorting.LessAsymmetric | src/main/resources/static/js/sorting.js:49-50 | `<` on keys is asymmetric |
| ClientSorting.CompareKeys | src/main/resources/static/js/sorting.js:49-51 | -1, 0 or 1; 0 iff neither key is less; the sign follows `<` for `asc` and is flipped for any other direction |
| ClientSorting.SourceName | src/main/resources/static/js/sorting.js:38-41 | the property read for a column, the column name itself except for expiry |
| ClientSorting.Compare | src/main/resources/static/js/sorting.js:34-52 | -1, 0 or 1, and the as-written comparison for every column but expiry |
| ClientSorting.CompareSelf | src/main/resources/static/js/sorting.js:49-51 | `compare(a, a) = 0` |
| ClientSorting.CompareAntisymmetric | src/main/resources/static/js/sorting.js:49-51 | `compare(a, b) = -compare(b, a)` |
| ClientSorting.CompareDirection | src/main/resources/static/js/sorting.js:49-50 | any direction other than `asc` flips the sign |
| ClientSorting.CompareIgnoresCase | src/main/resources/static/js/sorting.js:46-47 | strings compare by their lower-cased forms, so case-only differences tie |
| ClientSorting.MissingTextSortsFirst | src/main/resources/static/js/sorting.js:43-44 | a null or undefined value counts as the empty string and sorts before any non-empty string |
| ClientSorting.MissingExpirySortsLast | src/main/resources/static/js/sorting.js:38-41 | a missing expiry is the maximum date: last when ascending, first otherwise |
| ClientSorting.CompareExpiryDates | src/main/resources/static/js/sorting.js:38-41 | two expiry dates compare by time |
| ClientSorting.NotLessTransitive | src/main/resources/static/js/sorting.js:49-51 | on keys of one kind, not-less is transitive |
| ClientSorting.ComparatorPreorder | src/main/resources/static/js/sorting.js:34-52 | on a column holding only strings (or only numbers) the comparator is a total preorder |
| ClientSorting.AsWrittenExpiryTies | src/main/resources/static/js/sorting.js:38-41 | as written, two perk objects without an `expiry` property tie |
| ClientSorting.AsWrittenExpirySortKeepsOrder | src/main/resources/static/js/sorting.js:38-41 | as written, sorting perk objects by expiry returns them in their original order |
| ClientSorting.AsWrittenExpiryCounterexample | src/main/resources/static/js/sorting.js:38-41 | as written, a later-expiring perk stays ahead of a sooner one |
| ClientSorting.CorrectedExpiryCounterexample | src/main/resources/static/js/sorting.js:38-41 | reading `expiryDate`, the sooner perk is put first |
| ClientSorting.ShiftPast | src/main/resources/static/js/sorting.js:30 | moves the elements greater than the inserted one up by a place, stopping before the first that is not |
| ClientSorting.InsertInto | src/main/resources/static/js/sorting.js:30 | the array's tail becomes the insertion of its first element into the rest, the prefix untouched |
| ClientSorting.SortInPlace | src/main/resources/static/js/sorting.js:30 | the array ends as the stable sort of its old contents |
| ClientSorting.SortAndRender | src/main/resources/static/js/sorting.js:27-32 | a fresh array holding the copy sorted by `compare` as written, leaving `ALL_PERKS` unchanged |
| ClientSorting.FieldName | src/main/resources/static/js/sorting.js:14-15 | the `sort` query parameter of the link's URL, or `"null"` (the property `a[null]` reads) when it is missing |
| ClientSorting.DirectionOf | src/main/resources/static/js/sorting.js:14-16 | the `direction` query parameter of the link's URL, or `asc` when it is missing or empty |
| ClientSorting.SortControl.constructor | src/main/resources/static/js/sorting.js:7-8 | no sort field and ascending direction |
| ClientSorting.SortControl.Click | src/main/resources/static/js/sorting.js:11-24 | clicking the current field and direction changes nothing; otherwise the state is updated and the rows become the copy sorted by `compare` as written |
| ClientSorting.AsWrittenPreorder | src/main/resources/static/js/sorting.js:34-52 | off the expiry column the comparator as written is a total preorder on a column of one kind |
| ClientSorting.SortedRows | src/main/resources/static/js/sorting.js:27-32 | the shown rows are a permutation of all perks; off the expiry column, on a column of one kind, in comparator order; on the expiry column, for perks as the page delivers them, in the order they came |
| ClientSorting.CorrectedSortedRows | src/main/resources/static/js/sorting.js:27-41 | reading `expiryDate`, the rows on every column of one kind, expiry included, are a permutation in comparator order |
| ClientVotes.NextVote | src/main/resources/static/js/votes.js:29-30 | upvote maps 1 to 0 and anything else to 1; downvote maps -1 to 0 and anything else to -1 |
| ClientVotes.RatingFor | src/main/resources/static/js/votes.js:32-37 | the shown rating is the base rating plus the vote, within base ± 1 |
| ClientVotes.VoteControl.constructor | src/main/resources/static/js/votes.js:3-16 | `parseInt(voteState) || 0` as the vote and the shown rating minus it as the base rating |
| ClientVotes.VoteControl.HandleVote | src/main/resources/static/js/votes.js:23-57 | a signed-out user changes nothing; on success the vote moves by `NextVote` and the rating shown is base plus vote; a failed request restores both; the display invariant is kept |
| ClientVotes.ClientAgreesWithServer | src/main/resources/static/js/votes.js:29-37 | after an accepted press the browser's vote and rating equal those the server's toggle produces |

## Left out

- Persistence: JPA mappings, `@Transactional` and the database are out. Each repository is a sequence in `findAll` order with an id counter, and `save` appends a new row or keeps an existing one.
- Spring Security and BCrypt are out. The signed-in user is an optional username parameter, and the password encoder is a function parameter `encode`.
- View plumbing is out: model attributes, Thymeleaf templates, the Jackson JSON strings and CSRF tokens. The JSON save marks of `listMemberships` are kept as a sequence, computed as the source computes them, because they carry a finding.
- ClientVotes.VoteControl.HandleVote: a press and the response to its request are one step. So a second press while the first request is still pending is not represented. In the browser, if that first request then fails, the revert (votes.js lines 26-27 and 54-55) restores the state from before both presses.
- The DOM is out: `renderRows`, `updateButtons`, alerts and event wiring. The page-level guards of `sorting.js` (lines 2-5) are out as well. `fetch` is the `requestOk` parameter of `VoteControl.HandleVote`.
- `Calendar` parsing and "today" in `addPerk` are abstracted. The form's date field is a `DateField` (left out, unparseable, or a day start), and `today` is a parameter. "Now" on the home page and in filtering is a `now` parameter.
- Locale-dependent case mapping is out: `toLowerCase` and `equalsIgnoreCase` are modelled on ASCII letters only. Strings are sequences of `char`; UTF-16 surrogate pairs are not distinguished.
- JavaScript numbers are integers here. Date strings passed to `new Date` are not parsed (they give `NaN`). Nested objects (`membership`, `product`) are not sortable values. Among strings, only `""` converts to a number when `<` compares it with one.
- ClientSorting.ComparatorPreorder: the total preorder is proved only for a column whose values are all strings or all numbers. A mixed column can make JavaScript's `<` non-transitive, and then `Array.prototype.sort` has no defined result.
- `Array.prototype.sort` and `List.sort` are modelled as stable insertion sorts. Both are stable by specification, so the order is the same; the algorithms differ.
- HashSet iteration order is modelled by an arbitrary choice (`:|`). That covers the legacy `removePerk(Long)` loop and the `findFirst` of `model/Account.java`.
- Legacy.Account.RemovePerkById: the contract fixes which perks may be removed, not which of several perks with the same id. That depends on HashSet order.
- Model.Account.RemovePerkById: the same holds for several created perks with one id. A stored perk always has a non-null id here, so the null-dereference exception on an unsaved perk is not modelled for the `model` entity.
- The username of a `model` account is set once, when `createAccount` builds it, so `setUsername` is folded into the constructor.
- Form error maps are keyed by a field datatype whose `Name()` is the key the source uses. The errors of `addPerk`, and its other failures, are datatypes whose `Message()` is the source's text; those of `addMembership` are the texts themselves.
- Ids of `model` entities are fixed at construction and assigned by the repository, so `setId` and the other plain getters and setters of `model/Perk.java` and `model/Account.java` are not separate members.
- `AccountService.removeMembership`, `addPerkToProfile` and `removePerkFromProfile`, which the controllers call, do not exist in `services/AccountService.java`. They are modelled as the `Account` method followed by a save.
- `MembershipService.getAllMemberships` and `ProductService.findById` are pass-throughs of the repository, modelled by reading the repository directly.
- HomeController.PageOfInRange: the iff is stated for page numbers within ±2^29, where `page * 4` cannot wrap. `HugePageWrapsToFirst` shows what a wrapping page number does.
- HomeController.Index: the list sizes are below 2^31, as Java list sizes are.
- `listPerks` and `listMemberships` catch every exception and show an error on the same page. The failures modelled are a signed-in name without an account, a `subList` call whose end wrapped past the largest `int`, and a `null` organization name reaching the sort. No other exception can arise in the model.
- The JSON of `listPerks` is out, and with it the `Map.of` calls of controllers/PerkController.java:126-138, which throw when a perk's membership or product has a `null` field. The model does not capture that failure of `listPerks`.
- Legacy.Perk.SetUpvoteList, Legacy.Perk.SetDownvoteList and Legacy.Account.SetPerks: the Java setters store the caller's set by reference, so later changes through either reference are shared. The model stores set values, so it does not capture that aliasing.
- Legacy.Account.IsCorrectPassword: a `null` stored password, which throws, is the `None` result.
- ClientVotes.PressSequences: a worked example that Dafny checks without proof steps.

## Findings

| source | as written | input that shows it | evidently intended | confidence | as-written member | corrected member |
|---|---|---|---|---|---|---|
| src/main/java/com/example/perkmanager/controllers/MembershipController.java:68-71 | the JSON save mark of a membership is `currentUser.hasPerk(m.getId())`, a lookup among saved perks | a user with a saved perk of id 7 and no memberships, listing a membership of id 7, gets save mark 1 in the JSON and 0 in `saveStates` | `hasMembership(m.getId())`, as lines 45-55 compute for `saveStates` | not executed | MembershipController.JsonSaveStateAsWritten, MembershipController.JsonSaveStateAsWrittenDisagrees, MembershipController.ListMemberships | MembershipController.JsonSaveState |
| src/main/resources/static/js/sorting.js:38-41 | for the column `expiry` the comparator reads `a["expiry"]`, but the perk objects carry the date as `expiryDate` (controllers/PerkController.java:122, sorting.js:67), so every value is missing and every pair ties | two perks expiring at times 2 and 1, listed later first, stay in that order when sorted by expiry | read `expiryDate` for the expiry column, so perks sort by date with missing dates last | not executed | ClientSorting.AsWrittenExpirySortKeepsOrder, ClientSorting.AsWrittenExpiryCounterexample, ClientSorting.SortedRows | ClientSorting.Compare, ClientSorting.CorrectedExpiryCounterexample, ClientSorting.CorrectedSortedRows |
