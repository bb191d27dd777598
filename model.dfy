/** The two entities that the application updates in place: `Perk`
    (`model/Perk.java`) and `Account` (`model/Account.java`). They refer to each
    other (a perk's creator and voters are accounts, an account's created and
    saved perks are perks), so they share one module. Identifiers are fixed when
    the object is made: the repository hands them out. */
module Model {
  import opened Common
  import opened Records

  /** A discount or benefit tied to a membership and a product, with the sets of
      accounts that voted it up or down. */
  class Perk {
    const id: int
    var benefit: Option<string>
    var expiryDate: Option<Millis>
    var region: Option<string>
    var membership: Option<Membership>
    var product: Option<Product>
    var creator: Account?
    var upvotedBy: set<Account>
    var downvotedBy: set<Account>

    /** `new Perk()`: every column empty, nobody has voted. */
    constructor (id: int)
      ensures this.id == id
      ensures benefit == None && expiryDate == None && region == None
      ensures membership == None && product == None && creator == null
      ensures upvotedBy == {} && downvotedBy == {}
    {
      this.id := id;
      benefit, expiryDate, region := None, None, None;
      membership, product, creator := None, None, null;
      upvotedBy, downvotedBy := {}, {};
    }

    /** `new Perk(membership, product, benefit)`: those three fields exactly,
        nobody has voted. */
    constructor WithDetails(id: int, membership: Option<Membership>, product: Option<Product>,
                            benefit: Option<string>)
      ensures this.id == id
      ensures this.membership == membership && this.product == product && this.benefit == benefit
      ensures expiryDate == None && region == None && creator == null
      ensures upvotedBy == {} && downvotedBy == {}
    {
      this.id := id;
      this.membership, this.product, this.benefit := membership, product, benefit;
      expiryDate, region, creator := None, None, null;
      upvotedBy, downvotedBy := {}, {};
    }

    /** `getTotalRatings()`: how many accounts voted either way. */
    function TotalRatings(): (n: nat)
      reads this
      ensures n == 0 <==> upvotedBy == {} && downvotedBy == {}
    {
      |upvotedBy| + |downvotedBy|
    }

    /** `getRating()`: upvotes minus downvotes. It never exceeds the number of
        votes in either direction, and it equals the total exactly when nobody
        voted down. */
    function Rating(): (r: int)
      reads this
      ensures -(TotalRatings() as int) <= r <= TotalRatings()
      ensures r == TotalRatings() <==> downvotedBy == {}
      ensures r == -(TotalRatings() as int) <==> upvotedBy == {}
    {
      |upvotedBy| - |downvotedBy|
    }

    /** How `account` voted on this perk: 1 up, -1 down, 0 not at all. */
    function VoteOf(account: Account): (v: int)
      reads this
      ensures v == 1 <==> account in upvotedBy
      ensures v == -1 <==> account !in upvotedBy && account in downvotedBy
      ensures v == 0 <==> account !in upvotedBy && account !in downvotedBy
    {
      if account in upvotedBy then 1 else if account in downvotedBy then -1 else 0
    }

    /** No account has voted this perk both up and down. */
    ghost predicate VotesDisjoint()
      reads this
    {
      upvotedBy !! downvotedBy
    }

    /** `addUpvote`: a set insertion, so adding twice is the same as once; the
        downvotes are untouched. */
    method AddUpvote(account: Account)
      modifies this`upvotedBy
      ensures upvotedBy == old(upvotedBy) + {account}
    {
      upvotedBy := upvotedBy + {account};
    }

    /** `addDownvote`: the downvote counterpart of `AddUpvote`. */
    method AddDownvote(account: Account)
      modifies this`downvotedBy
      ensures downvotedBy == old(downvotedBy) + {account}
    {
      downvotedBy := downvotedBy + {account};
    }

    /** `removeUpvote`: reports whether the account had voted up; afterwards it
        has not. */
    method RemoveUpvote(account: Account) returns (removed: bool)
      modifies this`upvotedBy
      ensures removed <==> account in old(upvotedBy)
      ensures upvotedBy == old(upvotedBy) - {account}
    {
      removed := account in upvotedBy;
      upvotedBy := upvotedBy - {account};
    }

    /** `removeDownvote`: the downvote counterpart of `RemoveUpvote`. */
    method RemoveDownvote(account: Account) returns (removed: bool)
      modifies this`downvotedBy
      ensures removed <==> account in old(downvotedBy)
      ensures downvotedBy == old(downvotedBy) - {account}
    {
      removed := account in downvotedBy;
      downvotedBy := downvotedBy - {account};
    }
  }

  /** A registered user, with the perks it created, the perks and memberships it
      saved to its profile, and the (derived) sets of perks it voted on. */
  class Account {
    const id: int
    /** Set once, by `createAccount` right after `new Account()`, and never
        changed afterwards. */
    const username: Option<string>
    var password: Option<string>
    var perks: set<Perk>
    var upvotedPerks: set<Perk>
    var downvotedPerks: set<Perk>
    var memberships: set<Membership>
    var savedPerks: set<Perk>

    /** `new Account()` followed by `setUsername(username)`: no password yet
        and every collection empty. */
    constructor (id: int, username: Option<string>)
      ensures this.id == id && this.username == username && password == None
      ensures perks == {} && upvotedPerks == {} && downvotedPerks == {}
      ensures memberships == {} && savedPerks == {}
    {
      this.id, this.username := id, username;
      password := None;
      perks, upvotedPerks, downvotedPerks := {}, {}, {};
      memberships, savedPerks := {}, {};
    }

    /** `addMembership`: inserts into the memberships and nothing else. */
    method AddMembership(m: Membership)
      modifies this`memberships
      ensures memberships == old(memberships) + {m}
      ensures HasMembership(m.id)
    {
      memberships := memberships + {m};
    }

    /** `removeMembership`: deletes from the memberships and nothing else. */
    method RemoveMembership(m: Membership)
      modifies this`memberships
      ensures memberships == old(memberships) - {m}
    {
      memberships := memberships - {m};
    }

    /** `hasMembership(id)`: some linked membership has this id. */
    predicate HasMembership(id: int)
      reads this
    {
      exists m :: m in memberships && m.id == id
    }

    /** `addPerk`: records a perk this account created. */
    method AddPerk(p: Perk)
      modifies this`perks
      ensures perks == old(perks) + {p}
    {
      perks := perks + {p};
    }

    /** `removePerk(perk)`: reports whether it was one of the created perks;
        afterwards it is not. */
    method RemovePerk(p: Perk) returns (removed: bool)
      modifies this`perks
      ensures removed <==> p in old(perks)
      ensures perks == old(perks) - {p}
    {
      removed := p in perks;
      perks := perks - {p};
    }

    /** `removePerkById`: removes and returns some created perk with this id
        (the set has no order, so which one is not determined), or returns
        `null` and leaves the created perks alone. */
    method RemovePerkById(id: int) returns (removed: Perk?)
      modifies this`perks
      ensures removed == null <==> forall p :: p in old(perks) ==> p.id != id
      ensures removed != null ==> removed in old(perks) && removed.id == id
      ensures perks == if removed == null then old(perks) else old(perks) - {removed}
    {
      if p :| p in perks && p.id == id {
        perks := perks - {p};
        removed := p;
      } else {
        removed := null;
      }
    }

    /** `addPerkToProfile`: saves a perk; afterwards `HasPerk(p.id)`. */
    method AddPerkToProfile(p: Perk)
      modifies this`savedPerks
      ensures savedPerks == old(savedPerks) + {p}
      ensures HasPerk(p.id)
    {
      savedPerks := savedPerks + {p};
    }

    /** `removePerkFromProfile`: unsaves this very perk object. */
    method RemovePerkFromProfile(p: Perk)
      modifies this`savedPerks
      ensures savedPerks == old(savedPerks) - {p}
    {
      savedPerks := savedPerks - {p};
    }

    /** `hasPerk(id)`: some saved perk has this id. */
    predicate HasPerk(id: int)
      reads this
    {
      exists p :: p in savedPerks && p.id == id
    }
  }
}
