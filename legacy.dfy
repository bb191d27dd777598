/** The first-generation entities `Perk.java` and `Account.java`, kept in the
    root package beside the newer `model` ones. Their identifiers are nullable
    `Long` columns that stay `null` until the row is saved, so they are
    `Option<int>` fields with setters. */
module Legacy {
  import opened Common
  import opened Records

  /** A perk with the sets of accounts that voted it up or down. */
  class Perk {
    var id: Option<int>
    var benefit: Option<string>
    var expiryDate: Option<Millis>
    var region: Option<string>
    var membership: Option<Membership>
    var product: Option<Product>
    var upvotes: set<Account>
    var downvotes: set<Account>

    /** `new Perk()`: every column empty, nobody has voted. */
    constructor ()
      ensures id == None && benefit == None && expiryDate == None && region == None
      ensures membership == None && product == None
      ensures upvotes == {} && downvotes == {}
    {
      id, benefit, expiryDate, region := None, None, None, None;
      membership, product := None, None;
      upvotes, downvotes := {}, {};
    }

    /** `new Perk(membership, product, benefit)`: those three fields exactly,
        nobody has voted. */
    constructor WithDetails(membership: Option<Membership>, product: Option<Product>, benefit: Option<string>)
      ensures this.membership == membership && this.product == product && this.benefit == benefit
      ensures id == None && expiryDate == None && region == None
      ensures upvotes == {} && downvotes == {}
    {
      this.membership, this.product, this.benefit := membership, product, benefit;
      id, expiryDate, region := None, None, None;
      upvotes, downvotes := {}, {};
    }

    method SetId(id: Option<int>)
      modifies this`id
      ensures this.id == id
    {
      this.id := id;
    }

    /** `getUpvotes()`: how many accounts voted up. */
    function Upvotes(): (n: nat)
      reads this
      ensures n == 0 <==> upvotes == {}
    {
      |upvotes|
    }

    /** `getDownvotes()`: how many accounts voted down. */
    function Downvotes(): (n: nat)
      reads this
      ensures n == 0 <==> downvotes == {}
    {
      |downvotes|
    }

    /** `getTotalRatings()`: the votes either way, at least the votes in each
        direction. */
    function TotalRatings(): (n: nat)
      reads this
      ensures n >= Upvotes() && n >= Downvotes()
      ensures n == 0 <==> upvotes == {} && downvotes == {}
    {
      |upvotes| + |downvotes|
    }

    /** `getRating()`: the up votes outweighing the down votes. It lies between
        minus and plus the total, touching the top exactly when nobody voted
        down. */
    function Rating(): (r: int)
      reads this
      ensures -(TotalRatings() as int) <= r <= TotalRatings()
      ensures r == TotalRatings() <==> downvotes == {}
      ensures r > 0 <==> Upvotes() > Downvotes()
    {
      |upvotes| - |downvotes|
    }

    /** `setUpvoteList`: the set is replaced, and `getUpvoteList` returns the
        new one. */
    method SetUpvoteList(accounts: set<Account>)
      modifies this`upvotes
      ensures upvotes == accounts && Upvotes() == |accounts|
    {
      upvotes := accounts;
    }

    /** `setDownvoteList`: the downvote counterpart of `SetUpvoteList`. */
    method SetDownvoteList(accounts: set<Account>)
      modifies this`downvotes
      ensures downvotes == accounts && Downvotes() == |accounts|
    {
      downvotes := accounts;
    }

    /** `addUpvote`: a set insertion on the up votes only; a second insertion of
        the same account changes nothing. */
    method AddUpvote(account: Account)
      modifies this`upvotes
      ensures upvotes == old(upvotes) + {account}
      ensures Upvotes() == if account in old(upvotes) then old(Upvotes()) else old(Upvotes()) + 1
    {
      if account in upvotes {
        assert upvotes + {account} == upvotes;
      } else {
        assert |upvotes + {account}| == |upvotes| + |{account}|;
      }
      upvotes := upvotes + {account};
    }

    /** `addDownvote`: a set insertion on the down votes only. */
    method AddDownvote(account: Account)
      modifies this`downvotes
      ensures downvotes == old(downvotes) + {account}
      ensures Downvotes() == if account in old(downvotes) then old(Downvotes()) else old(Downvotes()) + 1
    {
      if account in downvotes {
        assert downvotes + {account} == downvotes;
      } else {
        assert |downvotes + {account}| == |downvotes| + |{account}|;
      }
      downvotes := downvotes + {account};
    }

    /** `removeUpvote`: true exactly when the account had voted up, which it no
        longer has, so a second removal reports false. */
    method RemoveUpvote(account: Account) returns (removed: bool)
      modifies this`upvotes
      ensures removed <==> account in old(upvotes)
      ensures upvotes == old(upvotes) - {account} && account !in upvotes
    {
      removed := account in upvotes;
      upvotes := upvotes - {account};
    }

    /** `removeDownvote`: the downvote counterpart of `RemoveUpvote`. */
    method RemoveDownvote(account: Account) returns (removed: bool)
      modifies this`downvotes
      ensures removed <==> account in old(downvotes)
      ensures downvotes == old(downvotes) - {account} && account !in downvotes
    {
      removed := account in downvotes;
      downvotes := downvotes - {account};
    }
  }

  /** How `removePerk(Long id)` ends: the perk it removed, `null` when no perk
      matched, or a null-dereference exception when the loop reached a perk that
      was never saved. */
  datatype RemoveByIdOutcome = Removed(perk: Perk) | NoMatch | UnsavedPerk

  /** An account with a username, a password and the perks it created. */
  class Account {
    var id: Option<int>
    var username: Option<string>
    var password: Option<string>
    var perks: set<Perk>

    /** `new Account()`: no credentials and no perks. */
    constructor ()
      ensures id == None && username == None && password == None && perks == {}
    {
      id, username, password, perks := None, None, None, {};
    }

    /** `new Account(username, password)`: those credentials and no perks. */
    constructor WithCredentials(username: Option<string>, password: Option<string>)
      ensures this.username == username && this.password == password
      ensures id == None && perks == {}
    {
      this.username, this.password := username, password;
      id, perks := None, {};
    }

    method SetId(id: Option<int>)
      modifies this`id
      ensures this.id == id
    {
      this.id := id;
    }

    method SetPassword(password: Option<string>)
      modifies this`password
      ensures this.password == password
    {
      this.password := password;
    }

    /** `isCorrectPassword(s)`: exact equality with the stored password, `null`
        never matching; `None` when no password is stored and the call throws. */
    function IsCorrectPassword(s: Option<string>): (r: Option<bool>)
      reads this
      ensures r.None? <==> password.None?
      ensures r == Some(true) <==> password.Some? && s == password
    {
      if password.None? then None else Some(s == password)
    }

    /** `setPerks`: the set is replaced, and `getPerks` returns the new one. */
    method SetPerks(perks: set<Perk>)
      modifies this`perks
      ensures this.perks == perks
    {
      this.perks := perks;
    }

    /** `addPerk`: a set insertion. */
    method AddPerk(p: Perk)
      modifies this`perks
      ensures perks == old(perks) + {p}
    {
      perks := perks + {p};
    }

    /** `removePerk(perk)`: true exactly when the perk was there, which it no
        longer is, so a second removal reports false. */
    method RemovePerk(p: Perk) returns (removed: bool)
      modifies this`perks
      ensures removed <==> p in old(perks)
      ensures perks == old(perks) - {p} && p !in perks
    {
      removed := p in perks;
      perks := perks - {p};
    }

    /** `removePerk(Long id)`: walks the perks in the set's own order and
        removes and returns the first whose id equals `id`. A `null` id matches
        nothing. Reaching an unsaved perk first throws, changing nothing. When
        every perk is saved, the outcome depends only on whether some perk has
        the id. */
    method RemovePerkById(id: Option<int>) returns (outcome: RemoveByIdOutcome)
      modifies this`perks
      ensures outcome.Removed? ==>
        && id.Some? && outcome.perk in old(perks) && outcome.perk.id == id
        && perks == old(perks) - {outcome.perk}
      ensures !outcome.Removed? ==> perks == old(perks)
      ensures outcome.NoMatch? ==> forall p :: p in old(perks) ==> p.id.Some? && p.id != id
      ensures outcome.UnsavedPerk? ==> exists p :: p in old(perks) && p.id.None?
      ensures (forall p :: p in old(perks) ==> p.id.Some?) ==>
        (outcome.NoMatch? <==> forall p :: p in old(perks) ==> p.id != id) && !outcome.UnsavedPerk?
    {
      var remaining := perks;
      while remaining != {}
        invariant remaining <= perks && perks == old(perks)
        invariant forall p :: p in perks && p !in remaining ==> p.id.Some? && p.id != id
        decreases remaining
      {
        var p :| p in remaining;
        if p.id.None? {
          return UnsavedPerk;
        }
        if id.Some? && p.id.value == id.value {
          perks := perks - {p};
          return Removed(p);
        }
        remaining := remaining - {p};
      }
      outcome := NoMatch;
    }
  }
}
