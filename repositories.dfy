/** In-memory stand-ins for the JPA repositories: each keeps its rows in the
    order `findAll()` returns them and hands out fresh identifiers. Saving an
    entity that is already stored changes nothing (the row is the object);
    saving a new one appends it. */
module Repositories {
  import opened Common
  import opened Records
  import opened Model

  /** The first perk of `s` with this id (`findById`). */
  function FirstPerkWithId(s: seq<Perk>, id: int): (r: Option<Perk>)
    ensures r.Some? ==> r.value in s && r.value.id == id
    ensures r.None? <==> forall p :: p in s ==> p.id != id
  {
    if s == [] then None
    else if s[0].id == id then Some(s[0])
    else FirstPerkWithId(s[1..], id)
  }

  /** The first membership of `s` with this id (`findById`). */
  function FirstMembershipWithId(s: seq<Membership>, id: int): (r: Option<Membership>)
    ensures r.Some? ==> r.value in s && r.value.id == id
    ensures r.None? <==> forall m :: m in s ==> m.id != id
  {
    if s == [] then None
    else if s[0].id == id then Some(s[0])
    else FirstMembershipWithId(s[1..], id)
  }

  /** The first product of `s` with this id (`ProductService.findById`). */
  function FirstProductWithId(s: seq<Product>, id: int): (r: Option<Product>)
    ensures r.Some? ==> r.value in s && r.value.id == id
    ensures r.None? <==> forall q :: q in s ==> q.id != id
  {
    if s == [] then None
    else if s[0].id == id then Some(s[0])
    else FirstProductWithId(s[1..], id)
  }

  /** The first account of `s` whose username is `name` (`findByUsername`). */
  function FirstAccountNamed(s: seq<Account>, name: string): (r: Option<Account>)
    ensures r.Some? ==> r.value in s && r.value.username == Some(name)
    ensures r.None? <==> forall a :: a in s ==> a.username != Some(name)
  {
    if s == [] then None
    else if s[0].username == Some(name) then Some(s[0])
    else FirstAccountNamed(s[1..], name)
  }

  class PerkRepository {
    var all: seq<Perk>
    var nextId: int

    /** Stored perks have distinct ids, all below the next one handed out. */
    ghost predicate Valid()
      reads this
    {
      && (forall i, j :: 0 <= i < j < |all| ==> all[i].id != all[j].id)
      && (forall p :: p in all ==> p.id < nextId)
    }

    constructor ()
      ensures Valid() && all == []
    {
      all, nextId := [], 0;
    }

    function FindById(id: int): Option<Perk>
      reads this
    {
      FirstPerkWithId(all, id)
    }

    /** `save(perk)` for a perk that was just given the next id. */
    method SaveNew(p: Perk)
      requires Valid() && p.id == nextId
      modifies this
      ensures Valid()
      ensures all == old(all) + [p] && nextId == old(nextId) + 1
    {
      all := all + [p];
      nextId := nextId + 1;
    }
  }

  class AccountRepository {
    var accounts: seq<Account>
    var nextId: int

    /** Stored accounts have distinct ids below the next one handed out. */
    ghost predicate Valid()
      reads this
    {
      && (forall i, j :: 0 <= i < j < |accounts| ==> accounts[i].id != accounts[j].id)
      && (forall a :: a in accounts ==> a.id < nextId)
    }

    constructor ()
      ensures Valid() && accounts == []
    {
      accounts, nextId := [], 0;
    }

    function FindByUsername(name: string): (r: Option<Account>)
      reads this
      ensures r.Some? ==> r.value in accounts && r.value.username == Some(name)
      ensures r.None? <==> forall a :: a in accounts ==> a.username != Some(name)
    {
      FirstAccountNamed(accounts, name)
    }

    /** `save(account)` for an account that was just given the next id. */
    method SaveNew(a: Account)
      requires Valid() && a.id == nextId
      modifies this
      ensures Valid()
      ensures accounts == old(accounts) + [a] && nextId == old(nextId) + 1
    {
      accounts := accounts + [a];
      nextId := nextId + 1;
    }

    /** `save(account)`: a stored account stays where it is. */
    method Save(a: Account)
      modifies this`accounts
      ensures accounts == if a in old(accounts) then old(accounts) else old(accounts) + [a]
    {
      if a !in accounts {
        accounts := accounts + [a];
      }
    }
  }

  class MembershipRepository {
    var memberships: seq<Membership>
    var nextId: int

    ghost predicate Valid()
      reads this
    {
      && (forall i, j :: 0 <= i < j < |memberships| ==> memberships[i].id != memberships[j].id)
      && (forall m :: m in memberships ==> m.id < nextId)
    }

    constructor ()
      ensures Valid() && memberships == []
    {
      memberships, nextId := [], 0;
    }

    function FindById(id: int): (r: Option<Membership>)
      reads this
      ensures r.Some? ==> r.value in memberships && r.value.id == id
      ensures r.None? <==> forall m :: m in memberships ==> m.id != id
    {
      FirstMembershipWithId(memberships, id)
    }

    /** `save(membership)` for a membership that was just given the next id. */
    method SaveNew(m: Membership)
      requires Valid() && m.id == nextId
      modifies this
      ensures Valid()
      ensures memberships == old(memberships) + [m] && nextId == old(nextId) + 1
    {
      memberships := memberships + [m];
      nextId := nextId + 1;
    }
  }
}
