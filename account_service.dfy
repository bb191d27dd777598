/** `services/AccountService.java`: creating accounts under unique usernames,
    looking them up, and linking perks and memberships to them. The password
    encoder is a parameter: the model knows nothing about it beyond being a
    function of the plain text. */
module AccountService {
  import opened Common
  import opened Records
  import opened Model
  import opened Repositories

  /** No two accounts of `s` share a username. */
  ghost predicate UniqueUsernames(s: seq<Account>)
  {
    forall i, j :: 0 <= i < j < |s| && s[i].username.Some? ==> s[i].username != s[j].username
  }

  /** Appending an account under a name nobody in the list has keeps the
      usernames unique. */
  lemma AppendKeepsUnique(s: seq<Account>, a: Account, name: string)
    requires UniqueUsernames(s) && FirstAccountNamed(s, name).None? && a.username == Some(name)
    ensures UniqueUsernames(s + [a])
  {
    var t := s + [a];
    forall i, j | 0 <= i < j < |t| && t[i].username.Some?
      ensures t[i].username != t[j].username
    {
      if j == |s| {
        assert t[i] in s;
      } else {
        assert t[i] == s[i] && t[j] == s[j];
      }
    }
  }

  /** How `createAccount` ends: an `IllegalArgumentException("Username already
      exists")`, or the saved account. */
  datatype CreateOutcome = UsernameTaken | Created(account: Account)

  /** `createAccount`: a taken username is refused and nothing is saved;
      otherwise exactly one new account is saved, holding the username and the
      encoded password, and it is what a lookup by that username finds. Either
      way usernames stay unique. */
  method CreateAccount(repo: AccountRepository, username: string, password: string, encode: string -> string)
    returns (outcome: CreateOutcome)
    requires repo.Valid()
    modifies repo
    ensures repo.Valid()
    ensures outcome.UsernameTaken? <==> old(repo.FindByUsername(username)).Some?
    ensures outcome.UsernameTaken? ==> repo.accounts == old(repo.accounts) && repo.nextId == old(repo.nextId)
    ensures outcome.Created? ==>
      && fresh(outcome.account)
      && repo.accounts == old(repo.accounts) + [outcome.account]
      && outcome.account.username == Some(username)
      && outcome.account.password == Some(encode(password))
      && repo.FindByUsername(username) == Some(outcome.account)
    ensures old(UniqueUsernames(repo.accounts)) ==> UniqueUsernames(repo.accounts)
  {
    if repo.FindByUsername(username).Some? {
      return UsernameTaken;
    }
    var account := SaveAccount(repo, username, encode(password));
    outcome := Created(account);
  }

  /** The second half of `createAccount`: a new account under a name nobody
      has is saved, a lookup by that name finds it, and usernames that were
      unique stay unique. */
  method SaveAccount(repo: AccountRepository, username: string, encoded: string) returns (account: Account)
    requires repo.Valid() && repo.FindByUsername(username).None?
    modifies repo
    ensures repo.Valid() && fresh(account)
    ensures repo.accounts == old(repo.accounts) + [account] && repo.nextId == old(repo.nextId) + 1
    ensures account.username == Some(username) && account.password == Some(encoded)
    ensures repo.FindByUsername(username) == Some(account)
    ensures old(UniqueUsernames(repo.accounts)) ==> UniqueUsernames(repo.accounts)
  {
    ghost var before := repo.accounts;
    ghost var unique := UniqueUsernames(before);
    account := NewAccount(repo.nextId, username, encoded);
    repo.SaveNew(account);
    assert repo.accounts == before + [account];
    FirstAccountNamedAppend(before, account, username);
    if unique {
      AppendKeepsUnique(before, account, username);
    }
  }

  /** `new Account()` followed by `setUsername` and `setPassword`. */
  method NewAccount(id: int, username: string, password: string) returns (a: Account)
    ensures fresh(a) && a.id == id
    ensures a.username == Some(username) && a.password == Some(password)
  {
    a := new Account(id, Some(username));
    a.password := Some(password);
  }

  /** Looking a name up in a list with one more account at the end finds that
      account when the list had none of that name. */
  lemma {:induction false} FirstAccountNamedAppend(s: seq<Account>, a: Account, name: string)
    requires FirstAccountNamed(s, name).None? && a.username == Some(name)
    ensures FirstAccountNamed(s + [a], name) == Some(a)
  {
    if s != [] {
      assert (s + [a])[1..] == s[1..] + [a];
      FirstAccountNamedAppend(s[1..], a, name);
    } else {
      assert [a][1..] == [];
    }
  }

  /** `linkPerkToCreator`: the perk joins the account's created perks, points
      back at the account, and the account is saved. */
  method LinkPerkToCreator(repo: AccountRepository, account: Account, perk: Perk)
    modifies repo`accounts, account`perks, perk`creator
    ensures account.perks == old(account.perks) + {perk}
    ensures perk.creator == account
    ensures repo.accounts == if account in old(repo.accounts) then old(repo.accounts) else old(repo.accounts) + [account]
  {
    account.AddPerk(perk);
    perk.creator := account;
    repo.Save(account);
  }

  /** `addMembership`: the membership joins the account's memberships and the
      account is saved. Adding one the account already holds changes nothing. */
  method AddMembership(repo: AccountRepository, account: Account, membership: Membership)
    modifies repo`accounts, account`memberships
    ensures account.memberships == old(account.memberships) + {membership}
    ensures account.HasMembership(membership.id)
    ensures repo.accounts == if account in old(repo.accounts) then old(repo.accounts) else old(repo.accounts) + [account]
  {
    account.AddMembership(membership);
    repo.Save(account);
  }
}
