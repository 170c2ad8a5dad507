/** The service's account state: the user store, seeded with three demo
    users and keyed by email, and the store of refresh tokens that have not
    been revoked. Password hashing is a parameter. */
module Accounts {
  import opened Common

  /** A user as stored: the plain password has been replaced by its hash. */
  datatype StoredUser = StoredUser(
    id: int,
    email: string,
    username: string,
    fullName: string,
    role: string,
    isActive: bool,
    hashedPassword: string)

  /** A demo user as written in the seed list, plain password included. */
  datatype DemoUser = DemoUser(
    id: int,
    email: string,
    username: string,
    fullName: string,
    role: string,
    isActive: bool,
    password: string)

  const DemoUsers: seq<DemoUser> := [
    DemoUser(1, "admin@example.com", "admin", "Admin User", "admin", true, "admin123"),
    DemoUser(2, "user@example.com", "user", "Regular User", "user", true, "user123"),
    DemoUser(3, "viewer@example.com", "viewer", "Viewer User", "viewer", true, "viewer123")
  ]

  /** The stored form of a demo user: every field kept, the password hashed. */
  function Hashed(d: DemoUser, hash: string -> string): (u: StoredUser)
    ensures u.id == d.id && u.email == d.email && u.role == d.role && u.isActive == d.isActive
    ensures u.username == d.username && u.fullName == d.fullName
    ensures u.hashedPassword == hash(d.password)
  {
    StoredUser(d.id, d.email, d.username, d.fullName, d.role, d.isActive, hash(d.password))
  }

  /** The first `n` demo users keyed by email. */
  function SeedUpTo(hash: string -> string, n: nat): map<string, StoredUser>
    requires n <= |DemoUsers|
  {
    if n == 0 then map[]
    else SeedUpTo(hash, n - 1)[DemoUsers[n - 1].email := Hashed(DemoUsers[n - 1], hash)]
  }

  /** Adding the next demo user to a store holding the first `n`. */
  lemma SeedStep(m: map<string, StoredUser>, hash: string -> string, n: nat)
    requires n < |DemoUsers|
    ensures (m + SeedUpTo(hash, n))[DemoUsers[n].email := Hashed(DemoUsers[n], hash)] == m + SeedUpTo(hash, n + 1)
  {
  }

  /** What seeding stores: each demo user under its own email, active, with
      its role and id, and the hash of its password. */
  lemma SeedContents(hash: string -> string)
    ensures SeedUpTo(hash, 3).Keys == {"admin@example.com", "user@example.com", "viewer@example.com"}
    ensures forall i :: 0 <= i < |DemoUsers| ==>
              SeedUpTo(hash, 3)[DemoUsers[i].email] == Hashed(DemoUsers[i], hash)
              && SeedUpTo(hash, 3)[DemoUsers[i].email].id == i + 1
              && SeedUpTo(hash, 3)[DemoUsers[i].email].isActive
  {
    var m := SeedUpTo(hash, 3);
    assert m == map[DemoUsers[0].email := Hashed(DemoUsers[0], hash),
                    DemoUsers[1].email := Hashed(DemoUsers[1], hash),
                    DemoUsers[2].email := Hashed(DemoUsers[2], hash)];
  }

  /** The user store: a dict from email to user, in insertion order. */
  class UserStore {
    var users: map<string, StoredUser>
    /** The keys of `users` in insertion order, as a Python dict keeps them. */
    var order: seq<string>

    ghost predicate Valid()
      reads this
    {
      && (forall e :: e in users <==> e in order)
      && (forall i, j :: 0 <= i < j < |order| ==> order[i] != order[j])
    }

    /** A new store holds exactly the three demo users. */
    constructor(hash: string -> string)
      ensures Valid()
      ensures users == SeedUpTo(hash, 3)
    {
      users := map[];
      order := [];
      new;
      SeedDemoUsers(hash);
    }

    /** `users[email] = user`: a new key goes to the end of the order. */
    method Put(email: string, user: StoredUser)
      requires Valid()
      modifies this
      ensures Valid()
      ensures users == old(users)[email := user]
      ensures order == if email in old(users) then old(order) else old(order) + [email]
    {
      if email !in users {
        order := order + [email];
      }
      users := users[email := user];
    }

    /** `seed_demo_users`: stores each demo user by email, password hashed. */
    method SeedDemoUsers(hash: string -> string)
      requires Valid()
      modifies this
      ensures Valid()
      ensures users == old(users) + SeedUpTo(hash, 3)
    {
      for i := 0 to |DemoUsers|
        invariant Valid()
        invariant users == old(users) + SeedUpTo(hash, i)
      {
        var d := DemoUsers[i];
        SeedStep(old(users), hash, i);
        Put(d.email, Hashed(d, hash));
      }
    }

    /** `get_user_by_email`: the user stored under the email, if any. */
    function GetUserByEmail(email: string): (r: Option<StoredUser>)
      reads this
      ensures r.Some? <==> email in users
      ensures r.Some? ==> r.value == users[email]
    {
      if email in users then Some(users[email]) else None
    }

    /** `get_user_by_id`: the first user, in insertion order, with the id. */
    method GetUserById(id: int) returns (r: Option<StoredUser>)
      requires Valid()
      ensures r.None? <==> forall e :: e in users ==> users[e].id != id
      ensures r.Some? ==> exists k :: 0 <= k < |order| && users[order[k]] == r.value && r.value.id == id
                            && forall m :: 0 <= m < k ==> users[order[m]].id != id
    {
      for k := 0 to |order|
        invariant forall m :: 0 <= m < k ==> users[order[m]].id != id
      {
        var user := users[order[k]];
        if user.id == id {
          return Some(user);
        }
      }
      forall e | e in users ensures users[e].id != id {
        var m :| 0 <= m < |order| && order[m] == e;
      }
      return None;
    }
  }

  /** The refresh tokens not yet revoked, each with the id of its user. */
  class RefreshTokenStore {
    var tokens: map<string, int>

    constructor()
      ensures tokens == map[]
    {
      tokens := map[];
    }

    /** `is_valid`: the token is in the store. */
    predicate IsValid(token: string)
      reads this
    {
      token in tokens
    }

    /** `store_token`: the token becomes valid for the user, replacing any
        earlier user of the same token. */
    method StoreToken(token: string, userId: int)
      modifies this
      ensures tokens == old(tokens)[token := userId]
      ensures IsValid(token) && tokens[token] == userId
    {
      tokens := tokens[token := userId];
    }

    /** `revoke_token`: the token is no longer valid; an absent one is ignored
        and every other token is kept. */
    method RevokeToken(token: string)
      modifies this
      ensures tokens == old(tokens) - {token}
      ensures !IsValid(token)
      ensures token !in old(tokens) ==> tokens == old(tokens)
    {
      if token in tokens {
        tokens := tokens - {token};
      }
    }

    /** `revoke_all_user_tokens`: drops every token of the user and keeps the
        tokens of everyone else. */
    method RevokeAllUserTokens(userId: int)
      modifies this
      ensures forall t :: t in tokens ==> tokens[t] != userId
      ensures forall t :: t in old(tokens) && old(tokens)[t] != userId ==> t in tokens && tokens[t] == old(tokens)[t]
      ensures tokens.Keys <= old(tokens).Keys
      ensures tokens == old(tokens) - (set t | t in old(tokens) && old(tokens)[t] == userId)
      ensures forall t :: t in old(tokens) && old(tokens)[t] == userId ==> !IsValid(t)
    {
      var toRevoke := set t | t in tokens && tokens[t] == userId;
      ghost var all := toRevoke;
      while toRevoke != {}
        invariant toRevoke <= all
        invariant tokens == old(tokens) - (all - toRevoke)
        decreases toRevoke
      {
        var t :| t in toRevoke;
        tokens := tokens - {t};
        toRevoke := toRevoke - {t};
      }
    }
  }
}
