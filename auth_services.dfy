/**
 * Accounts: registration (check-then-insert, so emails stay unique), login
 * (lookup, then password comparison) and deletion (the user's subscriptions,
 * then the user row). bcrypt's `hash`/`compare` and jwt's `sign` are oracles.
 */
module AuthServices {
  import opened Wrappers
  import opened Database
  import opened SubscriptionServices

  /** What register and login return: the user's public columns and a token; never the hash. */
  datatype Account = Account(id: nat, name: string, email: string, token: string)

  /** `getUserByEmail`: the first row with that email. */
  function FindByEmail(users: seq<User>, email: string): (r: Option<User>)
    ensures r.Some? ==> r.value in users && r.value.email == email
    ensures r.None? <==> forall u :: u in users ==> u.email != email
  {
    if users == [] then None
    else if users[0].email == email then Some(users[0])
    else FindByEmail(users[1..], email)
  }

  /** `getUserById`: the first row with that id. */
  function FindById(users: seq<User>, id: nat): (r: Option<User>)
    ensures r.Some? ==> r.value in users && r.value.id == id
    ensures r.None? <==> forall u :: u in users ==> u.id != id
  {
    if users == [] then None
    else if users[0].id == id then Some(users[0])
    else FindById(users[1..], id)
  }

  /** `DELETE FROM users WHERE id = $1`. */
  function UsersWithout(users: seq<User>, id: nat): (r: seq<User>)
    ensures forall u :: u in r <==> u in users && u.id != id
    ensures forall u :: multiset(r)[u] == if u.id == id then 0 else multiset(users)[u]
  {
    if users == [] then []
    else
      assert users == [users[0]] + users[1..];
      (if users[0].id == id then [] else [users[0]]) + UsersWithout(users[1..], id)
  }

  /** `DELETE FROM subscriptions WHERE user_id = $1`. */
  function SubscriptionsWithout(rows: seq<Subscription>, userId: nat): (r: seq<Subscription>)
    ensures forall row :: row in r <==> row in rows && row.userId != userId
    ensures forall row :: multiset(r)[row] == if row.userId == userId then 0 else multiset(rows)[row]
  {
    if rows == [] then []
    else
      assert rows == [rows[0]] + rows[1..];
      (if rows[0].userId == userId then [] else [rows[0]]) + SubscriptionsWithout(rows[1..], userId)
  }

  method RegisterUser(db: Database, name: string, email: string, password: string,
                      hash: string -> string, sign: nat -> string) returns (r: Result<Account, string>)
    requires db.Valid()
    modifies db
    ensures db.Valid()
    ensures db.subscriptions == old(db.subscriptions) && db.outage == old(db.outage)
    ensures old(db.outage).Some? ==> r == Err(old(db.outage).value) && unchanged(db)
    ensures old(db.outage).None? && FindByEmail(old(db.users), email).Some? ==>
      r == Err("User already exists") && unchanged(db)
    ensures old(db.outage).None? && FindByEmail(old(db.users), email).None? ==>
      var id := old(db.nextUserId);
      && db.users == old(db.users) + [User(id, name, email, hash(password))]
      && db.nextUserId == id + 1
      && r == Ok(Account(id, name, email, sign(id)))
  {
    if db.outage.Some? {
      return Err(db.outage.value);
    }
    var existingUser := FindByEmail(db.users, email);
    if existingUser.Some? {
      return Err("User already exists");
    }
    var hashedPassword := hash(password);
    var id := db.nextUserId;
    db.users := db.users + [User(id, name, email, hashedPassword)];
    db.nextUserId := id + 1;
    r := Ok(Account(id, name, email, sign(id)));
  }

  method LoginUser(db: Database, email: string, password: string,
                   compare: (string, string) -> bool, sign: nat -> string) returns (r: Result<Account, string>)
    ensures db.outage.Some? ==> r == Err(db.outage.value)
    ensures db.outage.None? && FindByEmail(db.users, email).None? ==> r == Err("User does not exist")
    ensures db.outage.None? && FindByEmail(db.users, email).Some? ==>
      var user := FindByEmail(db.users, email).value;
      r == if compare(password, user.password) then Ok(Account(user.id, user.name, user.email, sign(user.id)))
           else Err("Invalid password")
  {
    if db.outage.Some? {
      return Err(db.outage.value);
    }
    var user := FindByEmail(db.users, email);
    if user.None? {
      return Err("User does not exist");
    }
    var isMatch := compare(password, user.value.password);
    if !isMatch {
      return Err("Invalid password");
    }
    var token := sign(user.value.id);
    r := Ok(Account(user.value.id, user.value.name, user.value.email, token));
  }

  method RemoveUserInfo(db: Database, userId: nat) returns (r: Result<string, string>)
    requires db.Valid()
    modifies db
    ensures db.Valid()
    ensures db.nextUserId == old(db.nextUserId) && db.outage == old(db.outage)
    ensures old(db.outage).Some? ==> r == Err(old(db.outage).value) && unchanged(db)
    ensures old(db.outage).None? && FindById(old(db.users), userId).None? ==>
      r == Err("User does not exist") && unchanged(db)
    ensures old(db.outage).None? && FindById(old(db.users), userId).Some? ==>
      && r == Ok("Account deleted successfully")
      && db.subscriptions == SubscriptionsWithout(old(db.subscriptions), userId)
      && db.users == UsersWithout(old(db.users), userId)
  {
    if db.outage.Some? {
      return Err(db.outage.value);
    }
    var user := FindById(db.users, userId);
    if user.None? {
      return Err("User does not exist");
    }
    DeleteRows(db, userId);
    r := Ok("Account deleted successfully");
  }

  /** The two `DELETE` statements of `removeUserInfo`: subscriptions first, then the user row. */
  method DeleteRows(db: Database, userId: nat)
    requires db.Valid()
    modifies db
    ensures db.Valid()
    ensures db.nextUserId == old(db.nextUserId) && db.outage == old(db.outage)
    ensures db.subscriptions == SubscriptionsWithout(old(db.subscriptions), userId)
    ensures db.users == UsersWithout(old(db.users), userId)
  {
    var subscriptions := SubscriptionsWithout(db.subscriptions, userId);
    var users := UsersWithout(db.users, userId);
    RemovingKeepsValid(db.users, userId, db.nextUserId);
    db.subscriptions, db.users := subscriptions, users;
  }

  /** Deleting rows keeps ids and emails unique. */
  lemma {:induction false} RemovingKeepsValid(users: seq<User>, id: nat, nextUserId: nat)
    requires UsersValid(users, nextUserId)
    ensures UsersValid(UsersWithout(users, id), nextUserId)
  {
    if users != [] {
      TailValid(users, nextUserId);
      RemovingKeepsValid(users[1..], id, nextUserId);
      if users[0].id != id {
        HeadDistinct(users, id, nextUserId);
        ConsValid(users[0], UsersWithout(users[1..], id), nextUserId);
        assert UsersWithout(users, id) == [users[0]] + UsersWithout(users[1..], id);
      }
    }
  }

  lemma TailValid(users: seq<User>, nextUserId: nat)
    requires UsersValid(users, nextUserId) && users != []
    ensures UsersValid(users[1..], nextUserId)
  {
    var tail := users[1..];
    forall i, j | 0 <= i < j < |tail| ensures tail[i].id != tail[j].id && tail[i].email != tail[j].email {
      assert tail[i] == users[i + 1] && tail[j] == users[j + 1];
    }
  }

  /** The first user differs in id and email from every later user that survives a deletion. */
  lemma HeadDistinct(users: seq<User>, id: nat, nextUserId: nat)
    requires UsersValid(users, nextUserId) && users != []
    ensures users[0].id < nextUserId
    ensures forall u :: u in UsersWithout(users[1..], id) ==> u.id != users[0].id && u.email != users[0].email
  {
    forall u | u in UsersWithout(users[1..], id) ensures u.id != users[0].id && u.email != users[0].email {
      var k :| 0 <= k < |users[1..]| && users[1..][k] == u;
      assert users[k + 1] == u;
    }
  }

  /** A valid table stays valid when a user with a fresh id and email is put in front. */
  lemma ConsValid(user: User, rest: seq<User>, nextUserId: nat)
    requires UsersValid(rest, nextUserId) && user.id < nextUserId
    requires forall u :: u in rest ==> u.id != user.id && u.email != user.email
    ensures UsersValid([user] + rest, nextUserId)
  {
    var r := [user] + rest;
    forall i, j | 0 <= i < j < |r| ensures r[i].id != r[j].id && r[i].email != r[j].email {
      assert r[j] == rest[j - 1] && r[j] in rest;
      if i > 0 {
        assert r[i] == rest[i - 1];
      }
    }
    forall i | 0 <= i < |r| ensures r[i].id < nextUserId {
      if i > 0 {
        assert r[i] == rest[i - 1];
      }
    }
  }

  /** A user registered under a fresh email is the one found by that email afterwards. */
  lemma {:induction false} RegisteredUserFound(users: seq<User>, user: User)
    requires FindByEmail(users, user.email).None?
    ensures FindByEmail(users + [user], user.email) == Some(user)
  {
    if users != [] {
      assert (users + [user])[1..] == users[1..] + [user];
      RegisteredUserFound(users[1..], user);
    }
  }

  /**
   * Register then login: with the bcrypt law compare(p, hash(p)), the new user's
   * email and password pass both checks of login.
   */
  lemma RegisterThenLogin(users: seq<User>, id: nat, name: string, email: string, password: string,
                          hash: string -> string, compare: (string, string) -> bool)
    requires FindByEmail(users, email).None?
    requires forall p :: compare(p, hash(p))
    ensures FindByEmail(users + [User(id, name, email, hash(password))], email) == Some(User(id, name, email, hash(password)))
    ensures compare(password, FindByEmail(users + [User(id, name, email, hash(password))], email).value.password)
  {
    RegisteredUserFound(users, User(id, name, email, hash(password)));
  }

  /** Email uniqueness makes the lookup exact: the user found is the only row with that email. */
  lemma UniqueEmailLookup(users: seq<User>, nextUserId: nat, i: nat)
    requires UsersValid(users, nextUserId) && i < |users|
    ensures FindByEmail(users, users[i].email) == Some(users[i])
  {
    var found := FindByEmail(users, users[i].email).value;
    var k :| 0 <= k < |users| && users[k] == found;
    assert k == i;
  }

  /** Deleting a user leaves every other user's subscription status as it was. */
  lemma {:induction false} DeletionKeepsOthersStatus(rows: seq<Subscription>, removed: nat, userId: nat, now: int)
    requires removed != userId
    ensures StatusOf(SubscriptionsWithout(rows, removed), userId, now) == StatusOf(rows, userId, now)
  {
    SameRowsSameChoice(rows, removed, userId, now);
  }

  lemma {:induction false} SameRowsSameChoice(rows: seq<Subscription>, removed: nat, userId: nat, now: int)
    requires removed != userId
    ensures CheckSubscription(SubscriptionsWithout(rows, removed), userId, now) == CheckSubscription(rows, userId, now)
  {
    if rows != [] {
      SameRowsSameChoice(rows[1..], removed, userId, now);
      var rest := SubscriptionsWithout(rows[1..], removed);
      if rows[0].userId != removed {
        assert SubscriptionsWithout(rows, removed) == [rows[0]] + rest;
        assert ([rows[0]] + rest)[1..] == rest;
      } else {
        assert SubscriptionsWithout(rows, removed) == rest;
      }
    }
  }

  /** After deletion the removed user has no rows left: no current plan and no trial on record. */
  lemma DeletedUserHasNoPlan(rows: seq<Subscription>, removed: nat, now: int)
    ensures StatusOf(SubscriptionsWithout(rows, removed), removed, now) == Eligible
  {
  }
}
