/**
 * The PostgreSQL tables the services query, held in memory. `outage` stands for
 * a database that rejects queries: while it is set, every query throws an error
 * carrying that message.
 */
module Database {
  import opened Wrappers

  /** A `users` row; `password` holds the bcrypt hash. */
  datatype User = User(id: nat, name: string, email: string, password: string)

  /** A `subscriptions` row; times are milliseconds since the epoch. */
  datatype Subscription = Subscription(userId: nat, planType: string, start: int, end: int)

  /** Ids are unique and below the serial counter; emails are unique. */
  ghost predicate UsersValid(users: seq<User>, nextUserId: nat)
  {
    && (forall i :: 0 <= i < |users| ==> users[i].id < nextUserId)
    && (forall i, j :: 0 <= i < j < |users| ==> users[i].id != users[j].id && users[i].email != users[j].email)
  }

  class Database {
    var users: seq<User>
    var subscriptions: seq<Subscription>
    /** The next value of the `users.id` serial column. */
    var nextUserId: nat
    var outage: Option<string>

    /** The users table keeps its keys: see `UsersValid`. */
    ghost predicate Valid()
      reads this
    {
      UsersValid(users, nextUserId)
    }

    constructor ()
      ensures Valid()
      ensures users == [] && subscriptions == [] && nextUserId == 1 && outage == None
    {
      users := [];
      subscriptions := [];
      nextUserId := 1;
      outage := None;
    }
  }
}
