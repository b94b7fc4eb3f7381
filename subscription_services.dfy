/**
 * A user's subscription status, decided from the subscriptions table and the
 * current time: "trialing" or "active" while some row of the user covers the
 * current time, otherwise "eligible" if the user never had a trial and "none"
 * if they had one. `SetTrial` inserts a three-day trial starting now.
 */
module SubscriptionServices {
  import opened Wrappers
  import opened Database

  datatype Status = Trialing | Active | Eligible | NoPlan

  datatype TrialStarted = TrialStarted(message: string, endDate: int)

  const Trial: string := "trial"
  const Day: int := 86_400_000
  const TrialLength: int := 3 * Day

  /** The row covers `now` for the user: start_date <= now < end_date. */
  predicate IsCurrent(row: Subscription, userId: nat, now: int)
  {
    row.userId == userId && row.start <= now < row.end
  }

  predicate IsTrialOf(row: Subscription, userId: nat)
  {
    row.userId == userId && row.planType == Trial
  }

  /**
   * `checkSubscription`: `rows[0]` of the matching rows. SQL gives no order, so
   * the contract only promises some current row, and one whenever there is one.
   */
  function CheckSubscription(rows: seq<Subscription>, userId: nat, now: int): (r: Option<Subscription>)
    ensures r.Some? ==> r.value in rows && IsCurrent(r.value, userId, now)
    ensures r.None? <==> forall row :: row in rows ==> !IsCurrent(row, userId, now)
  {
    if rows == [] then None
    else if IsCurrent(rows[0], userId, now) then Some(rows[0])
    else CheckSubscription(rows[1..], userId, now)
  }

  /** `checkTrial`: the user has never had a trial row. */
  function CheckTrial(rows: seq<Subscription>, userId: nat): (eligible: bool)
    ensures eligible <==> forall row :: row in rows ==> !IsTrialOf(row, userId)
  {
    if rows == [] then true
    else !IsTrialOf(rows[0], userId) && CheckTrial(rows[1..], userId)
  }

  /** `checkStatus` on the table's contents. */
  function StatusOf(rows: seq<Subscription>, userId: nat, now: int): (s: Status)
    ensures s == Trialing ==> exists row :: row in rows && IsCurrent(row, userId, now) && row.planType == Trial
    ensures s == Active ==> exists row :: row in rows && IsCurrent(row, userId, now) && row.planType != Trial
    ensures (s == Trialing || s == Active) <==> exists row :: row in rows && IsCurrent(row, userId, now)
    ensures s == Eligible <==>
      (forall row :: row in rows ==> !IsCurrent(row, userId, now)) && (forall row :: row in rows ==> !IsTrialOf(row, userId))
    ensures s == NoPlan <==>
      (forall row :: row in rows ==> !IsCurrent(row, userId, now)) && (exists row :: row in rows && IsTrialOf(row, userId))
  {
    match CheckSubscription(rows, userId, now)
    case Some(current) => if current.planType == Trial then Trialing else Active
    case None => if CheckTrial(rows, userId) then Eligible else NoPlan
  }

  /** `checkStatus`: the status, or the error the failing query throws. */
  function CheckStatus(db: Database, userId: nat, now: int): (r: Result<Status, string>)
    reads db
    ensures db.outage.Some? ==> r == Err(db.outage.value)
    ensures db.outage.None? ==> r == Ok(StatusOf(db.subscriptions, userId, now))
  {
    match db.outage
    case Some(message) => Err(message)
    case None => Ok(StatusOf(db.subscriptions, userId, now))
  }

  /** The row `setTrial` inserts. */
  function TrialRow(userId: nat, now: int): Subscription
  {
    Subscription(userId, Trial, now, now + TrialLength)
  }

  /** `setTrial`: inserts one trial row from now to three days later; nothing else changes. */
  method SetTrial(db: Database, userId: nat, now: int) returns (r: Result<TrialStarted, string>)
    requires db.Valid()
    modifies db
    ensures db.Valid()
    ensures db.users == old(db.users) && db.nextUserId == old(db.nextUserId) && db.outage == old(db.outage)
    ensures old(db.outage).Some? ==> r == Err(old(db.outage).value) && db.subscriptions == old(db.subscriptions)
    ensures old(db.outage).None? ==>
      r == Ok(TrialStarted("Trial started successfully.", now + TrialLength))
      && db.subscriptions == old(db.subscriptions) + [TrialRow(userId, now)]
  {
    if db.outage.Some? {
      return Err(db.outage.value);
    }
    var trialEnd := now + TrialLength;
    db.subscriptions := db.subscriptions + [Subscription(userId, Trial, now, trialEnd)];
    r := Ok(TrialStarted("Trial started successfully.", trialEnd));
  }

  /** A row appended to the table only matters when no earlier row is current. */
  lemma {:induction false} CheckSubscriptionAppend(rows: seq<Subscription>, row: Subscription, userId: nat, now: int)
    ensures CheckSubscription(rows + [row], userId, now)
      == if CheckSubscription(rows, userId, now).Some? then CheckSubscription(rows, userId, now)
         else if IsCurrent(row, userId, now) then Some(row) else None
  {
    if rows != [] {
      assert (rows + [row])[1..] == rows[1..] + [row];
      CheckSubscriptionAppend(rows[1..], row, userId, now);
    }
  }

  /**
   * The trial lifecycle: once an eligible user's trial row is inserted, the user
   * is never eligible again, and inside the three days the status is "trialing"
   * unless another plan of theirs covers the same moment.
   */
  lemma TrialLifecycle(rows: seq<Subscription>, userId: nat, now: int, t: int)
    requires StatusOf(rows, userId, now) == Eligible
    ensures StatusOf(rows + [TrialRow(userId, now)], userId, t) != Eligible
    ensures now <= t < now + TrialLength ==>
      StatusOf(rows + [TrialRow(userId, now)], userId, t) in {Trialing, Active}
    ensures now <= t < now + TrialLength && (forall row :: row in rows ==> !IsCurrent(row, userId, t)) ==>
      StatusOf(rows + [TrialRow(userId, now)], userId, t) == Trialing
  {
    var after := rows + [TrialRow(userId, now)];
    assert TrialRow(userId, now) in after && IsTrialOf(TrialRow(userId, now), userId);
    CheckSubscriptionAppend(rows, TrialRow(userId, now), userId, t);
  }

  /** Rows of one user never change another user's status. */
  lemma {:induction false} OtherUsersUnaffected(rows: seq<Subscription>, row: Subscription, userId: nat, now: int)
    requires row.userId != userId
    ensures StatusOf(rows + [row], userId, now) == StatusOf(rows, userId, now)
  {
    CheckSubscriptionAppend(rows, row, userId, now);
    assert forall r :: r in rows + [row] ==> r in rows || r == row;
  }

  /** At most one trial row per user: what makes a second trial impossible. */
  ghost predicate OneTrialPerUser(rows: seq<Subscription>)
  {
    forall i, j :: 0 <= i < j < |rows| && rows[i].planType == Trial && rows[j].planType == Trial ==>
      rows[i].userId != rows[j].userId
  }

  /** Appending a trial for an eligible user keeps one trial per user. */
  lemma EligibleTrialKeepsOne(rows: seq<Subscription>, userId: nat, now: int)
    requires OneTrialPerUser(rows)
    requires StatusOf(rows, userId, now) == Eligible
    ensures OneTrialPerUser(rows + [TrialRow(userId, now)])
  {
    var after := rows + [TrialRow(userId, now)];
    forall i, j | 0 <= i < j < |after| && after[i].planType == Trial && after[j].planType == Trial
      ensures after[i].userId != after[j].userId
    {
      if j == |rows| {
        assert after[i] == rows[i] && rows[i] in rows;
        assert !IsTrialOf(rows[i], userId);
      } else {
        assert after[i] == rows[i] && after[j] == rows[j];
      }
    }
  }
}
