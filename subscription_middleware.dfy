/** `validateStatus`: lets a request through only for a user who is trialing or active. */
module SubscriptionMiddleware {
  import opened Wrappers
  import opened Http
  import opened Database
  import opened SubscriptionServices

  /** Either `next()` is called, or a response ends the request. */
  datatype Admission = Admit | Refuse(response: Response<()>)

  /** The middleware's decision on the outcome of `checkStatus`. */
  function Gate(status: Result<Status, string>): (r: Admission)
    ensures r.Admit? <==> status == Ok(Trialing) || status == Ok(Active)
    ensures status.Ok? && (status.value == Eligible || status.value == NoPlan) ==> r == Refuse(Error(401, "Access denied"))
    ensures status.Err? ==> r == Refuse(Error(500, status.error))
  {
    match status
    case Err(message) => Refuse(Error(500, message))
    case Ok(s) => if s != Trialing && s != Active then Refuse(Error(401, "Access denied")) else Admit
  }

  /** `validateStatus` for the authenticated user `req.user.userId`. */
  function ValidateStatus(db: Database, userId: nat, now: int): (r: Admission)
    reads db
    ensures r.Admit? <==> db.outage.None? && exists row :: row in db.subscriptions && IsCurrent(row, userId, now)
  {
    Gate(CheckStatus(db, userId, now))
  }

  /** A user whose trial was just started is let through for the whole three days. */
  lemma AdmittedDuringTrial(rows: seq<Subscription>, userId: nat, now: int, t: int)
    requires StatusOf(rows, userId, now) == Eligible
    requires now <= t < now + TrialLength
    ensures Gate(Ok(StatusOf(rows + [TrialRow(userId, now)], userId, t))) == Admit
  {
    TrialLifecycle(rows, userId, now, t);
  }
}
