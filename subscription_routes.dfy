/** `GET /status` and `POST /trial`: report the caller's status, or start their one trial. */
module SubscriptionRoutes {
  import opened Wrappers
  import opened Http
  import opened Database
  import opened SubscriptionServices

  /** `subscriptionStatus`: 200 with the status unchanged, or 500 with the thrown message. */
  method SubscriptionStatus(db: Database, userId: nat, now: int) returns (res: Response<Status>)
    ensures CheckStatus(db, userId, now).Ok? ==> res == Response(200, Json(CheckStatus(db, userId, now).value))
    ensures CheckStatus(db, userId, now).Err? ==> res == Error(500, CheckStatus(db, userId, now).error)
  {
    var result := CheckStatus(db, userId, now);
    match result
    case Ok(status) => res := Response(200, Json(status));
    case Err(message) => res := Error(500, message);
  }

  /**
   * `startTrial`: inserts a trial only for an eligible user; any other status is
   * refused with 400 and a thrown error gives 500, both leaving the table as it was.
   */
  method StartTrial(db: Database, userId: nat, now: int) returns (res: Response<TrialStarted>)
    requires db.Valid()
    modifies db
    ensures db.Valid()
    ensures db.users == old(db.users) && db.nextUserId == old(db.nextUserId) && db.outage == old(db.outage)
    ensures old(CheckStatus(db, userId, now)).Err? ==>
      res == Error(500, old(CheckStatus(db, userId, now)).error) && db.subscriptions == old(db.subscriptions)
    ensures old(CheckStatus(db, userId, now)).Ok? && old(CheckStatus(db, userId, now)).value != Eligible ==>
      res == Error(400, "No available trial") && db.subscriptions == old(db.subscriptions)
    ensures old(CheckStatus(db, userId, now)) == Ok(Eligible) ==>
      res == Response(200, Json(TrialStarted("Trial started successfully.", now + TrialLength)))
      && db.subscriptions == old(db.subscriptions) + [TrialRow(userId, now)]
    ensures OneTrialPerUser(old(db.subscriptions)) ==> OneTrialPerUser(db.subscriptions)
  {
    var check := CheckStatus(db, userId, now);
    if check.Err? {
      return Error(500, check.error);
    }
    if check.value != Eligible {
      return Error(400, "No available trial");
    }
    ghost var before := db.subscriptions;
    var result := SetTrial(db, userId, now);
    if OneTrialPerUser(before) {
      EligibleTrialKeepsOne(before, userId, now);
    }
    match result
    case Ok(started) => res := Response(200, Json(started));
    case Err(message) => res := Error(500, message);
  }
}
