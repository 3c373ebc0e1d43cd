/**
 * `TransactionInterceptor`: one transaction per request. The interceptor
 * opens a query runner, starts a transaction and publishes the runner on
 * the request; the handler works through it; then
 *   - `tap` (on the handler's value) sets `req.isTransactionSuccess`;
 *   - `catchError` (on the handler's error) rolls back, then re-raises the
 *     same error;
 *   - `finalize` calls `handleFinalize` without awaiting it: commit if the
 *     flag is set, roll back otherwise, release in any case.
 * Because `handleFinalize` is not awaited, its outcome never reaches the
 * client: an error it throws is an unhandled promise rejection.
 */
module TransactionInterceptor {
  import opened Wrappers
  import Store
  import Http

  /** The handler's work: writes through the runner, then a response or an error. */
  type Handler = Store.Tables -> (Store.Tables, Http.Outcome<string>)

  /** `handleRollback`: a failed rollback is logged and swallowed. */
  method HandleRollback(qr: Store.QueryRunner)
    modifies qr
    ensures qr.log == old(qr.log) + [Store.RolledBack(old(qr.active) && !qr.rollbackFails)]
    ensures old(qr.active) && !qr.rollbackFails ==> !qr.active && qr.data == qr.db.tables
    ensures !(old(qr.active) && !qr.rollbackFails) ==> qr.active == old(qr.active) && qr.data == old(qr.data)
    ensures qr.released == old(qr.released) && qr.connected == old(qr.connected)
  {
    var _ := qr.Rollback();
  }

  /** The commit `handleFinalize` attempts succeeds. */
  predicate Commits(success: bool, active: bool, commitFails: bool)
  {
    success && active && !commitFails
  }

  /**
   * The runner calls `handleFinalize` makes on an unreleased runner, from
   * the success flag and whether the transaction is still active.
   */
  function FinalizeEvents(success: bool, active: bool, commitFails: bool, rollbackFails: bool, isTest: bool): (log: seq<Store.Event>)
    ensures |log| >= 2 && log[|log| - 1] == Store.Released
    ensures forall i :: 0 <= i < |log| - 1 ==> log[i] != Store.Released
    ensures !success ==> forall i :: 0 <= i < |log| ==> !log[i].Committed?
    ensures Store.Committed(true) in log <==> Commits(success, active, commitFails)
    ensures (Store.RolledBack(true) in log || Store.RolledBack(false) in log) <==> !Commits(success, active, commitFails) && !(success && isTest)
  {
    if success then
      var committed := Commits(success, active, commitFails);
      [Store.Committed(committed)] + (if committed || isTest then [] else [Store.RolledBack(active && !rollbackFails)]) + [Store.Released]
    else
      [Store.RolledBack(active && !rollbackFails), Store.Released]
  }

  /**
   * The error `handleFinalize` rejects with: the commit error, outside the
   * test environment; in the test environment it is swallowed.
   */
  function FinalizeRejection(success: bool, active: bool, commitFails: bool, isTest: bool): (e: Option<Http.Exception>)
    ensures e.Some? <==> success && !Commits(success, active, commitFails) && !isTest
  {
    if success && !Commits(success, active, commitFails) && !isTest then
      Some(Http.Fault(if active then Store.QueryFailed else Store.NotStarted))
    else None
  }

  /** `handleFinalize`; the returned error is the rejection of its promise. */
  method HandleFinalize(qr: Store.QueryRunner, req: Http.Request, isTest: bool) returns (rejection: Option<Http.Exception>)
    modifies qr, qr.db
    ensures old(qr.released) ==> rejection == None && qr.log == old(qr.log) && qr.db.tables == old(qr.db.tables)
    ensures !old(qr.released) ==>
      && qr.released
      && qr.log == old(qr.log) + FinalizeEvents(req.isTransactionSuccess, old(qr.active), qr.commitFails, qr.rollbackFails, isTest)
      && rejection == FinalizeRejection(req.isTransactionSuccess, old(qr.active), qr.commitFails, isTest)
      && qr.db.tables == (if Commits(req.isTransactionSuccess, old(qr.active), qr.commitFails) then old(qr.data) else old(qr.db.tables))
  {
    rejection := None;
    if !qr.released {
      if req.isTransactionSuccess {
        var err := qr.Commit();
        if err.Some? && !isTest {
          HandleRollback(qr);
          rejection := Some(Http.Fault(err.value));
        }
      } else {
        HandleRollback(qr);
      }
      qr.Release();
    }
  }

  /** Every runner call of one intercepted request, in order. */
  function InterceptLog(handlerOk: bool, flagBefore: bool, commitFails: bool, rollbackFails: bool, isTest: bool): (log: seq<Store.Event>)
    ensures |log| >= 4 && log[0] == Store.Connected && log[1] == Store.Started
    ensures log[|log| - 1] == Store.Released && forall i :: 0 <= i < |log| - 1 ==> log[i] != Store.Released
    ensures !handlerOk && !flagBefore ==> forall i :: 0 <= i < |log| ==> !log[i].Committed?
    ensures Store.Committed(true) in log <==> (handlerOk || flagBefore) && (handlerOk || rollbackFails) && !commitFails
  {
    var success := handlerOk || flagBefore;
    [Store.Connected, Store.Started]
    + (if handlerOk then [] else [Store.RolledBack(!rollbackFails)])
    + FinalizeEvents(success, handlerOk || rollbackFails, commitFails, rollbackFails, isTest)
  }

  /**
   * `intercept` followed through to the end of the request. The client's
   * response is the handler's own value or error, whatever the commit does;
   * the database ends with all of the handler's writes or none of them.
   */
  method Intercept(req: Http.Request, db: Store.Database, commitFails: bool, rollbackFails: bool, isTest: bool, handler: Handler)
    returns (response: Http.Outcome<string>, rejection: Option<Http.Exception>, qr: Store.QueryRunner)
    modifies req, db
    ensures fresh(qr) && qr.db == db && req.queryRunner == qr && qr.released
    ensures response == handler(old(db.tables)).1
    ensures req.isTransactionSuccess == (response.Ok? || old(req.isTransactionSuccess))
    ensures qr.log == InterceptLog(response.Ok?, old(req.isTransactionSuccess), commitFails, rollbackFails, isTest)
    ensures rejection == FinalizeRejection(req.isTransactionSuccess, response.Ok? || rollbackFails, commitFails, isTest)
    ensures db.tables == if Store.Committed(true) in qr.log then handler(old(db.tables)).0 else old(db.tables)
    ensures req.user == old(req.user)
  {
    var before := db.tables;
    qr := new Store.QueryRunner(db, commitFails, rollbackFails);
    qr.Connect();
    qr.StartTransaction();
    req.queryRunner := qr;
    var (written, outcome) := handler(qr.data);
    qr.Put(written);
    response := outcome;
    if outcome.Ok? {
      req.isTransactionSuccess := true;
    } else {
      HandleRollback(qr);
    }
    var active := outcome.Ok? || rollbackFails;
    assert qr.active == active && !qr.released && db.tables == before;
    assert qr.data == if outcome.Ok? || rollbackFails then written else before;
    assert qr.log == [Store.Connected, Store.Started] + (if outcome.Ok? then [] else [Store.RolledBack(!rollbackFails)]);
    rejection := HandleFinalize(qr, req, isTest);
  }
}
