/**
 * The block the services wrap around their own query runner:
 *
 *   connect; start; try { work; commit } catch (e) { rollback; throw e }
 *   finally { release }
 *
 * The rollback in `catch` is awaited without a guard of its own, so when it
 * fails its error replaces the one being re-thrown.
 */
module TransactionBlock {
  import opened Wrappers
  import Store
  import Http

  /** Work inside the transaction: the writes it makes, or the error it throws. */
  type Work = Store.Tables -> Http.Outcome<Store.Tables>

  /** The error the block throws, if any. */
  function BlockError(work: Http.Outcome<Store.Tables>, commitFails: bool, rollbackFails: bool): (e: Option<Http.Exception>)
    ensures e.None? <==> work.Ok? && !commitFails
    ensures work.Err? && !rollbackFails ==> e == Some(work.error)
  {
    if work.Ok? && !commitFails then None
    else if rollbackFails then Some(Http.Fault(Store.QueryFailed))
    else if work.Err? then Some(work.error)
    else Some(Http.Fault(Store.QueryFailed))
  }

  function BlockLog(workOk: bool, commitFails: bool, rollbackFails: bool): (log: seq<Store.Event>)
    ensures |log| >= 4 && log[0] == Store.Connected && log[1] == Store.Started && log[|log| - 1] == Store.Released
    ensures Store.Committed(true) in log <==> workOk && !commitFails
    ensures (Store.RolledBack(true) in log || Store.RolledBack(false) in log) <==> !(workOk && !commitFails)
  {
    [Store.Connected, Store.Started]
    + (if workOk then [Store.Committed(!commitFails)] else [])
    + (if workOk && !commitFails then [] else [Store.RolledBack(!rollbackFails)])
    + [Store.Released]
  }

  /**
   * Runs `work` on a fresh runner over `db`. The database ends with all of
   * the work's writes when it and the commit succeed, and unchanged
   * otherwise; the runner is released on every path.
   */
  method Run(db: Store.Database, commitFails: bool, rollbackFails: bool, work: Work)
    returns (err: Option<Http.Exception>, qr: Store.QueryRunner)
    modifies db
    ensures fresh(qr) && qr.db == db && qr.released
    ensures err == BlockError(work(old(db.tables)), commitFails, rollbackFails)
    ensures db.tables == if err.None? then work(old(db.tables)).value else old(db.tables)
    ensures qr.log == BlockLog(work(old(db.tables)).Ok?, commitFails, rollbackFails)
  {
    qr := new Store.QueryRunner(db, commitFails, rollbackFails);
    qr.Connect();
    qr.StartTransaction();
    var written := work(qr.data);
    var thrown: Option<Http.Exception> := None;
    if written.Ok? {
      qr.Put(written.value);
      var commitErr := qr.Commit();
      if commitErr.Some? {
        thrown := Some(Http.Fault(commitErr.value));
      }
    } else {
      thrown := Some(written.error);
    }
    err := None;
    if thrown.Some? {
      var rollbackErr := qr.Rollback();
      err := if rollbackErr.Some? then Some(Http.Fault(rollbackErr.value)) else thrown;
    }
    qr.Release();
  }
}
