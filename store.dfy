/**
 * The database as the services see it through TypeORM: the tables, held as
 * maps keyed by primary key, and the query runner, which holds one
 * connection and at most one transaction on it.
 *
 * A query runner's `data` is what its `manager` reads and writes: inside a
 * transaction, the committed tables plus the transaction's own writes.
 * Commit publishes `data` to the database; rollback throws it away.
 */
module Store {
  import opened Wrappers

  datatype User = User(id: int, email: string, password: string, role: int, createdAt: int)

  datatype Genre = Genre(id: int, name: string, description: string)

  datatype Movie = Movie(
    id: int, title: string, likeCount: int, dislikeCount: int,
    detailId: int, directorId: int, creatorId: int, movieFilePath: string, createdAt: int)

  datatype Tables = Tables(
    users: map<int, User>,
    genres: map<int, Genre>,
    directors: set<int>,
    /** `movie_detail`: id to detail text */
    details: map<int, string>,
    movies: map<int, Movie>,
    /** the `movie_genres` join table: (movieId, genreId) */
    movieGenres: set<(int, int)>,
    /** `movie_user_like`: (movieId, userId) to isLike */
    likes: map<(int, int), bool>,
    /** the next generated primary key */
    nextId: int)

  /** What happened on a query runner, in order; `ok` says whether the call succeeded. */
  datatype Event = Connected | Started | Committed(ok: bool) | RolledBack(ok: bool) | Released

  const NotStarted := "TransactionNotStartedError"
  const QueryFailed := "QueryFailedError"

  class Database {
    var tables: Tables

    constructor (tables: Tables)
      ensures this.tables == tables
    {
      this.tables := tables;
    }
  }

  /**
   * A query runner. `commitFails` and `rollbackFails` say whether the
   * database will refuse the COMMIT or ROLLBACK statement (a lost
   * connection, a deferred constraint): they are the only failures the
   * model lets the database produce.
   */
  class QueryRunner {
    const db: Database
    const commitFails: bool
    const rollbackFails: bool
    var data: Tables
    var connected: bool
    /** `isTransactionActive` */
    var active: bool
    /** `isReleased` */
    var released: bool
    var log: seq<Event>

    /** `dataSource.createQueryRunner()` */
    constructor (db: Database, commitFails: bool, rollbackFails: bool)
      ensures this.db == db && this.commitFails == commitFails && this.rollbackFails == rollbackFails
      ensures data == db.tables && !connected && !active && !released && log == []
    {
      this.db := db;
      this.commitFails := commitFails;
      this.rollbackFails := rollbackFails;
      data := db.tables;
      connected := false;
      active := false;
      released := false;
      log := [];
    }

    method Connect()
      modifies this
      ensures connected && log == old(log) + [Connected]
      ensures data == old(data) && active == old(active) && released == old(released)
    {
      connected := true;
      log := log + [Connected];
    }

    /** The transaction starts from the committed tables. */
    method StartTransaction()
      modifies this
      ensures active && data == db.tables && log == old(log) + [Started]
      ensures connected == old(connected) && released == old(released)
    {
      active := true;
      data := db.tables;
      log := log + [Started];
    }

    /**
     * `commitTransaction()`: fails without an active transaction, or when
     * the database refuses; a refused COMMIT leaves the transaction open.
     */
    method Commit() returns (err: Option<string>)
      modifies this, db
      ensures !old(active) ==> err == Some(NotStarted)
      ensures old(active) && commitFails ==> err == Some(QueryFailed)
      ensures old(active) && !commitFails ==> err == None
      ensures err.None? ==> db.tables == old(data) && !active
      ensures err.Some? ==> db.tables == old(db.tables) && active == old(active)
      ensures data == old(data) && log == old(log) + [Committed(err.None?)]
      ensures connected == old(connected) && released == old(released)
    {
      if !active {
        err := Some(NotStarted);
      } else if commitFails {
        err := Some(QueryFailed);
      } else {
        err := None;
        db.tables := data;
        active := false;
      }
      log := log + [Committed(err.None?)];
    }

    /**
     * `rollbackTransaction()`: fails without an active transaction, or when
     * the database refuses; on success the transaction's writes are gone.
     */
    method Rollback() returns (err: Option<string>)
      modifies this
      ensures !old(active) ==> err == Some(NotStarted)
      ensures old(active) && rollbackFails ==> err == Some(QueryFailed)
      ensures old(active) && !rollbackFails ==> err == None
      ensures err.None? ==> data == db.tables && !active
      ensures err.Some? ==> data == old(data) && active == old(active)
      ensures log == old(log) + [RolledBack(err.None?)]
      ensures connected == old(connected) && released == old(released)
    {
      if !active {
        err := Some(NotStarted);
      } else if rollbackFails {
        err := Some(QueryFailed);
      } else {
        err := None;
        data := db.tables;
        active := false;
      }
      log := log + [RolledBack(err.None?)];
    }

    /** `release()`; releasing twice does nothing. */
    method Release()
      modifies this
      ensures released
      ensures log == if old(released) then old(log) else old(log) + [Released]
      ensures data == old(data) && active == old(active) && connected == old(connected)
    {
      if !released {
        released := true;
        log := log + [Released];
      }
    }

    /** A write through `qr.manager`. */
    method Put(t: Tables)
      modifies this
      ensures data == t
      ensures log == old(log) && active == old(active) && released == old(released) && connected == old(connected)
    {
      data := t;
    }
  }
}
