/**
 * `UserService`: the user list with its e-mail filter, lookup by id,
 * registration (duplicate check, password hashing, insert in a transaction
 * block), the field update in a transaction block, and the two deletes.
 * Password hashing is the parameter `hash` (bcrypt with the configured
 * rounds); the clock is the parameter `now`.
 */
module UserService {
  import opened Wrappers
  import Text
  import SqlLike
  import Store
  import Http
  import TransactionBlock
  import MovieService
  import Scan

  /** `Role.user`, the column default of `role`. */
  const DefaultRole := 2

  const DuplicateEmailMessage := "이미 가입한 이메일입니다."

  function MissingUserMessage(id: int): string
  {
    "User with id " + Text.IntToString(id) + " not found"
  }

  /* ---------- findOneUser ---------- */

  /** `findOneUser`: the stored user, or NotFound naming the id. */
  function FindOneUser(t: Store.Tables, id: int): (r: Http.Outcome<Store.User>)
    ensures r.Ok? <==> id in t.users
    ensures r.Ok? ==> r.value == t.users[id]
    ensures r.Err? ==> r.error == Http.NotFound(MissingUserMessage(id))
  {
    if id in t.users then Ok(t.users[id]) else Err(Http.NotFound(MissingUserMessage(id)))
  }

  /* ---------- findAllUsers ---------- */

  /** `isNotEmpty(email)`: neither missing nor the empty text. */
  predicate IsNotEmpty(email: Option<string>)
  {
    email.Some? && email.value != ""
  }

  /** `user.email LIKE '%email%'`, or every user when no filter is given. */
  predicate Selected(u: Store.User, email: Option<string>)
  {
    !IsNotEmpty(email) || SqlLike.Matches(SqlLike.Surrounding(email.value), u.email)
  }

  /** A filter free of `%`, `_` and `\` selects exactly the e-mails that contain it. */
  lemma SelectedMeansContains(u: Store.User, email: string)
    requires email != "" && SqlLike.Literal(email)
    ensures Selected(u, Some(email)) <==> Text.Contains(u.email, email)
  {
    SqlLike.SurroundingIsContains(email, u.email);
  }

  /** A user as `instanceToPlain` renders it: `password` and `role` are excluded. */
  datatype PlainUser = PlainUser(id: int, email: string, createdAt: int)

  function Plain(u: Store.User): PlainUser
  {
    PlainUser(u.id, u.email, u.createdAt)
  }

  predicate NewestFirst(users: seq<Store.User>)
  {
    forall i, j :: 0 <= i < j < |users| ==> users[i].createdAt >= users[j].createdAt
  }

  /** Puts `u` into a list that is newest first, keeping it so. */
  function InsertByAge(u: Store.User, users: seq<Store.User>): (r: seq<Store.User>)
    requires NewestFirst(users)
    ensures NewestFirst(r)
    ensures multiset(r) == multiset(users) + multiset{u}
  {
    if users == [] || u.createdAt >= users[0].createdAt then
      PrependNewest(u, users);
      [u] + users
    else
      NewestFirstTail(users);
      var rest := InsertByAge(u, users[1..]);
      HeadIsNewest(u, users, rest);
      PrependNewest(users[0], rest);
      assert multiset(users) == multiset{users[0]} + multiset(users[1..]) by {
        assert users == [users[0]] + users[1..];
      }
      [users[0]] + rest
  }

  lemma NewestFirstTail(users: seq<Store.User>)
    requires users != [] && NewestFirst(users)
    ensures NewestFirst(users[1..])
  {
    var tail := users[1..];
    forall i, j | 0 <= i < j < |tail| ensures tail[i].createdAt >= tail[j].createdAt {
      assert tail[i] == users[i + 1] && tail[j] == users[j + 1];
    }
  }

  /** The head of a newest-first list is at least as new as its tail with an older user put in. */
  lemma HeadIsNewest(u: Store.User, users: seq<Store.User>, rest: seq<Store.User>)
    requires users != [] && NewestFirst(users) && u.createdAt < users[0].createdAt
    requires multiset(rest) == multiset(users[1..]) + multiset{u}
    ensures forall x :: x in rest ==> x.createdAt <= users[0].createdAt
  {
    forall x | x in rest ensures x.createdAt <= users[0].createdAt {
      assert x in multiset(rest);
      if x != u {
        assert x in users[1..];
        var k :| 0 <= k < |users[1..]| && users[1..][k] == x;
        assert users[k + 1] == x;
      }
    }
  }

  lemma PrependNewest(h: Store.User, rest: seq<Store.User>)
    requires NewestFirst(rest)
    requires forall x :: x in rest ==> x.createdAt <= h.createdAt
    ensures NewestFirst([h] + rest)
  {
    var r := [h] + rest;
    forall i, j | 0 <= i < j < |r| ensures r[i].createdAt >= r[j].createdAt {
      assert r[j] == rest[j - 1];
      if i > 0 {
        assert r[i] == rest[i - 1];
      }
    }
  }

  /** `ORDER BY createdAt DESC`: the same users, newest first (ties in any order). */
  function SortNewestFirst(users: seq<Store.User>): (r: seq<Store.User>)
    ensures NewestFirst(r)
    ensures multiset(r) == multiset(users)
  {
    if users == [] then []
    else
      assert users == [users[0]] + users[1..];
      InsertByAge(users[0], SortNewestFirst(users[1..]))
  }

  /** Sorting keeps the length and the members. */
  lemma SortKeepsMembers(users: seq<Store.User>)
    ensures |SortNewestFirst(users)| == |users|
    ensures forall u :: u in SortNewestFirst(users) <==> u in users
  {
    var r := SortNewestFirst(users);
    assert |multiset(r)| == |multiset(users)|;
    forall u ensures u in r <==> u in users {
      assert u in r <==> u in multiset(r);
      assert u in users <==> u in multiset(users);
    }
  }

  /** `instanceToPlain` over a list. */
  function PlainAll(users: seq<Store.User>): (r: seq<PlainUser>)
    ensures |r| == |users|
    ensures forall i :: 0 <= i < |r| ==> r[i] == Plain(users[i])
    ensures forall u :: u in users ==> Plain(u) in r
  {
    var r := seq(|users|, i requires 0 <= i < |users| => Plain(users[i]));
    forall u | u in users ensures Plain(u) in r {
      var i :| 0 <= i < |users| && users[i] == u;
      assert r[i] == Plain(u);
    }
    r
  }

  /** The rows `findAllUsers` selects, in scan order. */
  function SelectedUsers(t: Store.Tables, email: Option<string>, scan: seq<int>): (rows: seq<Store.User>)
    requires Scan.ScanOrder(t.users, scan)
    ensures |rows| == |set id | id in t.users && Selected(t.users[id], email)|
    ensures forall id :: id in t.users && Selected(t.users[id], email) ==> t.users[id] in rows
    ensures forall u :: u in rows ==> exists id :: id in t.users && Selected(t.users[id], email) && u == t.users[id]
  {
    var chosen := set id | id in t.users && Selected(t.users[id], email);
    Scan.SelectRows(t.users, chosen, scan)
  }

  /**
   * `findAllUsers`: the selected users, newest first, rendered without
   * password and role, with their number. `scan` is the order the database
   * visits the rows in; it decides the order of users created at the same time.
   */
  function FindAllUsers(t: Store.Tables, email: Option<string>, scan: seq<int>): (r: (seq<PlainUser>, int))
    requires Scan.ScanOrder(t.users, scan)
    ensures r.1 == |r.0| == |set id | id in t.users && Selected(t.users[id], email)|
    ensures forall id :: id in t.users && Selected(t.users[id], email) ==> Plain(t.users[id]) in r.0
    ensures forall i :: 0 <= i < |r.0| ==> exists id :: id in t.users && Selected(t.users[id], email) && r.0[i] == Plain(t.users[id])
    ensures forall i, j :: 0 <= i < j < |r.0| ==> r.0[i].createdAt >= r.0[j].createdAt
  {
    var rows := SelectedUsers(t, email, scan);
    var sorted := SortNewestFirst(rows);
    SortKeepsMembers(rows);
    var listed := PlainAll(sorted);
    assert forall i :: 0 <= i < |listed| ==> sorted[i] in rows;
    (listed, |listed|)
  }

  /* ---------- createUser ---------- */

  predicate EmailTaken(users: map<int, Store.User>, email: string)
  {
    exists id :: id in users && users[id].email == email
  }

  /** The `unique` constraint on `email`. */
  predicate UniqueEmails(users: map<int, Store.User>)
  {
    forall a, b :: a in users && b in users && users[a].email == users[b].email ==> a == b
  }

  predicate UserKeysBelowNextId(t: Store.Tables)
  {
    forall id :: id in t.users ==> id < t.nextId
  }

  /** The insert: a generated id, the default role, the creation time. */
  function InsertUser(t: Store.Tables, email: string, password: string, now: int): Store.Tables
  {
    t.(users := t.users[t.nextId := Store.User(t.nextId, email, password, DefaultRole, now)], nextId := t.nextId + 1)
  }

  /**
   * `createUser`. A registered e-mail is refused before anything is hashed
   * or written; otherwise the user with the hashed password is inserted in
   * a transaction block and, once committed, read back by e-mail.
   */
  method CreateUser(db: Store.Database, commitFails: bool, rollbackFails: bool, hash: string -> string, email: string, password: string, now: int)
    returns (r: Http.Outcome<Store.User>)
    modifies db
    ensures EmailTaken(old(db.tables.users), email) ==>
      r == Err(Http.BadRequest(DuplicateEmailMessage)) && db.tables == old(db.tables)
    ensures !EmailTaken(old(db.tables.users), email) ==>
      var t' := InsertUser(old(db.tables), email, hash(password), now);
      && db.tables == (if commitFails then old(db.tables) else t')
      && (r.Ok? <==> !commitFails)
      && (r.Ok? ==> r.value == t'.users[old(db.tables.nextId)])
      && (r.Err? ==> r.error == TransactionBlock.BlockError(Ok(t'), commitFails, rollbackFails).value)
  {
    if exists id :: id in db.tables.users && db.tables.users[id].email == email {
      return Err(Http.BadRequest(DuplicateEmailMessage));
    }
    var hashed := hash(password);
    var id := db.tables.nextId;
    var err, qr := TransactionBlock.Run(db, commitFails, rollbackFails, t => Ok(InsertUser(t, email, hashed, now)));
    if err.Some? {
      return Err(err.value);
    }
    r := Ok(db.tables.users[id]);
  }

  /**
   * The user `createUser` returns is the only one with that e-mail, so
   * reading back by e-mail finds it; it has the hashed password and the
   * default role, and the table keeps its constraints.
   */
  lemma CreatedUserIsFoundByEmail(t: Store.Tables, email: string, password: string, now: int)
    requires UniqueEmails(t.users) && UserKeysBelowNextId(t) && !EmailTaken(t.users, email)
    ensures var t' := InsertUser(t, email, password, now);
      && UniqueEmails(t'.users) && UserKeysBelowNextId(t')
      && t.nextId !in t.users && t'.users == t.users[t.nextId := t'.users[t.nextId]]
      && t'.users[t.nextId] == Store.User(t.nextId, email, password, DefaultRole, now)
      && (forall id :: id in t'.users && t'.users[id].email == email ==> id == t.nextId)
  {
  }

  /* ---------- updateUser ---------- */

  /** The update body; either field may be missing. */
  datatype UpdateUserDto = UpdateUserDto(email: Option<string>, password: Option<string>)

  /** `set(updateUserDto)`: the given columns are written as given. */
  function Merged(u: Store.User, dto: UpdateUserDto): (u': Store.User)
    ensures u'.email == dto.email.GetOr(u.email) && u'.password == dto.password.GetOr(u.password)
    ensures u'.id == u.id && u'.role == u.role && u'.createdAt == u.createdAt
  {
    u.(email := dto.email.GetOr(u.email), password := dto.password.GetOr(u.password))
  }

  /**
   * `updateUser`'s work: NotFound for an unknown id, the database's unique
   * violation for an e-mail another user has, else the merge.
   */
  function UpdateUserWrites(t: Store.Tables, id: int, dto: UpdateUserDto): (r: Http.Outcome<Store.Tables>)
    ensures id !in t.users ==> r == Err(Http.NotFound(MissingUserMessage(id)))
    ensures r.Ok? ==> id in t.users && r.value == t.(users := t.users[id := Merged(t.users[id], dto)])
    ensures r.Ok? <==> id in t.users && !(dto.email.Some? && exists k :: k in t.users && k != id && t.users[k].email == dto.email.value)
  {
    if id !in t.users then Err(Http.NotFound(MissingUserMessage(id)))
    else if dto.email.Some? && exists k :: k in t.users && k != id && t.users[k].email == dto.email.value then Err(Http.Fault(Store.QueryFailed))
    else Ok(t.(users := t.users[id := Merged(t.users[id], dto)]))
  }

  /** An update keeps the e-mails unique. */
  lemma UpdateKeepsEmailsUnique(t: Store.Tables, id: int, dto: UpdateUserDto)
    requires UniqueEmails(t.users) && UpdateUserWrites(t, id, dto).Ok?
    ensures UniqueEmails(UpdateUserWrites(t, id, dto).value.users)
  {
    var users := UpdateUserWrites(t, id, dto).value.users;
    forall a, b | a in users && b in users && users[a].email == users[b].email ensures a == b {
      if a != id && b != id {
        assert users[a] == t.users[a] && users[b] == t.users[b];
      }
    }
  }

  /**
   * `updateUser`: the work in its own transaction block; once committed the
   * user is read again (`findOneUser`).
   */
  method UpdateUser(db: Store.Database, commitFails: bool, rollbackFails: bool, id: int, dto: UpdateUserDto)
    returns (r: Http.Outcome<Store.User>)
    modifies db
    ensures var w := UpdateUserWrites(old(db.tables), id, dto);
      && db.tables == (if w.Ok? && !commitFails then w.value else old(db.tables))
      && (r.Ok? <==> w.Ok? && !commitFails)
      && (r.Ok? ==> r.value == Merged(old(db.tables.users[id]), dto))
      && (r.Err? ==> r.error == TransactionBlock.BlockError(w, commitFails, rollbackFails).value)
  {
    var err, qr := TransactionBlock.Run(db, commitFails, rollbackFails, t => UpdateUserWrites(t, id, dto));
    if err.Some? {
      return Err(err.value);
    }
    r := FindOneUser(db.tables, id);
  }

  /** Every stored password is the hash of some text. */
  ghost predicate PasswordsHashed(users: map<int, Store.User>, hash: string -> string)
  {
    forall id :: id in users ==> exists p :: users[id].password == hash(p)
  }

  /** Registration keeps every stored password hashed. */
  lemma CreateKeepsPasswordsHashed(t: Store.Tables, hash: string -> string, email: string, password: string, now: int)
    requires PasswordsHashed(t.users, hash)
    ensures PasswordsHashed(InsertUser(t, email, hash(password), now).users, hash)
  {
    var users := InsertUser(t, email, hash(password), now).users;
    forall id | id in users ensures exists p :: users[id].password == hash(p) {
      if id == t.nextId {
        assert users[id].password == hash(password);
      } else {
        var p :| t.users[id].password == hash(p);
        assert users[id].password == hash(p);
      }
    }
  }

  /**
   * As written, `updateUser` stores a new password as given: a password that
   * no hash produces is stored as plain text, and the table no longer holds
   * only hashes.
   */
  lemma UpdateStoresPlainPassword(t: Store.Tables, hash: string -> string, id: int, password: string)
    requires id in t.users
    requires forall p :: hash(p) != password
    ensures var w := UpdateUserWrites(t, id, UpdateUserDto(None, Some(password)));
      && w.Ok? && w.value.users[id].password == password
      && !PasswordsHashed(w.value.users, hash)
  {
  }

  /** The update as evidently intended: a new password is hashed as on registration. */
  function HashedUpdateWrites(t: Store.Tables, id: int, dto: UpdateUserDto, hash: string -> string): (r: Http.Outcome<Store.Tables>)
    ensures r.Ok? <==> UpdateUserWrites(t, id, dto).Ok?
    ensures r.Ok? ==> id in t.users && id in r.value.users && r.value.users[id].password == (if dto.password.Some? then hash(dto.password.value) else t.users[id].password)
  {
    var hashed := if dto.password.Some? then Some(hash(dto.password.value)) else None;
    UpdateUserWrites(t, id, dto.(password := hashed))
  }

  /** With it, every stored password stays hashed. */
  lemma HashedUpdateKeepsPasswordsHashed(t: Store.Tables, id: int, dto: UpdateUserDto, hash: string -> string)
    requires PasswordsHashed(t.users, hash) && HashedUpdateWrites(t, id, dto, hash).Ok?
    ensures PasswordsHashed(HashedUpdateWrites(t, id, dto, hash).value.users, hash)
  {
    var users := HashedUpdateWrites(t, id, dto, hash).value.users;
    forall k | k in users ensures exists p :: users[k].password == hash(p) {
      if k == id && dto.password.Some? {
        assert users[k].password == hash(dto.password.value);
      } else {
        var p :| t.users[k].password == hash(p);
        assert users[k].password == hash(p);
      }
    }
  }

  /* ---------- deleteUser / deleteUserWithTransaction ---------- */

  /** Deleting the row; the user's votes go with it (`onDelete: 'CASCADE'`). */
  function RemoveUser(t: Store.Tables, id: int): (t': Store.Tables)
    ensures t'.users == t.users - {id}
    ensures forall k :: k in t'.likes <==> k in t.likes && k.1 != id
    ensures forall k :: k in t'.likes ==> t'.likes[k] == t.likes[k]
    ensures t'.movies == t.movies
  {
    t.(users := t.users - {id}, likes := map k | k in t.likes && k.1 != id :: t.likes[k])
  }

  /** `deleteUser`: `findOneUser`, then a delete outside any explicit transaction; returns the id. */
  method DeleteUser(db: Store.Database, id: int) returns (r: Http.Outcome<int>)
    modifies db
    ensures id !in old(db.tables.users) ==> r == Err(Http.NotFound(MissingUserMessage(id))) && db.tables == old(db.tables)
    ensures id in old(db.tables.users) ==> r == Ok(id) && db.tables == RemoveUser(old(db.tables), id)
  {
    var found := FindOneUser(db.tables, id);
    if found.Err? {
      return Err(found.error);
    }
    db.tables := RemoveUser(db.tables, id);
    r := Ok(id);
  }

  function DeleteUserWrites(t: Store.Tables, id: int): (r: Http.Outcome<Store.Tables>)
    ensures r.Ok? <==> id in t.users
    ensures r.Err? ==> r.error == Http.NotFound(MissingUserMessage(id))
  {
    if id in t.users then Ok(RemoveUser(t, id)) else Err(Http.NotFound(MissingUserMessage(id)))
  }

  /** `deleteUserWithTransaction`: the same check and delete in a transaction block; returns the id. */
  method DeleteUserWithTransaction(db: Store.Database, commitFails: bool, rollbackFails: bool, id: int) returns (r: Http.Outcome<int>)
    modifies db
    ensures var w := DeleteUserWrites(old(db.tables), id);
      && db.tables == (if w.Ok? && !commitFails then RemoveUser(old(db.tables), id) else old(db.tables))
      && (r.Ok? <==> id in old(db.tables.users) && !commitFails)
      && (r.Ok? ==> r.value == id)
      && (r.Err? ==> r.error == TransactionBlock.BlockError(w, commitFails, rollbackFails).value)
  {
    var err, qr := TransactionBlock.Run(db, commitFails, rollbackFails, t => DeleteUserWrites(t, id));
    if err.Some? {
      return Err(err.value);
    }
    r := Ok(id);
  }

  /**
   * The cascade removes a deleted user's votes without touching the movie
   * counters, so a like by the deleted user leaves that movie's `likeCount`
   * one above its records until the next recount.
   */
  lemma DeleteUserLeavesStaleCount(t: Store.Tables, id: int, movieId: int)
    requires MovieService.CountsMatch(t)
    requires movieId in t.movies && (movieId, id) in t.likes && t.likes[(movieId, id)]
    ensures movieId in RemoveUser(t, id).movies
    ensures MovieService.Drift(RemoveUser(t, id), movieId, true) == 1
    ensures !MovieService.CountsMatch(RemoveUser(t, id))
  {
    var t' := RemoveUser(t, id);
    var key := (movieId, id);
    assert MovieService.Voters(t'.likes, movieId, true) == MovieService.Voters(t.likes, movieId, true) - {key};
    assert key in MovieService.Voters(t.likes, movieId, true);
  }
}
