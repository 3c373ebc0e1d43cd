/**
 * `GenreService`: the genre list with its name filter, lookup by id, and
 * create, update and delete through the repository. Each repository call
 * runs on its own, outside any explicit transaction, so its writes reach
 * `db.tables` at once. The `unique` constraint on `name` is the database's:
 * a save that would break it fails with the driver's `QueryFailedError`.
 */
module GenreService {
  import opened Wrappers
  import Text
  import SqlLike
  import Store
  import Http
  import Scan

  function MissingGenreMessage(id: int): string
  {
    "Not found genre with id " + Text.IntToString(id) + "."
  }

  /** The `unique` constraint on `genre.name`. */
  predicate UniqueNames(genres: map<int, Store.Genre>)
  {
    forall a, b :: a in genres && b in genres && genres[a].name == genres[b].name ==> a == b
  }

  /** Every row is stored under its own id, and ids below the next generated one. */
  predicate WellKeyed(t: Store.Tables)
  {
    forall id :: id in t.genres ==> t.genres[id].id == id && id < t.nextId
  }

  predicate NameTaken(genres: map<int, Store.Genre>, name: string, except: int)
  {
    exists k :: k in genres && k != except && genres[k].name == name
  }

  /* ---------- findAllGenre ---------- */

  /** `!name` is false only for a non-empty text; otherwise `name LIKE '%name%'`. */
  predicate Selected(g: Store.Genre, name: Option<string>)
  {
    name.None? || name.value == "" || SqlLike.Matches(SqlLike.Surrounding(name.value), g.name)
  }

  /**
   * `findAllGenre`: `findAndCount` without ORDER BY, so the rows come in the
   * order the database visits them (`scan`), with their number.
   */
  function FindAllGenre(t: Store.Tables, name: Option<string>, scan: seq<int>): (r: (seq<Store.Genre>, int))
    requires Scan.ScanOrder(t.genres, scan)
    ensures r.1 == |r.0| == |set id | id in t.genres && Selected(t.genres[id], name)|
    ensures forall id :: id in t.genres && Selected(t.genres[id], name) ==> t.genres[id] in r.0
    ensures forall g :: g in r.0 ==> exists id :: id in t.genres && Selected(t.genres[id], name) && g == t.genres[id]
  {
    var chosen := set id | id in t.genres && Selected(t.genres[id], name);
    var rows := Scan.SelectRows(t.genres, chosen, scan);
    (rows, |rows|)
  }

  /** Without a name (or with the empty one) every genre is listed, and the count is the table's size. */
  lemma FindAllWithoutNameListsEveryGenre(t: Store.Tables, name: Option<string>, scan: seq<int>)
    requires Scan.ScanOrder(t.genres, scan)
    requires name.None? || name.value == ""
    ensures FindAllGenre(t, name, scan).1 == |t.genres|
    ensures forall id :: id in t.genres ==> t.genres[id] in FindAllGenre(t, name, scan).0
  {
    assert (set id | id in t.genres && Selected(t.genres[id], name)) == t.genres.Keys;
  }

  /** With a name free of `%`, `_` and `\`, exactly the genres whose name contains it are listed. */
  lemma FindAllWithNameMeansContains(t: Store.Tables, name: string, scan: seq<int>)
    requires Scan.ScanOrder(t.genres, scan)
    requires name != "" && SqlLike.Literal(name)
    ensures forall id :: id in t.genres && Text.Contains(t.genres[id].name, name) ==> t.genres[id] in FindAllGenre(t, Some(name), scan).0
    ensures forall g :: g in FindAllGenre(t, Some(name), scan).0 ==> Text.Contains(g.name, name)
  {
    forall g: Store.Genre {
      SqlLike.SurroundingIsContains(name, g.name);
    }
  }

  /* ---------- findOneGenre ---------- */

  /** `findOneGenre`: the genre with that id, or `null`. */
  function FindOneGenre(t: Store.Tables, id: int): (r: Option<Store.Genre>)
    ensures r.Some? <==> id in t.genres
    ensures r.Some? ==> r.value == t.genres[id]
  {
    if id in t.genres then Some(t.genres[id]) else None
  }

  /* ---------- createGenre ---------- */

  /** `save(createGenreDto)` inserts a row with a generated id. */
  function InsertGenre(t: Store.Tables, name: string, description: string): Store.Tables
  {
    t.(genres := t.genres[t.nextId := Store.Genre(t.nextId, name, description)], nextId := t.nextId + 1)
  }

  /**
   * `createGenre`: the insert, refused by the unique constraint when another
   * genre has the name; the saved record, with its generated id, is returned.
   */
  method CreateGenre(db: Store.Database, name: string, description: string) returns (r: Http.Outcome<Store.Genre>)
    modifies db
    ensures NameTaken(old(db.tables.genres), name, old(db.tables.nextId)) ==>
      r == Err(Http.Fault(Store.QueryFailed)) && db.tables == old(db.tables)
    ensures !NameTaken(old(db.tables.genres), name, old(db.tables.nextId)) ==>
      r == Ok(Store.Genre(old(db.tables.nextId), name, description)) && db.tables == InsertGenre(old(db.tables), name, description)
  {
    if exists k :: k in db.tables.genres && k != db.tables.nextId && db.tables.genres[k].name == name {
      return Err(Http.Fault(Store.QueryFailed));
    }
    r := Ok(Store.Genre(db.tables.nextId, name, description));
    db.tables := InsertGenre(db.tables, name, description);
  }

  /** A created genre is found by its id, and the table keeps its constraints. */
  lemma CreatedGenreIsFound(t: Store.Tables, name: string, description: string)
    requires UniqueNames(t.genres) && WellKeyed(t) && !NameTaken(t.genres, name, t.nextId)
    ensures var t' := InsertGenre(t, name, description);
      && UniqueNames(t'.genres) && WellKeyed(t')
      && FindOneGenre(t', t.nextId) == Some(Store.Genre(t.nextId, name, description))
      && t.nextId !in t.genres
      && (forall id :: id in t.genres ==> FindOneGenre(t', id) == FindOneGenre(t, id))
  {
  }

  /* ---------- updateGenre ---------- */

  /** The update body; a field left out is not touched. */
  datatype UpdateGenreDto = UpdateGenreDto(name: Option<string>, description: Option<string>)

  /** `Object.assign(genre, updateGenreDto)`: the fields present overwrite, the others stay. */
  function Assigned(g: Store.Genre, dto: UpdateGenreDto): (g': Store.Genre)
    ensures g'.name == (if dto.name.Some? then dto.name.value else g.name)
    ensures g'.description == (if dto.description.Some? then dto.description.value else g.description)
    ensures g'.id == g.id
  {
    g.(name := dto.name.GetOr(g.name), description := dto.description.GetOr(g.description))
  }

  /**
   * `updateGenre`: NotFound naming the id when there is no such genre;
   * otherwise the assigned entity is saved (refused when another genre has
   * the new name) and returned.
   */
  method UpdateGenre(db: Store.Database, id: int, dto: UpdateGenreDto) returns (r: Http.Outcome<Store.Genre>)
    modifies db
    ensures id !in old(db.tables.genres) ==> r == Err(Http.NotFound(MissingGenreMessage(id))) && db.tables == old(db.tables)
    ensures id in old(db.tables.genres) ==>
      var g' := Assigned(old(db.tables.genres[id]), dto);
      if NameTaken(old(db.tables.genres), g'.name, id) then
        r == Err(Http.Fault(Store.QueryFailed)) && db.tables == old(db.tables)
      else
        r == Ok(g') && db.tables == old(db.tables).(genres := old(db.tables.genres)[id := g'])
  {
    var genre := FindOneGenre(db.tables, id);
    if genre.None? {
      return Err(Http.NotFound(MissingGenreMessage(id)));
    }
    var g' := Assigned(genre.value, dto);
    if exists k :: k in db.tables.genres && k != id && db.tables.genres[k].name == g'.name {
      return Err(Http.Fault(Store.QueryFailed));
    }
    db.tables := db.tables.(genres := db.tables.genres[id := g']);
    r := Ok(g');
  }

  /** A successful update keeps the names unique and the other genres as they were. */
  lemma UpdateKeepsConstraints(t: Store.Tables, id: int, dto: UpdateGenreDto)
    requires UniqueNames(t.genres) && WellKeyed(t) && id in t.genres
    requires !NameTaken(t.genres, Assigned(t.genres[id], dto).name, id)
    ensures var t' := t.(genres := t.genres[id := Assigned(t.genres[id], dto)]);
      && UniqueNames(t'.genres) && WellKeyed(t')
      && (forall k :: k != id ==> FindOneGenre(t', k) == FindOneGenre(t, k))
  {
    var genres := t.genres[id := Assigned(t.genres[id], dto)];
    forall a, b | a in genres && b in genres && genres[a].name == genres[b].name ensures a == b {
      if a != id && b != id {
        assert genres[a] == t.genres[a] && genres[b] == t.genres[b];
      }
    }
  }

  /** An update that gives no field changes nothing. */
  lemma EmptyUpdateKeepsGenre(g: Store.Genre)
    ensures Assigned(g, UpdateGenreDto(None, None)) == g
  {
  }

  /* ---------- deleteGenre ---------- */

  /** `delete(id)`; the genre's rows in the `movie_genres` join table go with it. */
  function RemoveGenre(t: Store.Tables, id: int): (t': Store.Tables)
    ensures t'.genres == t.genres - {id}
    ensures forall p :: p in t'.movieGenres <==> p in t.movieGenres && p.1 != id
    ensures t'.movies == t.movies && t'.users == t.users && t'.likes == t.likes
  {
    t.(genres := t.genres - {id}, movieGenres := set p | p in t.movieGenres && p.1 != id)
  }

  /** `deleteGenre`: NotFound naming the id, or the row removed and nothing returned. */
  method DeleteGenre(db: Store.Database, id: int) returns (r: Http.Outcome<()>)
    modifies db
    ensures id !in old(db.tables.genres) ==> r == Err(Http.NotFound(MissingGenreMessage(id))) && db.tables == old(db.tables)
    ensures id in old(db.tables.genres) ==> r == Ok(()) && db.tables == RemoveGenre(old(db.tables), id)
  {
    var genre := FindOneGenre(db.tables, id);
    if genre.None? {
      return Err(Http.NotFound(MissingGenreMessage(id)));
    }
    db.tables := RemoveGenre(db.tables, id);
    r := Ok(());
  }

  /** After a delete the genre is not found, and no movie is linked to it. */
  lemma DeletedGenreIsGone(t: Store.Tables, id: int)
    ensures FindOneGenre(RemoveGenre(t, id), id).None?
    ensures forall m :: (m, id) !in RemoveGenre(t, id).movieGenres
    ensures forall k :: k != id ==> FindOneGenre(RemoveGenre(t, id), k) == FindOneGenre(t, k)
  {
  }
}
