/**
 * `MovieService`: the like/dislike toggle, movie creation with its genre and
 * director checks, the movie list with the caller's like status, the cached
 * list of recent movies, and the update and delete transactions.
 */
module MovieService {
  import opened Wrappers
  import Text
  import Store
  import Http
  import CacheStore
  import QueryBuilder
  import CommonService
  import TransactionBlock
  import Scan

  /* ---------- like / dislike ---------- */

  const UnknownMovieMessage := "존재하지 않는 영화입니다."
  const UnknownUserMessage := "사용자 정보가 존재하지 않습니다."

  /** `increment`/`decrement` of `likeCount` (when `like`) or `dislikeCount`. */
  function Bump(m: Store.Movie, like: bool, delta: int): Store.Movie
  {
    if like then m.(likeCount := m.likeCount + delta) else m.(dislikeCount := m.dislikeCount + delta)
  }

  function AddToCounter(t: Store.Tables, movieId: int, like: bool, delta: int): Store.Tables
    requires movieId in t.movies
  {
    t.(movies := t.movies[movieId := Bump(t.movies[movieId], like, delta)])
  }

  /**
   * The tables after a toggle, case by case: the same vote again withdraws
   * it, the opposite vote replaces it, a first vote records it; each counter
   * moves with the records of its kind.
   */
  function Toggled(t: Store.Tables, movieId: int, userId: int, isLike: bool): Store.Tables
    requires movieId in t.movies
  {
    var key := (movieId, userId);
    var m := t.movies[movieId];
    if key in t.likes && t.likes[key] == isLike then
      t.(likes := t.likes - {key}, movies := t.movies[movieId := Bump(m, isLike, -1)])
    else if key in t.likes then
      t.(likes := t.likes[key := isLike], movies := t.movies[movieId := Bump(Bump(m, isLike, 1), !isLike, -1)])
    else
      t.(likes := t.likes[key := isLike], movies := t.movies[movieId := Bump(m, isLike, 1)])
  }

  /**
   * `toggleMovieLike` on the request's runner: checks the movie, then the
   * user, then issues the delete/update/insert and the counter changes one
   * at a time. Returns `{ isLike }` read back after the writes (`None` is
   * `null`).
   */
  method ToggleMovieLike(qr: Store.QueryRunner, movieId: int, userId: int, isLike: bool) returns (r: Http.Outcome<Option<bool>>)
    modifies qr
    ensures movieId !in old(qr.data.movies) ==> r == Err(Http.BadRequest(UnknownMovieMessage)) && qr.data == old(qr.data)
    ensures movieId in old(qr.data.movies) && userId !in old(qr.data.users) ==>
      r == Err(Http.Unauthorized(UnknownUserMessage)) && qr.data == old(qr.data)
    ensures movieId in old(qr.data.movies) && userId in old(qr.data.users) ==>
      && qr.data == Toggled(old(qr.data), movieId, userId, isLike)
      && r == Ok(if (movieId, userId) in qr.data.likes then Some(qr.data.likes[(movieId, userId)]) else None)
    ensures qr.log == old(qr.log) && qr.active == old(qr.active) && qr.released == old(qr.released)
  {
    if movieId !in qr.data.movies {
      return Err(Http.BadRequest(UnknownMovieMessage));
    }
    if userId !in qr.data.users {
      return Err(Http.Unauthorized(UnknownUserMessage));
    }
    ghost var before := qr.data;
    var key := (movieId, userId);
    if key in qr.data.likes {
      if isLike == qr.data.likes[key] {
        qr.Put(qr.data.(likes := qr.data.likes - {key}));
        qr.Put(AddToCounter(qr.data, movieId, isLike, -1));
      } else {
        qr.Put(qr.data.(likes := qr.data.likes[key := isLike]));
        qr.Put(AddToCounter(qr.data, movieId, isLike, 1));
        qr.Put(AddToCounter(qr.data, movieId, !isLike, -1));
      }
    } else {
      qr.Put(qr.data.(likes := qr.data.likes[key := isLike]));
      qr.Put(AddToCounter(qr.data, movieId, isLike, 1));
    }
    assert qr.data == Toggled(before, movieId, userId, isLike);
    var result := if key in qr.data.likes then Some(qr.data.likes[key]) else None;
    return Ok(result);
  }

  /** The users whose record on `movieId` has value `isLike`. */
  function Voters(likes: map<(int, int), bool>, movieId: int, isLike: bool): set<(int, int)>
  {
    set k | k in likes && k.0 == movieId && likes[k] == isLike
  }

  /** A counter minus the records it counts. */
  function Drift(t: Store.Tables, movieId: int, isLike: bool): int
    requires movieId in t.movies
  {
    (if isLike then t.movies[movieId].likeCount else t.movies[movieId].dislikeCount) - |Voters(t.likes, movieId, isLike)|
  }

  /** The counters equal the record counts, the invariant the nightly recount restores. */
  predicate CountsMatch(t: Store.Tables)
  {
    forall id :: id in t.movies ==> Drift(t, id, true) == 0 && Drift(t, id, false) == 0
  }

  lemma VotersAfterPut(likes: map<(int, int), bool>, key: (int, int), v: bool, movieId: int, isLike: bool)
    ensures key !in likes && key.0 == movieId && v == isLike ==> |Voters(likes[key := v], movieId, isLike)| == |Voters(likes, movieId, isLike)| + 1
    ensures key in likes && likes[key] == isLike && key.0 == movieId && v != isLike ==> |Voters(likes[key := v], movieId, isLike)| == |Voters(likes, movieId, isLike)| - 1
    ensures key in likes && likes[key] != isLike && key.0 == movieId && v == isLike ==> |Voters(likes[key := v], movieId, isLike)| == |Voters(likes, movieId, isLike)| + 1
    ensures key.0 != movieId || (key in likes && likes[key] == v) ==> Voters(likes[key := v], movieId, isLike) == Voters(likes, movieId, isLike)
    ensures key.0 != movieId || (key !in likes && v != isLike) ==> Voters(likes[key := v], movieId, isLike) == Voters(likes, movieId, isLike)
  {
    var before, after := Voters(likes, movieId, isLike), Voters(likes[key := v], movieId, isLike);
    if key.0 == movieId && v == isLike && (key !in likes || likes[key] != isLike) {
      assert after == before + {key};
    }
    if key.0 == movieId && v != isLike && key in likes && likes[key] == isLike {
      assert after == before - {key};
    }
  }

  lemma VotersAfterRemove(likes: map<(int, int), bool>, key: (int, int), movieId: int, isLike: bool)
    ensures key in likes && likes[key] == isLike && key.0 == movieId ==> |Voters(likes - {key}, movieId, isLike)| == |Voters(likes, movieId, isLike)| - 1
    ensures !(key in likes && likes[key] == isLike && key.0 == movieId) ==> Voters(likes - {key}, movieId, isLike) == Voters(likes, movieId, isLike)
  {
    if key in likes && likes[key] == isLike && key.0 == movieId {
      assert Voters(likes - {key}, movieId, isLike) == Voters(likes, movieId, isLike) - {key};
    }
  }

  /** A toggle keeps every counter's distance from the records it counts. */
  lemma ToggleKeepsDrift(t: Store.Tables, movieId: int, userId: int, isLike: bool, id: int, kind: bool)
    requires movieId in t.movies && id in t.movies
    ensures id in Toggled(t, movieId, userId, isLike).movies
    ensures Drift(Toggled(t, movieId, userId, isLike), id, kind) == Drift(t, id, kind)
  {
    var key := (movieId, userId);
    if key in t.likes && t.likes[key] == isLike {
      VotersAfterRemove(t.likes, key, id, kind);
    } else {
      VotersAfterPut(t.likes, key, isLike, id, kind);
    }
  }

  /** Hence a toggle keeps the counters equal to the record counts. */
  lemma ToggleKeepsCountsMatch(t: Store.Tables, movieId: int, userId: int, isLike: bool)
    requires movieId in t.movies && CountsMatch(t)
    ensures CountsMatch(Toggled(t, movieId, userId, isLike))
  {
    var t' := Toggled(t, movieId, userId, isLike);
    forall id | id in t'.movies ensures Drift(t', id, true) == 0 && Drift(t', id, false) == 0 {
      ToggleKeepsDrift(t, movieId, userId, isLike, id, true);
      ToggleKeepsDrift(t, movieId, userId, isLike, id, false);
    }
  }

  /** From no vote or the same vote, toggling the same vote twice restores the records and counters. */
  lemma ToggleTwiceRestores(t: Store.Tables, movieId: int, userId: int, isLike: bool)
    requires movieId in t.movies
    requires (movieId, userId) !in t.likes || t.likes[(movieId, userId)] == isLike
    ensures movieId in Toggled(t, movieId, userId, isLike).movies
    ensures Toggled(Toggled(t, movieId, userId, isLike), movieId, userId, isLike) == t
  {
    var key := (movieId, userId);
    var t' := Toggled(t, movieId, userId, isLike);
    var t'' := Toggled(t', movieId, userId, isLike);
    assert t''.likes == t.likes;
    assert t''.movies[movieId] == t.movies[movieId];
    assert t''.movies == t.movies;
  }

  /** From the opposite vote, two toggles withdraw the vote instead of restoring it. */
  lemma ToggleTwiceFromOppositeWithdraws(t: Store.Tables, movieId: int, userId: int, isLike: bool)
    requires movieId in t.movies
    requires (movieId, userId) in t.likes && t.likes[(movieId, userId)] != isLike
    ensures movieId in Toggled(t, movieId, userId, isLike).movies
    ensures (movieId, userId) !in Toggled(Toggled(t, movieId, userId, isLike), movieId, userId, isLike).likes
  {
  }

  /* ---------- genre and director checks ---------- */

  /** The requested ids that name no genre, in request order. */
  function MissingGenreIds(genres: map<int, Store.Genre>, ids: seq<int>): (missing: seq<int>)
    ensures forall i :: 0 <= i < |missing| ==> missing[i] in ids && missing[i] !in genres
    ensures forall g :: g in ids && g !in genres ==> g in missing
  {
    if ids == [] then []
    else (if ids[0] in genres then [] else [ids[0]]) + MissingGenreIds(genres, ids[1..])
  }

  /** `ids.join(', ')` */
  function JoinIds(ids: seq<int>): string
  {
    Text.JoinWith(seq(|ids|, i requires 0 <= i < |ids| => Text.IntToString(ids[i])), ", ")
  }

  /** The genres `find({ where: { id: In(ids) } })` returns, each once. */
  function FoundGenres(genres: map<int, Store.Genre>, ids: seq<int>): set<int>
  {
    set g | g in ids && g in genres
  }

  /**
   * The genre check of `createMovie` (`prefix` "genre with id ", `suffix`
   * " not found") and of `updateMovie` (`prefix` "", `suffix` " genre not
   * found"): no genre found, then a count that differs from the request.
   */
  function GenreError(genres: map<int, Store.Genre>, ids: seq<int>, prefix: string, suffix: string): Option<Http.Exception>
  {
    var found := FoundGenres(genres, ids);
    if |found| < 1 then Some(Http.NotFound("genre not found"))
    else if |found| != |ids| then Some(Http.NotFound(prefix + JoinIds(MissingGenreIds(genres, ids)) + suffix))
    else None
  }

  /** The genre check passes exactly when every id names a genre and no id repeats. */
  lemma GenreCheckPassesIff(genres: map<int, Store.Genre>, ids: seq<int>, prefix: string, suffix: string)
    ensures GenreError(genres, ids, prefix, suffix).None? <==> |ids| > 0 && Scan.Distinct(ids) && forall g :: g in ids ==> g in genres
  {
    var found := FoundGenres(genres, ids);
    var all := set g | g in ids;
    Scan.DistinctCount(ids);
    assert found <= all;
    var allPresent := forall g :: g in ids ==> g in genres;
    if allPresent {
      assert forall x :: x in all ==> x in found;
      assert found == all;
      if |ids| > 0 {
        assert ids[0] in all;
      }
    } else {
      var g :| g in ids && g !in genres;
      assert g in all && g !in found;
      Scan.SubsetCardinality(found, all - {g});
      assert |all - {g}| == |all| - 1;
      assert |found| < |ids|;
    }
  }

  /** A repeated id fails the count check even though nothing is missing: the message lists no id. */
  lemma RepeatedGenreIdReported(genres: map<int, Store.Genre>, g: int)
    requires g in genres
    ensures GenreError(genres, [g, g], "genre with id ", " not found") == Some(Http.NotFound("genre with id  not found"))
  {
    assert FoundGenres(genres, [g, g]) == {g};
    assert [g, g][1..] == [g] && [g][1..] == [];
    assert MissingGenreIds(genres, [g]) == [];
    assert MissingGenreIds(genres, [g, g]) == [];
    assert JoinIds([]) == "";
    assert |FoundGenres(genres, [g, g])| == 1;
    assert "genre with id " + "" + " not found" == "genre with id  not found";
  }

  const MissingDirectorMessage := "director not found"

  /** The checks `createMovie` makes before its first write. */
  function CreateMovieError(t: Store.Tables, genreIds: seq<int>, directorId: int): Option<Http.Exception>
  {
    var genreErr := GenreError(t.genres, genreIds, "genre with id ", " not found");
    if genreErr.Some? then genreErr
    else if directorId !in t.directors then Some(Http.NotFound(MissingDirectorMessage))
    else None
  }

  /* ---------- createMovie ---------- */

  /** The request body as the service reads it. */
  datatype CreateMovieDto = CreateMovieDto(title: string, detail: string, directorId: int, genreIds: seq<int>, movieFileName: string)

  /** Every stored key is below the next generated id. */
  predicate KeysBelowNextId(t: Store.Tables)
  {
    && (forall id :: id in t.details ==> id < t.nextId)
    && (forall id :: id in t.movies ==> id < t.nextId)
  }

  /** Inserts a `movie_detail` row with a generated id. */
  function InsertDetail(t: Store.Tables, detail: string): Store.Tables
  {
    t.(details := t.details[t.nextId := detail], nextId := t.nextId + 1)
  }

  /** Inserts a movie row with a generated id and both counters at 0. */
  function InsertMovie(t: Store.Tables, dto: CreateMovieDto, detailId: int, creatorId: int, now: int): Store.Tables
  {
    var m := Store.Movie(t.nextId, dto.title, 0, 0, detailId, dto.directorId, creatorId, dto.movieFileName, now);
    t.(movies := t.movies[t.nextId := m], nextId := t.nextId + 1)
  }

  /** `relation(Movie, 'genres').of(movieId).add(genreIds)` */
  function AddGenres(t: Store.Tables, movieId: int, genreIds: seq<int>): Store.Tables
  {
    t.(movieGenres := t.movieGenres + set g | g in genreIds :: (movieId, g))
  }

  /**
   * `createMovie` on the request's runner. Every check precedes the first
   * write; then the detail, the movie and its genre links are inserted and
   * the uploaded file is moved out of the temporary folder (`fileMoved`
   * says whether that rename succeeds).
   */
  method CreateMovie(qr: Store.QueryRunner, dto: CreateMovieDto, userId: int, now: int, fileMoved: bool) returns (r: Http.Outcome<Store.Movie>)
    modifies qr
    ensures CreateMovieError(old(qr.data), dto.genreIds, dto.directorId).Some? ==>
      r == Err(CreateMovieError(old(qr.data), dto.genreIds, dto.directorId).value) && qr.data == old(qr.data)
    ensures CreateMovieError(old(qr.data), dto.genreIds, dto.directorId).None? ==>
      var d := old(qr.data.nextId);
      && qr.data == AddGenres(InsertMovie(InsertDetail(old(qr.data), dto.detail), dto, d, userId, now), d + 1, dto.genreIds)
      && (fileMoved ==> r == Ok(qr.data.movies[d + 1]))
      && (!fileMoved ==> r == Err(Http.Fault("ENOENT")))
    ensures qr.log == old(qr.log) && qr.active == old(qr.active) && qr.released == old(qr.released)
  {
    var genreErr := GenreError(qr.data.genres, dto.genreIds, "genre with id ", " not found");
    if genreErr.Some? {
      return Err(genreErr.value);
    }
    if dto.directorId !in qr.data.directors {
      return Err(Http.NotFound(MissingDirectorMessage));
    }
    var detailId := qr.data.nextId;
    qr.Put(InsertDetail(qr.data, dto.detail));
    var movieId := qr.data.nextId;
    qr.Put(InsertMovie(qr.data, dto, detailId, userId, now));
    qr.Put(AddGenres(qr.data, movieId, dto.genreIds));
    if !fileMoved {
      return Err(Http.Fault("ENOENT"));
    }
    return Ok(qr.data.movies[movieId]);
  }

  /**
   * What creation stores: a new movie under a fresh id, with no votes, its
   * own new detail and exactly the requested genres; nothing else changes.
   */
  lemma CreatedMovieIsFresh(t: Store.Tables, dto: CreateMovieDto, userId: int, now: int)
    requires KeysBelowNextId(t)
    ensures var d := t.nextId;
      var t' := AddGenres(InsertMovie(InsertDetail(t, dto.detail), dto, d, userId, now), d + 1, dto.genreIds);
      && KeysBelowNextId(t')
      && d !in t.details && d + 1 !in t.movies
      && t'.movies == t.movies[d + 1 := t'.movies[d + 1]]
      && t'.movies[d + 1].likeCount == 0 && t'.movies[d + 1].dislikeCount == 0
      && t'.movies[d + 1].detailId == d && t'.details[d] == dto.detail
      && (forall g :: (d + 1, g) in t'.movieGenres <==> (d + 1, g) in t.movieGenres || g in dto.genreIds)
      && t'.likes == t.likes && t'.users == t.users && t'.genres == t.genres
  {
  }

  /* ---------- findMovie ---------- */

  const MissingMovieMessage := "movie not found."

  /** `findMovie`: the movie with its relations, or NotFound. */
  function FindMovie(t: Store.Tables, id: int): (r: Http.Outcome<Store.Movie>)
    ensures r.Ok? <==> id in t.movies
    ensures r.Ok? ==> r.value == t.movies[id]
    ensures r.Err? ==> r.error == Http.NotFound(MissingMovieMessage)
  {
    if id in t.movies then Ok(t.movies[id]) else Err(Http.NotFound(MissingMovieMessage))
  }

  /* ---------- findMovieList ---------- */

  /** The query parameters of the movie list: a title filter plus cursor paging. */
  datatype GetMoviesDto = GetMoviesDto(title: Option<string>, cursor: Option<string>, order: seq<string>, take: int)

  /** The request's defaults: `order = ['id_DESC']`, `take = 5`. */
  function DefaultGetMoviesDto(title: Option<string>, cursor: Option<string>): GetMoviesDto
  {
    GetMoviesDto(title, cursor, ["id_DESC"], 5)
  }

  /**
   * The `likeStatus` property: absent when no user is signed in, `null`
   * when the user has no record on the movie, else the record's value.
   */
  datatype LikeStatus = NotMerged | NoRecord | Voted(isLike: bool)

  datatype ListedMovie = ListedMovie(movie: Store.Movie, likeStatus: LikeStatus)

  datatype MoviePage = MoviePage(data: seq<ListedMovie>, nextCursor: Option<string>, count: int)

  /** A movie as a row of its integer columns, the ones a cursor can carry. */
  function MovieRow(m: Store.Movie): (row: QueryBuilder.Row)
    ensures "id" in row && row["id"] == m.id
    ensures "likeCount" in row && row["likeCount"] == m.likeCount
  {
    map["id" := m.id, "likeCount" := m.likeCount, "dislikeCount" := m.dislikeCount, "createdAt" := m.createdAt]
  }

  function MovieRows(movies: seq<Store.Movie>): (rows: seq<QueryBuilder.Row>)
    ensures |rows| == |movies| && forall i :: 0 <= i < |movies| ==> rows[i] == MovieRow(movies[i])
  {
    seq(|movies|, i requires 0 <= i < |movies| => MovieRow(movies[i]))
  }

  /** `if (title)`: a missing or empty title adds no filter. */
  function TitleFilter(title: Option<string>): (c: seq<QueryBuilder.Condition>)
    ensures |c| <= 1
    ensures c != [] <==> title.Some? && title.value != ""
  {
    if title.Some? && title.value != "" then [QueryBuilder.Like("title", "%" + title.value + "%")] else []
  }

  /** The keyset filter a decoded cursor adds. */
  function CursorFilter(input: CommonService.CursorInput): (c: seq<QueryBuilder.Condition>)
    ensures |c| <= 1 && (c != [] <==> input.Decoded?)
  {
    if input.Decoded? then [CommonService.KeysetFilter(input.obj.order, input.obj.values)] else []
  }

  /**
   * The like merge: every movie keeps its place and gains the signed-in
   * user's vote on it; with no user (`userId` absent or 0) nothing is added.
   */
  function MergeLikeStatus(data: seq<Store.Movie>, likes: map<(int, int), bool>, userId: Option<int>): (r: seq<ListedMovie>)
    ensures |r| == |data|
    ensures forall i :: 0 <= i < |r| ==> r[i].movie == data[i]
    ensures forall i :: 0 <= i < |r| ==>
      && (userId.None? || userId.value == 0 <==> r[i].likeStatus.NotMerged?)
      && (r[i].likeStatus.NoRecord? <==> userId.Some? && userId.value != 0 && (data[i].id, userId.value) !in likes)
      && (r[i].likeStatus.Voted? ==> r[i].likeStatus.isLike == likes[(data[i].id, userId.value)])
  {
    seq(|data|, i requires 0 <= i < |data| =>
      ListedMovie(data[i],
        if userId.None? || userId.value == 0 then NotMerged
        else if (data[i].id, userId.value) in likes then Voted(likes[(data[i].id, userId.value)])
        else NoRecord))
  }

  /** `if (userId)`: a user is signed in when the id is present and not 0. */
  predicate SignedIn(userId: Option<int>)
  {
    userId.Some? && userId.value != 0
  }

  /** `data.map((movie) => movie.id)` */
  function MovieIds(data: seq<Store.Movie>): (ids: seq<int>)
    ensures |ids| == |data| && forall i :: 0 <= i < |ids| ==> ids[i] == data[i].id
  {
    seq(|data|, i requires 0 <= i < |data| => data[i].id)
  }

  /**
   * `getLikedMoviesQb`: the user's like records for the listed movies, by
   * movie id. The ids are spread into `IN (:...movieIds)`; with no ids the
   * statement reads `IN ()`, which PostgreSQL refuses, and the query fails.
   */
  function LikedMovies(likes: map<(int, int), bool>, movieIds: seq<int>, userId: int): (r: Http.Outcome<map<int, bool>>)
    ensures r.Err? <==> movieIds == []
    ensures r.Err? ==> r.error == Http.Fault(Store.QueryFailed)
    ensures r.Ok? ==> forall id :: id in r.value <==> id in movieIds && (id, userId) in likes
    ensures r.Ok? ==> forall id :: id in r.value ==> r.value[id] == likes[(id, userId)]
  {
    if movieIds == [] then Err(Http.Fault(Store.QueryFailed))
    else Ok(map id | id in movieIds && (id, userId) in likes :: likes[(id, userId)])
  }

  /** A signed-in user listing an empty page gets a database error, not an empty page. */
  lemma EmptyPageLikeQueryFails(likes: map<(int, int), bool>, userId: int)
    ensures LikedMovies(likes, MovieIds([]), userId) == Err(Http.Fault(Store.QueryFailed))
  {
  }

  /**
   * The like query as evidently intended: an empty page asks for nothing.
   * It never fails, agrees with `LikedMovies` whenever there are ids, and
   * holds exactly the user's records for the listed movies.
   */
  function GuardedLikedMovies(likes: map<(int, int), bool>, movieIds: seq<int>, userId: int): (r: Http.Outcome<map<int, bool>>)
    ensures r.Ok?
    ensures movieIds != [] ==> r == LikedMovies(likes, movieIds, userId)
    ensures forall id :: id in r.value <==> id in movieIds && (id, userId) in likes
    ensures forall id :: id in r.value ==> r.value[id] == likes[(id, userId)]
  {
    if movieIds == [] then Ok(map[]) else LikedMovies(likes, movieIds, userId)
  }

  /**
   * `findMovieList`. The builder gets the title filter, then the cursor
   * paging; `rows` and `count` are what the database returns for the built
   * query (`getManyAndCount`), and `t` holds the like records. The next
   * cursor is generated from the request's `order`. With a signed-in user
   * the like query runs even when the page is empty, and then fails.
   */
  method FindMovieList(t: Store.Tables, codecs: CommonService.Codecs, dto: GetMoviesDto, userId: Option<int>, rows: seq<Store.Movie>, count: int)
    returns (r: Http.Outcome<MoviePage>, qb: QueryBuilder.SelectQuery)
    ensures fresh(qb)
    ensures var input := CommonService.ReadCursor(codecs, dto.cursor);
      && qb.conditions == TitleFilter(dto.title) + (if input.Malformed? then [] else CursorFilter(input))
      && (input.Malformed? ==> r == Err(Http.Fault("SyntaxError")))
      && (!input.Malformed? ==>
          var effective := CommonService.EffectiveOrder(input, dto.order);
          && (r.Ok? <==> CommonService.ValidPrefix(effective) == |effective| && !(SignedIn(userId) && rows == []))
          && (CommonService.ValidPrefix(effective) < |effective| ==> r == Err(Http.BadRequest(CommonService.OrderMessage)))
          && (CommonService.ValidPrefix(effective) == |effective| && SignedIn(userId) && rows == [] ==>
                r == Err(Http.Fault(Store.QueryFailed)))
          && (r.Ok? ==> qb.ordering == CommonService.OrderingOf(effective) && qb.take == Some(dto.take)))
    ensures r.Ok? ==> r.value == MoviePage(MergeLikeStatus(rows, t.likes, userId), CommonService.GenerateNextCursor(codecs, MovieRows(rows), dto.order), count)
  {
    qb := new QueryBuilder.SelectQuery();
    if dto.title.Some? && dto.title.value != "" {
      qb.Where(QueryBuilder.Like("title", "%" + dto.title.value + "%"));
    }
    assert qb.conditions == TitleFilter(dto.title);
    var paged := CommonService.ApplyCursorPagination(qb, codecs, dto.cursor, dto.order, dto.take);
    if paged.Err? {
      return Err(paged.error), qb;
    }
    if SignedIn(userId) {
      var liked := LikedMovies(t.likes, MovieIds(rows), userId.value);
      if liked.Err? {
        assert rows == [];
        return Err(liked.error), qb;
      }
      assert rows != [];
    }
    var nextCursor := CommonService.GenerateNextCursor(codecs, MovieRows(rows), dto.order);
    r := Ok(MoviePage(MergeLikeStatus(rows, t.likes, userId), nextCursor, count));
  }

  /**
   * The next cursor carries the request's `order`, not the order the page
   * was listed in. A page listed from a cursor ordered `likeCount_DESC,
   * id_DESC`, under the default request order `id_DESC`, ends with the movie
   * (likeCount 3, id 2). The movie (likeCount 1, id 5) comes after it in
   * the listed order, yet the filter of the next cursor rejects it, so it
   * is never listed.
   */
  lemma NextCursorSkipsMovie(codecs: CommonService.Codecs)
    requires CommonService.Lawful(codecs)
    ensures var listed := ["likeCount_DESC", "id_DESC"];
      var last := Store.Movie(2, "", 3, 0, 0, 0, 0, "", 0);
      var skipped := Store.Movie(5, "", 1, 0, 0, 0, 0, "", 0);
      var next := CommonService.ReadCursor(codecs, CommonService.GenerateNextCursor(codecs, MovieRows([last]), DefaultGetMoviesDto(None, None).order));
      && CommonService.HasColumns(MovieRow(skipped), listed) && CommonService.HasColumns(MovieRow(last), listed)
      && CommonService.Compare(CommonService.RowKey(MovieRow(skipped), listed), CommonService.RowKey(MovieRow(last), listed), CommonService.Descending(listed)) == CommonService.After
      && next.Decoded?
      && !QueryBuilder.Holds(MovieRow(skipped), CommonService.KeysetFilter(next.obj.order, next.obj.values), map[])
  {
    var last := Store.Movie(2, "", 3, 0, 0, 0, 0, "", 0);
    var skipped := Store.Movie(5, "", 1, 0, 0, 0, 0, "", 0);
    SampleEntries();
    assert MovieRows([last]) == [MovieRow(last)];
    SkippedAfterLast(codecs, ["likeCount_DESC", "id_DESC"], DefaultGetMoviesDto(None, None).order, MovieRow(last), MovieRow(skipped));
  }

  /**
   * A row that is behind the last one by likeCount but ahead of it by id is
   * after it under `likeCount_DESC, id_DESC` and rejected by an `id_DESC`
   * cursor built from the last row.
   */
  lemma SkippedAfterLast(codecs: CommonService.Codecs, listed: seq<string>, order: seq<string>, last: QueryBuilder.Row, skipped: QueryBuilder.Row)
    requires CommonService.Lawful(codecs)
    requires |listed| == 2
    requires CommonService.ColumnOf(listed[0]) == "likeCount" && CommonService.IsDesc(listed[0])
    requires CommonService.ColumnOf(listed[1]) == "id" && CommonService.IsDesc(listed[1])
    requires |order| == 1 && order[0] == listed[1]
    requires "likeCount" in skipped && "id" in skipped && "likeCount" in last && "id" in last
    requires skipped["likeCount"] < last["likeCount"] && skipped["id"] > last["id"]
    ensures var next := CommonService.ReadCursor(codecs, CommonService.GenerateNextCursor(codecs, [last], order));
      && CommonService.HasColumns(skipped, listed) && CommonService.HasColumns(last, listed)
      && CommonService.Compare(CommonService.RowKey(skipped, listed), CommonService.RowKey(last, listed), CommonService.Descending(listed)) == CommonService.After
      && next.Decoded?
      && !QueryBuilder.Holds(skipped, CommonService.KeysetFilter(next.obj.order, next.obj.values), map[])
  {
    ListedOrderKeys(skipped, last, listed);
    RequestOrderKeys(skipped, last, order);
    CommonService.NextPageStartsAfterLastRow(codecs, [last], order, skipped, map[]);
  }

  lemma SampleEntries()
    ensures CommonService.ColumnOf("likeCount_DESC") == "likeCount" && CommonService.IsDesc("likeCount_DESC")
    ensures CommonService.ColumnOf("id_DESC") == "id" && CommonService.IsDesc("id_DESC")
  {
    assert "likeCount_DESC" == "likeCount" + "_" + "DESC";
    assert "id_DESC" == "id" + "_" + "DESC";
    CommonService.EntryParts("likeCount", "DESC");
    CommonService.EntryParts("id", "DESC");
  }

  /** The sort keys of two rows under a two-column descending order. */
  lemma ListedOrderKeys(skipped: QueryBuilder.Row, last: QueryBuilder.Row, listed: seq<string>)
    requires |listed| == 2
    requires CommonService.ColumnOf(listed[0]) == "likeCount" && CommonService.IsDesc(listed[0])
    requires CommonService.ColumnOf(listed[1]) == "id" && CommonService.IsDesc(listed[1])
    requires "likeCount" in skipped && "id" in skipped && "likeCount" in last && "id" in last
    ensures CommonService.HasColumns(skipped, listed) && CommonService.HasColumns(last, listed)
    ensures CommonService.RowKey(skipped, listed) == [skipped["likeCount"], skipped["id"]]
    ensures CommonService.RowKey(last, listed) == [last["likeCount"], last["id"]]
    ensures CommonService.Descending(listed) == [true, true]
  {
  }

  /** The sort keys of two rows under the default order. */
  lemma RequestOrderKeys(skipped: QueryBuilder.Row, last: QueryBuilder.Row, order: seq<string>)
    requires |order| == 1 && CommonService.ColumnOf(order[0]) == "id" && CommonService.IsDesc(order[0])
    requires "id" in skipped && "id" in last
    ensures CommonService.HasColumns(skipped, order) && CommonService.HasColumns(last, order)
    ensures CommonService.RowKey(skipped, order) == [skipped["id"]] && CommonService.RowKey(last, order) == [last["id"]]
    ensures CommonService.Descending(order) == [true]
  {
  }

  /**
   * The next cursor as evidently intended: generated from the order the page
   * was listed in, which is the cursor's own when one was given.
   */
  function ContinuingCursor(codecs: CommonService.Codecs, input: CommonService.CursorInput, rows: seq<QueryBuilder.Row>, order: seq<string>): (r: Option<string>)
    ensures r.None? <==> rows == []
  {
    CommonService.GenerateNextCursor(codecs, rows, CommonService.EffectiveOrder(input, order))
  }

  /** With it, the next page admits exactly the rows after the last listed one, in the listed order. */
  lemma ContinuingCursorResumes(codecs: CommonService.Codecs, input: CommonService.CursorInput, rows: seq<QueryBuilder.Row>, order: seq<string>, row: QueryBuilder.Row, text: map<string, string>)
    requires CommonService.Lawful(codecs) && rows != []
    requires CommonService.HasColumns(rows[|rows| - 1], CommonService.EffectiveOrder(input, order))
    requires CommonService.HasColumns(row, CommonService.EffectiveOrder(input, order))
    ensures var listed := CommonService.EffectiveOrder(input, order);
      var next := CommonService.ReadCursor(codecs, ContinuingCursor(codecs, input, rows, order));
      && next.Decoded?
      && (QueryBuilder.Holds(row, CommonService.KeysetFilter(next.obj.order, next.obj.values), text) <==>
          CommonService.Compare(CommonService.RowKey(row, listed), CommonService.RowKey(rows[|rows| - 1], listed), CommonService.Descending(listed)) == CommonService.After)
  {
    CommonService.NextPageStartsAfterLastRow(codecs, rows, CommonService.EffectiveOrder(input, order), row, text);
  }

  /* ---------- findRecentMovieList ---------- */

  const RecentMovieKey := "RECENT_MOVIE"

  /**
   * `findRecentMovieList`: a truthy cached list is returned as is; otherwise
   * `newest` (the ten most recent movies, as the database returns them) is
   * cached under the module TTL and returned. Either way the next call finds
   * the returned value in the cache.
   */
  method FindRecentMovieList(cache: CacheStore.Cache, newest: seq<Store.Movie>) returns (r: CacheStore.Value)
    modifies cache
    ensures old(cache.Get(RecentMovieKey)).Some? && CacheStore.Truthy(old(cache.Get(RecentMovieKey)).value) ==>
      r == old(cache.Get(RecentMovieKey)).value && cache.entries == old(cache.entries)
    ensures !(old(cache.Get(RecentMovieKey)).Some? && CacheStore.Truthy(old(cache.Get(RecentMovieKey)).value)) ==>
      r == CacheStore.Movies(newest) && cache.entries == old(cache.entries)[RecentMovieKey := CacheStore.Entry(r, CacheStore.DefaultTtl)]
    ensures cache.Get(RecentMovieKey) == Some(r) && CacheStore.Truthy(r)
  {
    var cached := cache.Get(RecentMovieKey);
    if cached.Some? && CacheStore.Truthy(cached.value) {
      return cached.value;
    }
    r := CacheStore.Movies(newest);
    cache.Set(RecentMovieKey, r, None);
  }

  /* ---------- updateMovie ---------- */

  /** The update body; every field may be missing. */
  datatype UpdateMovieDto = UpdateMovieDto(title: Option<string>, detail: Option<string>, directorId: Option<int>, genreIds: Option<seq<int>>)

  /** `if (genreIds && genreIds.length > 0)` */
  predicate HasGenreIds(dto: UpdateMovieDto)
  {
    dto.genreIds.Some? && |dto.genreIds.value| > 0
  }

  /** `if (directorId)`: 0 is falsy. */
  predicate HasDirector(dto: UpdateMovieDto)
  {
    dto.directorId.Some? && dto.directorId.value != 0
  }

  /** `if (detail)`: the empty text is falsy. */
  predicate HasDetail(dto: UpdateMovieDto)
  {
    dto.detail.Some? && dto.detail.value != ""
  }

  /** The columns an UPDATE of the movie row writes; `None` leaves a column as it is. */
  datatype MovieChange = MovieChange(title: Option<string>, directorId: Option<int>)

  function ApplyChange(m: Store.Movie, c: MovieChange): (m': Store.Movie)
    ensures m'.title == c.title.GetOr(m.title) && m'.directorId == c.directorId.GetOr(m.directorId)
    ensures m'.id == m.id && m'.likeCount == m.likeCount && m'.dislikeCount == m.dislikeCount && m'.detailId == m.detailId
  {
    m.(title := c.title.GetOr(m.title), directorId := c.directorId.GetOr(m.directorId))
  }

  /**
   * The columns `updateMovie` writes as its code stands: the builder's
   * second `set` (the director) replaces the first (`title`) instead of
   * adding to it.
   */
  function WrittenChange(dto: UpdateMovieDto): (c: MovieChange)
    ensures c.directorId.Some? <==> HasDirector(dto)
    ensures c.title.Some? <==> dto.title.Some? && !HasDirector(dto)
  {
    if HasDirector(dto) then MovieChange(None, dto.directorId) else MovieChange(dto.title, None)
  }

  /** The columns evidently intended: the title and, when given, the director. */
  function IntendedChange(dto: UpdateMovieDto): (c: MovieChange)
    ensures c.title == dto.title
    ensures c.directorId.Some? <==> HasDirector(dto)
  {
    MovieChange(dto.title, if HasDirector(dto) then dto.directorId else None)
  }

  /** `relation(Movie, 'genres').of(id).set(ids)`: the movie's links become exactly `ids`. */
  function SetGenres(t: Store.Tables, id: int, ids: seq<int>): (t': Store.Tables)
    ensures forall m, g :: (m, g) in t'.movieGenres <==> if m == id then g in ids else (m, g) in t.movieGenres
  {
    t.(movieGenres := (set p | p in t.movieGenres && p.0 != id) + set g | g in ids :: (id, g))
  }

  /**
   * The checks and writes of `updateMovie` with the movie row receiving
   * `change`: the movie must exist (read before any write), the genre check
   * runs only for a non-empty `genreIds` and replaces the links, a truthy
   * director must exist, a truthy detail overwrites the movie's detail row
   * (a movie without one fails on `movie.detail.id`), then the row update.
   */
  function MovieUpdates(t: Store.Tables, id: int, dto: UpdateMovieDto, change: MovieChange): Http.Outcome<Store.Tables>
  {
    if id !in t.movies then Err(Http.NotFound(MissingMovieMessage))
    else
      var genreErr := if HasGenreIds(dto) then GenreError(t.genres, dto.genreIds.value, "", " genre not found") else None;
      if genreErr.Some? then Err(genreErr.value)
      else
        var t1 := if HasGenreIds(dto) then SetGenres(t, id, dto.genreIds.value) else t;
        if HasDirector(dto) && dto.directorId.value !in t1.directors then Err(Http.NotFound(MissingDirectorMessage))
        else
          var detailId := t1.movies[id].detailId;
          if HasDetail(dto) && detailId !in t1.details then Err(Http.Fault("TypeError"))
          else
            var t2 := if HasDetail(dto) then t1.(details := t1.details[detailId := dto.detail.value]) else t1;
            Ok(t2.(movies := t2.movies[id := ApplyChange(t2.movies[id], change)]))
  }

  /** `updateMovie`'s work as its code stands. */
  function UpdateMovieWrites(t: Store.Tables, id: int, dto: UpdateMovieDto): Http.Outcome<Store.Tables>
  {
    MovieUpdates(t, id, dto, WrittenChange(dto))
  }

  /** The work as evidently intended. */
  function IntendedMovieWrites(t: Store.Tables, id: int, dto: UpdateMovieDto): Http.Outcome<Store.Tables>
  {
    MovieUpdates(t, id, dto, IntendedChange(dto))
  }

  /**
   * What an update may change: only the movie's own row, its detail and its
   * genre links; the votes, the counters and every other movie are kept, and
   * a failed check changes nothing because it precedes the commit.
   */
  lemma UpdateTouchesOnlyTheMovie(t: Store.Tables, id: int, dto: UpdateMovieDto, change: MovieChange)
    requires MovieUpdates(t, id, dto, change).Ok?
    ensures var t' := MovieUpdates(t, id, dto, change).value;
      && id in t.movies && id in t'.movies && t'.movies.Keys == t.movies.Keys
      && (forall m :: m in t.movies && m != id ==> t'.movies[m] == t.movies[m])
      && t'.movies[id] == ApplyChange(t.movies[id], change)
      && t'.likes == t.likes && t'.users == t.users && t'.genres == t.genres && t'.directors == t.directors
      && (forall g :: (id, g) in t'.movieGenres <==> if HasGenreIds(dto) then g in dto.genreIds.value else (id, g) in t.movieGenres)
      && (forall m, g :: m != id ==> ((m, g) in t'.movieGenres <==> (m, g) in t.movieGenres))
      && (HasDetail(dto) ==> t'.details == t.details[t.movies[id].detailId := dto.detail.value])
      && (!HasDetail(dto) ==> t'.details == t.details)
  {
  }

  /** Hence an update keeps the counters equal to the vote records. */
  lemma UpdateKeepsCountsMatch(t: Store.Tables, id: int, dto: UpdateMovieDto, change: MovieChange)
    requires MovieUpdates(t, id, dto, change).Ok? && CountsMatch(t)
    ensures CountsMatch(MovieUpdates(t, id, dto, change).value)
  {
    UpdateTouchesOnlyTheMovie(t, id, dto, change);
    var t' := MovieUpdates(t, id, dto, change).value;
    forall m | m in t'.movies ensures Drift(t', m, true) == 0 && Drift(t', m, false) == 0 {
      assert m in t.movies;
    }
  }

  /**
   * As written, a request that changes both the title and the director
   * stores the new director but keeps the old title.
   */
  lemma UpdateDropsTitle(t: Store.Tables, id: int, title: string, directorId: int)
    requires id in t.movies && directorId != 0 && directorId in t.directors && title != t.movies[id].title
    ensures var dto := UpdateMovieDto(Some(title), None, Some(directorId), None);
      && UpdateMovieWrites(t, id, dto).Ok?
      && UpdateMovieWrites(t, id, dto).value.movies[id].directorId == directorId
      && UpdateMovieWrites(t, id, dto).value.movies[id].title != title
  {
  }

  /** As intended, every field the request gives reaches the movie row. */
  lemma IntendedUpdateAppliesEveryField(t: Store.Tables, id: int, dto: UpdateMovieDto)
    requires IntendedMovieWrites(t, id, dto).Ok?
    ensures var m := IntendedMovieWrites(t, id, dto).value.movies[id];
      && (dto.title.Some? ==> m.title == dto.title.value)
      && (HasDirector(dto) ==> m.directorId == dto.directorId.value)
      && (!HasDirector(dto) && dto.title.None? ==> m == t.movies[id])
  {
    UpdateTouchesOnlyTheMovie(t, id, dto, IntendedChange(dto));
  }

  /**
   * `updateMovie`: the work runs in its own transaction block; on success the
   * committed movie is read back (`findMovie`).
   */
  method UpdateMovie(db: Store.Database, commitFails: bool, rollbackFails: bool, id: int, dto: UpdateMovieDto)
    returns (r: Http.Outcome<Store.Movie>)
    modifies db
    ensures var w := UpdateMovieWrites(old(db.tables), id, dto);
      && db.tables == (if w.Ok? && !commitFails then w.value else old(db.tables))
      && (r.Ok? <==> w.Ok? && !commitFails)
      && (r.Ok? ==> r.value == w.value.movies[id])
      && (r.Err? ==> r.error == TransactionBlock.BlockError(w, commitFails, rollbackFails).value)
  {
    var err, qr := TransactionBlock.Run(db, commitFails, rollbackFails, t => UpdateMovieWrites(t, id, dto));
    if err.Some? {
      return Err(err.value);
    }
    UpdateTouchesOnlyTheMovie(old(db.tables), id, dto, WrittenChange(dto));
    r := FindMovie(db.tables, id);
  }

  /* ---------- deleteMovie ---------- */

  /**
   * Deleting the movie row; its vote records and genre links go with it
   * (`onDelete: 'CASCADE'`).
   */
  function RemoveMovie(t: Store.Tables, id: int): (t': Store.Tables)
    ensures id !in t'.movies && t'.movies == t.movies - {id}
    ensures forall k :: k in t'.likes <==> k in t.likes && k.0 != id
    ensures forall k :: k in t'.likes ==> t'.likes[k] == t.likes[k]
    ensures forall p :: p in t'.movieGenres <==> p in t.movieGenres && p.0 != id
  {
    t.(movies := t.movies - {id},
       likes := map k | k in t.likes && k.0 != id :: t.likes[k],
       movieGenres := set p | p in t.movieGenres && p.0 != id)
  }

  /** `deleteMovie`'s work: find the movie, delete it, then delete its detail row. */
  function DeleteMovieWrites(t: Store.Tables, id: int): (r: Http.Outcome<Store.Tables>)
    ensures r.Err? <==> id !in t.movies || t.movies[id].detailId !in t.details
    ensures id !in t.movies ==> r == Err(Http.NotFound(MissingMovieMessage))
    ensures r.Ok? ==> r.value == RemoveMovie(t, id).(details := t.details - {t.movies[id].detailId})
  {
    if id !in t.movies then Err(Http.NotFound(MissingMovieMessage))
    else if t.movies[id].detailId !in t.details then Err(Http.Fault("TypeError"))
    else
      var t1 := RemoveMovie(t, id);
      Ok(t1.(details := t1.details - {t.movies[id].detailId}))
  }

  /** Removing a movie with its votes keeps every other counter equal to its records. */
  lemma DeleteKeepsCountsMatch(t: Store.Tables, id: int)
    requires CountsMatch(t)
    ensures CountsMatch(RemoveMovie(t, id))
  {
    var t' := RemoveMovie(t, id);
    forall m, b | m in t'.movies ensures Voters(t'.likes, m, b) == Voters(t.likes, m, b) {
      assert m != id;
    }
    forall m | m in t'.movies ensures Drift(t', m, true) == 0 && Drift(t', m, false) == 0 {
      assert Voters(t'.likes, m, true) == Voters(t.likes, m, true);
      assert Voters(t'.likes, m, false) == Voters(t.likes, m, false);
    }
  }

  /** `deleteMovie`: the work in its own transaction block; nothing is returned. */
  method DeleteMovie(db: Store.Database, commitFails: bool, rollbackFails: bool, id: int) returns (r: Http.Outcome<()>)
    modifies db
    ensures var w := DeleteMovieWrites(old(db.tables), id);
      && db.tables == (if w.Ok? && !commitFails then w.value else old(db.tables))
      && (r.Ok? <==> w.Ok? && !commitFails)
      && (r.Err? ==> r.error == TransactionBlock.BlockError(w, commitFails, rollbackFails).value)
  {
    var err, qr := TransactionBlock.Run(db, commitFails, rollbackFails, t => DeleteMovieWrites(t, id));
    if err.Some? {
      return Err(err.value);
    }
    r := Ok(());
  }
}
