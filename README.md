# fc-netflix core, modelled in Dafny

This project models the core of a NestJS/TypeORM movie service. Users sign up,
sign in with a Basic header and receive JWT access and refresh tokens. Movies
are listed with keyset (cursor) pagination, created and updated with their
genres, director and detail, deleted, and liked or disliked. The request
pipeline around them consists of:

- a bearer-token middleware that caches verified payloads;
- an authentication guard and a role (RBAC) guard;
- a throttle interceptor and a response-cache interceptor;
- a transaction interceptor that hands a query runner to the handler;
- pipes that check uploaded files and movie titles.

Layout:

- **Database.** A `Store.Tables` value holds one map per table. `Store.Database`
  holds the committed tables.
- **Query runner.** `Store.QueryRunner` is a class with the TypeORM runner's
  flags (connected, active, released), its transaction copy of the data and an
  event log.
- **Query builder.** `QueryBuilder.SelectQuery` records what the services put on
  it: conditions, ordering, `take`, `offset` and `limit`.
- **Cache.** `CacheStore.Cache` is the cache manager.
- **Services, guards, pipes.** The service methods that change state are
  methods on these classes. The pure parts (guards, pipes, token parsing,
  cursor encoding, filters) are functions.
- **Specifications.** Each method is proved against a specification function
  of the old state: `Toggled`, `UpdateMovieWrites`, `DeleteMovieWrites`,
  `InterceptLog`, `KeysetFilter`, … The lemmas state what the source promises
  about those functions.
- **Encodings.** Base64 (section 4 of RFC 4648) and UTF-8 (RFC 3629) are
  written out. The two round trips they take part in are proved: the cursor
  and the Basic credentials.

## Model

| member | source | states |
|---|---|---|
| AuthGuard.CanActivate | src/auth/guard/auth.guard.ts:5-11 | a request passes exactly when it carries a payload whose token type is `access`; a refresh token never passes |
| AuthGuard.IssuedTokenPassesIffAccess | src/auth/auth.service.ts:92-111 | a payload signed by `issueToken` passes the guard if and only if it was issued with `isRefreshToken` false |
| AuthService.SplitCredentials | src/auth/auth.service.ts:152-157 | credentials come back exactly when the decoded text holds a `:`; the email and password contain no `:` and, joined by `:`, are a prefix of the text; otherwise BadRequest with the format message |
| AuthService.ParseBasicToken | src/auth/auth.service.ts:134-160 | fewer than two space-separated parts, or a first part that is not `basic` in any ASCII case, gives BadRequest; otherwise the result is the credentials split out of the UTF-8 decoding of the Base64 second part |
| AuthService.ParseBasicHeader | src/auth/auth.service.ts:134-160 | for a header built from a Basic scheme and the Base64 of any text, parsing gives exactly the credential split of that text |
| AuthService.ParseBasicTokenRoundTrip | src/auth/auth.service.ts:134-160 | encoding `email:password` (neither holding `:`) in a Basic header and parsing it gives back the same email and password |
| AuthService.ParseBasicTokenTruncatesPassword | src/auth/auth.service.ts:152-157 | a password followed by another `:` comes back cut at that colon, because only the first two pieces are kept |
| AuthService.BasicSchemeSpellings | src/auth/auth.service.ts:144 | `Basic` and `BASIC` are both accepted as the scheme |
| AuthService.FirstWithEmail | src/auth/auth.service.ts:79 | a user is found exactly when some visited user has the email; the one found has it, and no user visited before it does |
| AuthService.FindByEmail | src/auth/auth.service.ts:79 | a user is found exactly when the email is taken, and the user found has that email and is a row of the table |
| AuthService.Authenticate | src/auth/auth.service.ts:78-90 | success exactly when a user has the email and the password compares equal to the stored hash; every failure is BadRequest with the one login message; an unknown email always fails |
| AuthService.AuthenticateFindsTheOwner | src/auth/auth.service.ts:78-90 | with unique emails, authenticating with a user's email returns that very user exactly when the password compares equal |
| AuthService.SignUpThenSignIn | src/user/user.service.ts:45-77 | a user inserted with the hash of a password is then authenticated with that password, and the stored row is returned |
| AuthService.IssueToken | src/auth/auth.service.ts:92-111 | the payload carries the user's id and role; the token is `access` only for `isRefreshToken` false, with the access secret and 300 seconds; otherwise `refresh`, with the refresh secret and 24h |
| AuthService.BlockTtl | src/auth/auth.service.ts:124-128 | a TTL exists exactly when the payload has `exp`; it is the milliseconds until expiry, but never below 1 |
| AuthService.BlockToken | src/auth/auth.service.ts:118-132 | an undecodable token gives BadRequest with the cache unchanged; otherwise `true`, with the payload stored under `BLOCK_TOKEN_<token>` for the TTL (or the default when there is none) and every other entry kept |
| Base64.CharOf | src/common/module/common.service.ts:148 | a six-bit value is encoded by a character other than the padding `=` |
| Base64.SextetOf | src/common/module/common.service.ts:28 | a character that decodes to a value is the character that value encodes |
| Base64.SextetOfCharOf | src/common/module/common.service.ts:28 | decoding the character of a six-bit value gives the value back |
| Base64.EncodeTriple | src/common/module/common.service.ts:148 | three bytes become four characters |
| Base64.Encode | src/common/module/common.service.ts:148 | the encoding has 4 characters for every started group of three bytes |
| Base64.TripleRoundTrip | src/common/module/common.service.ts:28 | a full group of three bytes decodes back from its four characters |
| Base64.DecodeEncode | src/common/module/common.service.ts:28 | Base64 decoding of an encoding gives the original bytes, for every length |
| Base64.NodeDecode | src/auth/auth.service.ts:149 | on canonical Base64 input, Node's decoder returns exactly the RFC 4648 decoding; any other input is decoded too, never refused |
| Base64.EncodeAlphabet | src/common/module/common.service.ts:148 | every encoded character is in the Base64 alphabet or is `=`, so an encoded cursor holds no space, colon or underscore |
| BearerTokenMiddleware.ValidateBearerToken | src/auth/middleware/bearer-token.middleware.ts:92-105 | refused with BadRequest exactly when the first space-separated part is not `bearer` in any ASCII case; otherwise the token is the second part (space-free, following the scheme and a space), and it is absent exactly when the header has no space |
| BearerTokenMiddleware.ValidateBearerTokenRoundTrip | src/auth/middleware/bearer-token.middleware.ts:92-105 | `Bearer <token>` gives back the token |
| BearerTokenMiddleware.SchemeAloneIsNotRefused | src/auth/middleware/bearer-token.middleware.ts:95-97 | a header holding only the scheme is accepted with no token, because the exception on line 96 is created but not thrown |
| BearerTokenMiddleware.ValidateBearerTokenStrict | src/auth/middleware/bearer-token.middleware.ts:92-105 | the corrected check accepts exactly what the original accepts with a token present, and returns the same token |
| BearerTokenMiddleware.StrictRefusesSchemeAlone | src/auth/middleware/bearer-token.middleware.ts:95-97 | the corrected check refuses a header holding only the scheme with the format message |
| BearerTokenMiddleware.TokenKeyIsNotBlockKey | src/auth/middleware/bearer-token.middleware.ts:28 | the key the middleware caches a payload under never coincides with a block-list key, so blocking does not touch it |
| BearerTokenMiddleware.SecretFor | src/auth/middleware/bearer-token.middleware.ts:70-72 | the refresh secret is chosen exactly for a `refresh` token |
| BearerTokenMiddleware.IssuedTokenVerifiesWithItsSecret | src/auth/middleware/bearer-token.middleware.ts:69-78 | every token `issueToken` signs has a recognised type and is verified with the secret it was signed with |
| BearerTokenMiddleware.CacheTtl | src/auth/middleware/bearer-token.middleware.ts:80-85 | a TTL exists exactly when the payload has `exp`; it is the milliseconds until 30 seconds before expiry, but never below 1 |
| BearerTokenMiddleware.Decide | src/auth/middleware/bearer-token.middleware.ts:18-67 | no header passes untouched. A cached payload is used as it is. A fresh payload needs a decodable token of type refresh or access, verified with that type's secret, and is cached with CacheTtl. Every refusal is one of the four messages |
| BearerTokenMiddleware.RefusalReasons | src/auth/middleware/bearer-token.middleware.ts:43-64 | which refusal each failure gives: bad scheme or undecodable token → BadRequest; an unknown type → BadRequest; expiry → Unauthorized (expired); any other failed verification → Unauthorized |
| BearerTokenMiddleware.CacheHitSkipsVerification | src/auth/middleware/bearer-token.middleware.ts:31-41 | on a cache hit the decision does not depend on the JWT decoder or verifier |
| BearerTokenMiddleware.BlockingDoesNotAffectUse | src/auth/auth.service.ts:129 | adding a block-list entry never changes what the middleware decides |
| BearerTokenMiddleware.IssuedAccessTokenIsAccepted | src/auth/middleware/bearer-token.middleware.ts:43-87 | an uncached access token that verifies is accepted, and its claims are cached with CacheTtl |
| BearerTokenMiddleware.Use | src/auth/middleware/bearer-token.middleware.ts:18-67 | the request's user and the cache change exactly as Decide says: user set and entry stored for a fresh payload; user set for a cached one; nothing changed otherwise; the error is returned on refusal |
| CacheInterceptor.Serve | src/common/interceptor/cache.interceptor.ts:9-27 | a stored key answers from the map without the handler; a miss returns the handler's outcome and stores it only if it succeeded |
| CacheInterceptor.ServeAll | src/common/interceptor/cache.interceptor.ts:9-27 | a sequence of requests gets one response each |
| CacheInterceptor.ServeAllKeepsEntries | src/common/interceptor/cache.interceptor.ts:7 | once stored, a response is never replaced or dropped |
| CacheInterceptor.StoredResponseIsStable | src/common/interceptor/cache.interceptor.ts:13-19 | every later request to a stored key gets the stored response |
| CacheInterceptor.Interceptor.constructor | src/common/interceptor/cache.interceptor.ts:7 | the map starts empty |
| CacheInterceptor.Interceptor.Intercept | src/common/interceptor/cache.interceptor.ts:9-27 | the field and the response are Serve of the old map; existing entries are kept |
| CacheStore.Cache.constructor | src/auth/middleware/bearer-token.middleware.ts:14 | the cache starts empty |
| CacheStore.Cache.Get | src/auth/middleware/bearer-token.middleware.ts:31 | a value is found exactly when the key is stored, and it is the stored value |
| CacheStore.Cache.Set | src/auth/middleware/bearer-token.middleware.ts:87 | the key then reads the new value, stored with the given TTL or the default; every other key reads as before |
| CommonService.Lookup | src/common/module/common.service.ts:94 | a cursor value is found exactly when some entry has the column, and it is that entry's value |
| CommonService.Keys | src/common/module/common.service.ts:40 | the cursor's column names, in order |
| CommonService.NonCanonicalCursorIsRead | src/common/module/common.service.ts:77-78 | a cursor that is not canonical Base64 is read from the bytes Node's decoder makes of it, not refused |
| CommonService.DecodeEncodeCursor | src/common/module/common.service.ts:77-78 | with a lawful JSON codec, decoding an encoded cursor object gives the object back |
| CommonService.EntryParts | src/common/module/common.service.ts:108 | `column_DIR`, neither part holding `_`, splits back into the column and the direction |
| CommonService.ValidPrefix | src/common/module/common.service.ts:107-119 | the number of leading order entries with direction ASC or DESC; the next entry, if any, is invalid |
| CommonService.OrderingOf | src/common/module/common.service.ts:107-119 | one ordering per order entry |
| CommonService.ApplyOrdering | src/common/module/common.service.ts:107-119 | entries are added until the first invalid one: the first with `orderBy`, the rest with `addOrderBy`. It succeeds exactly when all are valid; otherwise BadRequest with the order message. Nothing else on the builder changes |
| CommonService.ApplyPagePagination | src/common/module/common.service.ts:11-18 | offset `(page-1)*limit`, the limit, and ordering by `id` alone in the given direction; the conditions and `take` are kept |
| CommonService.EqualPrefix | src/common/module/common.service.ts:86-96 | the i-th keyset branch starts with one equality per earlier column |
| CommonService.KeysetParams | src/common/module/common.service.ts:94 | every ordered column is bound to the cursor's value for it |
| CommonService.BuildKeysetFilter | src/common/module/common.service.ts:83-103 | the loop builds exactly the keyset disjunction KeysetFilter of the order and values |
| CommonService.ApplyCursorPagination | src/common/module/common.service.ts:73-122 | a cursor whose JSON does not parse throws SyntaxError with the builder untouched; a decoded cursor adds its keyset filter and orders by the cursor's own order; the order is checked as ApplyOrdering does and `take` is set on success; offset and limit are kept |
| CommonService.ToParams | src/common/module/common.service.ts:46 | every cursor column is bound to its value |
| CommonService.ApplyTupleCursorPagination | src/common/module/common.service.ts:24-64 | as ApplyCursorPagination, but a decoded cursor replaces the conditions with one row-value comparison of all cursor columns, `<` if any entry ends in DESC and `>` otherwise |
| CommonService.GenerateNextCursor | src/common/module/common.service.ts:124-149 | null exactly when the page is empty |
| CommonService.ProjectIntoLookup | src/common/module/common.service.ts:141-144 | the projection of the last row holds, for each ordered column the row has, that row's value, and nothing else |
| CommonService.ProjectLookup | src/common/module/common.service.ts:137-144 | a column's cursor value is the last row's value exactly when the column is ordered on |
| CommonService.EncodedCursorNonEmpty | src/common/module/common.service.ts:148 | an encoded cursor is never the empty string, so it is read back as a cursor |
| CommonService.NextCursorDecodes | src/common/module/common.service.ts:124-149 | the next cursor of a non-empty page decodes, carries the order it was made with and holds the last row's ordered column values |
| CommonService.CompareSameIff | src/common/module/common.service.ts:83-103 | two keys compare as the same position exactly when they are equal |
| CommonService.CompareFlip | src/common/module/common.service.ts:83-103 | x comes after y exactly when y comes before x |
| CommonService.CompareTransitive | src/common/module/common.service.ts:83-103 | "comes after" in the requested ordering is transitive |
| CommonService.CompareAfterAt | src/common/module/common.service.ts:83-103 | x comes after y exactly when the two tie on a prefix and x is beyond y on the next column, in that column's direction |
| CommonService.RowKey | src/common/module/common.service.ts:107-119 | a row's key has one value per ordered column |
| CommonService.CursorKey | src/common/module/common.service.ts:94 | the cursor's key has one value per ordered column |
| CommonService.Descending | src/common/module/common.service.ts:90-91 | one direction flag per ordered column |
| CommonService.BranchMeaning | src/common/module/common.service.ts:86-96 | a row meets branch i exactly when it ties with the cursor on the first i columns and is beyond it on column i |
| CommonService.KeysetMeansStrictlyAfter | src/common/module/common.service.ts:83-103 | a row meets the keyset filter exactly when it comes strictly after the cursor in the requested ordering |
| CommonService.NextPageStartsAfterLastRow | src/common/module/common.service.ts:73-149 | with the cursor made from a page in the same order, the next query admits exactly the rows after the page's last row |
| CommonService.Columns | src/common/module/common.service.ts:50 | one column name per order entry |
| CommonService.Pick | src/common/module/common.service.ts:46 | one value per named column |
| CommonService.Uniform | src/common/module/common.service.ts:42 | a single direction applied to every column |
| CommonService.RowValueMeaning | src/common/module/common.service.ts:42-46 | the row-value comparison `(a,b) < (x,y)` (or `>`) holds exactly when the row comes after the cursor in one uniform direction |
| CommonService.ProjectIntoKeys | src/common/module/common.service.ts:141-144 | with distinct columns, the cursor's keys are the ordered columns in order |
| CommonService.EntryShape | src/common/module/common.service.ts:50 | an entry that splits into a column and a direction is that column, `_` and the direction |
| CommonService.TupleOpOfUniform | src/common/module/common.service.ts:42 | when every entry has the same direction, the row-value operator is `<` for DESC and `>` for ASC |
| CommonService.ProjectedKey | src/common/module/common.service.ts:137-144 | the cursor made from a row has that row's key |
| CommonService.ProjectedParams | src/common/module/common.service.ts:137-146 | the parameters bound from that cursor are the row's values of the ordered columns |
| CommonService.UniformDescending | src/common/module/common.service.ts:90-91 | one direction everywhere gives a uniform direction list |
| CommonService.TupleAgreesWhenUniform | src/common/module/common.service.ts:24-122 | with a single direction and distinct columns, the tuple variant and the keyset variant admit the same rows |
| CommonUtil.PageOffset | src/common/util/common.util.ts:8 | the offset of a page from 1 on is never negative |
| CommonUtil.ApplyPagePagination | src/common/util/common.util.ts:5-11 | offset and limit are set from the page; conditions, ordering and `take` are kept |
| CommonUtil.PagesTile | src/common/util/common.util.ts:8-10 | every row index lies in exactly one page: page `i / limit + 1` |
| GenreService.FindAllGenre | src/genre/genre.service.ts:15-20 | exactly the selected genres are listed, each once, and the count is their number |
| GenreService.FindAllWithoutNameListsEveryGenre | src/genre/genre.service.ts:16-17 | without a name (or with the empty name) every genre is listed and the count is the table's size |
| GenreService.FindAllWithNameMeansContains | src/genre/genre.service.ts:19 | with a name free of `%`, `_` and `\`, exactly the genres whose name contains it are listed |
| GenreService.FindOneGenre | src/genre/genre.service.ts:22-24 | the genre with the id, or null exactly when there is none |
| GenreService.CreateGenre | src/genre/genre.service.ts:26-28 | a name taken by another genre fails on the unique constraint with the table unchanged; otherwise the genre is inserted under a fresh id and returned |
| GenreService.CreatedGenreIsFound | src/genre/genre.service.ts:26-28 | after a create, names stay unique, the new genre is found under its new id and every other genre is found as before |
| GenreService.Assigned | src/genre/genre.service.ts:36 | the fields given overwrite, the others are kept, and the id is unchanged |
| GenreService.UpdateGenre | src/genre/genre.service.ts:30-38 | an unknown id gives NotFound naming it; a name taken by another genre fails; otherwise only that genre is replaced by its assigned version, which is returned |
| GenreService.UpdateKeepsConstraints | src/genre/genre.service.ts:30-38 | a successful update keeps names unique and every other genre as it was |
| GenreService.EmptyUpdateKeepsGenre | src/genre/genre.service.ts:36 | an update with no fields changes nothing |
| GenreService.RemoveGenre | src/genre/genre.service.ts:40-49 | the genre and its movie links are removed; movies, users and likes are untouched |
| GenreService.DeleteGenre | src/genre/genre.service.ts:40-49 | an unknown id gives NotFound naming it with the tables unchanged; otherwise the genre is removed |
| GenreService.DeletedGenreIsGone | src/genre/genre.service.ts:40-49 | after a delete the genre is not found, no movie is linked to it, and every other genre is found as before |
| MovieFilePipe.Check | src/movie/pipe/movie-file.pipe.ts:19-30 | a missing file, a file over `maxSize` MB (decimal) or a different MIME type each give their BadRequest, in that order; otherwise the file passes unchanged |
| MovieFilePipe.Extension | src/movie/pipe/movie-file.pipe.ts:32-38 | `txt` when the name has no dot; otherwise the text after the last dot |
| MovieFilePipe.ExtensionOf | src/movie/pipe/movie-file.pipe.ts:32-38 | `base.ext` has extension `ext` whatever the base holds |
| MovieFilePipe.Transform | src/movie/pipe/movie-file.pipe.ts:16-51 | fails exactly as Check does; otherwise only the file name becomes `uuid_time.ext` (keeping the original extension) and the path becomes the destination joined with it |
| MovieFilePipe.SizeAtLimitAccepted | src/movie/pipe/movie-file.pipe.ts:23 | a file of exactly the limit is accepted (the comparison is strict) |
| MovieService.ToggleMovieLike | src/movie/movie.service.ts:381-434 | an unknown movie gives BadRequest and an unknown user Unauthorized, with no writes. Otherwise the vote is added, flipped or withdrawn, and the counters follow. The result is the record read back: true, false or null |
| MovieService.VotersAfterPut | src/movie/movie.service.ts:406-427 | writing a record changes the movie's voter count by +1 or −1 exactly as the record's change says, and not otherwise |
| MovieService.VotersAfterRemove | src/movie/movie.service.ts:396-405 | withdrawing a vote lowers that kind's voter count by one |
| MovieService.ToggleKeepsDrift | src/movie/movie.service.ts:381-434 | a toggle never changes any movie's difference between counter and records |
| MovieService.ToggleKeepsCountsMatch | src/movie/movie.service.ts:381-434 | counters that equal the record counts still do after a toggle |
| MovieService.ToggleTwiceRestores | src/movie/movie.service.ts:381-434 | from no vote, or from the same vote, toggling twice restores every table |
| MovieService.ToggleTwiceFromOppositeWithdraws | src/movie/movie.service.ts:396-417 | from the opposite vote, toggling twice leaves no record |
| MovieService.MissingGenreIds | src/movie/movie.service.ts:165-173 | the listed ids are exactly the requested ids with no genre |
| MovieService.GenreCheckPassesIff | src/movie/movie.service.ts:165-173 | the genre check passes exactly when the ids are non-empty, distinct and all exist |
| MovieService.RepeatedGenreIdReported | src/movie/movie.service.ts:169-172 | a repeated existing id fails with a NotFound naming no id |
| MovieService.CreateMovie | src/movie/movie.service.ts:161-214 | a genre or director check failure leaves the data unchanged. Otherwise the detail, the movie (zero counts) and its genre links are inserted. A failed file move gives ENOENT; otherwise the new movie is returned |
| MovieService.CreatedMovieIsFresh | src/movie/movie.service.ts:181-205 | the new movie and detail get fresh ids, start at zero counts, link exactly the requested genres, and leave every other table as it was |
| MovieService.FindMovie | src/movie/movie.service.ts:151-159 | the movie with the id, or NotFound exactly when there is none |
| MovieService.MovieRow | src/movie/movie.service.ts:94 | the query row exposes the movie's id and like count |
| MovieService.MovieRows | src/movie/movie.service.ts:94 | one row per movie, in order |
| MovieService.TitleFilter | src/movie/movie.service.ts:85-87 | a title filter is added exactly when a non-empty title is given |
| MovieService.CursorFilter | src/movie/movie.service.ts:92 | a keyset filter is added exactly when a cursor decodes |
| MovieService.MergeLikeStatus | src/movie/movie.service.ts:98-129 | the same movies in order. Without a signed-in user there is no `likeStatus`. With one, it is null where the user has no record and the record's value where there is one |
| MovieService.FindMovieList | src/movie/movie.service.ts:80-136 | the conditions are the title filter followed by the cursor filter. A cursor whose JSON does not parse throws SyntaxError; a bad order gives BadRequest; a signed-in user with an empty page gets QueryFailedError from the like query; otherwise the page is the merged movies, the next cursor made from the request's order, and the count |
| MovieService.MovieIds | src/movie/movie.service.ts:99 | one id per listed movie, in order |
| MovieService.LikedMovies | src/movie/movie.service.ts:70-77 | fails with QueryFailedError exactly when there are no ids; otherwise holds exactly the user's votes on the listed movies |
| MovieService.EmptyPageLikeQueryFails | src/movie/movie.service.ts:98-101 | the like query of an empty page fails |
| MovieService.GuardedLikedMovies | src/movie/movie.service.ts:70-77 | the corrected query never fails, agrees with LikedMovies on a non-empty page and holds exactly the user's votes on the listed movies |
| MovieService.NextCursorSkipsMovie | src/movie/movie.service.ts:96 | with listing order likeCount DESC, id DESC and the request's default order id DESC, a movie that comes after the last listed one is not admitted by the next cursor |
| MovieService.SkippedAfterLast | src/movie/movie.service.ts:96 | a row with fewer likes and a larger id than the last row comes after it, yet the cursor made from the default order excludes it |
| MovieService.ContinuingCursor | src/movie/movie.service.ts:96 | the corrected next cursor is null exactly when the page is empty |
| MovieService.ContinuingCursorResumes | src/movie/movie.service.ts:92-96 | the cursor made from the order actually used admits exactly the rows after the page's last row |
| MovieService.FindRecentMovieList | src/movie/movie.service.ts:37-59 | a truthy cached list is returned as it is; otherwise the newest movies are cached with the default TTL and returned; either way the cache then holds the result |
| MovieService.ApplyChange | src/movie/movie.service.ts:328-336 | the given title and director overwrite; id, counters and detail stay |
| MovieService.WrittenChange | src/movie/movie.service.ts:328-336 | as written, the director is set when given, and the title only when no director is given |
| MovieService.IntendedChange | src/movie/movie.service.ts:328-336 | the corrected change sets the title when given and the director when given |
| MovieService.SetGenres | src/movie/movie.service.ts:308 | the movie's genre links become exactly the given ids; other movies' links stay |
| MovieService.UpdateTouchesOnlyTheMovie | src/movie/movie.service.ts:282-349 | a successful update changes only that movie's row, its genre links (when ids are given) and its detail (when given) |
| MovieService.UpdateKeepsCountsMatch | src/movie/movie.service.ts:282-349 | an update keeps every counter equal to its record count |
| MovieService.UpdateDropsTitle | src/movie/movie.service.ts:328-336 | as written, an update giving both a new title and a director stores the director but not the title |
| MovieService.IntendedUpdateAppliesEveryField | src/movie/movie.service.ts:328-336 | with the corrected change, every given field is stored, and an update giving neither leaves the movie as it was |
| MovieService.UpdateMovie | src/movie/movie.service.ts:282-349 | the writes are committed exactly when they succeed and the commit does; the result is the updated movie, or the error the transaction block reports |
| MovieService.RemoveMovie | src/movie/movie.service.ts:351-379 | the movie goes with its likes and genre links; other likes keep their values |
| MovieService.DeleteMovieWrites | src/movie/movie.service.ts:351-379 | an unknown movie gives NotFound and a missing detail fails; otherwise the movie, its links and its detail are removed |
| MovieService.DeleteKeepsCountsMatch | src/movie/movie.service.ts:351-379 | removing a movie keeps every other counter equal to its record count |
| MovieService.DeleteMovie | src/movie/movie.service.ts:351-379 | the removal is committed exactly when it succeeds and the commit does; otherwise the block's error |
| MovieTitleValidationPipe.Transform | src/movie/pipe/movie-title-validation.pipe.ts:7-18 | an absent or empty title and any title longer than two UTF-16 units pass unchanged; others get BadRequest |
| MovieTitleValidationPipe.ThreeCharactersPass | src/movie/pipe/movie-title-validation.pipe.ts:14 | any three-character title passes |
| MovieTitleValidationPipe.AstralCharactersCountTwice | src/movie/pipe/movie-title-validation.pipe.ts:14 | two characters above U+FFFF pass and one is refused, since each counts as two units |
| MovieTitleValidationPipe.TransformIdempotent | src/movie/pipe/movie-title-validation.pipe.ts:7-18 | passing the pipe's output through it again gives the same outcome |
| QueryBuilder.SelectQuery.constructor | src/movie/movie.service.ts:83 | a fresh builder has no conditions, ordering, take, offset or limit |
| QueryBuilder.SelectQuery.Where | src/movie/movie.service.ts:86 | `where` replaces the conditions with one; nothing else changes |
| QueryBuilder.SelectQuery.AndWhere | src/common/module/common.service.ts:103 | `andWhere` appends a condition; nothing else changes |
| QueryBuilder.SelectQuery.OrderBy | src/common/module/common.service.ts:115 | `orderBy` replaces the ordering; nothing else changes |
| QueryBuilder.SelectQuery.AddOrderBy | src/common/module/common.service.ts:117 | `addOrderBy` appends an ordering; nothing else changes |
| QueryBuilder.SelectQuery.Take | src/common/module/common.service.ts:121 | `take` sets the row count; nothing else changes |
| QueryBuilder.SelectQuery.Offset | src/common/util/common.util.ts:9 | `offset` is set; nothing else changes |
| QueryBuilder.SelectQuery.Limit | src/common/util/common.util.ts:10 | `limit` is set; nothing else changes |
| QueryRunnerDecorator.GetQueryRunner | src/common/decorator/query-runner.decorator.ts:3-14 | the request's query runner when there is a request and it carries one; otherwise InternalServerError |
| RbacGaurd.CanActivate | src/auth/guard/rbac.gaurd.ts:10-28 | a route whose metadata is not a role value is open. For a role value, a missing user is refused, and a user is admitted exactly when the user's role number is at most the route's (a role given by name admits nobody) |
| RbacGaurd.Monotone | src/auth/guard/rbac.gaurd.ts:27 | a user admitted to a route is admitted to every route of a weaker role |
| RbacGaurd.AdminAdmittedEverywhere | src/auth/guard/rbac.gaurd.ts:27 | an admin passes every route whose role is given by number |
| RbacGaurd.NamedRoleAdmitsNobody | src/auth/guard/rbac.gaurd.ts:15-27 | metadata holding a role's name passes the membership check but admits nobody |
| RbacGuard.CanActivate | src/auth/guard/rbac.guard.ts:11-42 | a route whose metadata is not a role value is open. A user without a role gets Unauthorized. Forbidden is given exactly when the route's role is a number below the user's; otherwise the user is admitted |
| RbacGuard.AgreesWithRegisteredGuard | src/app.module.ts:96-99 | for numeric roles the unregistered guard admits exactly whom the registered one admits; for a role given by name it admits whom the registered one refuses |
| RbacGuard.RefusalBecomesException | src/auth/guard/rbac.guard.ts:33-39 | where the registered guard refuses a numeric role, this guard throws |
| Scan.DistinctCount | src/movie/movie.service.ts:169 | the number of different ids is at most the list's length, and equal exactly when no id repeats |
| Scan.SelectKeys | src/genre/genre.service.ts:19 | the chosen keys in scan order; each at most once when the scan is |
| Scan.SelectKeysCount | src/genre/genre.service.ts:19 | as many keys as were chosen |
| Scan.SelectRows | src/genre/genre.service.ts:19 | exactly the chosen rows, one each |
| SqlLike.PercentMatchesAnything | src/genre/genre.service.ts:19 | `%` matches every text |
| SqlLike.LiteralThenPercent | src/genre/genre.service.ts:19 | a literal followed by `%` matches exactly the texts starting with it |
| SqlLike.LeadingPercent | src/genre/genre.service.ts:19 | a leading `%` matches exactly when the rest matches some suffix |
| SqlLike.SurroundingIsContains | src/movie/movie.service.ts:86 | `%term%` for a term without `%`, `_` or `\` matches exactly the texts containing it |
| SqlLike.EscapeInTerm | src/movie/movie.service.ts:86 | a `\` in the term escapes the next character: `%a\b%` matches `ab`, which does not contain `a\b` |
| Store.QueryRunner.Connect | src/common/interceptor/transaction.interceptor.ts:37 | the runner is connected and logs it; nothing else changes |
| Store.QueryRunner.StartTransaction | src/common/interceptor/transaction.interceptor.ts:38 | a transaction is active over a copy of the committed tables |
| Store.QueryRunner.Commit | src/common/interceptor/transaction.interceptor.ts:47 | without an active transaction the commit fails with TransactionNotStarted; a failing commit leaves the database as it was; otherwise the transaction's data becomes the committed tables |
| Store.QueryRunner.Rollback | src/common/interceptor/transaction.interceptor.ts:70 | without an active transaction the rollback fails; a successful rollback drops the transaction's writes |
| Store.QueryRunner.Release | src/common/interceptor/transaction.interceptor.ts:62 | the runner is released, with the release logged once |
| Store.QueryRunner.Put | src/movie/movie.service.ts:418-427 | a write through the runner changes only its transaction data |
| Text.Split | src/auth/auth.service.ts:136 | `split` with a one-character separator always gives at least one piece |
| Text.SplitPiecesAvoidSeparator | src/auth/auth.service.ts:152 | no piece contains the separator |
| Text.JoinSplit | src/auth/auth.service.ts:152 | joining the pieces with the separator gives the text back |
| Text.SplitWithoutSeparator | src/auth/auth.service.ts:153 | a text without the separator is one piece |
| Text.SplitAtFirstSeparator | src/auth/auth.service.ts:152-157 | the first piece is the text before the first separator, followed by the pieces of the text after it |
| Text.SplitJoin | src/common/module/common.service.ts:108 | joining pieces free of the separator and splitting the result gives the pieces back |
| Text.SplitCountsSeparator | src/auth/auth.service.ts:138 | there are at least two pieces exactly when the separator occurs |
| Text.SplitLast | src/movie/pipe/movie-file.pipe.ts:37 | with a separator present, the last piece is the text after the last separator |
| Text.LowerAscii | src/auth/auth.service.ts:144 | `toLowerCase` keeps the length |
| Text.LowerAsciiOfUpper | src/auth/auth.service.ts:144 | any ASCII case mix of a lower-case word lowers to that word |
| Text.NatToString | src/genre/genre.service.ts:43 | decimal digits only |
| Text.IntToString | src/genre/genre.service.ts:43 | non-empty and free of `_` and `,` |
| Text.Utf16Length | src/movie/pipe/movie-title-validation.pipe.ts:14 | between one and two UTF-16 units per character |
| ThrottleInterceptor.WindowMs | src/common/interceptor/throttle.interceptor.ts:49 | one minute for `minutes`, one hour for anything else |
| ThrottleInterceptor.Intercept | src/common/interceptor/throttle.interceptor.ts:16-62 | anonymous requests and unthrottled routes go straight to the handler. Otherwise a count at the limit is refused with Forbidden; a successful response stores the incremented count for the window; a failed one stores nothing |
| ThrottleInterceptor.AdmitsUpToLimit | src/common/interceptor/throttle.interceptor.ts:44-58 | in one minute, after n successful requests the stored count is `min(n, max(limit,1))`; the next request is refused exactly when n has reached that limit |
| TransactionBlock.BlockError | src/user/user.service.ts:60-74 | no error exactly when the work succeeds and the commit does; a failed work surfaces its own error when the rollback succeeds |
| TransactionBlock.BlockLog | src/user/user.service.ts:60-74 | connect and start first, release last; a commit is logged exactly on success, a rollback attempt exactly otherwise |
| TransactionBlock.Run | src/user/user.service.ts:60-74 | all or nothing: the database takes the work's tables exactly when there is no error; the runner is released on every path with BlockLog's log |
| TransactionInterceptor.HandleRollback | src/common/interceptor/transaction.interceptor.ts:68-77 | a rollback is attempted and logged; its failure is swallowed, keeping the runner's state |
| TransactionInterceptor.FinalizeEvents | src/common/interceptor/transaction.interceptor.ts:42-65 | release comes last and only once. A failed request never commits, and a commit is logged as done exactly when it succeeds. A rollback is attempted exactly when there is no commit, except for the commit failure the test environment skips |
| TransactionInterceptor.FinalizeRejection | src/common/interceptor/transaction.interceptor.ts:50-56 | the finaliser rejects exactly when a successful request's commit fails outside the test environment |
| TransactionInterceptor.HandleFinalize | src/common/interceptor/transaction.interceptor.ts:42-65 | a released runner is left alone. Otherwise the runner is released, the events are FinalizeEvents and the rejection is FinalizeRejection. The database takes the transaction's data exactly on a successful commit |
| TransactionInterceptor.InterceptLog | src/common/interceptor/transaction.interceptor.ts:30-95 | connect and start come first, then one release, last. A failed handler on an unflagged request never commits; a commit succeeds exactly as the flag, the rollback and the commit allow |
| TransactionInterceptor.Intercept | src/common/interceptor/transaction.interceptor.ts:30-95 | the client gets the handler's own outcome. The request carries the runner and the success flag. The database holds the handler's writes exactly when a commit succeeded; the finaliser's rejection is returned separately, not sent to the client |
| UserService.FindOneUser | src/user/user.service.ts:35-43 | the user with the id, or NotFound naming it exactly when there is none |
| UserService.SelectedMeansContains | src/user/user.service.ts:27 | with an email free of `%`, `_` and `\`, a user is selected exactly when the email contains it |
| UserService.InsertByAge | src/user/user.service.ts:30 | inserting into a newest-first list keeps it newest first and adds exactly that user |
| UserService.SortNewestFirst | src/user/user.service.ts:30 | `ORDER BY createdAt DESC` gives the same users, newest first |
| UserService.SortKeepsMembers | src/user/user.service.ts:30 | sorting keeps the length and the members |
| UserService.PlainAll | src/user/user.service.ts:32 | one plain object per user, in order |
| UserService.SelectedUsers | src/user/user.service.ts:23-30 | exactly the selected users, each once |
| UserService.FindAllUsers | src/user/user.service.ts:23-33 | exactly the selected users as plain objects, newest first, with their number |
| UserService.CreateUser | src/user/user.service.ts:45-77 | a taken email gives BadRequest with nothing written. Otherwise the user is inserted with the hashed password, all or nothing, and the stored row is returned; a failed commit reports the block's error |
| UserService.CreatedUserIsFoundByEmail | src/user/user.service.ts:45-77 | after a create, emails stay unique and the new row, with the default role, is the only one with that email |
| UserService.Merged | src/user/user.service.ts:87 | the given email and password overwrite; id, role and creation time stay |
| UserService.UpdateUserWrites | src/user/user.service.ts:79-99 | an unknown id gives NotFound; an email taken by another user fails; otherwise only that user is replaced by the merged one |
| UserService.UpdateKeepsEmailsUnique | src/user/user.service.ts:79-99 | a successful update keeps emails unique |
| UserService.UpdateUser | src/user/user.service.ts:79-99 | the writes are committed exactly when they succeed and the commit does; the merged user is returned, or the block's error |
| UserService.CreateKeepsPasswordsHashed | src/user/user.service.ts:57 | creating a user keeps every stored password a hash |
| UserService.UpdateStoresPlainPassword | src/user/user.service.ts:87 | as written, updating a password stores the plain text, so the stored passwords are no longer all hashes |
| UserService.HashedUpdateWrites | src/user/user.service.ts:79-99 | the corrected update succeeds exactly when the original does and stores the hash of a new password |
| UserService.HashedUpdateKeepsPasswordsHashed | src/user/user.service.ts:87 | with the corrected update every stored password stays a hash |
| UserService.RemoveUser | src/user/user.service.ts:101-107 | the user goes with the user's likes (the cascade); movies and other likes stay |
| UserService.DeleteUser | src/user/user.service.ts:101-107 | an unknown id gives NotFound with nothing changed; otherwise the user is removed and the id returned |
| UserService.DeleteUserWrites | src/user/user.service.ts:109-129 | the work fails with NotFound exactly for an unknown id |
| UserService.DeleteUserWithTransaction | src/user/user.service.ts:109-129 | the removal is committed exactly when the user exists and the commit succeeds; otherwise the block's error |
| UserService.DeleteUserLeavesStaleCount | src/user/user.service.ts:101-107 | deleting a user who liked a movie leaves that movie's like counter one above its records |
| Utf8.EncodeChar | src/common/module/common.service.ts:148 | one to four bytes per character |
| Utf8.Encode | src/common/module/common.service.ts:148 | between one and four bytes per character |
| Utf8.DecodeOne | src/auth/auth.service.ts:149 | decoding consumes between one byte and what is left, and more than one byte only when the second byte may follow the lead (Table 3-7 of the Unicode Standard) |
| Utf8.TruncatedSequenceKeepsNextByte | src/common/module/common.service.ts:77 | a cut-short sequence is one U+FFFD and the byte that cut it is read as itself: E2 82 41 decodes to U+FFFD then `A` |
| Utf8.DecodeOneEncodeChar | src/common/module/common.service.ts:77 | decoding the front of a character's encoding gives the character and its length |
| Utf8.DecodeEncode | src/common/module/common.service.ts:77 | UTF-8 decoding of an encoding gives the text back |

## Left out

- The SQL engine is not executed. `getManyAndCount`, `find` and the
  nightly recount are replaced by parameters: the rows and count a query
  returns, the newest movies, and the order in which a table is visited.
  Only the conditions, ordering and paging the services put on the query
  builder are modelled.
- bcrypt, the JWT library, uuid, `Date.now`, `path.join`, the file-system
  rename, the logger and `console` are parameters or left out.
- A failed file move is the `fileMoved` flag.
- `JSON.stringify` and `JSON.parse` are a codec parameter. Only the round
  trip of a lawful codec is assumed of it.
- What Node's Base64 decoder makes of non-canonical input (skipped characters,
  missing padding) is the `lenient` parameter. It never refuses the input,
  so a cursor or a Basic token is refused only for what follows decoding.
- rxjs asynchrony and concurrency between requests are not modelled; each
  request runs to completion.
- The transaction interceptor's rejection is returned as a value, since it
  is an unhandled promise rejection that no client sees. The interceptor's
  documented intent is that a commit error reaches the client. The code
  discards it (`void handleFinalize()` at
  src/common/interceptor/transaction.interceptor.ts:92), and the model
  follows the code.
- Cache TTL expiry is not modelled: entries record their TTL but never
  expire.
- Cached values other than payloads and counts are treated as absent.
- `signUpUser` and `signInUser` (src/auth/auth.service.ts:27-76) are not
  modelled as operations. SignUpThenSignIn states their combined effect on
  the user table.
- The creator foreign key, the director table's own CRUD and
  `findMovieDetail` are not part of this model.
- `createDummyMovies` (random data) is not part of this model.
- Cursor columns are integers. Text-valued columns compare through a `text`
  map that the keyset lemmas leave free.
- Base64.NodeDecode: pinned only on canonical Base64; other input goes to
  the lenient parameter.
- AuthService.BlockTtl: a payload whose `exp` is not a number gives NaN in
  the source, which the cache manager treats as no TTL. The model states this
  as the absence of `exp`.
- BearerTokenMiddleware.CacheTtl: the same NaN case as BlockTtl.
- CommonService.GenerateNextCursor: its contract only says when the cursor is
  null. What the cursor holds is stated by NextCursorDecodes and
  NextPageStartsAfterLastRow.
- CacheInterceptor.ServeAll: its contract states only the number of
  responses. ServeAllKeepsEntries and StoredResponseIsStable state the rest.

## Findings

| source | as written | input that shows it | evidently intended | confidence | as-written member | corrected member |
|---|---|---|---|---|---|---|
| src/movie/movie.service.ts:96 | the next cursor is built from the request's `order`, not from the order the page was actually sorted by (a decoded cursor's own order wins at src/common/module/common.service.ts:80) | listing by `likeCount_DESC,id_DESC` with the request's default order `id_DESC`; last row (likeCount 3, id 2); the row (likeCount 1, id 5) comes after it but is excluded by the next cursor | the next cursor continues in the order the page was sorted by | not executed | MovieService.NextCursorSkipsMovie | MovieService.ContinuingCursorResumes |
| src/movie/movie.service.ts:328-336 | the second `set({ director })` replaces the first `set({ ...movieRest })`, so the title is dropped | an update with a new title and an existing director id | both the title and the director are stored | not executed | MovieService.UpdateDropsTitle | MovieService.IntendedUpdateAppliesEveryField |
| src/user/user.service.ts:87 | `updateUser` stores the password from the request as given | an update with `password: "x"` | the password is hashed as `createUser` does at line 57 | not executed | UserService.UpdateStoresPlainPassword | UserService.HashedUpdateKeepsPasswordsHashed |
| src/auth/middleware/bearer-token.middleware.ts:95-97 | the BadRequestException is created but not thrown | the header `Bearer` with no token | a header without a token is refused with the format message | not executed | BearerTokenMiddleware.SchemeAloneIsNotRefused | BearerTokenMiddleware.StrictRefusesSchemeAlone |
| src/movie/movie.service.ts:98-101 | with a signed-in user the like query runs even when the page is empty, and `IN (:...movieIds)` with no ids becomes `IN ()`, which PostgreSQL refuses (src/movie/movie.service.ts:74) | a signed-in user lists movies with a title that matches none; the request fails with QueryFailedError, which the filter answers with 400 | an empty page is returned with no like query | not executed | MovieService.EmptyPageLikeQueryFails | MovieService.GuardedLikedMovies |
