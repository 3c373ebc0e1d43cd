/**
 * `AuthService`: the Basic authorization header parser, the check of an
 * e-mail and password against the user table, the choice of claims, secret
 * and lifetime for a new token, and the blocking of a token in the cache.
 *
 * Signing and decoding JWTs and comparing bcrypt hashes are library calls:
 * they are parameters here (`decode`, `compare`). The current time `now` is
 * in epoch milliseconds.
 */
module AuthService {
  import opened Wrappers
  import Text
  import Base64
  import Utf8
  import Store
  import Http
  import CacheStore
  import Scan
  import UserService

  const FormatMessage := "토큰 포맷이 잘못되었습니다."
  const LoginMessage := "잘못된 로그인 정보입니다."
  const MissingTokenMessage := "토큰이 존재하지 않습니다"

  /** The `{ email, password }` a Basic header carries. */
  datatype Credentials = Credentials(email: string, password: string)

  /* ---------- parseBasicToken ---------- */

  /** The decoded text split at `:`: the first two pieces, or BadRequest without a `:`. */
  function SplitCredentials(decoded: string): (r: Http.Outcome<Credentials>)
    ensures r.Ok? <==> ':' in decoded
    ensures r.Err? ==> r.error == Http.BadRequest(FormatMessage)
    ensures r.Ok? ==> ':' !in r.value.email && ':' !in r.value.password
    ensures r.Ok? ==> r.value.email + ":" + r.value.password <= decoded
  {
    var pieces := Text.Split(decoded, ':');
    Text.SplitCountsSeparator(decoded, ':');
    if |pieces| < 2 then Err(Http.BadRequest(FormatMessage))
    else
      Text.SplitPiecesAvoidSeparator(decoded, ':');
      Text.SplitFirstTwo(decoded, ':');
      Ok(Credentials(pieces[0], pieces[1]))
  }

  /**
   * `parseBasicToken`: the header split at spaces must have a second piece
   * and a first piece that is `basic` in any case; the second piece is
   * decoded from Base64 and UTF-8 and split at `:`.
   */
  function ParseBasicToken(rawToken: string, lenient: string -> seq<Base64.Byte>): (r: Http.Outcome<Credentials>)
    ensures var parts := Text.Split(rawToken, ' ');
      && (|parts| < 2 ==> r == Err(Http.BadRequest(FormatMessage)))
      && (|parts| >= 2 && Text.LowerAscii(parts[0]) != "basic" ==> r == Err(Http.BadRequest(FormatMessage)))
      && (|parts| >= 2 && Text.LowerAscii(parts[0]) == "basic" ==>
            r == SplitCredentials(Utf8.Decode(Base64.NodeDecode(parts[1], lenient))))
  {
    var parts := Text.Split(rawToken, ' ');
    if |parts| < 2 then Err(Http.BadRequest(FormatMessage))
    else if Text.LowerAscii(parts[0]) != "basic" then Err(Http.BadRequest(FormatMessage))
    else SplitCredentials(Utf8.Decode(Base64.NodeDecode(parts[1], lenient)))
  }

  /** The header a client sends: the scheme, a space, and the Base64 of the UTF-8 of `text`. */
  function BasicHeader(scheme: string, text: string): string
  {
    scheme + " " + Base64.Encode(Utf8.Encode(text))
  }

  /** Whatever the scheme's case, a well-formed header decodes to the text it carries. */
  lemma ParseBasicHeader(scheme: string, text: string, lenient: string -> seq<Base64.Byte>)
    requires Text.LowerAscii(scheme) == "basic" && ' ' !in scheme
    ensures ParseBasicToken(BasicHeader(scheme, text), lenient) == SplitCredentials(text)
  {
    var bytes := Utf8.Encode(text);
    var token := Base64.Encode(bytes);
    Base64.EncodeAlphabet(bytes);
    assert Base64.SextetOf(' ').None?;
    assert ' ' !in token;
    assert BasicHeader(scheme, text) == scheme + [' '] + token;
    Text.SplitAtFirstSeparator(scheme, ' ', token);
    Text.SplitWithoutSeparator(token, ' ');
    Base64.DecodeEncode(bytes);
    Utf8.DecodeEncode(text);
  }

  /** Round trip: credentials free of `:` come back out of the header that carries them. */
  lemma ParseBasicTokenRoundTrip(scheme: string, email: string, password: string, lenient: string -> seq<Base64.Byte>)
    requires Text.LowerAscii(scheme) == "basic" && ' ' !in scheme
    requires ':' !in email && ':' !in password
    ensures ParseBasicToken(BasicHeader(scheme, email + ":" + password), lenient) == Ok(Credentials(email, password))
  {
    ParseBasicHeader(scheme, email + ":" + password, lenient);
    Text.SplitAtFirstSeparator(email, ':', password);
    Text.SplitWithoutSeparator(password, ':');
  }

  /** A password that itself contains `:` is cut at its first `:`. */
  lemma ParseBasicTokenTruncatesPassword(scheme: string, email: string, password: string, rest: string, lenient: string -> seq<Base64.Byte>)
    requires Text.LowerAscii(scheme) == "basic" && ' ' !in scheme
    requires ':' !in email && ':' !in password
    ensures ParseBasicToken(BasicHeader(scheme, email + ":" + password + ":" + rest), lenient) == Ok(Credentials(email, password))
  {
    var tail := password + [':'] + rest;
    var text := email + [':'] + tail;
    assert email + ":" + password + ":" + rest == text;
    ParseBasicHeader(scheme, text, lenient);
    Text.SplitAtFirstSeparator(email, ':', tail);
    Text.SplitAtFirstSeparator(password, ':', rest);
    var pieces := Text.Split(text, ':');
    assert pieces == [email] + ([password] + Text.Split(rest, ':'));
    assert pieces[0] == email && pieces[1] == password;
  }

  /** The usual spelling of the scheme qualifies. */
  lemma BasicSchemeSpellings()
    ensures Text.LowerAscii("Basic") == "basic" && Text.LowerAscii("BASIC") == "basic"
  {
    Text.LowerAsciiOfUpper("Basic", "basic");
    Text.LowerAsciiOfUpper("BASIC", "basic");
  }

  /* ---------- authenticate ---------- */

  /** The first row, in the order `scan` visits the keys, whose e-mail is `email`. */
  function FirstWithEmail(users: map<int, Store.User>, email: string, scan: seq<int>): (r: Option<Store.User>)
    requires forall i :: 0 <= i < |scan| ==> scan[i] in users
    ensures r.Some? <==> exists i :: 0 <= i < |scan| && users[scan[i]].email == email
    ensures r.Some? ==> r.value.email == email && exists i :: 0 <= i < |scan| && r.value == users[scan[i]]
    ensures r.Some? ==>
      exists i :: 0 <= i < |scan| && r.value == users[scan[i]] && forall j :: 0 <= j < i ==> users[scan[j]].email != email
  {
    if scan == [] then None
    else if users[scan[0]].email == email then Some(users[scan[0]])
    else
      var r := FirstWithEmail(users, email, scan[1..]);
      assert forall i :: 1 <= i < |scan| ==> scan[i] == scan[1..][i - 1];
      assert forall i :: 0 <= i < |scan[1..]| ==> scan[1..][i] == scan[i + 1];
      if r.Some? then
        var k :| 0 <= k < |scan[1..]| && r.value == users[scan[1..][k]] && forall j :: 0 <= j < k ==> users[scan[1..][j]].email != email;
        assert r.value == users[scan[k + 1]] && forall j :: 0 <= j < k + 1 ==> users[scan[j]].email != email;
        r
      else r
  }

  /** `findOneBy({ email })`: some user with that e-mail, if there is one. */
  function FindByEmail(t: Store.Tables, email: string, scan: seq<int>): (r: Option<Store.User>)
    requires Scan.ScanOrder(t.users, scan)
    ensures r.Some? <==> UserService.EmailTaken(t.users, email)
    ensures r.Some? ==> r.value.email == email && exists id :: id in t.users && t.users[id] == r.value
  {
    var r := FirstWithEmail(t.users, email, scan);
    if UserService.EmailTaken(t.users, email) then
      var id :| id in t.users && t.users[id].email == email;
      assert id in scan;
      r
    else r
  }

  /**
   * `authenticate`: the user with that e-mail whose stored hash matches the
   * password; an unknown e-mail and a wrong password get the same BadRequest.
   */
  function Authenticate(t: Store.Tables, scan: seq<int>, compare: (string, string) -> bool, email: string, password: string): (r: Http.Outcome<Store.User>)
    requires Scan.ScanOrder(t.users, scan)
    ensures r.Err? ==> r.error == Http.BadRequest(LoginMessage)
    ensures r.Ok? <==> FindByEmail(t, email, scan).Some? && compare(password, FindByEmail(t, email, scan).value.password)
    ensures r.Ok? ==> r.value.email == email && compare(password, r.value.password)
    ensures !UserService.EmailTaken(t.users, email) ==> r.Err?
  {
    match FindByEmail(t, email, scan)
    case None => Err(Http.BadRequest(LoginMessage))
    case Some(user) =>
      if compare(password, user.password) then Ok(user) else Err(Http.BadRequest(LoginMessage))
  }

  /** With unique e-mails, the user found is the one registered under that e-mail. */
  lemma AuthenticateFindsTheOwner(t: Store.Tables, scan: seq<int>, compare: (string, string) -> bool, id: int, password: string)
    requires Scan.ScanOrder(t.users, scan) && UserService.UniqueEmails(t.users) && id in t.users
    ensures var r := Authenticate(t, scan, compare, t.users[id].email, password);
      (r.Ok? <==> compare(password, t.users[id].password)) && (r.Ok? ==> r.value == t.users[id])
  {
    var found := FindByEmail(t, t.users[id].email, scan);
    var k :| k in t.users && t.users[k] == found.value;
    assert t.users[k].email == t.users[id].email;
  }

  /**
   * Registration then login: after `createUser` stores the hash of a
   * password, `authenticate` with that password finds the new user, when
   * `compare` accepts a password against its own hash.
   */
  lemma SignUpThenSignIn(t: Store.Tables, scan: seq<int>, hash: string -> string, compare: (string, string) -> bool, email: string, password: string, now: int)
    requires UserService.UniqueEmails(t.users) && UserService.UserKeysBelowNextId(t) && !UserService.EmailTaken(t.users, email)
    requires forall p :: compare(p, hash(p))
    requires Scan.ScanOrder(UserService.InsertUser(t, email, hash(password), now).users, scan)
    ensures var t' := UserService.InsertUser(t, email, hash(password), now);
      Authenticate(t', scan, compare, email, password) == Ok(t'.users[t.nextId])
  {
    var t' := UserService.InsertUser(t, email, hash(password), now);
    UserService.CreatedUserIsFoundByEmail(t, email, hash(password), now);
    AuthenticateFindsTheOwner(t', scan, compare, t.nextId, password);
  }

  /* ---------- issueToken ---------- */

  /** The configuration entries holding the two signing secrets. */
  datatype SecretKey = RefreshTokenSecret | AccessTokenSecret

  /** `expiresIn`: a duration text such as `24h`, or a number of seconds. */
  datatype Lifetime = Span(text: string) | Seconds(n: int)

  /** The claims and options handed to `signAsync`. */
  datatype SignRequest = SignRequest(sub: int, role: int, tokenType: string, secret: SecretKey, expiresIn: Lifetime)

  /**
   * `issueToken(user, isRefreshToken = true)`: `None` is an omitted flag. A
   * refresh token is signed with the refresh secret for 24 hours, an access
   * token with the access secret for 300 seconds.
   */
  function IssueToken(sub: int, role: int, isRefreshToken: Option<bool>): (r: SignRequest)
    ensures r.sub == sub && r.role == role
    ensures isRefreshToken != Some(false) <==> r.tokenType == "refresh"
    ensures isRefreshToken == Some(false) <==> r.tokenType == "access"
    ensures r.tokenType == "refresh" ==> r.secret == RefreshTokenSecret && r.expiresIn == Span("24h")
    ensures r.tokenType == "access" ==> r.secret == AccessTokenSecret && r.expiresIn == Seconds(300)
  {
    var refresh := isRefreshToken.GetOr(true);
    SignRequest(sub, role, if refresh then "refresh" else "access",
      if refresh then RefreshTokenSecret else AccessTokenSecret,
      if refresh then Span("24h") else Seconds(60 * 5))
  }

  /* ---------- blockToken ---------- */

  function BlockKey(token: string): string
  {
    "BLOCK_TOKEN_" + token
  }

  /**
   * The entry's time to live in milliseconds: what is left until `exp`
   * (epoch seconds), but at least 1. Without an `exp` the source computes
   * NaN; `None` stands for it.
   */
  function BlockTtl(exp: Option<int>, now: int): (ttl: Option<int>)
    ensures ttl.Some? <==> exp.Some?
    ensures exp.Some? ==> ttl.value >= 1 && ttl.value >= exp.value * 1000 - now
    ensures exp.Some? && exp.value * 1000 - now > 1 ==> ttl.value == exp.value * 1000 - now
  {
    if exp.None? then None
    else if exp.value * 1000 - now > 1 then Some(exp.value * 1000 - now) else Some(1)
  }

  /**
   * `blockToken`: an undecodable token is refused and nothing is written;
   * otherwise its payload is stored under `BLOCK_TOKEN_<token>` until it
   * expires, and the answer is `true`.
   */
  method BlockToken(cache: CacheStore.Cache, decode: string -> Option<Http.Payload>, token: string, now: int)
    returns (r: Http.Outcome<bool>)
    modifies cache
    ensures decode(token).None? ==> r == Err(Http.BadRequest(MissingTokenMessage)) && cache.entries == old(cache.entries)
    ensures decode(token).Some? ==>
      && r == Ok(true)
      && cache.entries == old(cache.entries)[BlockKey(token) := CacheStore.Entry(
           CacheStore.Claims(decode(token).value), BlockTtl(decode(token).value.exp, now).GetOr(CacheStore.DefaultTtl))]
  {
    var payload := decode(token);
    if payload.None? {
      return Err(Http.BadRequest(MissingTokenMessage));
    }
    cache.Set(BlockKey(token), CacheStore.Claims(payload.value), BlockTtl(payload.value.exp, now));
    r := Ok(true);
  }
}
