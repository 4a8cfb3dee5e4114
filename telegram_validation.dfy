/**
 * The Telegram Mini App handshake of the backend: checking the signed
 * `initData` query string a Mini App sends (the procedure of the Telegram
 * Bot API documentation, "Validating data received via the Mini App") and
 * issuing / checking the session token (an RFC 7519 claim set signed with
 * HS256, RFC 7518 section 3.2).
 *
 * HMAC-SHA256, hex encoding, UTF-8 encoding, `parse_qsl`, `json.loads`,
 * `int()` and the JWT library are not modelled; they are the fields of
 * `Primitives`, passed in as total functions. The clock is a parameter.
 */
module TelegramValidation {
  import opened Wrappers
  import opened PyStr

  /** A JSON value as `json.loads` returns it (numbers restricted to integers). */
  datatype Json =
    | JNull
    | JBool(b: bool)
    | JNumber(n: int)
    | JString(s: string)
    | JArray(items: seq<Json>)
    | JObject(fields: map<string, Json>)

  /** Python truthiness of a decoded JSON value. */
  predicate Truthy(j: Json)
  {
    match j
    case JNull => false
    case JBool(b) => b
    case JNumber(n) => n != 0
    case JString(s) => s != []
    case JArray(items) => items != []
    case JObject(fields) => fields != map[]
  }

  /** `d.get(k)`: a missing key reads as `None`, which JSON encodes as null. */
  function Get(d: map<string, Json>, k: string): (v: Json)
    ensures k !in d ==> v == JNull
    ensures k in d ==> v == d[k]
  {
    if k in d then d[k] else JNull
  }

  /** What `json.loads` can do: return a value, raise `JSONDecodeError`, or raise something else. */
  datatype JsonLoad = Loaded(value: Json) | DecodeError | LoadCrashed

  /** What `jwt.decode` can do. */
  datatype JwtDecode =
    | Decoded(claims: map<string, Json>)
    | SignatureExpired
    | TokenInvalid
    | DecodeCrashed

  /** The library functions the validator calls, left uninterpreted. */
  datatype Primitives = Primitives(
    parseQsl: string -> seq<(string, string)>,
    utf8: string -> Bytes,
    hmacSha256: (Bytes, Bytes) -> Bytes,
    hexDigest: Bytes -> string,
    jsonLoads: string -> JsonLoad,
    parseInt: string -> Option<int>,
    jwtEncode: (map<string, Json>, Bytes) -> string,
    jwtDecode: (string, Bytes) -> JwtDecode)

  /** Which raise produced an error; the status is what the client receives. */
  datatype Reason =
    | MissingHash
    | NonAsciiDigest      // TypeError from hmac.compare_digest, uncaught
    | HashMismatch
    | UserNotJson
    | UserParseCrashed
    | MissingUser
    | AuthDateNotInteger  // ValueError from int(), uncaught
    | DataExpired
    | TokenExpired
    | TokenRejected
    | TokenCheckFailed

  datatype HttpError = HttpError(status: int, reason: Reason)

  const FreshnessWindow: int := 3600
  const TokenLifetime: int := 24 * 3600

  // ------------------------------------------------------------ dict(parse_qsl(...))

  /** `dict(pairs)`: every key that occurs, bound to the value of its last occurrence. */
  function DictOf(pairs: seq<(string, string)>): (d: map<string, string>)
    ensures d.Keys == set i | 0 <= i < |pairs| :: pairs[i].0
  {
    if pairs == [] then map[]
    else
      var init := pairs[..|pairs| - 1];
      var last := pairs[|pairs| - 1];
      var d := DictOf(init)[last.0 := last.1];
      assert d.Keys == (set i | 0 <= i < |init| :: init[i].0) + {last.0};
      assert forall i :: 0 <= i < |init| ==> init[i] == pairs[i];
      d
  }

  /** For a key that occurs several times, the last occurrence wins. */
  lemma {:induction false} LastOccurrenceWins(pairs: seq<(string, string)>, i: int)
    requires 0 <= i < |pairs|
    requires forall j :: i < j < |pairs| ==> pairs[j].0 != pairs[i].0
    ensures pairs[i].0 in DictOf(pairs) && DictOf(pairs)[pairs[i].0] == pairs[i].1
  {
    if i < |pairs| - 1 {
      var init := pairs[..|pairs| - 1];
      assert init[i] == pairs[i];
      LastOccurrenceWins(init, i);
    }
  }

  predicate DistinctKeys(pairs: seq<(string, string)>)
  {
    forall i, j :: 0 <= i < j < |pairs| ==> pairs[i].0 != pairs[j].0
  }

  /** With distinct keys, each pair is read back from the dictionary as it is. */
  lemma PairInDict(pairs: seq<(string, string)>, x: (string, string))
    requires DistinctKeys(pairs) && x in pairs
    ensures x.0 in DictOf(pairs) && DictOf(pairs)[x.0] == x.1
  {
    var i :| 0 <= i < |pairs| && pairs[i] == x;
    LastOccurrenceWins(pairs, i);
  }

  /** Every key of the dictionary comes from some pair. */
  lemma KeyHasPair(pairs: seq<(string, string)>, k: string)
    requires k in DictOf(pairs)
    ensures exists x :: x in pairs && x.0 == k
  {
    assert k in set i | 0 <= i < |pairs| :: pairs[i].0;
    var i :| 0 <= i < |pairs| && pairs[i].0 == k;
    assert pairs[i] in pairs;
  }

  /** Two orderings of the same pairs with distinct keys give the same dictionary. */
  lemma ReorderedPairsSameDict(p1: seq<(string, string)>, p2: seq<(string, string)>)
    requires DistinctKeys(p1) && DistinctKeys(p2) && multiset(p1) == multiset(p2)
    ensures DictOf(p1) == DictOf(p2)
  {
    var d1, d2 := DictOf(p1), DictOf(p2);
    forall x | x in p1 ensures x in p2 {
      assert x in multiset(p1);
    }
    forall x | x in p2 ensures x in p1 {
      assert x in multiset(p2);
    }
    forall k | k in d1 ensures k in d2 && d1[k] == d2[k] {
      KeyHasPair(p1, k);
      var x :| x in p1 && x.0 == k;
      PairInDict(p1, x);
      PairInDict(p2, x);
    }
    forall k | k in d2 ensures k in d1 {
      KeyHasPair(p2, k);
      var x :| x in p2 && x.0 == k;
      PairInDict(p1, x);
    }
    assert d1.Keys == d2.Keys;
  }

  // ------------------------------------------------------------ sorted(...)

  predicate StrictlySorted(ks: seq<string>)
  {
    forall i, j :: 0 <= i < j < |ks| ==> StrLt(ks[i], ks[j])
  }

  ghost predicate IsLeast(m: string, s: set<string>)
  {
    m in s && forall x :: x in s && x != m ==> StrLt(m, x)
  }

  lemma LeastExists(s: set<string>)
    requires s != {}
    ensures exists m :: IsLeast(m, s)
  {
    var x :| x in s;
    if s != {x} {
      LeastExists(s - {x});
      var m :| IsLeast(m, s - {x});
      StrLtTotal(m, x);
      if StrLt(x, m) {
        forall y | y in s && y != x ensures StrLt(x, y) {
          if y != m {
            StrLtTransitive(x, m, y);
          }
        }
        assert IsLeast(x, s);
      } else {
        assert IsLeast(m, s);
      }
    } else {
      assert IsLeast(x, s);
    }
  }

  /** The elements of a finite set of strings in ascending order: what `sorted` yields. */
  ghost function SortedSeq(s: set<string>): (r: seq<string>)
    ensures StrictlySorted(r)
    ensures forall x :: x in r <==> x in s
    decreases s
  {
    if s == {} then []
    else
      LeastExists(s);
      var m :| IsLeast(m, s);
      [m] + SortedSeq(s - {m})
  }

  /** A set has only one strictly ascending enumeration. */
  lemma {:induction false} SortedUnique(a: seq<string>, b: seq<string>)
    requires StrictlySorted(a) && StrictlySorted(b)
    requires forall x :: x in a <==> x in b
    ensures a == b
  {
    if b != [] {
      assert b[0] in a;
    }
    if a != [] {
      assert a[0] in b && b[0] in a;
      if a[0] != b[0] {
        StrLtAsymmetric(a[0], b[0]);
        assert false;
      }
      assert a == [a[0]] + a[1..] && b == [b[0]] + b[1..];
      forall x ensures x in a[1..] <==> x in b[1..] {
        if x in a[1..] {
          var i :| 0 <= i < |a[1..]| && a[1..][i] == x;
          assert StrLt(a[0], a[i + 1]);
          StrLtIrreflexive(a[0]);
          assert x in b && x != b[0];
        }
        if x in b[1..] {
          var i :| 0 <= i < |b[1..]| && b[1..][i] == x;
          assert StrLt(b[0], b[i + 1]);
          StrLtIrreflexive(b[0]);
          assert x in a && x != a[0];
        }
      }
      SortedUnique(a[1..], b[1..]);
      assert a == [a[0]] + a[1..] && b == [b[0]] + b[1..];
    }
  }

  /** Insert `k` into an ascending list at its place. */
  function Insert(ks: seq<string>, k: string): (r: seq<string>)
    requires StrictlySorted(ks) && k !in ks
    ensures StrictlySorted(r)
    ensures forall x :: x in r <==> x in ks || x == k
  {
    if ks == [] then [k]
    else if StrLt(k, ks[0]) then
      assert forall j :: 0 < j < |ks| ==> StrLt(k, ks[j]) by {
        forall j | 0 < j < |ks| ensures StrLt(k, ks[j]) {
          StrLtTransitive(k, ks[0], ks[j]);
        }
      }
      [k] + ks
    else
      StrLtTotal(k, ks[0]);
      var r := [ks[0]] + Insert(ks[1..], k);
      assert forall x :: x in r[1..] ==> StrLt(ks[0], x);
      r
  }

  /** `sorted(fields)`: the keys in ascending order. */
  method SortedKeys(fields: map<string, string>) returns (keys: seq<string>)
    ensures keys == SortedSeq(fields.Keys)
  {
    keys := [];
    var todo := fields.Keys;
    while todo != {}
      invariant StrictlySorted(keys)
      invariant forall x :: x in keys ==> x in fields && x !in todo
      invariant forall x :: x in fields ==> x in keys || x in todo
      invariant todo <= fields.Keys
      decreases |todo|
    {
      var k :| k in todo;
      keys := Insert(keys, k);
      todo := todo - {k};
    }
    SortedUnique(keys, SortedSeq(fields.Keys));
  }

  // ------------------------------------------------------------ the data-check string

  /** The lines `key=value`, one per key of `keys`, in that order. */
  function CheckLines(keys: seq<string>, fields: map<string, string>): (lines: seq<string>)
    requires forall k :: k in keys ==> k in fields
    ensures |lines| == |keys|
  {
    seq(|keys|, i requires 0 <= i < |keys| => keys[i] + "=" + fields[keys[i]])
  }

  /** The data-check string of the fields that remain once `hash` is removed. */
  ghost function DataCheckString(fields: map<string, string>): string
  {
    var keys := SortedSeq(fields.Keys);
    Join(CheckLines(keys, fields), "\n")
  }

  /**
   * The shape of the data-check string: one `key=value` line per field, in
   * ascending key order, separated by a newline with none at the end.
   */
  lemma DataCheckStringShape(pairs: seq<(string, string)>)
    ensures var fields := DictOf(pairs) - {"hash"};
            var keys := SortedSeq(fields.Keys);
            && "hash" !in keys
            && (forall k :: k in keys <==> (k != "hash" && exists i :: 0 <= i < |pairs| && pairs[i].0 == k))
            && (forall i, j :: 0 <= i < j < |keys| ==> StrLt(keys[i], keys[j]))
            && var lines := CheckLines(keys, fields);
            && (forall i :: 0 <= i < |keys| ==> lines[i] == keys[i] + "=" + fields[keys[i]])
            && DataCheckString(fields) == Join(lines, "\n")
            && (keys != [] ==> EndsWith(DataCheckString(fields), lines[|keys| - 1]))
  {
    var fields := DictOf(pairs) - {"hash"};
    forall k ensures k in fields <==> (k != "hash" && exists i :: 0 <= i < |pairs| && pairs[i].0 == k) {
      if k in fields {
        assert k in DictOf(pairs).Keys;
      }
    }
  }

  /** Reordering pairs whose keys are distinct leaves the data-check string unchanged. */
  lemma ReorderedPairsSameCheckString(p1: seq<(string, string)>, p2: seq<(string, string)>)
    requires DistinctKeys(p1) && DistinctKeys(p2) && multiset(p1) == multiset(p2)
    ensures DataCheckString(DictOf(p1) - {"hash"}) == DataCheckString(DictOf(p2) - {"hash"})
  {
    ReorderedPairsSameDict(p1, p2);
  }

  predicate IsAscii(s: string)
  {
    forall i :: 0 <= i < |s| ==> s[i] < '\U{80}'
  }

  /** `hmac.new(secret_key, dcs.encode(), sha256).hexdigest()`. */
  function ExpectedHash(lib: Primitives, secretKey: Bytes, dataCheckString: string): string
  {
    lib.hexDigest(lib.hmacSha256(secretKey, lib.utf8(dataCheckString)))
  }

  /** Lines 87-101: the `user` field, decoded as JSON; `None` (absent, empty or JSON null) is refused. */
  function ParsedUser(lib: Primitives, fields: map<string, string>): (r: Result<Json, HttpError>)
    ensures ("user" !in fields || fields["user"] == []) ==> r == Err(HttpError(400, MissingUser))
    ensures "user" in fields && fields["user"] != [] && lib.jsonLoads(fields["user"]) == DecodeError
            ==> r == Err(HttpError(400, UserNotJson))
    ensures r.Ok? <==> "user" in fields && fields["user"] != []
                       && lib.jsonLoads(fields["user"]).Loaded? && lib.jsonLoads(fields["user"]).value != JNull
    ensures r.Ok? ==> lib.jsonLoads(fields["user"]) == Loaded(r.value)
  {
    var raw := if "user" in fields then fields["user"] else [];
    if raw == [] then Err(HttpError(400, MissingUser))
    else
      match lib.jsonLoads(raw)
      case DecodeError => Err(HttpError(400, UserNotJson))
      case LoadCrashed => Err(HttpError(500, UserParseCrashed))
      case Loaded(v) => if v == JNull then Err(HttpError(400, MissingUser)) else Ok(v)
  }

  /** `int(fields.get('auth_date', 0))`; `None` stands for the `ValueError` of a non-integer. */
  function AuthDate(lib: Primitives, fields: map<string, string>): (r: Option<int>)
    ensures "auth_date" !in fields ==> r == Some(0)
  {
    if "auth_date" in fields then lib.parseInt(fields["auth_date"]) else Some(0)
  }

  /** The digest comparison passes: both strings ASCII and equal. */
  ghost predicate DigestMatches(lib: Primitives, secretKey: Bytes, pairs: seq<(string, string)>)
  {
    var d := DictOf(pairs);
    "hash" in d && ExpectedHash(lib, secretKey, DataCheckString(d - {"hash"})) == d["hash"]
    && IsAscii(d["hash"])
  }

  /** Everything `validate_init_data` decides, in the order it decides it. */
  ghost function InitDataVerdict(lib: Primitives, secretKey: Bytes, pairs: seq<(string, string)>, now: int)
    : (r: Result<Json, HttpError>)
    // no hash: 400, before any digest is computed
    ensures ("hash" !in DictOf(pairs)) <==> r == Err(HttpError(400, MissingHash))
    // a wrong digest is 401 whatever the user and auth_date fields hold
    ensures var d := DictOf(pairs);
            ("hash" in d && IsAscii(d["hash"])
             && IsAscii(ExpectedHash(lib, secretKey, DataCheckString(d - {"hash"})))
             && ExpectedHash(lib, secretKey, DataCheckString(d - {"hash"})) != d["hash"])
            <==> r == Err(HttpError(401, HashMismatch))
    // the user checks come only after the digest passed
    ensures DigestMatches(lib, secretKey, pairs) && ParsedUser(lib, DictOf(pairs) - {"hash"}).Err?
            ==> r == ParsedUser(lib, DictOf(pairs) - {"hash"})
    // freshness: refused iff more than an hour old, once digest and user passed
    ensures var f := DictOf(pairs) - {"hash"};
            DigestMatches(lib, secretKey, pairs) && ParsedUser(lib, f).Ok? && AuthDate(lib, f).Some?
            ==> (r == Err(HttpError(401, DataExpired)) <==> now - AuthDate(lib, f).value > FreshnessWindow)
    // a request passing every check, exactly 3600 s old included, is accepted with its user
    ensures var f := DictOf(pairs) - {"hash"};
            DigestMatches(lib, secretKey, pairs) && ParsedUser(lib, f).Ok? && AuthDate(lib, f).Some?
            && now - AuthDate(lib, f).value <= FreshnessWindow
            ==> r == Ok(ParsedUser(lib, f).value)
    // success returns the decoded user unchanged
    ensures r.Ok? ==> DigestMatches(lib, secretKey, pairs)
                      && ParsedUser(lib, DictOf(pairs) - {"hash"}) == Ok(r.value)
    ensures r.Err? ==> r.error.status in {400, 401, 500}
  {
    var d := DictOf(pairs);
    if "hash" !in d then Err(HttpError(400, MissingHash))
    else
      var supplied := d["hash"];
      var fields := d - {"hash"};
      var computed := ExpectedHash(lib, secretKey, DataCheckString(fields));
      if !IsAscii(computed) || !IsAscii(supplied) then Err(HttpError(500, NonAsciiDigest))
      else if computed != supplied then Err(HttpError(401, HashMismatch))
      else
        match ParsedUser(lib, fields)
        case Err(e) => Err(e)
        case Ok(user) =>
          match AuthDate(lib, fields)
          case None => Err(HttpError(500, AuthDateNotInteger))
          case Some(authDate) =>
            if now - authDate > FreshnessWindow then Err(HttpError(401, DataExpired))
            else Ok(user)
  }

  /** Reordering distinct-key pairs does not change the verdict. */
  lemma ReorderedPairsSameVerdict(lib: Primitives, secretKey: Bytes, p1: seq<(string, string)>,
                                  p2: seq<(string, string)>, now: int)
    requires DistinctKeys(p1) && DistinctKeys(p2) && multiset(p1) == multiset(p2)
    ensures InitDataVerdict(lib, secretKey, p1, now) == InitDataVerdict(lib, secretKey, p2, now)
  {
    ReorderedPairsSameDict(p1, p2);
  }

  // ------------------------------------------------------------ session tokens

  /** The claim set of a session token for `user`, issued at `now` (seconds since the epoch). */
  function SessionClaims(user: map<string, Json>, now: int): (claims: map<string, Json>)
    ensures claims.Keys == {"user_id", "first_name", "last_name", "username", "photo_url",
                            "auth_date", "exp", "telegram_auth"}
    ensures claims["user_id"] == Get(user, "id")
    ensures claims["telegram_auth"] == JBool(true)
    ensures claims["exp"] == JNumber(now + TokenLifetime)
    ensures claims["auth_date"] == if "auth_date" in user then user["auth_date"] else JNumber(now)
    ensures forall k :: k in {"first_name", "last_name", "username", "photo_url"} ==> claims[k] == Get(user, k)
  {
    map[
      "user_id" := Get(user, "id"),
      "first_name" := Get(user, "first_name"),
      "last_name" := Get(user, "last_name"),
      "username" := Get(user, "username"),
      "photo_url" := Get(user, "photo_url"),
      "auth_date" := if "auth_date" in user then user["auth_date"] else JNumber(now),
      "exp" := JNumber(now + TokenLifetime),
      "telegram_auth" := JBool(true)
    ]
  }

  /** The outcome of `verify_jwt_token` given what `jwt.decode` did. */
  function TokenVerdict(decoded: JwtDecode): (r: Result<map<string, Json>, HttpError>)
    ensures r.Err? ==> r.error.status == 401
    ensures r.Ok? <==> decoded.Decoded? && Truthy(Get(decoded.claims, "telegram_auth"))
    ensures r.Ok? ==> r.value == decoded.claims
    ensures decoded == SignatureExpired ==> r == Err(HttpError(401, TokenExpired))
  {
    match decoded
    case Decoded(claims) =>
      if Truthy(Get(claims, "telegram_auth")) then Ok(claims) else Err(HttpError(401, TokenRejected))
    case SignatureExpired => Err(HttpError(401, TokenExpired))
    case TokenInvalid => Err(HttpError(401, TokenRejected))
    case DecodeCrashed => Err(HttpError(401, TokenCheckFailed))
  }

  /** Claims issued by `SessionClaims` always pass the `telegram_auth` check. */
  lemma IssuedClaimsAccepted(user: map<string, Json>, now: int)
    ensures TokenVerdict(Decoded(SessionClaims(user, now))) == Ok(SessionClaims(user, now))
  {
  }

  class TelegramDataValidator {
    const botToken: string
    const secretKey: Bytes
    const lib: Primitives

    /** The secret key is HMAC-SHA256 of the bot token under the key "WebAppData". */
    constructor(botToken: string, lib: Primitives)
      ensures this.botToken == botToken && this.lib == lib
      ensures secretKey == lib.hmacSha256(lib.utf8("WebAppData"), lib.utf8(botToken))
    {
      this.botToken := botToken;
      this.lib := lib;
      this.secretKey := lib.hmacSha256(lib.utf8("WebAppData"), lib.utf8(botToken));
    }

    method ValidateInitData(initDataRaw: string, now: int) returns (r: Result<Json, HttpError>)
      ensures r == InitDataVerdict(lib, secretKey, lib.parseQsl(initDataRaw), now)
    {
      var pairs := lib.parseQsl(initDataRaw);
      var fields := DictOf(pairs);
      if "hash" !in fields {
        return Err(HttpError(400, MissingHash));
      }
      var hashFromData := fields["hash"];
      fields := fields - {"hash"};

      var keys := SortedKeys(fields);
      var parts: seq<string> := [];
      for i := 0 to |keys|
        invariant parts == CheckLines(keys[..i], fields)
      {
        parts := parts + [keys[i] + "=" + fields[keys[i]]];
      }
      assert keys[..|keys|] == keys;
      var dataCheckString := Join(parts, "\n");

      var hmacHash := lib.hexDigest(lib.hmacSha256(secretKey, lib.utf8(dataCheckString)));
      if !IsAscii(hmacHash) || !IsAscii(hashFromData) {
        return Err(HttpError(500, NonAsciiDigest));
      }
      if hmacHash != hashFromData {
        return Err(HttpError(401, HashMismatch));
      }

      var user := ParsedUser(lib, fields);
      if user.Err? {
        return Err(user.error);
      }
      var authDate := AuthDate(lib, fields);
      if authDate.None? {
        return Err(HttpError(500, AuthDateNotInteger));
      }
      if now - authDate.value > FreshnessWindow {
        return Err(HttpError(401, DataExpired));
      }
      return Ok(user.value);
    }

    function CreateJwtToken(user: map<string, Json>, now: int): (token: string)
    {
      lib.jwtEncode(SessionClaims(user, now), secretKey)
    }

    function VerifyJwtToken(token: string): (r: Result<map<string, Json>, HttpError>)
      ensures r.Err? ==> r.error.status == 401
      ensures r.Ok? ==> lib.jwtDecode(token, secretKey).Decoded?
                        && r.value == lib.jwtDecode(token, secretKey).claims
                        && Truthy(Get(r.value, "telegram_auth"))
    {
      TokenVerdict(lib.jwtDecode(token, secretKey))
    }

    /**
     * A token this validator issued verifies to the claims it carries,
     * provided the JWT library decodes what it encoded (signature valid, not expired).
     */
    lemma IssuedTokenVerifies(user: map<string, Json>, now: int)
      requires lib.jwtDecode(CreateJwtToken(user, now), secretKey) == Decoded(SessionClaims(user, now))
      ensures VerifyJwtToken(CreateJwtToken(user, now)) == Ok(SessionClaims(user, now))
      ensures VerifyJwtToken(CreateJwtToken(user, now)).value["user_id"] == Get(user, "id")
    {
      IssuedClaimsAccepted(user, now);
    }
  }
}
