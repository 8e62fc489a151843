/** `requireAuthentication` of lib/auth.js: the `Authorization` header is cut
    at single spaces, the second piece is the token when the first is exactly
    `Bearer`, and the token verifier decides between 401 and `next()`. The
    verifier (`jwt.verify` with the server's secret) is a parameter. */
module Auth {
  import opened Wrappers

  /** The claims of a verified token; `None` is an `undefined` claim. */
  datatype Payload = Payload(sub: Option<string>, admin: Option<bool>)

  /** What `req.user` is set to. */
  datatype User = User(id: Option<string>, isAdmin: Option<bool>)

  /** The outcome of the middleware: `next()` or a status with an error body. */
  datatype Response = Next | Send(status: nat, error: string)

  /** What the middleware decides, before it acts on the request. */
  datatype AuthResult = Authenticated(user: User) | Unauthorized(error: string)

  const MissingToken: string := "Missing authentication token"
  const InvalidToken: string := "Invalid authentication token"

  // ---------------------------------------------------------------------
  // `String.prototype.split(" ")` and its inverse

  /** The pieces of `s` between single spaces; two adjacent spaces give an
      empty piece, and the empty string gives one empty piece. */
  function Split(s: string): (parts: seq<string>)
    ensures |parts| >= 1
    ensures forall i :: 0 <= i < |parts| ==> ' ' !in parts[i]
    decreases |s|
  {
    if s == [] then [[]]
    else
      var rest := Split(s[1..]);
      if s[0] == ' ' then [[]] + rest
      else [[s[0]] + rest[0]] + rest[1..]
  }

  /** The pieces put back together with a space between neighbours. */
  function Join(parts: seq<string>): string
    requires |parts| >= 1
    decreases |parts|
  {
    if |parts| == 1 then parts[0] else parts[0] + " " + Join(parts[1..])
  }

  /** Splitting loses nothing: joining the pieces gives the header back. */
  lemma {:induction false} JoinSplit(s: string)
    ensures Join(Split(s)) == s
    decreases |s|
  {
    if s != [] {
      var rest := Split(s[1..]);
      JoinSplit(s[1..]);
      if s[0] == ' ' {
        assert Split(s) == [[]] + rest;
        assert Join(Split(s)) == [] + " " + Join(rest);
        assert s == [' '] + s[1..];
      } else if |rest| == 1 {
        assert Split(s) == [[s[0]] + rest[0]];
        assert s == [s[0]] + s[1..];
      } else {
        var parts := Split(s);
        assert parts == [[s[0]] + rest[0]] + rest[1..];
        assert parts[1..] == rest[1..];
        assert Join(rest) == rest[0] + " " + Join(rest[1..]);
        assert s == [s[0]] + s[1..];
      }
    }
  }

  /** A piece without spaces splits into itself. */
  lemma {:induction false} SplitSpaceless(a: string)
    requires ' ' !in a
    ensures Split(a) == [a]
    decreases |a|
  {
    if a != [] {
      assert ' ' !in a[1..] by {
        forall i | 0 <= i < |a[1..]| ensures a[1..][i] != ' ' {
          assert a[1..][i] == a[i + 1];
        }
      }
      SplitSpaceless(a[1..]);
      assert [a[0]] + a[1..] == a;
    }
  }

  /** A leading space-free piece followed by a space splits off on its own. */
  lemma {:induction false} SplitAfterPiece(a: string, r: string)
    requires ' ' !in a
    ensures Split(a + " " + r) == [a] + Split(r)
    decreases |a|
  {
    var s := a + " " + r;
    if a == [] {
      assert s == [' '] + r;
      assert s[1..] == r;
    } else {
      assert ' ' !in a[1..] by {
        forall i | 0 <= i < |a[1..]| ensures a[1..][i] != ' ' {
          assert a[1..][i] == a[i + 1];
        }
      }
      assert s[1..] == a[1..] + " " + r;
      SplitAfterPiece(a[1..], r);
      assert [a[0]] + a[1..] == a;
    }
  }

  /** Joining space-free pieces and splitting again gives the pieces back. */
  lemma {:induction false} SplitJoin(parts: seq<string>)
    requires |parts| >= 1
    requires forall i :: 0 <= i < |parts| ==> ' ' !in parts[i]
    ensures Split(Join(parts)) == parts
    decreases |parts|
  {
    if |parts| == 1 {
      SplitSpaceless(parts[0]);
    } else {
      SplitJoin(parts[1..]);
      SplitAfterPiece(parts[0], Join(parts[1..]));
      assert [parts[0]] + parts[1..] == parts;
    }
  }

  // ---------------------------------------------------------------------
  // Token selection

  /** `req.get("Authorization") || ""` */
  function HeaderValue(authorization: Option<string>): (header: string)
    ensures authorization.None? ==> header == ""
    ensures authorization.Some? ==> header == authorization.value
  {
    authorization.GetOr("")
  }

  /** `authHeaderParts[0] === "Bearer" ? authHeaderParts[1] : null`, with a
      missing second piece (`undefined`) and `null` both as `None`. */
  function SelectToken(header: string): (token: Option<string>)
    ensures token.Some? ==> ' ' !in token.value && Split(header)[0] == "Bearer"
    ensures Split(header)[0] != "Bearer" ==> token == None
  {
    var parts := Split(header);
    if parts[0] == "Bearer" && |parts| > 1 then Some(parts[1]) else None
  }

  /** The header starts with `Bearer`, one space and `t`, and `t` runs up to
      the next space or to the end of the header. */
  predicate BearerForm(header: string, t: string) {
    var prefix := "Bearer " + t;
    ' ' !in t && prefix <= header && (|header| == |prefix| || header[|prefix|] == ' ')
  }

  /** The selected token is exactly the piece that `BearerForm` describes. */
  lemma SelectTokenCharacterized(header: string, t: string)
    ensures SelectToken(header) == Some(t) <==> BearerForm(header, t)
  {
    var prefix := "Bearer " + t;
    if SelectToken(header) == Some(t) {
      var parts := Split(header);
      JoinSplit(header);
      assert header == "Bearer" + " " + Join(parts[1..]);
      var tail := parts[1..];
      assert tail[0] == t;
      if |tail| == 1 {
        assert header == prefix;
      } else {
        assert Join(tail) == t + " " + Join(tail[1..]);
        assert header == prefix + " " + Join(tail[1..]);
      }
    }
    if BearerForm(header, t) {
      SplitAfterPiece("Bearer", header[7..]);
      assert header == "Bearer" + " " + header[7..];
      if |header| == |prefix| {
        assert header[7..] == t;
        SplitSpaceless(t);
      } else {
        var rest := header[|prefix| + 1..];
        assert header[7..] == t + " " + rest;
        SplitAfterPiece(t, rest);
      }
    }
  }

  /** The scheme is compared case-sensitively with `Bearer`: any other first
      piece (`bearer`, `Basic`, `Token`, ...) yields no token. */
  lemma OtherSchemeYieldsNoToken(scheme: string, rest: string)
    requires ' ' !in scheme && scheme != "Bearer"
    ensures SelectToken(scheme) == None
    ensures SelectToken(scheme + " " + rest) == None
  {
    SplitSpaceless(scheme);
    SplitAfterPiece(scheme, rest);
  }

  /** The token is the second piece; whatever follows the next space is ignored. */
  lemma FurtherPiecesIgnored(t: string, rest: string)
    requires ' ' !in t
    ensures SelectToken("Bearer " + t) == Some(t)
    ensures SelectToken("Bearer " + t + " " + rest) == Some(t)
  {
    SelectTokenCharacterized("Bearer " + t, t);
    var header := "Bearer " + t + " " + rest;
    assert header[|"Bearer " + t|] == ' ';
    SelectTokenCharacterized(header, t);
  }

  // ---------------------------------------------------------------------
  // The decision

  /** What `requireAuthentication` decides for the header `authorization`
      when `verify` stands for `jwt.verify` (`None` when it throws). */
  function Authenticate(authorization: Option<string>, verify: string -> Option<Payload>): (r: AuthResult)
    ensures r.Unauthorized? ==> r.error == MissingToken || r.error == InvalidToken
    ensures r.Authenticated? ==>
              var token := SelectToken(HeaderValue(authorization));
              token.Some? && token.value != "" && verify(token.value).Some? &&
              r.user == User(verify(token.value).value.sub, verify(token.value).value.admin)
  {
    var token := SelectToken(HeaderValue(authorization));
    if token.None? || token.value == "" then Unauthorized(MissingToken)
    else
      match verify(token.value)
      case Some(p) => Authenticated(User(p.sub, p.admin))
      case None => Unauthorized(InvalidToken)
  }

  /** Without a non-empty bearer token the answer is "Missing"; with one,
      the verifier alone decides: its payload's `sub` and `admin` become the
      user, or the answer is "Invalid". */
  lemma AuthenticateCharacterized(authorization: Option<string>, verify: string -> Option<Payload>)
    ensures (forall t :: BearerForm(HeaderValue(authorization), t) ==> t == "") ==>
              Authenticate(authorization, verify) == Unauthorized(MissingToken)
    ensures forall t :: BearerForm(HeaderValue(authorization), t) && t != "" ==>
              Authenticate(authorization, verify) ==
                (match verify(t)
                 case Some(p) => Authenticated(User(p.sub, p.admin))
                 case None => Unauthorized(InvalidToken))
  {
    var header := HeaderValue(authorization);
    forall t | BearerForm(header, t)
      ensures SelectToken(header) == Some(t)
    {
      SelectTokenCharacterized(header, t);
    }
    if SelectToken(header).Some? {
      SelectTokenCharacterized(header, SelectToken(header).value);
    }
  }

  /** An absent or empty header gives no token, hence "Missing". */
  lemma AbsentHeaderIsMissingToken(verify: string -> Option<Payload>)
    ensures Authenticate(None, verify) == Unauthorized(MissingToken)
    ensures Authenticate(Some(""), verify) == Unauthorized(MissingToken)
  {
  }

  /** `Bearer` alone, or `Bearer` and a space followed by nothing or by
      another space, gives no usable token, hence "Missing". */
  lemma BearerWithoutTokenIsMissing(rest: string, verify: string -> Option<Payload>)
    requires rest == "" || rest[0] == ' '
    ensures Authenticate(Some("Bearer"), verify) == Unauthorized(MissingToken)
    ensures Authenticate(Some("Bearer " + rest), verify) == Unauthorized(MissingToken)
  {
    SplitSpaceless("Bearer");
    SelectTokenCharacterized("Bearer " + rest, "");
  }

  // ---------------------------------------------------------------------
  // The middleware acting on a request

  class Request {
    /** `req.get("Authorization")` */
    const authorization: Option<string>
    /** `req.user` */
    var user: Option<User>

    constructor (authorization: Option<string>)
      ensures this.authorization == authorization && user == None
    {
      this.authorization := authorization;
      user := None;
    }
  }

  /** Runs `requireAuthentication` on `req`: either sets `req.user` from the
      verified payload and continues, or answers 401 and leaves `req` alone. */
  method RequireAuthentication(req: Request, verify: string -> Option<Payload>) returns (res: Response)
    modifies req
    ensures res == Next <==> Authenticate(req.authorization, verify).Authenticated?
    ensures match Authenticate(req.authorization, verify)
      case Authenticated(u) => res == Next && req.user == Some(u)
      case Unauthorized(e) => res == Send(401, e) && req.user == old(req.user)
  {
    var header := HeaderValue(req.authorization);
    var token := SelectToken(header);
    if token.None? || token.value == "" {
      return Send(401, MissingToken);
    }
    var payload := verify(token.value);
    if payload.None? {
      return Send(401, InvalidToken);
    }
    req.user := Some(User(payload.value.sub, payload.value.admin));
    res := Next;
  }
}
