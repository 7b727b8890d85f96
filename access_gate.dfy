/** The `authenticateToken` middleware of middleware/auth.js: it takes the
    token from the Authorization header, asks the token verifier about it, and
    either rejects the request with exactly one response or lets the route run
    with the decoded identity attached. The verifier (jsonwebtoken's `verify`
    with the server's secret) is a parameter. */
module AccessGate {
  import opened Basics
  import opened Strings

  /** The payload the login route signs and the gate hands on as `req.user`. */
  datatype Payload = Payload(id: Id)

  /** What the verifier's callback receives: a decoded payload, or an error
      carrying its `name`. */
  datatype VerifyResult = Verified(payload: Payload) | VerifyError(name: string)

  const ExpiredErrorName := "TokenExpiredError"

  /** The three ways the gate turns a request away. */
  datatype Denial = TokenMissing | TokenExpired | TokenInvalid {
    function Status(): int {
      match this
      case TokenMissing => 401
      case TokenExpired => 401
      case TokenInvalid => 403
    }
    function Text(): string {
      match this
      case TokenMissing => "Authentication token required"
      case TokenExpired => "Token expired. Please login again."
      case TokenInvalid => "Invalid token"
    }
  }

  /** The gate's single outcome: one rejection response, or one call of
      `next` with the identity attached. */
  datatype GateOutcome = Denied(denial: Denial) | Proceed(user: Payload)

  /** `authHeader && authHeader.split(" ")[1]`, read as a truth value: the
      second space-separated piece, when the header is there and that piece
      exists and is not empty. The first piece (normally "Bearer") is not
      looked at. */
  function ExtractToken(header: Option<string>): (r: Option<string>)
    ensures r.Some? ==>
              && r.value != "" && ' ' !in r.value && header.Some?
              && |Split(header.value)| >= 2 && Split(header.value)[1] == r.value
    ensures header.None? || header == Some("") ==> r.None?
  {
    match header
    case None => None
    case Some(h) =>
      if h == "" then None
      else
        var pieces := Split(h);
        if |pieces| < 2 || pieces[1] == "" then None else Some(pieces[1])
  }

  /** `h` is a space-free first word `w`, one space, `t`, and a `tail` that is
      empty or starts at the next space. */
  predicate SecondWordOf(h: string, w: string, t: string, tail: string) {
    h == w + " " + t + tail && ' ' !in w && (tail == "" || tail[0] == ' ')
  }

  /** A token found in the header is the word after the first single space,
      running up to the next space or the end of the header. */
  lemma TokenIsSecondWord(h: string, t: string)
    requires ExtractToken(Some(h)) == Some(t)
    ensures exists w, tail :: SecondWordOf(h, w, t, tail)
  {
    var pieces := Split(h);
    assert |pieces| >= 2 && pieces[1] == t;
    var w, rest := pieces[0], pieces[1..];
    var tail := if |pieces| == 2 then "" else " " + Join(pieces[2..]);
    assert h == w + " " + Join(rest) by { JoinSplit(h); }
    assert Join(rest) == t + tail by {
      if |rest| > 1 {
        assert rest[1..] == pieces[2..];
      }
    }
    assert ' ' !in w;
    assert w + " " + (t + tail) == w + " " + t + tail;
    assert SecondWordOf(h, w, t, tail);
  }

  /** Conversely, any first word followed by one space and a space-free,
      non-empty token yields that token: "Bearer" is not required. */
  lemma AnyFirstWordYieldsToken(h: string, w: string, t: string, tail: string)
    requires SecondWordOf(h, w, t, tail) && ' ' !in t && t != ""
    ensures ExtractToken(Some(h)) == Some(t)
  {
    assert h == w + " " + (t + tail);
    SplitFirstWord(w, t + tail);
    if tail == "" {
      assert t + tail == t;
      SplitWord(t);
    } else {
      assert t + tail == t + " " + tail[1..];
      SplitFirstWord(t, tail[1..]);
    }
  }

  /** A header with no space, or with two spaces after the first word, carries
      no token. */
  lemma MalformedHeadersCarryNoToken(w: string, rest: string)
    requires ' ' !in w
    ensures ExtractToken(Some(w)) == None
    ensures ExtractToken(Some(w + "  " + rest)) == None
  {
    SplitWord(w);
    assert w + "  " + rest == w + " " + (" " + rest);
    SplitFirstWord(w, " " + rest);
    assert (" " + rest)[0] == ' ' && (" " + rest)[1..] == rest;
  }

  /** `authenticateToken`. A missing token is rejected with 401 before the
      verifier is asked; an expiry error gives 401 "Token expired"; any other
      verifier error gives 403; otherwise the route proceeds with the decoded
      payload as the user. */
  function Authenticate(header: Option<string>, verify: string -> VerifyResult): (r: GateOutcome)
    ensures r == Denied(TokenMissing) <==> ExtractToken(header).None?
    ensures r == Denied(TokenExpired) <==>
              ExtractToken(header).Some? && verify(ExtractToken(header).value) == VerifyError(ExpiredErrorName)
    ensures r == Denied(TokenInvalid) <==>
              ExtractToken(header).Some? && verify(ExtractToken(header).value).VerifyError?
              && verify(ExtractToken(header).value).name != ExpiredErrorName
    ensures r.Proceed? <==>
              ExtractToken(header).Some? && verify(ExtractToken(header).value).Verified?
    ensures r.Proceed? ==> r.user == verify(ExtractToken(header).value).payload
  {
    match ExtractToken(header)
    case None => Denied(TokenMissing)
    case Some(token) =>
      match verify(token)
      case VerifyError(name) => if name == ExpiredErrorName then Denied(TokenExpired) else Denied(TokenInvalid)
      case Verified(payload) => Proceed(payload)
  }

  /** Without a token the verifier is never consulted: any two verifiers give
      the same 401. */
  lemma MissingTokenIgnoresVerifier(header: Option<string>, v1: string -> VerifyResult, v2: string -> VerifyResult)
    requires ExtractToken(header).None?
    ensures Authenticate(header, v1) == Authenticate(header, v2) == Denied(TokenMissing)
    ensures Authenticate(header, v1).denial.Status() == 401
  {
  }

  /** With a token, the outcome depends only on what the verifier says about
      that token: the gate adds no check of its own. */
  lemma OutcomeDependsOnlyOnVerdict(header: Option<string>, v1: string -> VerifyResult, v2: string -> VerifyResult)
    requires ExtractToken(header).Some?
    requires v1(ExtractToken(header).value) == v2(ExtractToken(header).value)
    ensures Authenticate(header, v1) == Authenticate(header, v2)
  {
  }

  /** "Bearer <token>" with a verifier that accepts the token lets the request
      through as the token's subject. */
  lemma BearerTokenAccepted(t: string, verify: string -> VerifyResult, user: Payload)
    requires ' ' !in t && t != ""
    requires verify(t) == Verified(user)
    ensures Authenticate(Some("Bearer " + t), verify) == Proceed(user)
  {
    assert "Bearer " + t == "Bearer" + " " + t + "";
    AnyFirstWordYieldsToken("Bearer " + t, "Bearer", t, "");
  }
}
