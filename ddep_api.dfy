/** The client of the e-mail protection provider's HTTP API (src/ddep/api.rs).

    The network is not modelled: every call takes as an input the reply the
    provider gave, already decoded, and returns the request it sent, so that
    contracts can speak about both. URLs, the User-Agent, Origin and Referer
    headers and the HTTP session object are left out. */
module DdepApi {
  import opened Wrappers
  import opened Text

  /** A Rust `i32`. */
  type Int32 = x: int | -0x8000_0000 <= x < 0x8000_0000

  /** The provider endpoints the client calls: /auth/loginlink, /auth/login,
      /email/dashboard and /email/addresses under the API base. */
  datatype Endpoint = AuthLoginLink | AuthLogin | EmailDashboard | EmailAddresses

  /** One HTTP request: the endpoint, the query parameters in order and the token
      sent as `Authorization: Bearer <token>`, if any. */
  datatype Request = Request(endpoint: Endpoint, query: seq<(string, string)>, bearer: Option<string>)

  /** What a request produced: no response at all (connection, TLS or timeout
      failure), or a status code with a body that decoded to a `T` (`Some`) or
      failed to decode (`None`). */
  datatype Reply<T> = SendFailed | Replied(status: nat, body: Option<T>)

  /** Why a call failed. `MissingOtpParameter` and `MissingAddress` stand for the
      two `unwrap()` calls of the source, which panic instead of returning. */
  datatype ApiError =
    | Transport
    | HttpStatus(code: nat)
    | Decode
    | InvalidHeader
    | MissingOtpParameter
    | MissingAddress

  datatype LoginResponse = LoginResponse(status: string, token: string, user: string)

  datatype User = User(accessToken: string, cohort: string, email: string, username: string)

  datatype DashboardResponse = DashboardResponse(invites: seq<string>, addressesGenerated: Int32, user: User)

  /** The body of the alias call: the `address` member when it is a JSON string. */
  datatype AliasResponse = AliasResponse(address: Option<string>)

  /** reqwest's `error_for_status`: client and server errors, nothing else. */
  predicate IsErrorStatus(code: nat)
  {
    400 <= code < 600
  }

  /** The bytes the `http` crate accepts in a header value built with
      `HeaderValue::from_str`: tab, and everything from space up except DEL.
      A non-ASCII character is encoded as bytes of 0x80 and above, all accepted. */
  predicate IsHeaderChar(c: char)
  {
    c == '\t' || (' ' <= c && c != '\U{007F}')
  }

  predicate IsHeaderValue(s: string)
  {
    forall i :: 0 <= i < |s| ==> IsHeaderChar(s[i])
  }

  /** The error statuses are the 4xx (client error) and 5xx (server error) classes. */
  lemma ErrorStatusClasses(code: nat)
    ensures IsErrorStatus(code) <==> code / 100 == 4 || code / 100 == 5
  {
  }

  /** A header value holds no line break, so a token cannot inject a header. */
  lemma HeaderValueOneLine(s: string)
    requires IsHeaderValue(s)
    ensures '\r' !in s && '\n' !in s
  {
  }

  /** The bearer header is valid exactly when the token is. */
  lemma BearerHeader(t: string)
    ensures IsHeaderValue("Bearer " + t) <==> IsHeaderValue(t)
  {
    var h := "Bearer " + t;
    assert forall i :: 0 <= i < |t| ==> h[7 + i] == t[i];
    assert forall i :: 0 <= i < 7 ==> IsHeaderChar(h[i]);
    if IsHeaderValue(t) {
      forall i | 0 <= i < |h| ensures IsHeaderChar(h[i]) {
        if i >= 7 { assert h[i] == t[i - 7]; }
      }
    }
  }

  /** `send().await?` followed by `error_for_status()?`: the reply's body when
      the provider answered with a status that is not an error. */
  function CheckStatus<T>(reply: Reply<T>): (r: Result<Option<T>, ApiError>)
    ensures r.Success? <==> reply.Replied? && !IsErrorStatus(reply.status)
    ensures r.Success? ==> r.value == reply.body
    ensures reply.SendFailed? ==> r == Failure(Transport)
    ensures reply.Replied? && IsErrorStatus(reply.status) ==> r == Failure(HttpStatus(reply.status))
  {
    match reply
    case SendFailed => Failure(Transport)
    case Replied(code, body) => if IsErrorStatus(code) then Failure(HttpStatus(code)) else Success(body)
  }

  /** `CheckStatus` followed by `json().await?`. */
  function Decoded<T>(reply: Reply<T>): (r: Result<T, ApiError>)
    ensures r.Success? <==> reply.Replied? && !IsErrorStatus(reply.status) && reply.body.Some?
    ensures r.Success? ==> r.value == reply.body.value
    ensures reply.Replied? && !IsErrorStatus(reply.status) && reply.body.None? ==> r == Failure(Decode)
  {
    match CheckStatus(reply)
    case Failure(e) => Failure(e)
    case Success(body) => if body.Some? then Success(body.value) else Failure(Decode)
  }

  const UrlScheme: string := "https://"
  const OtpKey: string := "otp="

  /** The value of a login link's `otp` parameter, once `rest` is the text after
      the link's first "otp=": it is a prefix of `rest` without '&' and without
      "otp=", and it ends where `rest` ends, at a '&' or at the next "otp=". */
  predicate IsOtpValueOf(rest: string, v: string)
  {
    && v <= rest
    && '&' !in v
    && (forall j: nat :: j + |OtpKey| <= |v| ==> !At(v, j, OtpKey))
    && (|v| == |rest| || rest[|v|] == '&' || At(rest, |v|, OtpKey))
  }

  /** The passphrase as the login endpoint wants it (api.rs, `login`). A login
      link ("https://...") gives the text after its first "otp=", cut at the
      first '&' and at the next "otp="; a link without "otp=" has none, and the
      source panics there. Any other input gives the passphrase with every space
      written as '-'. The link test comes first. */
  function NormalizeOtp(otp: string): (r: Result<string, ApiError>)
    ensures StartsWith(otp, UrlScheme) && IndexOf(otp, OtpKey, 0).None? ==> r == Failure(MissingOtpParameter)
    ensures StartsWith(otp, UrlScheme) && IndexOf(otp, OtpKey, 0).Some? ==>
      r.Success? && IsOtpValueOf(otp[IndexOf(otp, OtpKey, 0).value + |OtpKey|..], r.value)
    ensures !StartsWith(otp, UrlScheme) ==> r.Success? && |r.value| == |otp| && ' ' !in r.value
    ensures !StartsWith(otp, UrlScheme) ==> forall i :: 0 <= i < |otp| ==>
      r.value[i] == if otp[i] == ' ' then '-' else otp[i]
  {
    if StartsWith(otp, UrlScheme) then
      match IndexOf(otp, OtpKey, 0)
      case None => Failure(MissingOtpParameter)
      case Some(i) =>
        var rest := otp[i + |OtpKey|..];
        OtpValueCut(rest);
        Success(PrefixBefore(PrefixBefore(rest, OtpKey), "&"))
    else
      Success(ReplaceChar(otp, ' ', '-'))
  }

  /** The value is what lies before the next `otp=` and, within that, before the first '&'. */
  lemma OtpValueCut(rest: string)
    ensures IsOtpValueOf(rest, PrefixBefore(PrefixBefore(rest, OtpKey), "&"))
  {
    var piece := PrefixBefore(rest, OtpKey);
    var v := PrefixBefore(piece, "&");
    assert '&' !in v by {
      forall j | 0 <= j < |v| ensures v[j] != '&' {
        assert !At(v, j, "&");
      }
    }
    assert forall j: nat :: j + |OtpKey| <= |v| ==> !At(v, j, OtpKey) by {
      forall j: nat | j + |OtpKey| <= |v| ensures !At(v, j, OtpKey) {
        assert !At(piece, j, OtpKey);
        assert v[j..j + |OtpKey|] == piece[j..j + |OtpKey|];
      }
    }
    assert |v| < |piece| ==> rest[|v|] == '&' by {
      if |v| < |piece| {
        assert At(piece, |v|, "&");
        assert piece[|v|] == '&';
      }
    }
  }

  /** The provider's client for one account (api.rs `Client`). */
  class Client {
    var username: string
    var token: Option<string>
    var accessToken: Option<string>
    var generatedAddresses: Option<Int32>
    var realEmail: Option<string>
    var loggedIn: bool

    /** Logged in only with both tokens: set by the constructor, kept by every method. */
    ghost predicate Valid()
      reads this
    {
      loggedIn ==> token.Some? && accessToken.Some?
    }

    /** `Client::new`: logged in exactly when both tokens are given; no e-mail
        address and no address count are known yet. */
    constructor (username: string, token: Option<string>, accessToken: Option<string>)
      ensures Valid()
      ensures this.username == username && this.token == token && this.accessToken == accessToken
      ensures loggedIn <==> token.Some? && accessToken.Some?
      ensures realEmail.None? && generatedAddresses.None?
    {
      this.username := username;
      this.token := token;
      this.accessToken := accessToken;
      generatedAddresses := None;
      realEmail := None;
      loggedIn := token.Some? && accessToken.Some?;
    }

    /** The user name a call sends: the one given, else the client's own. */
    function UserFor(user: Option<string>): (u: string)
      reads this
      ensures user.Some? ==> u == user.value
      ensures user.None? ==> u == username
    {
      if user.Some? then user.value else username
    }

    /** `otp`: asks the provider to mail a one-time passphrase. It succeeds, with
        `true`, exactly when the provider answered with a non-error status; the
        body is not read. */
    method Otp(user: Option<string>, reply: Reply<()>) returns (sent: Request, r: Result<bool, ApiError>)
      ensures sent == Request(AuthLoginLink, [("user", UserFor(user))], None)
      ensures r.Success? <==> reply.Replied? && !IsErrorStatus(reply.status)
      ensures r.Success? ==> r.value
      ensures r.Failure? ==> r == Failure(CheckStatus(reply).error)
    {
      sent := Request(AuthLoginLink, [("user", UserFor(user))], None);
      match CheckStatus(reply)
      case Failure(e) => r := Failure(e);
      case Success(_) => r := Success(true);
    }

    /** `login`: redeems a passphrase or login link for a session token. The token
        is stored and returned only when the provider answered with a non-error
        status and a body that decoded; on every failure `token` keeps its value.
        A link without "otp=" fails before anything is sent. */
    method Login(otp: string, user: Option<string>, reply: Reply<LoginResponse>)
      returns (sent: Option<Request>, r: Result<string, ApiError>)
      requires Valid()
      modifies this`token
      ensures Valid()
      ensures NormalizeOtp(otp).Failure? ==> sent.None? && r == Failure(NormalizeOtp(otp).error)
      ensures NormalizeOtp(otp).Success? ==>
        sent == Some(Request(AuthLogin, [("user", UserFor(user)), ("otp", NormalizeOtp(otp).value)], None))
      ensures r == LoginStep(otp, reply)
      ensures r.Success? ==> token == Some(r.value)
      ensures r.Failure? ==> token == old(token)
    {
      var u := UserFor(user);
      match NormalizeOtp(otp)
      case Failure(e) =>
        sent, r := None, Failure(e);
      case Success(parsed) =>
        sent := Some(Request(AuthLogin, [("user", u), ("otp", parsed)], None));
        match Decoded(reply)
        case Failure(e) =>
          r := Failure(e);
        case Success(response) =>
          token := Some(response.token);
          r := Success(response.token);
    }

    /** `dashboard`: fetches the account record with the session token as the
        bearer (no Authorization header without one). A token that is not a
        valid header value fails before anything is sent. */
    method Dashboard(reply: Reply<DashboardResponse>) returns (sent: Option<Request>, r: Result<DashboardResponse, ApiError>)
      ensures token.Some? && !IsHeaderValue("Bearer " + token.value) ==> sent.None? && r == Failure(InvalidHeader)
      ensures token.None? || IsHeaderValue("Bearer " + token.value) ==>
        sent == Some(Request(EmailDashboard, [], token)) && r == Decoded(reply)
    {
      if token.Some? && !IsHeaderValue("Bearer " + token.value) {
        sent, r := None, Failure(InvalidHeader);
        return;
      }
      sent := Some(Request(EmailDashboard, [], token));
      r := Decoded(reply);
    }

    /** `full_login`: login, then dashboard with the new session token. The access
        token, the real e-mail address, the address count and `loggedIn` are
        written only when both steps succeed; a failing login changes nothing, and
        a failing dashboard call leaves only the new session token behind. */
    method FullLogin(otp: string, user: Option<string>, loginReply: Reply<LoginResponse>, dashboardReply: Reply<DashboardResponse>)
      returns (sent: seq<Request>, r: Result<bool, ApiError>)
      requires Valid()
      modifies this
      ensures Valid()
      ensures username == old(username)
      ensures r.Success? ==> r.value
      ensures LoginStep(otp, loginReply).Failure? ==>
        && r == Failure(LoginStep(otp, loginReply).error)
        && token == old(token) && accessToken == old(accessToken) && realEmail == old(realEmail)
        && generatedAddresses == old(generatedAddresses) && loggedIn == old(loggedIn)
        && sent == (if NormalizeOtp(otp).Success? then [LoginRequest(old(username), otp, user)] else [])
      ensures LoginStep(otp, loginReply).Success? ==>
        && token == Some(LoginStep(otp, loginReply).value)
        && |sent| >= 1 && sent[0] == LoginRequest(old(username), otp, user)
      ensures LoginStep(otp, loginReply).Success? && DashboardStep(token.value, dashboardReply).Failure? ==>
        && r == Failure(DashboardStep(token.value, dashboardReply).error)
        && sent == [LoginRequest(old(username), otp, user)]
             + (if IsHeaderValue("Bearer " + token.value) then [Request(EmailDashboard, [], token)] else [])
        && accessToken == old(accessToken) && realEmail == old(realEmail)
        && generatedAddresses == old(generatedAddresses) && loggedIn == old(loggedIn)
      ensures LoginStep(otp, loginReply).Success? && DashboardStep(token.value, dashboardReply).Success? ==>
        var d := DashboardStep(token.value, dashboardReply).value;
        && r == Success(true)
        && sent == [LoginRequest(old(username), otp, user), Request(EmailDashboard, [], token)]
        && accessToken == Some(d.user.accessToken) && realEmail == Some(d.user.email)
        && generatedAddresses == Some(d.addressesGenerated) && loggedIn
    {
      var loginSent, login := Login(otp, user, loginReply);
      sent := if loginSent.Some? then [loginSent.value] else [];
      if login.Failure? {
        r := Failure(login.error);
        return;
      }
      token := Some(login.value);
      var dashboardSent, dashboard := Dashboard(dashboardReply);
      sent := sent + (if dashboardSent.Some? then [dashboardSent.value] else []);
      if dashboard.Failure? {
        r := Failure(dashboard.error);
        return;
      }
      accessToken := Some(dashboard.value.user.accessToken);
      realEmail := Some(dashboard.value.user.email);
      generatedAddresses := Some(dashboard.value.addressesGenerated);
      loggedIn := true;
      r := Success(true);
    }

    /** `generate_alias`: mints a new address with the access token as the bearer.
        It yields the reply's `address` string; a reply whose `address` is not a
        string fails with `MissingAddress` (a panic in the source). */
    method GenerateAlias(reply: Reply<AliasResponse>) returns (sent: Option<Request>, r: Result<string, ApiError>)
      ensures accessToken.Some? && !IsHeaderValue("Bearer " + accessToken.value) ==> sent.None? && r == Failure(InvalidHeader)
      ensures accessToken.None? || IsHeaderValue("Bearer " + accessToken.value) ==>
        sent == Some(Request(EmailAddresses, [], accessToken))
      ensures r.Success? <==>
        (accessToken.None? || IsHeaderValue("Bearer " + accessToken.value)) && Decoded(reply).Success? && Decoded(reply).value.address.Some?
      ensures r.Success? ==> r.value == Decoded(reply).value.address.value
    {
      if accessToken.Some? && !IsHeaderValue("Bearer " + accessToken.value) {
        sent, r := None, Failure(InvalidHeader);
        return;
      }
      sent := Some(Request(EmailAddresses, [], accessToken));
      match Decoded(reply)
      case Failure(e) =>
        r := Failure(e);
      case Success(body) =>
        r := if body.address.Some? then Success(body.address.value) else Failure(MissingAddress);
    }
  }

  /** The request `login` sends for a passphrase that normalises. */
  function LoginRequest(username: string, otp: string, user: Option<string>): Request
    requires NormalizeOtp(otp).Success?
  {
    Request(AuthLogin, [("user", if user.Some? then user.value else username), ("otp", NormalizeOtp(otp).value)], None)
  }

  /** The outcome of `login` on its own: the session token, or why there is none. */
  function LoginStep(otp: string, reply: Reply<LoginResponse>): (r: Result<string, ApiError>)
    ensures r.Success? <==> NormalizeOtp(otp).Success? && Decoded(reply).Success?
    ensures r.Success? ==> r.value == reply.body.value.token
  {
    match NormalizeOtp(otp)
    case Failure(e) => Failure(e)
    case Success(_) => match Decoded(reply) { case Failure(e) => Failure(e) case Success(resp) => Success(resp.token) }
  }

  /** The outcome of `dashboard` for a session token. */
  function DashboardStep(token: string, reply: Reply<DashboardResponse>): (r: Result<DashboardResponse, ApiError>)
    ensures r.Success? <==> IsHeaderValue("Bearer " + token) && Decoded(reply).Success?
    ensures r.Success? ==> r.value == reply.body.value
  {
    if !IsHeaderValue("Bearer " + token) then Failure(InvalidHeader) else Decoded(reply)
  }

  /** Inside a link's `otp` value there is no '&' and no "otp=" starts. */
  lemma InsideOtpValue(rest: string, v: string, k: nat)
    requires IsOtpValueOf(rest, v) && k < |v|
    ensures rest[k] != '&' && !At(rest, k, OtpKey)
  {
    assert v[k] == rest[k];
    if k + |OtpKey| <= |v| {
      assert !At(v, k, OtpKey);
      assert v[k..k + |OtpKey|] == rest[k..k + |OtpKey|];
    } else if |v| < |rest| && k + |OtpKey| <= |rest| {
      // the value ends at a '&' or at the 'o' of the next "otp=", neither of
      // which is the character of "otp=" found at that distance
      assert rest[|v|] == '&' || rest[|v|] == 'o' by {
        if rest[|v|] != '&' {
          assert rest[|v|..|v| + |OtpKey|][0] == rest[|v|];
        }
      }
      NotAtByChar(rest, k, OtpKey, |v| - k);
    }
  }

  /** At most one value fits a link: `IsOtpValueOf` describes a function of the text. */
  lemma OtpValueUnique(rest: string, v: string, w: string)
    requires IsOtpValueOf(rest, v) && IsOtpValueOf(rest, w)
    ensures v == w
  {
    if |v| < |w| {
      InsideOtpValue(rest, w, |v|);
    } else if |w| < |v| {
      InsideOtpValue(rest, v, |w|);
    }
  }

  /** A link whose first "otp=" is at `i` yields the value that fits the text after it. */
  lemma NormalizedLink(link: string, i: nat, v: string)
    requires StartsWith(link, UrlScheme) && At(link, i, OtpKey)
    requires forall j: nat :: j < i ==> !At(link, j, OtpKey)
    requires IsOtpValueOf(link[i + |OtpKey|..], v)
    ensures NormalizeOtp(link) == Success(v)
  {
    FirstOccurrence(link, OtpKey, i);
    OtpValueUnique(link[i + |OtpKey|..], NormalizeOtp(link).value, v);
  }

  /** A login link yields its `otp` parameter, up to the '&' of the next one. */
  lemma LoginLinkOtp()
    ensures NormalizeOtp("https://a.b/c?otp=x-y-z&user=u") == Success("x-y-z")
  {
    var link := "https://a.b/c?otp=x-y-z&user=u";
    assert StartsWith(link, UrlScheme);
    assert At(link, 14, OtpKey);
    var head := link[..14];
    assert 'o' !in head;
    forall j: nat | j < 14 ensures !At(link, j, OtpKey) {
      assert head[j] == link[j];
      NotAtByChar(link, j, OtpKey, 0);
    }
    var rest := link[18..];
    assert rest == "x-y-z&user=u";
    forall j: nat | j + |OtpKey| <= 5 ensures !At("x-y-z", j, OtpKey) {
      NotAtByChar("x-y-z", j, OtpKey, 0);
    }
    assert IsOtpValueOf(rest, "x-y-z");
    NormalizedLink(link, 14, "x-y-z");
  }

  /** A login link without "otp=" is refused (the source panics there). */
  lemma LoginLinkWithoutOtp()
    ensures NormalizeOtp("https://a.b/c?user=u") == Failure(MissingOtpParameter)
  {
    var link := "https://a.b/c?user=u";
    assert StartsWith(link, UrlScheme);
    assert 'o' !in link;
    forall j: nat | true ensures !At(link, j, OtpKey) {
      if j < |link| {
        assert link[j] in link;
      }
      NotAtByChar(link, j, OtpKey, 0);
    }
    NoOccurrence(link, OtpKey);
  }

  /** Anything but a login link is taken as a typed passphrase. */
  lemma TypedOtp(otp: string)
    requires !StartsWith(otp, UrlScheme)
    ensures NormalizeOtp(otp) == Success(ReplaceChar(otp, ' ', '-'))
  {
  }

  /** A typed passphrase has its spaces written as dashes. */
  lemma TypedPassphraseOtp()
    ensures NormalizeOtp("x y z") == Success("x-y-z")
  {
    var r := NormalizeOtp("x y z").value;
    assert !StartsWith("x y z", UrlScheme) by {
      NotAtByChar("x y z", 0, UrlScheme, 0);
    }
    assert |r| == 5;
    assert r == "x-y-z";
  }
}
