/** The API session: one request at a time, an expired session renewed once and the request replayed. */
module Session {
  import opened Bytes

  datatype Option<+T> = None | Some(value: T)

  datatype ApiError =
    | NoError | Network | Http | Parse | NotLoggedIn | LoginFailed | ApiDisabled
    | UnknownMethod | IncorrectUsage | OperationFailed | NotFound | Status

  function ErrorFromCode(code: Option<string>): (e: ApiError)
    ensures e != NoError && (e == NotLoggedIn <==> code == Some("NOT_LOGGED_IN"))
  {
    if code.None? then Status
    else if code.value == "NOT_LOGGED_IN" then NotLoggedIn
    else if code.value == "LOGIN_ERROR" then LoginFailed
    else if code.value == "API_DISABLED" then ApiDisabled
    else if code.value == "UNKNOWN_METHOD" then UnknownMethod
    else if code.value == "INCORRECT_USAGE" then IncorrectUsage
    else if code.value == "E_OPERATION_FAILED" then OperationFailed
    else if code.value == "E_NOT_FOUND" then NotFound
    else Status
  }

  /** What callers read of a content object. */
  datatype Content = Content(sessionId: Option<string>, level: int)

  datatype Envelope = NotJson | NotObject | ServerError(code: Option<string>) | Good(content: Content)

  /** What becomes of an attempt: not even sent, cut off, failed in transport, or answered. */
  datatype Reply = NotSerialized | TooLarge | TransportError | Answer(httpCode: int, body: Envelope)

  /** The network: the outcome of each attempt, in order. */
  type Net = nat -> Reply

  datatype Params = NoParams | Json(text: string) | Credentials(user: string, password: string)

  /** What can be seen from outside: requests sent, and the session id being set. */
  datatype Event = Sent(op: string, params: Params, sid: Option<string>) | SidSet(sid: Option<string>)

  datatype Client = Client(sid: Option<string>, user: Option<string>, password: Option<string>, level: int,
                           error: ApiError, attempts: nat, trace: seq<Event>)

  datatype Result = Result(client: Client, content: Option<Content>)

  const LOGIN := "login"

  /** How an answered or failed attempt is judged. */
  function Judge(r: Reply): (e: ApiError)
    ensures e == NoError <==> r.Answer? && 200 <= r.httpCode < 300 && r.body.Good?
    ensures e == NotLoggedIn ==> r.Answer?
  {
    match r
    case NotSerialized => Parse
    case TooLarge => Http
    case TransportError => Network
    case Answer(code, body) =>
      if code < 200 || code >= 300 then Http
      else
        match body
        case NotJson => Parse
        case NotObject => Parse
        case ServerError(c) => ErrorFromCode(c)
        case Good(_) => NoError
  }

  function CallOnce(net: Net, c: Client, op: string, params: Params): Result {
    var r := net(c.attempts);
    var sent := if r.NotSerialized? then [] else [Sent(op, params, if op == LOGIN then None else c.sid)];
    var e := Judge(r);
    Result(c.(error := e, attempts := c.attempts + 1, trace := c.trace + sent),
           if e == NoError then Some(r.body.content) else None)
  }

  predicate Renews(r: Result, op: string) {
    r.content.None? && r.client.error == NotLoggedIn && op != LOGIN && r.client.user.Some? && r.client.password.Some?
  }

  /** A request; an expired session is renewed once and the request replayed. */
  function Call(net: Net, c: Client, op: string, params: Params): Result
    decreases if op == LOGIN then 0 else 2
  {
    var r := CallOnce(net, c, op, params);
    if Renews(r, op) then
      var l := Login(net, r.client, r.client.user.value, r.client.password.value);
      if l.content.Some? then CallOnce(net, l.client, op, params) else l
    else r
  }

  /** Log in; the content is returned when a session id was obtained. */
  function Login(net: Net, c: Client, user: string, password: string): Result
    decreases 1
  {
    var r := Call(net, c, LOGIN, Credentials(user, password));
    if r.content.None? then r
    else
      match r.content.value.sessionId
      case None => Result(r.client.(error := Parse), None)
      case Some(sid) => Result(SetSession(r.client, Some(sid), r.content.value.level), r.content)
  }

  function SetSession(c: Client, sid: Option<string>, level: int): Client {
    c.(sid := sid, level := level, trace := c.trace + [SidSet(sid)])
  }

  /** The session id is dropped whether or not the server answers. */
  function Logout(net: Net, c: Client): Result {
    var r := Call(net, c, "logout", NoParams);
    Result(SetSession(r.client, None, r.client.level), r.content)
  }

  // ----- the shape of one call --------------------------------------------------------

  /** A request that was sent, or one that could not be serialized. */
  predicate AtMost(es: seq<Event>, e: Event) { es == [] || es == [e] }

  /** The events of a renewal: the login alone, or the login, the new id, and the replay carrying it. */
  predicate RenewalEvents(es: seq<Event>, user: string, password: string, op: string, params: Params) {
    var login := Sent(LOGIN, Credentials(user, password), None);
    || AtMost(es, login)
    || (|es| >= 2 && es[0] == login && es[1].SidSet? && es[1].sid.Some?
        && AtMost(es[2..], Sent(op, params, es[1].sid)))
  }

  /** All events of a call: the request with the current id, and at most one renewal. */
  predicate CallEvents(es: seq<Event>, c: Client, op: string, params: Params) {
    var first := Sent(op, params, if op == LOGIN then None else c.sid);
    || AtMost(es, first)
    || (op != LOGIN && c.user.Some? && c.password.Some? && es != [] && es[0] == first
        && RenewalEvents(es[1..], c.user.value, c.password.value, op, params))
  }

  function Requests(es: seq<Event>): nat {
    if es == [] then 0 else (if es[0].Sent? then 1 else 0) + Requests(es[1..])
  }

  /** A renewal and its replay. */
  lemma RenewalShape(net: Net, c: Client, op: string, params: Params) returns (es: seq<Event>)
    requires op != LOGIN && c.user.Some? && c.password.Some?
    ensures var l := Login(net, c, c.user.value, c.password.value);
            var r := if l.content.Some? then CallOnce(net, l.client, op, params) else l;
            r.client.trace == c.trace + es && r.client.attempts <= c.attempts + 2
    ensures RenewalEvents(es, c.user.value, c.password.value, op, params)
  {
    hide Judge, Login;
    var l := Login(net, c, c.user.value, c.password.value);
    var le := LoginShape(net, c, c.user.value, c.password.value);
    if l.content.Some? {
      var r := CallOnce(net, l.client, op, params);
      var replay := r.client.trace[|l.client.trace|..];
      assert r.client.trace == l.client.trace + replay;
      es := le + replay;
      assert es[2..] == replay;
      Assoc(c.trace, le, replay);
    } else {
      es := le;
    }
  }

  /** The first attempt is answered with NOT_LOGGED_IN and credentials are stored. */
  predicate Expired(net: Net, c: Client, op: string) {
    op != LOGIN && c.user.Some? && c.password.Some? && Judge(net(c.attempts)) == NotLoggedIn
  }

  /** The id a login's reply brings. */
  function NewSid(r: Reply): Option<string> {
    if Judge(r) == NoError then r.body.content.sessionId else None
  }

  function Sending(r: Reply, e: Event): seq<Event> { if r.NotSerialized? then [] else [e] }

  /** What the network's replies make a call send. */
  function CallTrace(net: Net, c: Client, op: string, params: Params): seq<Event> {
    var n := c.attempts;
    var first := Sent(op, params, if op == LOGIN then None else c.sid);
    if !Expired(net, c, op) then Sending(net(n), first)
    else
      var login := Sent(LOGIN, Credentials(c.user.value, c.password.value), None);
      var sid := NewSid(net(n + 1));
      [first] + if sid.None? then Sending(net(n + 1), login)
                else [login, SidSet(sid)] + Sending(net(n + 2), Sent(op, params, sid))
  }

  predicate SendsLogin(es: seq<Event>) { exists e <- es :: e.Sent? && e.op == LOGIN }

  lemma LoginExact(net: Net, c: Client, user: string, password: string)
    ensures var l, sid := Login(net, c, user, password), NewSid(net(c.attempts));
            var login := Sent(LOGIN, Credentials(user, password), None);
            && l.client.attempts == c.attempts + 1
            && (l.content.Some? <==> sid.Some?)
            && (sid.None? ==> l.client.trace == c.trace + Sending(net(c.attempts), login))
            && (sid.Some? ==> l.client.trace == c.trace + [login, SidSet(sid)] && l.client.sid == sid)
  {
    LoginIsOneAttempt(net, c, user, password);
    var r := CallOnce(net, c, LOGIN, Credentials(user, password));
    var sid := NewSid(net(c.attempts));
    assert sid.Some? ==>
      r.client.trace + [SidSet(sid)] == c.trace + [Sent(LOGIN, Credentials(user, password), None), SidSet(sid)];
  }

  /**
   * A renewal is attempted exactly when the first answer is NOT_LOGGED_IN and credentials are stored, a
   * replay exactly when the login's reply brings an id, and the replay carries that id.
   */
  lemma CallExact(net: Net, c: Client, op: string, params: Params)
    ensures var r := Call(net, c, op, params).client;
            && r.trace == c.trace + CallTrace(net, c, op, params)
            && r.attempts == c.attempts
               + if !Expired(net, c, op) then 1 else if NewSid(net(c.attempts + 1)).None? then 2 else 3
    ensures op != LOGIN ==>
      (SendsLogin(CallTrace(net, c, op, params)) <==>
        Expired(net, c, op) && !net(c.attempts + 1).NotSerialized?)
  {
    hide Judge, Login, NewSid;
    var r := CallOnce(net, c, op, params);
    assert Renews(r, op) <==> Expired(net, c, op) by { JudgeRecorded(net, c, op, params); }
    if Renews(r, op) {
      NotLoggedInWasSent(net, c, op, params);
      var first := Sent(op, params, if op == LOGIN then None else c.sid);
      LoginExact(net, r.client, c.user.value, c.password.value);
      var l := Login(net, r.client, c.user.value, c.password.value);
      var login := Sent(LOGIN, Credentials(c.user.value, c.password.value), None);
      var sid := NewSid(net(c.attempts + 1));
      if sid.None? {
        Assoc(c.trace, [first], Sending(net(c.attempts + 1), login));
        assert !net(c.attempts + 1).NotSerialized? ==> CallTrace(net, c, op, params)[1] == login;
      } else {
        SidWasSent(net(c.attempts + 1));
        var replay := Sending(net(c.attempts + 2), Sent(op, params, sid));
        Assoc(c.trace + [first], [login, SidSet(sid)], replay);
        Assoc(c.trace, [first], [login, SidSet(sid)] + replay);
        assert CallTrace(net, c, op, params)[1] == login;
      }
    }
  }

  /** The content a reply carries. */
  function ContentOf(r: Reply): Option<Content> {
    if r.Answer? && 200 <= r.httpCode <= 299 && r.body.Good? then Some(r.body.content) else None
  }

  /**
   * What a call returns and records is what the last reply says: the first one, or that of the replay; if the
   * login that should have renewed the session fails, nothing and the login's error.
   */
  lemma CallOutcome(net: Net, c: Client, op: string, params: Params)
    ensures var r, n := Call(net, c, op, params), c.attempts; var sid := NewSid(net(n + 1));
            if !Expired(net, c, op) then r.content == ContentOf(net(n)) && r.client.error == Judge(net(n))
            else if sid.Some? then
              && r.content == ContentOf(net(n + 2)) && r.client.error == Judge(net(n + 2))
              && r.client.sid == sid && r.client.level == net(n + 1).body.content.level
            else
              && r.content == None && r.client.sid == c.sid && r.client.level == c.level
              && r.client.error == if Judge(net(n + 1)) == NoError then Parse else Judge(net(n + 1))
  {
    hide Judge;
    var r := CallOnce(net, c, op, params);
    assert Renews(r, op) <==> Expired(net, c, op) by { JudgeRecorded(net, c, op, params); }
    ContentJudged(net(c.attempts));
    ContentJudged(net(c.attempts + 2));
    if Renews(r, op) {
      LoginIsOneAttempt(net, r.client, c.user.value, c.password.value);
    }
  }

  lemma ContentJudged(r: Reply)
    ensures ContentOf(r) == if Judge(r) == NoError then Some(r.body.content) else None
  {
  }

  /** The errors recorded: one for each way an attempt can go wrong. */
  lemma Verdicts(r: Reply)
    ensures r.NotSerialized? ==> Judge(r) == Parse
    ensures r.TooLarge? || (r.Answer? && !(200 <= r.httpCode <= 299)) ==> Judge(r) == Http
    ensures r.Answer? && 200 <= r.httpCode <= 299 && (r.body.NotJson? || r.body.NotObject?) ==> Judge(r) == Parse
    ensures r.TransportError? ==> Judge(r) == Network
    ensures r.Answer? && 200 <= r.httpCode <= 299 && r.body.ServerError? ==> Judge(r) == ErrorFromCode(r.body.code)
  {
  }

  /** The code by which the server reports an error. */
  function CodeOf(e: ApiError): Option<string> {
    match e
    case NotLoggedIn => Some("NOT_LOGGED_IN")
    case LoginFailed => Some("LOGIN_ERROR")
    case ApiDisabled => Some("API_DISABLED")
    case UnknownMethod => Some("UNKNOWN_METHOD")
    case IncorrectUsage => Some("INCORRECT_USAGE")
    case OperationFailed => Some("E_OPERATION_FAILED")
    case NotFound => Some("E_NOT_FOUND")
    case _ => None
  }

  /** Each of the server's codes and only that code gives its error; every other answer is a status error. */
  lemma ErrorCodes(code: Option<string>, e: ApiError)
    ensures CodeOf(e).Some? ==> (ErrorFromCode(code) == e <==> code == CodeOf(e))
    ensures CodeOf(ErrorFromCode(code)).None? ==> ErrorFromCode(code) == Status
  {
  }

  /** A logout is one call, and drops the id whatever comes back. */
  lemma LogoutExact(net: Net, c: Client)
    ensures var l, r := Logout(net, c), Call(net, c, "logout", NoParams);
            && l.client.trace == c.trace + (CallTrace(net, c, "logout", NoParams) + [SidSet(None)])
            && l.client.sid == None && l.content == r.content && l.client.error == r.client.error
  {
    hide Call, CallTrace;
    CallExact(net, c, "logout", NoParams);
    Assoc(c.trace, CallTrace(net, c, "logout", NoParams), [SidSet(None)]);
  }

  /** The credentials last remembered are those an expired session is renewed with. */
  lemma RenewsWithRemembered(net: Net, c: Client, name: string, secret: string, op: string, params: Params)
    requires op != LOGIN && Judge(net(c.attempts)) == NotLoggedIn && !net(c.attempts + 1).NotSerialized?
    ensures var d := Apply(net, c, Remember(Some(name), Some(secret)));
            && |CallTrace(net, d, op, params)| >= 2
            && CallTrace(net, d, op, params)[1] == Sent(LOGIN, Credentials(name, secret), None)
  {
    hide Judge;
  }

  lemma JudgeRecorded(net: Net, c: Client, op: string, params: Params)
    ensures var r := CallOnce(net, c, op, params);
            r.client.error == Judge(net(c.attempts)) && (r.content.Some? <==> r.client.error == NoError)
  {
  }

  lemma SidWasSent(r: Reply)
    requires NewSid(r).Some?
    ensures !r.NotSerialized?
  {
  }

  /** One call sends the request, and beyond that only a login and, if it brought a new id, one replay with that id. */
  lemma CallShape(net: Net, c: Client, op: string, params: Params) returns (es: seq<Event>)
    ensures Call(net, c, op, params).client.trace == c.trace + es
    ensures CallEvents(es, c, op, params) && Requests(es) <= 3
    ensures Call(net, c, op, params).client.attempts <= c.attempts + 3
  {
    hide Judge, Login, Requests, RenewalEvents;
    var r := CallOnce(net, c, op, params);
    if Renews(r, op) {
      var first := Sent(op, params, if op == LOGIN then None else c.sid);
      NotLoggedInWasSent(net, c, op, params);
      var rest := RenewalShape(net, r.client, op, params);
      es := [first] + rest;
      assert es[1..] == rest;
      Assoc(c.trace, [first], rest);
      RenewalRequests(rest, c.user.value, c.password.value, op, params);
      FirstRequest(first, rest);
    } else {
      es := r.client.trace[|c.trace|..];
      assert r.client.trace == c.trace + es;
      FewRequests(es);
    }
  }

  lemma FirstRequest(e: Event, rest: seq<Event>)
    ensures Requests([e] + rest) <= 1 + Requests(rest)
  {
    assert ([e] + rest)[1..] == rest;
  }

  lemma FewRequests(es: seq<Event>)
    ensures |es| <= 2 ==> Requests(es) <= |es|
  {
    if |es| == 2 {
      assert es[1..][1..] == [];
    }
  }

  /** A renewal sends at most two requests. */
  lemma RenewalRequests(es: seq<Event>, user: string, password: string, op: string, params: Params)
    requires RenewalEvents(es, user, password, op, params)
    ensures Requests(es) <= 2
  {
    if |es| >= 2 {
      assert es[1..][1..] == es[2..];
      FewRequests(es[2..]);
    } else {
      FewRequests(es);
    }
  }

  lemma NotLoggedInWasSent(net: Net, c: Client, op: string, params: Params)
    requires CallOnce(net, c, op, params).client.error == NotLoggedIn
    ensures CallOnce(net, c, op, params).client.trace
         == c.trace + [Sent(op, params, if op == LOGIN then None else c.sid)]
  {
  }

  /** A login never renews: it is one attempt, plus the new id if there is one. */
  lemma LoginShape(net: Net, c: Client, user: string, password: string) returns (es: seq<Event>)
    ensures var l := Login(net, c, user, password);
            && l.client.trace == c.trace + es
            && l.client.attempts == c.attempts + 1
            && (l.content.Some? ==>
                |es| == 2 && es[0] == Sent(LOGIN, Credentials(user, password), None)
                && es[1] == SidSet(l.client.sid) && l.client.sid.Some?)
            && (l.content.None? ==> AtMost(es, Sent(LOGIN, Credentials(user, password), None)) && l.client.sid == c.sid)
            && l.client.user == c.user && l.client.password == c.password
  {
    var r := CallOnce(net, c, LOGIN, Credentials(user, password));
    assert Call(net, c, LOGIN, Credentials(user, password)) == r;
    var l := Login(net, c, user, password);
    es := l.client.trace[|c.trace|..];
    if l.content.Some? {
      assert r.client.trace == c.trace + [Sent(LOGIN, Credentials(user, password), None)];
    }
    assert l.client.trace == c.trace + es;
  }

  // ----- content and error agree ---------------------------------------------------------

  /** A call returns content exactly when the recorded error is none. */
  lemma ContentMeansOk(net: Net, c: Client, op: string, params: Params)
    ensures var r := Call(net, c, op, params); r.content.Some? <==> r.client.error == NoError
  {
    var r := CallOnce(net, c, op, params);
    if Renews(r, op) {
      LoginMeansOk(net, r.client, r.client.user.value, r.client.password.value);
    }
  }

  lemma LoginMeansOk(net: Net, c: Client, user: string, password: string)
    ensures var l := Login(net, c, user, password); l.content.Some? <==> l.client.error == NoError
  {
    assert Call(net, c, LOGIN, Credentials(user, password)) == CallOnce(net, c, LOGIN, Credentials(user, password));
  }

  // ----- every request carries the most recent id ------------------------------------------

  /** The id most recently set or obtained; none after a logout. */
  function CurrentSid(trace: seq<Event>): Option<string> {
    if trace == [] then None
    else
      var e := trace[|trace| - 1];
      if e.SidSet? then e.sid else CurrentSid(trace[..|trace| - 1])
  }

  /** Logins carry no id; every other request carries the id current when it was sent. */
  predicate Disciplined(trace: seq<Event>) {
    forall k | 0 <= k < |trace| && trace[k].Sent? ::
      trace[k].sid == if trace[k].op == LOGIN then None else CurrentSid(trace[..k])
  }

  predicate Consistent(c: Client) { c.sid == CurrentSid(c.trace) && Disciplined(c.trace) }

  lemma TraceSnoc(trace: seq<Event>, e: Event)
    requires Disciplined(trace)
    requires e.Sent? ==> e.sid == if e.op == LOGIN then None else CurrentSid(trace)
    ensures Disciplined(trace + [e])
    ensures CurrentSid(trace + [e]) == if e.SidSet? then e.sid else CurrentSid(trace)
  {
    var t := trace + [e];
    assert t[..|trace|] == trace;
    forall k | 0 <= k < |t| && t[k].Sent?
      ensures t[k].sid == if t[k].op == LOGIN then None else CurrentSid(t[..k])
    {
      if k < |trace| {
        assert t[..k] == trace[..k];
      }
    }
  }

  lemma CallOnceConsistent(net: Net, c: Client, op: string, params: Params)
    requires Consistent(c)
    ensures Consistent(CallOnce(net, c, op, params).client)
  {
    hide Judge, Disciplined;
    TraceSnoc(c.trace, Sent(op, params, if op == LOGIN then None else c.sid));
    assert c.trace + [] == c.trace;
  }

  lemma SetSessionConsistent(c: Client, sid: Option<string>, level: int)
    requires Consistent(c)
    ensures Consistent(SetSession(c, sid, level))
  {
    hide Disciplined;
    TraceSnoc(c.trace, SidSet(sid));
  }

  lemma LoginConsistent(net: Net, c: Client, user: string, password: string)
    requires Consistent(c)
    ensures Consistent(Login(net, c, user, password).client)
  {
    hide Consistent, CallOnce, SetSession;
    var r := CallOnce(net, c, LOGIN, Credentials(user, password));
    LoginIsOneAttempt(net, c, user, password);
    CallOnceConsistent(net, c, LOGIN, Credentials(user, password));
    ErrorConsistent(r.client);
    if r.content.Some? && r.content.value.sessionId.Some? {
      SetSessionConsistent(r.client, r.content.value.sessionId, r.content.value.level);
    }
  }

  lemma LoginIsOneAttempt(net: Net, c: Client, user: string, password: string)
    ensures Call(net, c, LOGIN, Credentials(user, password)) == CallOnce(net, c, LOGIN, Credentials(user, password))
  {
  }

  lemma ErrorConsistent(c: Client)
    requires Consistent(c)
    ensures Consistent(c.(error := Parse))
  {
  }

  lemma CallConsistent(net: Net, c: Client, op: string, params: Params)
    requires Consistent(c)
    ensures Consistent(Call(net, c, op, params).client)
  {
    hide Consistent, CallOnce, Login;
    var r := CallOnce(net, c, op, params);
    CallOnceConsistent(net, c, op, params);
    if Renews(r, op) {
      LoginConsistent(net, r.client, r.client.user.value, r.client.password.value);
      var l := Login(net, r.client, r.client.user.value, r.client.password.value);
      CallOnceConsistent(net, l.client, op, params);
    }
  }

  datatype Step =
    | Invoke(op: string, params: Params) | DoLogin(user: string, password: string) | DoLogout
    | Restore(sid: Option<string>, level: int) | Remember(name: Option<string>, secret: Option<string>)

  function Apply(net: Net, c: Client, s: Step): Client {
    match s
    case Invoke(op, params) => Call(net, c, op, params).client
    case DoLogin(user, password) => Login(net, c, user, password).client
    case DoLogout => Logout(net, c).client
    case Restore(sid, level) => SetSession(c, sid, level)
    case Remember(name, secret) => c.(user := name, password := secret)
  }

  function Run(net: Net, c: Client, steps: seq<Step>): Client
    decreases |steps|
  {
    if steps == [] then c else Run(net, Apply(net, c, steps[0]), steps[1..])
  }

  lemma ApplyConsistent(net: Net, c: Client, s: Step)
    requires Consistent(c)
    ensures Consistent(Apply(net, c, s))
    ensures s.DoLogout? ==> Apply(net, c, s).sid == None
  {
    hide Disciplined, Call, Login;
    match s
    case Invoke(op, params) => CallConsistent(net, c, op, params);
    case DoLogin(user, password) => LoginConsistent(net, c, user, password);
    case DoLogout =>
      CallConsistent(net, c, "logout", NoParams);
      var r := Call(net, c, "logout", NoParams);
      SetSessionConsistent(r.client, None, r.client.level);
    case Restore(sid, level) => SetSessionConsistent(c, sid, level);
    case Remember(_, _) =>
  }

  const FRESH := Client(None, None, None, 0, NoError, 0, [])

  /** Over every run from a new client, whatever the network does, each request carries the current session id. */
  lemma {:induction false} RunDisciplined(net: Net, c: Client, steps: seq<Step>)
    requires Consistent(c)
    ensures Consistent(Run(net, c, steps))
    decreases |steps|
  {
    hide Consistent, Apply;
    if steps != [] {
      ApplyConsistent(net, c, steps[0]);
      RunDisciplined(net, Apply(net, c, steps[0]), steps[1..]);
    }
  }
}
