/** api.c: the client object, with the network as an oracle that answers attempt after attempt. */
module SessionCode {
  import opened Session

  class ApiClient {
    var sid: Option<string>
    var user: Option<string>
    var password: Option<string>
    var level: int
    var error: ApiError

    const net: Net
    var attempts: nat
    ghost var trace: seq<Event>

    ghost function Now(): Client
      reads this
    {
      Client(sid, user, password, level, error, attempts, trace)
    }

    constructor (n: Net)
      ensures Now() == FRESH && net == n
    {
      sid, user, password, level, error := None, None, None, 0, NoError;
      net, attempts, trace := n, 0, [];
    }

    method Restore(id: Option<string>, apiLevel: int)
      modifies this`sid, this`level, this`trace
      ensures Now() == SetSession(old(Now()), id, apiLevel)
    {
      sid, level := id, apiLevel;
      trace := trace + [SidSet(id)];
    }

    method Remember(name: Option<string>, secret: Option<string>)
      modifies this`user, this`password
      ensures Now() == Apply(net, old(Now()), Step.Remember(name, secret))
    {
      user, password := name, secret;
    }

    /** One attempt, no retry. */
    method Once(op: string, params: Params) returns (content: Option<Content>)
      modifies this`error, this`attempts, this`trace
      ensures Result(Now(), content) == CallOnce(net, old(Now()), op, params)
    {
      error := NoError;
      content := None;
      var r := net(attempts);
      attempts := attempts + 1;
      if r.NotSerialized? {
        assert trace + [] == trace;
        error := Parse;
        return;
      }
      trace := trace + [Sent(op, params, if op == LOGIN then None else sid)];
      if r.TooLarge? {
        error := Http;
        return;
      }
      if r.TransportError? {
        error := Network;
        return;
      }
      if 300 <= r.httpCode < 400 {
        error := Http;
        return;
      }
      if r.httpCode < 200 || r.httpCode >= 300 {
        error := Http;
        return;
      }
      match r.body
      case NotJson => error := Parse;
      case NotObject => error := Parse;
      case ServerError(code) => error := ErrorFromCode(code);
      case Good(c) => content := Some(c);
    }

    /** One call: the request, and for an expired session a login and a replay. */
    method Invoke(op: string, params: Params) returns (content: Option<Content>)
      modifies this
      ensures Result(Now(), content) == Call(net, old(Now()), op, params)
      decreases if op == LOGIN then 0 else 2
    {
      hide CallOnce;
      content := Once(op, params);
      if content.None? && error == NotLoggedIn && op != LOGIN && user.Some? && password.Some? {
        var ok := DoLogin(user.value, password.value);
        if ok {
          content := Once(op, params);
        }
      }
    }

    method DoLogin(name: string, secret: string) returns (ok: bool)
      modifies this
      ensures var l := Login(net, old(Now()), name, secret); Now() == l.client && ok == l.content.Some?
      decreases 1
    {
      hide CallOnce, Call;
      var content := Invoke(LOGIN, Credentials(name, secret));
      if content.None? {
        return false;
      }
      match content.value.sessionId
      case None =>
        error := Parse;
        return false;
      case Some(id) =>
        Restore(Some(id), content.value.level);
        return true;
    }

    method DoLogout() returns (ok: bool)
      modifies this
      ensures var l := Logout(net, old(Now())); Now() == l.client && ok == l.content.Some?
    {
      hide Call;
      var content := Invoke("logout", NoParams);
      Restore(None, level);
      return content.Some?;
    }
  }
}
