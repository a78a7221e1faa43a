/**
 * The `authenticate` routine that both entry points define (identically):
 * up to `max_attempt` attempts, each a token request followed, only when a
 * token came back, by a login request; a fixed sleep between attempts but
 * not after the last; the first login answered with HTTP 200 ends it.
 *
 * The firewall is given as two oracles indexed by attempt number (1, 2, ...):
 * what the token request of attempt a gets back and what the login request
 * of attempt a would get back. The sleep is a counter.
 */
module Auth {
  import opened Common
  import opened Strings

  /** The raw `loginattempt` parameter: absent (or JSON null), a string or an integer. */
  datatype Param = Missing | Str(s: string) | Int(n: int)

  /** The body of a token response, when it is JSON: an object with string fields, or any other JSON value. */
  datatype TokenJson = Object(fields: map<string, string>) | OtherJson

  /** What a successful authentication returns: the token and the login response's JSON (None when not JSON). */
  datatype Session = Session(token: string, loginJson: Option<Body>)

  /**
   * `int(p) if p and str(p).isdigit() else 5`: a truthy parameter whose text
   * is all digits is the count; everything else falls back to 5.
   */
  function ParseMaxAttempt(p: Param): (n: nat)
    ensures p.Missing? ==> n == 5
    ensures p.Str? && p.s != "" && AllDigits(p.s) ==> n == Value(p.s)
    ensures p.Str? && !(p.s != "" && AllDigits(p.s)) ==> n == 5
    ensures p.Int? ==> n == if p.n > 0 then p.n else 5
  {
    match p
    case Missing => 5
    case Str(s) => if s != "" && AllDigits(s) then Value(s) else 5
    // an integer is truthy unless 0, and its text is all digits unless it is negative
    case Int(n) => if n != 0 && n >= 0 then n else 5
  }

  /** The only parameters that give no attempts at all are the strings made of zeros, such as "0". */
  lemma ZeroAttemptsIff(p: Param)
    ensures ParseMaxAttempt(p) == 0 <==> p.Str? && p.s != "" && forall i :: 0 <= i < |p.s| ==> p.s[i] == '0'
  {
    if p.Str? && p.s != "" {
      if AllDigits(p.s) {
        ValueZeroIff(p.s);
      } else {
        assert !(forall i :: 0 <= i < |p.s| ==> p.s[i] == '0');
      }
    }
  }

  /**
   * The token one token reply yields, "" when there is none: only a 200
   * response whose JSON is an object with a `token` field gives one (a
   * non-object body, a non-JSON body or an exception give none).
   */
  function TokenOf(reply: Reply<TokenJson>): (t: string)
    ensures t != "" <==>
      && Accepted(reply) && reply.json.Some? && reply.json.value.Object?
      && "token" in reply.json.value.fields && reply.json.value.fields["token"] != ""
    ensures t != "" ==> t == reply.json.value.fields["token"]
  {
    match reply
    case Response(status, _, Some(Object(fields))) =>
      if status == 200 && "token" in fields then fields["token"] else ""
    case _ => ""
  }

  /** Attempt a obtained a (truthy) token. */
  predicate GotToken(tokenReply: nat -> Reply<TokenJson>, a: nat) {
    TokenOf(tokenReply(a)) != ""
  }

  /** Attempt a logged in: it obtained a token and its login request got HTTP 200. */
  predicate LoggedInAt(tokenReply: nat -> Reply<TokenJson>, loginReply: nat -> Reply<Body>, a: nat) {
    GotToken(tokenReply, a) && loginReply(a).Response? && loginReply(a).status == 200
  }

  /** The attempt a login response was received in, so that `login_json` was assigned. */
  predicate LoginAnswered(tokenReply: nat -> Reply<TokenJson>, loginReply: nat -> Reply<Body>, a: nat) {
    GotToken(tokenReply, a) && loginReply(a).Response?
  }

  /** The first attempt in [a, max] that logs in, if any. */
  function FirstLogin(tokenReply: nat -> Reply<TokenJson>, loginReply: nat -> Reply<Body>, a: nat, max: nat): (k: Option<nat>)
    ensures k.Some? ==> a <= k.value <= max && LoggedInAt(tokenReply, loginReply, k.value)
    ensures k.Some? ==> forall j :: a <= j < k.value ==> !LoggedInAt(tokenReply, loginReply, j)
    ensures k.None? ==> forall j :: a <= j <= max ==> !LoggedInAt(tokenReply, loginReply, j)
    decreases max + 1 - a
  {
    if a > max then None
    else if LoggedInAt(tokenReply, loginReply, a) then Some(a)
    else FirstLogin(tokenReply, loginReply, a + 1, max)
  }

  /** The requests attempt a makes: a token request, then a login request only if it got a token. */
  function AttemptCalls(tokenReply: nat -> Reply<TokenJson>, a: nat): seq<Call> {
    [TokenRequest(a)] + if GotToken(tokenReply, a) then [LoginRequest(a, TokenOf(tokenReply(a)))] else []
  }

  /** The requests of attempts 1..n, in order. */
  function CallsThrough(tokenReply: nat -> Reply<TokenJson>, n: nat): seq<Call> {
    if n == 0 then [] else CallsThrough(tokenReply, n - 1) + AttemptCalls(tokenReply, n)
  }

  /** A Python local that may not have been assigned yet. */
  datatype Local<+T> = Unbound | Bound(value: T)

  /** The value of `login_json` after attempts 1..n: the JSON of the latest login response received. */
  function LoginJsonAfter(tokenReply: nat -> Reply<TokenJson>, loginReply: nat -> Reply<Body>, n: nat): Local<Option<Body>> {
    if n == 0 then Unbound
    else if LoginAnswered(tokenReply, loginReply, n) then Bound(loginReply(n).json)
    else LoginJsonAfter(tokenReply, loginReply, n - 1)
  }

  /** The error line 103 raises once every attempt failed. */
  function ExhaustedError(tokenReply: nat -> Reply<TokenJson>, loginReply: nat -> Reply<Body>, max: nat): Error {
    match LoginJsonAfter(tokenReply, loginReply, max)
    case Unbound => LoginJsonUnbound
    case Bound(json) => LoginFailed(max, json)
  }

  /** What one run of the retry loop does: its outcome, its requests and the number of sleeps. */
  datatype AuthRun = AuthRun(result: Result<Session>, calls: seq<Call>, sleeps: nat)

  /** The retry loop's behaviour for a given budget and firewall. */
  function AuthSpec(max: nat, tokenReply: nat -> Reply<TokenJson>, loginReply: nat -> Reply<Body>): AuthRun {
    match FirstLogin(tokenReply, loginReply, 1, max)
    case Some(k) =>
      AuthRun(Ok(Session(TokenOf(tokenReply(k)), loginReply(k).json)), CallsThrough(tokenReply, k), k - 1)
    case None =>
      AuthRun(Err(ExhaustedError(tokenReply, loginReply, max)), CallsThrough(tokenReply, max), if max == 0 then 0 else max - 1)
  }

  /** The retry loop itself. */
  method Authenticate(maxAttempt: nat, tokenReply: nat -> Reply<TokenJson>, loginReply: nat -> Reply<Body>)
    returns (r: Result<Session>, calls: seq<Call>, sleeps: nat)
    ensures AuthRun(r, calls, sleeps) == AuthSpec(maxAttempt, tokenReply, loginReply)
  {
    calls, sleeps := [], 0;
    var loginJson: Local<Option<Body>> := Unbound;
    for attempt := 1 to maxAttempt + 1
      invariant calls == CallsThrough(tokenReply, attempt - 1)
      invariant loginJson == LoginJsonAfter(tokenReply, loginReply, attempt - 1)
      invariant forall j :: 1 <= j < attempt ==> !LoggedInAt(tokenReply, loginReply, j)
      invariant attempt <= maxAttempt ==> sleeps == attempt - 1
      invariant attempt == maxAttempt + 1 ==> sleeps == if maxAttempt == 0 then 0 else maxAttempt - 1
    {
      var token := TokenOf(tokenReply(attempt));
      calls := calls + [TokenRequest(attempt)];
      if token != "" {
        calls := calls + [LoginRequest(attempt, token)];
        match loginReply(attempt)
        case Response(status, _, json) =>
          loginJson := Bound(json);
          if status == 200 {
            FirstLoginSkips(tokenReply, loginReply, 1, attempt, maxAttempt);
            assert FirstLogin(tokenReply, loginReply, 1, maxAttempt) == Some(attempt);
            assert calls == CallsThrough(tokenReply, attempt);
            r := Ok(Session(token, json));
            return;
          }
        case TransportError(_) =>
      }
      if attempt < maxAttempt {
        sleeps := sleeps + 1;
      }
    }
    FirstLoginSkips(tokenReply, loginReply, 1, maxAttempt + 1, maxAttempt);
    r := Err(match loginJson case Unbound => LoginJsonUnbound case Bound(json) => LoginFailed(maxAttempt, json));
  }

  /** Attempts that do not log in can be skipped when looking for the first that does. */
  lemma {:induction false} FirstLoginSkips(tokenReply: nat -> Reply<TokenJson>, loginReply: nat -> Reply<Body>, a: nat, b: nat, max: nat)
    requires a <= b
    requires forall j :: a <= j < b ==> !LoggedInAt(tokenReply, loginReply, j)
    ensures FirstLogin(tokenReply, loginReply, a, max) == FirstLogin(tokenReply, loginReply, b, max)
    decreases b - a
  {
    if a < b {
      FirstLoginSkips(tokenReply, loginReply, a + 1, b, max);
    }
  }

  /** The number of token requests in a list of requests. */
  function TokenRequests(calls: seq<Call>): nat {
    if calls == [] then 0
    else TokenRequests(calls[..|calls| - 1]) + if calls[|calls| - 1].TokenRequest? then 1 else 0
  }

  /** The request at position i is a login directly after the token request of its attempt, with the token it obtained. */
  predicate LoginFollowsToken(tokenReply: nat -> Reply<TokenJson>, calls: seq<Call>, i: int)
    requires 0 <= i < |calls| && calls[i].LoginRequest?
  {
    0 < i && calls[i - 1] == TokenRequest(calls[i].attempt) &&
    GotToken(tokenReply, calls[i].attempt) && calls[i].token == TokenOf(tokenReply(calls[i].attempt))
  }

  /** Every login request in `calls` follows the token request of its attempt and carries its token. */
  predicate LoginsFollowTokens(tokenReply: nat -> Reply<TokenJson>, calls: seq<Call>) {
    forall i :: 0 <= i < |calls| && calls[i].LoginRequest? ==> LoginFollowsToken(tokenReply, calls, i)
  }

  /** The requests of attempts 1..n hold exactly n token requests. */
  lemma {:induction false} CallsThroughCount(tokenReply: nat -> Reply<TokenJson>, n: nat)
    ensures TokenRequests(CallsThrough(tokenReply, n)) == n
  {
    if n > 0 {
      CallsThroughCount(tokenReply, n - 1);
      AttemptHasOneTokenRequest(CallsThrough(tokenReply, n - 1), tokenReply, n);
    }
  }

  /** The requests of one attempt add exactly one token request. */
  lemma AttemptHasOneTokenRequest(prev: seq<Call>, tokenReply: nat -> Reply<TokenJson>, a: nat)
    ensures TokenRequests(prev + AttemptCalls(tokenReply, a)) == TokenRequests(prev) + 1
  {
    TokenRequestsSnoc(prev, TokenRequest(a));
    if GotToken(tokenReply, a) {
      var login := LoginRequest(a, TokenOf(tokenReply(a)));
      assert prev + AttemptCalls(tokenReply, a) == (prev + [TokenRequest(a)]) + [login];
      TokenRequestsSnoc(prev + [TokenRequest(a)], login);
    } else {
      assert prev + AttemptCalls(tokenReply, a) == prev + [TokenRequest(a)];
    }
  }

  /** Appending one request adds one token request exactly when it is one. */
  lemma TokenRequestsSnoc(calls: seq<Call>, c: Call)
    ensures TokenRequests(calls + [c]) == TokenRequests(calls) + if c.TokenRequest? then 1 else 0
  {
    assert (calls + [c])[..|calls|] == calls;
  }

  /** In the requests of attempts 1..n, every login request uses the token its own attempt just obtained. */
  lemma {:induction false} CallsThroughLogins(tokenReply: nat -> Reply<TokenJson>, n: nat)
    ensures LoginsFollowTokens(tokenReply, CallsThrough(tokenReply, n))
  {
    if n > 0 {
      CallsThroughLogins(tokenReply, n - 1);
      var prev := CallsThrough(tokenReply, n - 1);
      var cs := CallsThrough(tokenReply, n);
      forall i | 0 <= i < |cs| && cs[i].LoginRequest?
        ensures LoginFollowsToken(tokenReply, cs, i)
      {
        if i < |prev| {
          assert cs[i] == prev[i];
          assert LoginFollowsToken(tokenReply, prev, i);
          assert cs[i - 1] == prev[i - 1];
        } else {
          assert i == |prev| + 1;
        }
      }
    }
  }

  /** The retry loop sends nothing but token and login requests. */
  lemma {:induction false} CallsThroughAreAuthRequests(tokenReply: nat -> Reply<TokenJson>, n: nat)
    ensures forall c :: c in CallsThrough(tokenReply, n) ==> c.TokenRequest? || c.LoginRequest?
  {
    if n > 0 {
      CallsThroughAreAuthRequests(tokenReply, n - 1);
    }
  }

  /** Authentication sends nothing but token and login requests, whatever its outcome. */
  lemma AuthRequestsOnly(max: nat, tokenReply: nat -> Reply<TokenJson>, loginReply: nat -> Reply<Body>)
    ensures forall c :: c in AuthSpec(max, tokenReply, loginReply).calls ==> c.TokenRequest? || c.LoginRequest?
  {
    match FirstLogin(tokenReply, loginReply, 1, max)
    case Some(k) => CallsThroughAreAuthRequests(tokenReply, k);
    case None => CallsThroughAreAuthRequests(tokenReply, max);
  }

  /** Authentication succeeds exactly when some attempt within the budget logs in. */
  lemma AuthSucceedsIff(max: nat, tokenReply: nat -> Reply<TokenJson>, loginReply: nat -> Reply<Body>)
    ensures AuthSpec(max, tokenReply, loginReply).result.Ok? <==>
      exists k :: 1 <= k <= max && LoggedInAt(tokenReply, loginReply, k)
  {
  }

  /** The session of a login that succeeds within the budget. */
  function SessionAfter(max: nat, tokenReply: nat -> Reply<TokenJson>, loginReply: nat -> Reply<Body>): (s: Session)
    requires exists k :: 1 <= k <= max && LoggedInAt(tokenReply, loginReply, k)
    ensures AuthSpec(max, tokenReply, loginReply).result == Ok(s)
    ensures s.token != ""
  {
    AuthSucceedsIff(max, tokenReply, loginReply);
    AuthSpec(max, tokenReply, loginReply).result.value
  }

  /**
   * On success at attempt k the loop stops there: the token is the one
   * attempt k obtained, k token requests and k - 1 sleeps were made, and no
   * earlier attempt logged in.
   */
  lemma AuthStopsAtFirstLogin(max: nat, tokenReply: nat -> Reply<TokenJson>, loginReply: nat -> Reply<Body>, k: nat)
    requires 1 <= k <= max && LoggedInAt(tokenReply, loginReply, k)
    requires forall j :: 1 <= j < k ==> !LoggedInAt(tokenReply, loginReply, j)
    ensures var run := AuthSpec(max, tokenReply, loginReply);
      && run.result == Ok(Session(TokenOf(tokenReply(k)), loginReply(k).json))
      && TokenRequests(run.calls) == k
      && run.sleeps == k - 1
  {
    CallsThroughCount(tokenReply, k);
  }

  /**
   * Every run makes at most `max` token requests, makes login requests only
   * with the token just obtained, and sleeps once between consecutive
   * attempts and never after the last one.
   */
  lemma AuthBounds(max: nat, tokenReply: nat -> Reply<TokenJson>, loginReply: nat -> Reply<Body>)
    ensures var run := AuthSpec(max, tokenReply, loginReply);
      && TokenRequests(run.calls) <= max
      && run.sleeps == (if TokenRequests(run.calls) == 0 then 0 else TokenRequests(run.calls) - 1)
      && LoginsFollowTokens(tokenReply, run.calls)
  {
    match FirstLogin(tokenReply, loginReply, 1, max)
    case Some(k) =>
      CallsThroughCount(tokenReply, k);
      CallsThroughLogins(tokenReply, k);
    case None =>
      CallsThroughCount(tokenReply, max);
      CallsThroughLogins(tokenReply, max);
  }

  /** `login_json` is bound after n attempts exactly when one of them received a login response. */
  lemma {:induction false} LoginJsonBoundIff(tokenReply: nat -> Reply<TokenJson>, loginReply: nat -> Reply<Body>, n: nat)
    ensures LoginJsonAfter(tokenReply, loginReply, n).Bound? <==>
      exists k :: 1 <= k <= n && LoginAnswered(tokenReply, loginReply, k)
  {
    if n > 0 && !LoginAnswered(tokenReply, loginReply, n) {
      LoginJsonBoundIff(tokenReply, loginReply, n - 1);
    }
  }

  /**
   * When every attempt fails, `max - 1` sleeps happen (none for a zero
   * budget), and the error names the attempt count exactly when at least one
   * login response was received; otherwise the error is the unbound local.
   */
  lemma AuthExhausted(max: nat, tokenReply: nat -> Reply<TokenJson>, loginReply: nat -> Reply<Body>)
    requires forall j :: 1 <= j <= max ==> !LoggedInAt(tokenReply, loginReply, j)
    ensures var run := AuthSpec(max, tokenReply, loginReply);
      && run.result.Err?
      && TokenRequests(run.calls) == max
      && run.sleeps == (if max == 0 then 0 else max - 1)
      && (run.result.error.LoginFailed? <==> exists k :: 1 <= k <= max && LoginAnswered(tokenReply, loginReply, k))
      && (run.result.error.LoginFailed? ==> run.result.error.attempts == max)
      && (!run.result.error.LoginFailed? ==> run.result.error == LoginJsonUnbound)
  {
    CallsThroughCount(tokenReply, max);
    LoginJsonBoundIff(tokenReply, loginReply, max);
  }
}
