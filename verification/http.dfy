/**
 `HttpClient` (src/utils/http.py): a client that must be entered before use
 and whose `get` retries a request up to `max_retries` times.

 The network is a parameter: `net(k)` is the outcome of the request issued
 on attempt `k`. Sleeps are recorded as a sequence of `Wait`s instead of
 being performed; the random jitter before every attempt but the first is a
 `Jitter` wait whose length is not modelled. Delays are whole units.
 */
module Http {
  import opened Wrappers

  /** What one request ends in. `Response` carries the final status code and
      the decoded body; the three errors are httpx's `ConnectError`,
      `TimeoutException` and any other exception. */
  datatype Outcome = Response(status: int, body: string) | ConnectError | Timeout | OtherError

  /** One `asyncio.sleep`. */
  datatype Wait =
    | Jitter                         // request_delay * (1 + uniform(0, 0.5)) before a retry
    | LeadingJitter                  // request_delay * (1 + uniform(0, 0.3)) in get_with_delay
    | RateLimitWait(seconds: nat)    // after a 429
    | ServerErrorWait(units: nat)    // after a 5xx
    | ConnectWait(units: nat)        // after a connect or timeout error

  datatype Config = Config(maxRetries: int, requestDelay: nat)

  /** The client and whether its `httpx.AsyncClient` exists (between
      `__aenter__` and `__aexit__`). */
  datatype Client = Client(config: Config, open: bool)

  datatype ClientError = NotEntered

  /** What a `get` call did: the returned body (`None` for Python's `None`),
      how many requests it issued and the sleeps in order. */
  datatype Fetch = Fetch(body: Option<string>, requests: nat, waits: seq<Wait>)

  function NewClient(config: Config): (c: Client)
    ensures c.config == config && !c.open
  {
    Client(config, false)
  }

  /** `__aenter__`. */
  function Enter(c: Client): (r: Client)
    ensures r.open && r.config == c.config
  {
    c.(open := true)
  }

  /** `__aexit__`: closes the client if it is open and clears it; closing a
      closed client does nothing. */
  function Exit(c: Client): (r: Client)
    ensures !r.open && r.config == c.config
    ensures !c.open ==> r == c
  {
    c.(open := false)
  }

  /** `raise_for_status` raises for every status outside 2xx. */
  predicate IsSuccess(status: int) {
    200 <= status < 300
  }

  /** Outcomes after which the loop goes on to the next attempt. */
  predicate Retryable(o: Outcome) {
    match o
    case Response(status, _) => !IsSuccess(status) && (status == 429 || status >= 500)
    case ConnectError => true
    case Timeout => true
    case OtherError => false
  }

  /** The sleeps that follow a retryable outcome on `attempt`: a 429 waits
      longer on every attempt, a 5xx waits the fixed delay, both even after
      the last attempt; a connect or timeout error waits a growing delay, but
      only when another attempt follows. */
  function WaitAfter(cfg: Config, attempt: nat, o: Outcome): (r: seq<Wait>)
    requires Retryable(o)
    ensures |r| <= 1
    ensures o.Response? && o.status == 429 ==> r == [RateLimitWait((attempt + 1) * 5)]
    ensures o.Response? && o.status >= 500 ==> r == [ServerErrorWait(cfg.requestDelay)]
    ensures !o.Response? ==>
      r == if attempt < cfg.maxRetries - 1 then [ConnectWait(cfg.requestDelay * (attempt + 1))] else []
  {
    match o
    case Response(status, _) =>
      if status == 429 then [RateLimitWait((attempt + 1) * 5)] else [ServerErrorWait(cfg.requestDelay)]
    case _ =>
      if attempt < cfg.maxRetries - 1 then [ConnectWait(cfg.requestDelay * (attempt + 1))] else []
  }

  /** The body a decisive outcome returns: a 2xx body, otherwise `None`. */
  function Decided(o: Outcome): Option<string>
    requires !Retryable(o)
  {
    if o.Response? && IsSuccess(o.status) then Some(o.body) else None
  }

  /** The reference definition of the retry loop from `attempt` on. */
  function Run(cfg: Config, net: nat -> Outcome, attempt: nat): Fetch
    decreases if cfg.maxRetries > attempt then cfg.maxRetries - attempt else 0
  {
    if attempt >= cfg.maxRetries then Fetch(None, 0, [])
    else
      var jitter := if attempt > 0 then [Jitter] else [];
      var o := net(attempt);
      if !Retryable(o) then Fetch(Decided(o), 1, jitter)
      else
        var rest := Run(cfg, net, attempt + 1);
        Fetch(rest.body, 1 + rest.requests, jitter + WaitAfter(cfg, attempt, o) + rest.waits)
  }

  /** One unfolding of `Run` at an attempt within budget. */
  lemma RunStep(cfg: Config, net: nat -> Outcome, attempt: nat)
    requires attempt < cfg.maxRetries
    ensures var jitter := if attempt > 0 then [Jitter] else [];
      var o := net(attempt);
      var rest := Run(cfg, net, attempt + 1);
      && (!Retryable(o) ==> Run(cfg, net, attempt) == Fetch(Decided(o), 1, jitter))
      && (Retryable(o) ==>
            Run(cfg, net, attempt) == Fetch(rest.body, 1 + rest.requests, jitter + WaitAfter(cfg, attempt, o) + rest.waits))
  {
  }

  /** `f` preceded by `requests` requests and the sleeps `waits`. */
  function After(requests: nat, waits: seq<Wait>, f: Fetch): Fetch {
    Fetch(f.body, requests + f.requests, waits + f.waits)
  }

  /** One retried attempt of the loop moves its requests and sleeps from the
      rest of the run to what has already happened. */
  lemma RetryStep(cfg: Config, net: nat -> Outcome, attempt: nat, requests: nat, waits: seq<Wait>)
    requires attempt < cfg.maxRetries && Retryable(net(attempt))
    ensures After(requests, waits, Run(cfg, net, attempt)) ==
      After(requests + 1, waits + (if attempt > 0 then [Jitter] else []) + WaitAfter(cfg, attempt, net(attempt)),
            Run(cfg, net, attempt + 1))
  {
    var jitter := if attempt > 0 then [Jitter] else [];
    var after := WaitAfter(cfg, attempt, net(attempt));
    var rest := Run(cfg, net, attempt + 1);
    RunStep(cfg, net, attempt);
    assert waits + (jitter + after + rest.waits) == waits + jitter + after + rest.waits;
  }

  /** A decisive attempt ends the run with its verdict. */
  lemma DecisiveStep(cfg: Config, net: nat -> Outcome, attempt: nat, requests: nat, waits: seq<Wait>)
    requires attempt < cfg.maxRetries && !Retryable(net(attempt))
    ensures After(requests, waits, Run(cfg, net, attempt)) ==
      Fetch(Decided(net(attempt)), requests + 1, waits + (if attempt > 0 then [Jitter] else []))
  {
    RunStep(cfg, net, attempt);
  }

  /** `HttpClient.get`. */
  method Get(client: Client, net: nat -> Outcome) returns (r: Result<Fetch, ClientError>)
    ensures !client.open <==> r == Failure(NotEntered)
    ensures client.open ==> r == Success(Run(client.config, net, 0))
  {
    if !client.open {
      return Failure(NotEntered);
    }
    var cfg := client.config;
    var attempt: nat := 0;
    var requests: nat := 0;
    var waits: seq<Wait> := [];
    assert waits + Run(cfg, net, 0).waits == Run(cfg, net, 0).waits;
    while attempt < cfg.maxRetries
      invariant attempt == 0 || attempt <= cfg.maxRetries
      invariant Run(cfg, net, 0) == After(requests, waits, Run(cfg, net, attempt))
      decreases cfg.maxRetries - attempt
    {
      var jitter := if attempt > 0 then [Jitter] else [];
      var o := net(attempt);
      if !Retryable(o) {
        // a 2xx returns its body; any other status, or an exception that is
        // neither a connect nor a timeout error, returns None
        DecisiveStep(cfg, net, attempt, requests, waits);
        return Success(Fetch(Decided(o), requests + 1, waits + jitter));
      }
      RetryStep(cfg, net, attempt, requests, waits);
      requests := requests + 1;
      waits := waits + jitter + WaitAfter(cfg, attempt, o);
      attempt := attempt + 1;
    }
    assert waits + Run(cfg, net, attempt).waits == waits;
    return Success(Fetch(None, requests, waits));
  }

  /** `HttpClient.get_with_delay`: one jittered sleep, then `get`. The sleep
      happens before `get` checks the client. */
  method GetWithDelay(client: Client, net: nat -> Outcome) returns (r: Result<Fetch, ClientError>)
    ensures !client.open <==> r == Failure(NotEntered)
    ensures client.open ==> r.Success? && r.value.body == Run(client.config, net, 0).body
    ensures client.open ==> r.Success? && r.value.waits == [LeadingJitter] + Run(client.config, net, 0).waits
  {
    var inner := Get(client, net);
    match inner {
      case Failure(e) => return Failure(e);
      case Success(f) => return Success(f.(waits := [LeadingJitter] + f.waits));
    }
  }

  // ---------------------------------------------------------------------
  // Properties of the retry loop.

  function MaxZero(n: int): nat {
    if n > 0 then n else 0
  }

  /** At most `max_retries` requests, none at all when it is not positive,
      and a returned body always comes from a 2xx response. */
  lemma {:induction false} RequestBudget(cfg: Config, net: nat -> Outcome, attempt: nat)
    ensures Run(cfg, net, attempt).requests <= MaxZero(cfg.maxRetries - attempt)
    ensures Run(cfg, net, attempt).requests == 0 <==> attempt >= cfg.maxRetries
    ensures Run(cfg, net, attempt).body.Some? ==>
      exists k :: attempt <= k < attempt + Run(cfg, net, attempt).requests &&
        net(k).Response? && net(k).body == Run(cfg, net, attempt).body.value && IsSuccess(net(k).status)
    decreases if cfg.maxRetries > attempt then cfg.maxRetries - attempt else 0
  {
    if attempt < cfg.maxRetries && Retryable(net(attempt)) {
      RequestBudget(cfg, net, attempt + 1);
    }
  }

  /** The loop stops at the first decisive outcome: if attempts `attempt`
      to `k - 1` all retried and attempt `k` is within budget and decisive,
      exactly `k - attempt + 1` requests are issued and `k`'s verdict is
      returned (the body of a 2xx, `None` for any other error status or
      exception). */
  lemma {:induction false} StopsAtFirstDecisive(cfg: Config, net: nat -> Outcome, attempt: nat, k: nat)
    requires attempt <= k < cfg.maxRetries
    requires forall j :: attempt <= j < k ==> Retryable(net(j))
    requires !Retryable(net(k))
    ensures Run(cfg, net, attempt).body == Decided(net(k))
    ensures Run(cfg, net, attempt).requests == k - attempt + 1
    decreases k - attempt
  {
    if attempt < k {
      StopsAtFirstDecisive(cfg, net, attempt + 1, k);
    }
  }

  /** When every attempt retries, the budget is used up and `None` is
      returned without raising. */
  lemma {:induction false} ExhaustsBudget(cfg: Config, net: nat -> Outcome, attempt: nat)
    requires forall j :: attempt <= j < cfg.maxRetries ==> Retryable(net(j))
    ensures Run(cfg, net, attempt).body == None
    ensures Run(cfg, net, attempt).requests == MaxZero(cfg.maxRetries - attempt)
    decreases if cfg.maxRetries > attempt then cfg.maxRetries - attempt else 0
  {
    if attempt < cfg.maxRetries {
      ExhaustsBudget(cfg, net, attempt + 1);
    }
  }

  /** Every request after the first is preceded by exactly one jitter. */
  function Jitters(ws: seq<Wait>): nat {
    if ws == [] then 0 else Jitters(ws[..|ws| - 1]) + (if ws[|ws| - 1] == Jitter then 1 else 0)
  }

  lemma JittersAppend(a: seq<Wait>, b: seq<Wait>)
    ensures Jitters(a + b) == Jitters(a) + Jitters(b)
  {
    if b == [] {
      assert a + b == a;
    } else {
      assert (a + b)[..|a + b| - 1] == a + b[..|b| - 1];
      JittersAppend(a, b[..|b| - 1]);
    }
  }

  lemma JittersSingle(w: Wait)
    ensures Jitters([w]) == if w == Jitter then 1 else 0
  {
    assert [w][..0] == [];
  }

  /** A wait that follows an outcome is never a jitter. */
  lemma NoJitterAfter(cfg: Config, attempt: nat, o: Outcome)
    requires Retryable(o)
    ensures Jitters(WaitAfter(cfg, attempt, o)) == 0
  {
    var w := WaitAfter(cfg, attempt, o);
    if w != [] {
      JittersSingle(w[0]);
      assert w == [w[0]];
    }
  }

  /** From the second attempt on, every request is preceded by one jitter. */
  lemma {:induction false} JitterPerRetry(cfg: Config, net: nat -> Outcome, attempt: nat)
    requires attempt >= 1
    ensures Jitters(Run(cfg, net, attempt).waits) == Run(cfg, net, attempt).requests
    decreases if cfg.maxRetries > attempt then cfg.maxRetries - attempt else 0
  {
    if attempt < cfg.maxRetries {
      RunStep(cfg, net, attempt);
      JittersSingle(Jitter);
      var o := net(attempt);
      if Retryable(o) {
        var rest := Run(cfg, net, attempt + 1);
        JitterPerRetry(cfg, net, attempt + 1);
        NoJitterAfter(cfg, attempt, o);
        JittersAppend([Jitter] + WaitAfter(cfg, attempt, o), rest.waits);
        JittersAppend([Jitter], WaitAfter(cfg, attempt, o));
      }
    }
  }

  /** Every request but the first is preceded by exactly one jitter. */
  lemma OneJitterPerRetry(cfg: Config, net: nat -> Outcome)
    ensures Jitters(Run(cfg, net, 0).waits) == MaxZero(Run(cfg, net, 0).requests - 1)
  {
    if 0 < cfg.maxRetries {
      RunStep(cfg, net, 0);
      var o := net(0);
      if Retryable(o) {
        var rest := Run(cfg, net, 1);
        JitterPerRetry(cfg, net, 1);
        NoJitterAfter(cfg, 0, o);
        assert [] + WaitAfter(cfg, 0, o) + rest.waits == WaitAfter(cfg, 0, o) + rest.waits;
        JittersAppend(WaitAfter(cfg, 0, o), rest.waits);
      }
    }
  }

  // ---------------------------------------------------------------------
  // The documented scenarios, with three attempts.

  function Statuses(s0: int, s1: int, s2: int, body: string): nat -> Outcome {
    (k: nat) => Response(if k == 0 then s0 else if k == 1 then s1 else s2, body)
  }

  /** "429, 429, 200": the third response's body, after backing off 5 and
      then 10 seconds. */
  lemma RateLimitThenSuccess(delay: nat, body: string)
    ensures var f := Run(Config(3, delay), Statuses(429, 429, 200, body), 0);
      f == Fetch(Some(body), 3, [RateLimitWait(5), Jitter, RateLimitWait(10), Jitter])
  {
    var net := Statuses(429, 429, 200, body);
    var cfg := Config(3, delay);
    assert Run(cfg, net, 2) == Fetch(Some(body), 1, [Jitter]);
    assert Run(cfg, net, 1) == Fetch(Some(body), 2, [Jitter, RateLimitWait(10), Jitter]);
  }

  /** "Always 429": `None` after three requests, with a back-off even after
      the last one. */
  lemma AlwaysRateLimited(delay: nat, body: string)
    ensures var f := Run(Config(3, delay), Statuses(429, 429, 429, body), 0);
      f == Fetch(None, 3, [RateLimitWait(5), Jitter, RateLimitWait(10), Jitter, RateLimitWait(15)])
  {
    var net := Statuses(429, 429, 429, body);
    var cfg := Config(3, delay);
    assert Run(cfg, net, 3) == Fetch(None, 0, []);
    assert Run(cfg, net, 2) == Fetch(None, 1, [Jitter, RateLimitWait(15)]);
    assert Run(cfg, net, 1) == Fetch(None, 2, [Jitter, RateLimitWait(10), Jitter, RateLimitWait(15)]);
  }

  /** "Always a connect error": `None` after three requests; the connect
      back-off grows and is skipped after the last attempt. */
  lemma AlwaysUnreachable(delay: nat)
    ensures var f := Run(Config(3, delay), (k: nat) => ConnectError, 0);
      f == Fetch(None, 3, [ConnectWait(delay), Jitter, ConnectWait(delay * 2), Jitter])
  {
    var net := (k: nat) => ConnectError;
    var cfg := Config(3, delay);
    assert Run(cfg, net, 3) == Fetch(None, 0, []);
    assert Run(cfg, net, 2) == Fetch(None, 1, [Jitter]);
    assert Run(cfg, net, 1) == Fetch(None, 2, [Jitter, ConnectWait(delay * 2), Jitter]);
  }

  /** A 404 ends the call at once: one request, no sleep, `None`. */
  lemma NotFoundStops(delay: nat, maxRetries: int, body: string)
    requires maxRetries >= 1
    ensures Run(Config(maxRetries, delay), Statuses(404, 200, 200, body), 0) == Fetch(None, 1, [])
  {
  }

  // ---------------------------------------------------------------------
  // How long a run sleeps.

  /** The length of one back-off; a jitter's length is not modelled. */
  function Units(w: Wait): nat {
    match w
    case RateLimitWait(seconds) => seconds
    case ServerErrorWait(units) => units
    case ConnectWait(units) => units
    case _ => 0
  }

  /** The total back-off of a list of sleeps. */
  function Slept(ws: seq<Wait>): nat {
    if ws == [] then 0 else Slept(ws[..|ws| - 1]) + Units(ws[|ws| - 1])
  }

  lemma {:induction false} SleptAppend(a: seq<Wait>, b: seq<Wait>)
    ensures Slept(a + b) == Slept(a) + Slept(b)
  {
    if b == [] {
      assert a + b == a;
    } else {
      assert (a + b)[..|a + b| - 1] == a + b[..|b| - 1];
      SleptAppend(a, b[..|b| - 1]);
    }
  }

  /** The back-off of one retried attempt: its jitter counts nothing. */
  lemma SleptStep(cfg: Config, net: nat -> Outcome, attempt: nat)
    requires attempt < cfg.maxRetries && Retryable(net(attempt))
    ensures Slept(Run(cfg, net, attempt).waits)
      == Slept(WaitAfter(cfg, attempt, net(attempt))) + Slept(Run(cfg, net, attempt + 1).waits)
  {
    var jitter := if attempt > 0 then [Jitter] else [];
    var after := WaitAfter(cfg, attempt, net(attempt));
    var rest := Run(cfg, net, attempt + 1).waits;
    RunStep(cfg, net, attempt);
    SleptAppend(jitter + after, rest);
    SleptAppend(jitter, after);
    assert Slept(jitter) == 0 by {
      if jitter != [] {
        assert jitter[..0] == [];
      }
    }
  }

  lemma SleptOne(w: Wait)
    ensures Slept([w]) == Units(w)
  {
    assert [w][..0] == [];
  }

  /** A server answering 429 from `attempt` on: the back-offs
      `5 * (k + 1)` of the remaining attempts `k` add up. */
  lemma {:induction false} RateLimitedFrom(cfg: Config, net: nat -> Outcome, attempt: nat)
    requires forall k :: net(k).Response? && net(k).status == 429
    requires attempt <= cfg.maxRetries
    ensures var m := cfg.maxRetries;
      2 * Slept(Run(cfg, net, attempt).waits) == 5 * (m * (m + 1) - attempt * (attempt + 1))
    decreases cfg.maxRetries - attempt
  {
    if attempt < cfg.maxRetries {
      var m := cfg.maxRetries;
      RateLimitedFrom(cfg, net, attempt + 1);
      SleptStep(cfg, net, attempt);
      SleptOne(RateLimitWait((attempt + 1) * 5));
      assert (attempt + 1) * (attempt + 2) == attempt * (attempt + 1) + 2 * (attempt + 1);
    }
  }

  /** A server that always answers 429 makes `get` back off
      5 + 10 + ... + 5 * max_retries seconds in total. */
  lemma RateLimitTotalWait(cfg: Config, net: nat -> Outcome)
    requires forall k :: net(k).Response? && net(k).status == 429
    ensures var n := MaxZero(cfg.maxRetries);
      2 * Slept(Run(cfg, net, 0).waits) == 5 * n * (n + 1)
  {
    if cfg.maxRetries > 0 {
      RateLimitedFrom(cfg, net, 0);
    }
  }

  /** An unreachable server from `attempt` on: every attempt `k` but the
      last backs off `request_delay * (k + 1)`. */
  lemma {:induction false} UnreachableFrom(cfg: Config, net: nat -> Outcome, attempt: nat)
    requires forall k :: net(k) == ConnectError || net(k) == Timeout
    requires attempt < cfg.maxRetries
    ensures var m, d := cfg.maxRetries, cfg.requestDelay;
      2 * Slept(Run(cfg, net, attempt).waits) == d * ((m - 1) * m - attempt * (attempt + 1))
    decreases cfg.maxRetries - attempt
  {
    var m, d := cfg.maxRetries, cfg.requestDelay;
    UnreachableStep(cfg, net, attempt);
    if attempt + 1 < m {
      UnreachableFrom(cfg, net, attempt + 1);
      UnreachableSum(Slept(Run(cfg, net, attempt).waits), Slept(Run(cfg, net, attempt + 1).waits), d, m, attempt);
    } else {
      ExhaustsBudget(cfg, net, attempt + 1);
      assert Run(cfg, net, attempt + 1).waits == [];
      assert attempt == m - 1;
    }
  }

  /** One unreachable attempt: its back-off, unless it is the last. */
  lemma UnreachableStep(cfg: Config, net: nat -> Outcome, attempt: nat)
    requires attempt < cfg.maxRetries && (net(attempt) == ConnectError || net(attempt) == Timeout)
    ensures Slept(Run(cfg, net, attempt).waits) == Slept(Run(cfg, net, attempt + 1).waits)
      + (if attempt + 1 < cfg.maxRetries then cfg.requestDelay * (attempt + 1) else 0)
  {
    SleptStep(cfg, net, attempt);
    if attempt + 1 < cfg.maxRetries {
      SleptOne(ConnectWait(cfg.requestDelay * (attempt + 1)));
    }
  }

  /** One attempt answered by a 5xx: the fixed back-off. */
  lemma ServerErrorStep(cfg: Config, net: nat -> Outcome, attempt: nat)
    requires attempt < cfg.maxRetries && net(attempt).Response? && net(attempt).status >= 500
    ensures Slept(Run(cfg, net, attempt).waits) == Slept(Run(cfg, net, attempt + 1).waits) + cfg.requestDelay
  {
    SleptStep(cfg, net, attempt);
    SleptOne(ServerErrorWait(cfg.requestDelay));
  }

  lemma UnreachableSum(s0: int, s1: int, d: int, m: int, a: int)
    requires s0 == s1 + d * (a + 1)
    requires 2 * s1 == d * ((m - 1) * m - (a + 1) * (a + 2))
    ensures 2 * s0 == d * ((m - 1) * m - a * (a + 1))
  {
    Triangle(m, a);
    Scale(d, (m - 1) * m - (a + 1) * (a + 2), a + 1);
  }

  lemma Triangle(m: int, a: int)
    ensures (m - 1) * m - a * (a + 1) == ((m - 1) * m - (a + 1) * (a + 2)) + 2 * (a + 1)
  {
  }

  lemma MulOne(d: int, n: int)
    ensures d * (n + 1) == d * n + d
  {
  }

  lemma Scale(d: int, x: int, k: int)
    ensures d * (x + 2 * k) == d * x + 2 * (d * k)
  {
  }

  /** A server that is never reachable makes `get` back off
      `request_delay * (1 + 2 + ... + (max_retries - 1))` in total: no
      back-off follows the last attempt. */
  lemma UnreachableTotalWait(cfg: Config, net: nat -> Outcome)
    requires forall k :: net(k) == ConnectError || net(k) == Timeout
    ensures var n := MaxZero(cfg.maxRetries);
      2 * Slept(Run(cfg, net, 0).waits) == cfg.requestDelay * (n * (n - 1))
  {
    var m := cfg.maxRetries;
    if m > 0 {
      UnreachableFrom(cfg, net, 0);
      assert (m - 1) * m - 0 * (0 + 1) == m * (m - 1);
    } else {
      assert Run(cfg, net, 0).waits == [];
      assert MaxZero(m) * (MaxZero(m) - 1) == 0;
    }
  }

  /** A server that always fails with a 5xx makes `get` back off
      `request_delay` after every attempt, the last one included. */
  lemma {:induction false} ServerErrorTotalWait(cfg: Config, net: nat -> Outcome, attempt: nat)
    requires forall k :: net(k).Response? && net(k).status >= 500
    ensures Slept(Run(cfg, net, attempt).waits) == cfg.requestDelay * MaxZero(cfg.maxRetries - attempt)
    decreases if cfg.maxRetries > attempt then cfg.maxRetries - attempt else 0
  {
    if attempt < cfg.maxRetries {
      ServerErrorTotalWait(cfg, net, attempt + 1);
      ServerErrorStep(cfg, net, attempt);
      var n := MaxZero(cfg.maxRetries - (attempt + 1));
      assert MaxZero(cfg.maxRetries - attempt) == n + 1;
      MulOne(cfg.requestDelay, n);
    }
  }

  /** A client is usable exactly between entering and exiting: a new or an
      exited client refuses to fetch, exiting twice is the same as exiting
      once, re-entering opens it again, and the configuration never changes. */
  lemma ExitedClientRefuses(config: Config)
    ensures !NewClient(config).open && Enter(NewClient(config)).open
    ensures !Exit(Enter(NewClient(config))).open
    ensures Exit(Exit(Enter(NewClient(config)))) == Exit(Enter(NewClient(config)))
    ensures Enter(Exit(Enter(NewClient(config)))) == Enter(NewClient(config))
    ensures Exit(Enter(NewClient(config))).config == config
  {
  }
}
