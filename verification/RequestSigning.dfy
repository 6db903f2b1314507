/**
 Signed service-to-service requests: a timestamp window, a nonce record that expires, and an HMAC
 that is taken to be unforgeable. The window and the nonce lifetime are parameters, so that what
 the program's choice of equal values gives can be told from what a longer lifetime would give.
 */
module RequestSigning {
  import opened Prelude

  const SIGN_WINDOW_SECONDS := 300

  datatype Config = Config(window: int, lifetime: int)

  /** What the program runs with. */
  const DEPLOYED := Config(SIGN_WINDOW_SECONDS, SIGN_WINDOW_SECONDS)

  /** An HMAC is the secret together with what was signed. */
  datatype Mac = Mac(secret: string, app: string, timestamp: string, nonce: string)

  /** The headers of a request; `time` is what the timestamp header reads as, if it reads as an integer. */
  datatype Request = Request(app: string, timestamp: string, time: Option<int>, nonce: string, signature: Mac)

  datatype Error = BadTimestamp | OutsideWindow | NonceUsed | UnknownApp | BadSignature

  /** Server time in seconds, the live nonce records with their expiry, and each registered app's secret, which may be empty. */
  datatype State = State(now: real, nonces: map<string, real>, secrets: map<string, string>)

  datatype Event =
    | Present(request: Request)
    | Configure(secrets: map<string, string>)
    | Tick(d: real)

  function NonceKey(r: Request): string {
    "internal:nonce:" + r.app + ":" + r.nonce
  }

  predicate InWindow(cfg: Config, now: real, time: int) {
    time as real - cfg.window as real <= now <= time as real + cfg.window as real
  }

  predicate HasSecret(s: State, app: string) {
    app in s.secrets && s.secrets[app] != ""
  }

  predicate Accepts(s: State, cfg: Config, r: Request) {
    && r.time.Some? && InWindow(cfg, s.now, r.time.value)
    && NonceKey(r) !in s.nonces
    && HasSecret(s, r.app) && r.signature == Mac(s.secrets[r.app], r.app, r.timestamp, r.nonce)
  }

  function Step(s: State, cfg: Config, e: Event): State {
    match e
    case Present(r) =>
      if Accepts(s, cfg, r) then s.(nonces := s.nonces[NonceKey(r) := s.now + cfg.lifetime as real]) else s
    case Configure(secrets) => s.(secrets := secrets)
    case Tick(d) =>
      if d < 0.0 then s
      else State(s.now + d, map k | k in s.nonces && s.now + d < s.nonces[k] :: s.nonces[k], s.secrets)
  }

  function Run(s: State, cfg: Config, es: seq<Event>): State
    decreases |es|
  {
    if es == [] then s else Run(Step(s, cfg, es[0]), cfg, es[1..])
  }

  /** How often the run accepts exactly this request. */
  function Acceptances(s: State, cfg: Config, es: seq<Event>, r: Request): nat
    decreases |es|
  {
    if es == [] then 0
    else (if es[0] == Present(r) && Accepts(s, cfg, r) then 1 else 0) + Acceptances(Step(s, cfg, es[0]), cfg, es[1..], r)
  }

  /** The server time at which the run first accepts the request. */
  function FirstAccepted(s: State, cfg: Config, es: seq<Event>, r: Request): Option<real>
    decreases |es|
  {
    if es == [] then None
    else if es[0] == Present(r) && Accepts(s, cfg, r) then Some(s.now)
    else FirstAccepted(Step(s, cfg, es[0]), cfg, es[1..], r)
  }

  // ---- When a request can never be accepted again

  /** Its window is over, or its nonce record outlives its window. */
  predicate Closed(s: State, cfg: Config, r: Request) {
    r.time.Some? ==>
      var end := r.time.value as real + cfg.window as real;
      end < s.now || (NonceKey(r) in s.nonces && end < s.nonces[NonceKey(r)])
  }

  lemma ClosedStays(s: State, cfg: Config, r: Request, e: Event)
    requires Closed(s, cfg, r)
    ensures Closed(Step(s, cfg, e), cfg, r) && !Accepts(s, cfg, r)
  {
  }

  lemma {:induction false} ClosedForever(s: State, cfg: Config, es: seq<Event>, r: Request)
    requires Closed(s, cfg, r)
    ensures Acceptances(s, cfg, es, r) == 0 && Closed(Run(s, cfg, es), cfg, r)
    decreases |es|
  {
    if es != [] {
      ClosedStays(s, cfg, r, es[0]);
      ClosedForever(Step(s, cfg, es[0]), cfg, es[1..], r);
    }
  }

  /** An acceptance at this time leaves the nonce record expiring no later than the request's window. */
  predicate Reusable(cfg: Config, r: Request, accepted: real)
    requires r.time.Some?
  {
    accepted + cfg.lifetime as real <= r.time.value as real + cfg.window as real
  }

  /** Waiting for the nonce record to expire and sending the same request again. */
  function Replay(cfg: Config, r: Request): seq<Event> {
    [Tick(cfg.lifetime as real), Present(r)]
  }

  /**
   Exact: after an acceptance some continuation accepts the identical request again if and only if
   its timestamp lies at least the nonce lifetime minus the window after the time of that acceptance.
   */
  lemma SecondAcceptanceExactly(s: State, cfg: Config, r: Request)
    requires 0 <= cfg.window && 0 < cfg.lifetime && Accepts(s, cfg, r)
    ensures (exists es :: Acceptances(Step(s, cfg, Present(r)), cfg, es, r) > 0) <==> Reusable(cfg, r, s.now)
  {
    var s1 := Step(s, cfg, Present(r));
    if Reusable(cfg, r, s.now) {
      ReplayAccepted(s1, cfg, r);
      assert Acceptances(s1, cfg, Replay(cfg, r), r) > 0;
    } else {
      forall es ensures Acceptances(s1, cfg, es, r) == 0 {
        ClosedForever(s1, cfg, es, r);
      }
    }
  }

  lemma ReplayAccepted(s1: State, cfg: Config, r: Request)
    requires 0 <= cfg.window && 0 < cfg.lifetime && r.time.Some? && Reusable(cfg, r, s1.now)
    requires InWindow(cfg, s1.now, r.time.value)
    requires NonceKey(r) in s1.nonces && s1.nonces[NonceKey(r)] == s1.now + cfg.lifetime as real
    requires HasSecret(s1, r.app) && r.signature == Mac(s1.secrets[r.app], r.app, r.timestamp, r.nonce)
    ensures Acceptances(s1, cfg, Replay(cfg, r), r) == 1
  {
    var es := Replay(cfg, r);
    var s2 := Step(s1, cfg, es[0]);
    assert es[1..] == [Present(r)] && [Present(r)][1..] == [];
    assert Accepts(s2, cfg, r);
    assert Acceptances(s2, cfg, [Present(r)], r) == 1;
  }

  // ---- At most once

  lemma {:induction false} FirstIsCounted(s: State, cfg: Config, es: seq<Event>, r: Request)
    ensures FirstAccepted(s, cfg, es, r).None? ==> Acceptances(s, cfg, es, r) == 0
    ensures FirstAccepted(s, cfg, es, r).Some? && r.time.Some? && !Reusable(cfg, r, FirstAccepted(s, cfg, es, r).value) ==>
              Acceptances(s, cfg, es, r) == 1
    decreases |es|
  {
    if es != [] {
      if es[0] == Present(r) && Accepts(s, cfg, r) {
        if !Reusable(cfg, r, s.now) {
          ClosedForever(Step(s, cfg, es[0]), cfg, es[1..], r);
        }
      } else {
        FirstIsCounted(Step(s, cfg, es[0]), cfg, es[1..], r);
      }
    }
  }

  lemma {:induction false} FirstInWindow(s: State, cfg: Config, es: seq<Event>, r: Request)
    requires FirstAccepted(s, cfg, es, r).Some?
    ensures r.time.Some? && InWindow(cfg, FirstAccepted(s, cfg, es, r).value, r.time.value)
    decreases |es|
  {
    if !(es[0] == Present(r) && Accepts(s, cfg, r)) {
      FirstInWindow(Step(s, cfg, es[0]), cfg, es[1..], r);
    }
  }

  /** As deployed, a request stamped strictly before the time of its first acceptance is accepted only once. */
  lemma PastRequestAcceptedOnce(s: State, es: seq<Event>, r: Request)
    requires FirstAccepted(s, DEPLOYED, es, r).Some? && r.time.Some?
    requires r.time.value as real < FirstAccepted(s, DEPLOYED, es, r).value
    ensures Acceptances(s, DEPLOYED, es, r) == 1
  {
    FirstIsCounted(s, DEPLOYED, es, r);
  }

  /** A lifetime above twice the window gives this for every request and every run. */
  lemma LongLifetimeAcceptsOnce(s: State, cfg: Config, es: seq<Event>, r: Request)
    requires 2 * cfg.window < cfg.lifetime
    ensures Acceptances(s, cfg, es, r) <= 1
  {
    FirstIsCounted(s, cfg, es, r);
    if FirstAccepted(s, cfg, es, r).Some? {
      FirstInWindow(s, cfg, es, r);
    }
  }

  /** As deployed, any acceptable request stamped at the server's own time or later can be accepted twice. */
  lemma FutureRequestAcceptedTwice(now: real, secret: string, r: Request)
    requires secret != "" && r.signature == Mac(secret, r.app, r.timestamp, r.nonce)
    requires r.time.Some? && now <= r.time.value as real <= now + SIGN_WINDOW_SECONDS as real
    ensures Acceptances(State(now, map[], map[r.app := secret]), DEPLOYED, [Present(r)] + Replay(DEPLOYED, r), r) == 2
  {
    var s := State(now, map[], map[r.app := secret]);
    var es := [Present(r)] + Replay(DEPLOYED, r);
    assert es[1..] == Replay(DEPLOYED, r) && Accepts(s, DEPLOYED, r);
    ReplayAccepted(Step(s, DEPLOYED, es[0]), DEPLOYED, r);
  }

  // ---- A nonce is used at most once per lifetime

  predicate HeldUntil(s: State, key: string, until: real) {
    until <= s.now || (key in s.nonces && until <= s.nonces[key])
  }

  lemma HeldStays(s: State, cfg: Config, key: string, until: real, e: Event)
    requires HeldUntil(s, key, until)
    ensures HeldUntil(Step(s, cfg, e), key, until)
  {
  }

  lemma {:induction false} HeldThroughout(s: State, cfg: Config, es: seq<Event>, key: string, until: real)
    requires HeldUntil(s, key, until)
    ensures HeldUntil(Run(s, cfg, es), key, until)
    decreases |es|
  {
    if es != [] {
      HeldStays(s, cfg, key, until, es[0]);
      HeldThroughout(Step(s, cfg, es[0]), cfg, es[1..], key, until);
    }
  }

  /** Two acceptances that share an app and a nonce, of whatever requests, lie a full lifetime apart. */
  lemma NonceOncePerLifetime(s: State, cfg: Config, r: Request, es: seq<Event>, q: Request)
    requires Accepts(s, cfg, r) && q.app == r.app && q.nonce == r.nonce
    requires Accepts(Run(Step(s, cfg, Present(r)), cfg, es), cfg, q)
    ensures s.now + cfg.lifetime as real <= Run(Step(s, cfg, Present(r)), cfg, es).now
  {
    HeldThroughout(Step(s, cfg, Present(r)), cfg, es, NonceKey(r), s.now + cfg.lifetime as real);
  }

  class RequestVerifier {
    var now: real
    var nonces: map<string, real>
    var secrets: map<string, string>

    ghost function Abs(): State
      reads this
    {
      State(now, nonces, secrets)
    }

    /** The checks in their order; only a request that passes them all leaves a nonce record. */
    method VerifyAppSecret(r: Request) returns (res: Result<string, Error>)
      modifies this`nonces
      ensures Abs() == Step(old(Abs()), DEPLOYED, Present(r))
      ensures var inTime := r.time.Some? && now - 300.0 <= r.time.value as real <= now + 300.0;
              var key := "internal:nonce:" + r.app + ":" + r.nonce;
              var known := r.app in secrets && secrets[r.app] != "";
              var signed := known && r.signature == Mac(secrets[r.app], r.app, r.timestamp, r.nonce);
              && nonces == (if inTime && key !in old(nonces) && signed then old(nonces)[key := now + 300.0] else old(nonces))
              && res == if r.time.None? then Err(BadTimestamp)
                        else if !inTime then Err(OutsideWindow)
                        else if key in old(nonces) then Err(NonceUsed)
                        else if !known then Err(UnknownApp)
                        else if !signed then Err(BadSignature)
                        else Ok(r.app)
    {
      if r.time.None? {
        return Err(BadTimestamp);
      }
      var distance := now - r.time.value as real;
      if (if distance < 0.0 then -distance else distance) > SIGN_WINDOW_SECONDS as real {
        return Err(OutsideWindow);
      }
      var key := NonceKey(r);
      if key in nonces {
        return Err(NonceUsed);
      }
      if r.app !in secrets || secrets[r.app] == "" {
        return Err(UnknownApp);
      }
      var expected := Mac(secrets[r.app], r.app, r.timestamp, r.nonce);
      if r.signature != expected {
        return Err(BadSignature);
      }
      nonces := nonces[key := now + SIGN_WINDOW_SECONDS as real];
      res := Ok(r.app);
    }
  }
}
