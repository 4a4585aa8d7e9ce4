/** The in-memory fixed-window rate limiter of `server/index.js`. All limiters
    share one store keyed by the client address alone; the clock (`Date.now()`,
    milliseconds) is a parameter. */
module RateLimit {
  import opened Wrappers

  /** `{ count, resetTime }`. */
  datatype Rec = Rec(count: nat, resetTime: int)

  /** `rateLimitStore`: client key to record. */
  type Store = map<string, Rec>

  /** The options of `createRateLimiter`. */
  datatype Limiter = Limiter(windowMs: nat, max: nat, message: string)

  const OraculoLimiter: Limiter :=
    Limiter(15 * 60 * 1000, 10, "Has consultado el or\U{00E1}culo demasiadas veces. Espera unos minutos.")
  const ConsultasWriteLimiter: Limiter :=
    Limiter(15 * 60 * 1000, 30, "Demasiadas consultas guardadas. Int\U{00E9}ntalo m\U{00E1}s tarde.")
  const DeleteLimiter: Limiter :=
    Limiter(60 * 60 * 1000, 5, "Operaci\U{00F3}n no permitida. Int\U{00E9}ntalo en un rato.")
  const DefaultMessage: string := "Demasiadas peticiones. Int\U{00E9}ntalo m\U{00E1}s tarde."

  /** `req.ip || req.connection?.remoteAddress || 'unknown'`: an empty address
      counts as missing. */
  function ClientKey(ip: Option<string>, remoteAddress: Option<string>): (k: string)
    ensures k != ""
    ensures ip.Some? && ip.value != "" ==> k == ip.value
  {
    if ip.Some? && ip.value != "" then ip.value
    else if remoteAddress.Some? && remoteAddress.value != "" then remoteAddress.value
    else "unknown"
  }

  /** What the middleware does with the request. */
  datatype Verdict = Next | TooMany(status: int, error: string)

  /** One request through a limiter at time `now`: the record is created or, when its
      window has passed, restarted; it is counted either way; the request is refused
      once the count exceeds `max`. */
  function Check(store: Store, lim: Limiter, key: string, now: int): (r: (Store, Verdict))
    ensures key in r.0 && r.0.Keys == store.Keys + {key}
    ensures forall k :: k in store && k != key ==> r.0[k] == store[k]
    ensures r.1.Next? <==> r.0[key].count <= lim.max
    ensures r.1.TooMany? ==> r.1.status == 429
  {
    var record := if key in store then store[key] else Rec(0, now + lim.windowMs);
    var current := if now > record.resetTime then Rec(0, now + lim.windowMs) else record;
    var counted := current.(count := current.count + 1);
    var store' := store[key := counted];
    if counted.count > lim.max then
      (store', TooMany(429, if lim.message != "" then lim.message else DefaultMessage))
    else (store', Next)
  }

  /** Whether the key's window is still running at `now`. */
  predicate InWindow(store: Store, key: string, now: int) {
    key in store && now <= store[key].resetTime
  }

  /** A request inside the window adds one to the count and keeps the window; one
      after it (or the first ever) opens a window of `windowMs` with count 1. */
  lemma CheckCounts(store: Store, lim: Limiter, key: string, now: int)
    ensures var r := Check(store, lim, key, now).0[key];
            if InWindow(store, key, now) then r == Rec(store[key].count + 1, store[key].resetTime)
            else r == Rec(1, now + lim.windowMs)
  {
  }

  /** The requests of one client, each with the limiter of its route and its time. */
  function Run(store: Store, key: string, reqs: seq<(Limiter, int)>): (Store, nat)
    decreases |reqs|
  {
    if reqs == [] then (store, 0)
    else
      var (s', v) := Check(store, reqs[0].0, key, reqs[0].1);
      var (s'', n) := Run(s', key, reqs[1..]);
      (s'', n + if v.Next? then 1 else 0)
  }

  /** Number of requests in `reqs` that a count of `c0` leaves room for: the i-th
      request (from 0) is the (c0 + i + 1)-th of the window. */
  function Room(c0: nat, reqs: seq<(Limiter, int)>): nat
    decreases |reqs|
  {
    if reqs == [] then 0
    else (if c0 + 1 <= reqs[0].0.max then 1 else 0) + Room(c0 + 1, reqs[1..])
  }

  /** Inside one window every request is counted, refused ones included, whichever
      limiter it goes through; the window does not move; and only the requests whose
      position in the window is within their limiter's `max` pass. */
  lemma {:induction false} RunInWindow(store: Store, key: string, reqs: seq<(Limiter, int)>)
    requires key in store
    requires forall i :: 0 <= i < |reqs| ==> reqs[i].1 <= store[key].resetTime
    ensures key in Run(store, key, reqs).0
    ensures Run(store, key, reqs).0[key] == Rec(store[key].count + |reqs|, store[key].resetTime)
    ensures Run(store, key, reqs).1 == Room(store[key].count, reqs)
    decreases |reqs|
  {
    if reqs != [] {
      var s' := Check(store, reqs[0].0, key, reqs[0].1).0;
      CheckCounts(store, reqs[0].0, key, reqs[0].1);
      RunInWindow(s', key, reqs[1..]);
    }
  }

  /** With one limiter, at most `max` requests pass, however many are sent. */
  lemma {:induction false} RoomAtMostMax(c0: nat, lim: Limiter, reqs: seq<(Limiter, int)>)
    requires forall i :: 0 <= i < |reqs| ==> reqs[i].0 == lim
    ensures Room(c0, reqs) <= if c0 >= lim.max then 0 else lim.max - c0
    decreases |reqs|
  {
    if reqs != [] {
      RoomAtMostMax(c0 + 1, lim, reqs[1..]);
    }
  }

  /** A window opened by a request at `t0` lets at most `max` requests of one
      limiter through until it ends at `t0 + windowMs`. */
  lemma AtMostMaxPerWindow(store: Store, lim: Limiter, key: string, t0: int, reqs: seq<(Limiter, int)>)
    requires !InWindow(store, key, t0)
    requires forall i :: 0 <= i < |reqs| ==> reqs[i].0 == lim && reqs[i].1 <= t0 + lim.windowMs
    ensures Run(store, key, [(lim, t0)] + reqs).1 <= lim.max
  {
    var all := [(lim, t0)] + reqs;
    var (s1, v1) := Check(store, lim, key, t0);
    CheckCounts(store, lim, key, t0);
    assert all[1..] == reqs;
    RunInWindow(s1, key, reqs);
    RoomAtMostMax(1, lim, reqs);
  }

  /** The three limiters share the store: after ten saved readings in a quarter of
      an hour, the same client's next oracle request is refused although it is its
      first request to the oracle. */
  lemma SharedStoreExample(store: Store, key: string, t0: int)
    requires !InWindow(store, key, t0)
    ensures var s10 := Run(store, key, seq(10, i => (ConsultasWriteLimiter, t0))).0;
            Check(s10, OraculoLimiter, key, t0 + 1).1.TooMany?
  {
    var reqs := seq(10, i => (ConsultasWriteLimiter, t0));
    var (s1, v1) := Check(store, ConsultasWriteLimiter, key, t0);
    CheckCounts(store, ConsultasWriteLimiter, key, t0);
    assert reqs == [reqs[0]] + reqs[1..];
    RunInWindow(s1, key, reqs[1..]);
    var s10 := Run(store, key, reqs).0;
    assert s10[key] == Rec(10, t0 + ConsultasWriteLimiter.windowMs);
    CheckCounts(s10, OraculoLimiter, key, t0 + 1);
  }

  /** The prune loop: drop exactly the records whose window has passed. */
  function Prune(store: Store, now: int): (r: Store)
    ensures forall k :: k in r <==> k in store && !(now > store[k].resetTime)
    ensures forall k :: k in r ==> r[k] == store[k]
  {
    map k | k in store && !(now > store[k].resetTime) :: store[k]
  }

  /** Pruning is invisible to later requests: a pruned record would have been
      restarted anyway. */
  lemma PruneIsInvisible(store: Store, pruneTime: int, lim: Limiter, key: string, now: int)
    requires pruneTime <= now
    ensures Check(Prune(store, pruneTime), lim, key, now).1 == Check(store, lim, key, now).1
    ensures Check(Prune(store, pruneTime), lim, key, now).0[key] == Check(store, lim, key, now).0[key]
  {
    CheckCounts(store, lim, key, now);
    CheckCounts(Prune(store, pruneTime), lim, key, now);
  }
}
