/**
  The two-phase limiter on failed operator authentications
  (crates/adapters/src/rate_limit/mod.rs). Instants and durations are
  nanoseconds; a peer address is a number.

  `live_bucket` evicts an oldest bucket when the table is over its bound. The
  hash map decides between equally old ones, so a call carries the victim as an
  oracle. Evicting the bucket just inserted is an assertion failure: the call
  panics while it holds the lock, which poisons it, and from then on every call
  is allowed unthrottled.
*/
module AuthLimiter {
  import opened Wrappers

  type Instant = int
  type Peer = nat

  const SECOND: int := 1_000_000_000
  const MAX_TRACKED_PEERS: nat := 4096

  datatype Config = Config(maxFailures: nat, window: nat, lockout: nat) {
    predicate Valid() {
      maxFailures > 0 && window > 0 && lockout > 0
    }

    function Lifetime(): nat {
      window + lockout
    }
  }

  datatype Bucket = Bucket(startedAt: Instant, consumed: nat)

  datatype Decision = Allow | Deny(retryAfterSecs: nat)

  datatype Answer = Said(decision: Decision) | Panicked

  type Table = map<Peer, Bucket>

  datatype Limiter = Limiter(table: Table, poisoned: bool)

  datatype Call = Call(peer: Peer, now: Instant, consumes: bool, victim: Peer)

  /** `duration_since` saturates at zero. */
  function Elapsed(now: Instant, since: Instant): nat {
    if now < since then 0 else now - since
  }

  function RemainingSecs(lifetime: nat, elapsed: nat): nat {
    var secs := if lifetime < elapsed then 0 else (lifetime - elapsed) / SECOND;
    if secs < 1 then 1 else secs
  }

  predicate Expired(c: Config, b: Bucket, now: Instant) {
    Elapsed(now, b.startedAt) >= c.Lifetime()
  }

  // ---- One bucket ----

  function DecisionAt(c: Config, b: Bucket, now: Instant): Decision {
    if b.consumed < c.maxFailures || Expired(c, b, now) then Allow
    else Deny(RemainingSecs(c.Lifetime(), Elapsed(now, b.startedAt)))
  }

  /** The counting window closed without exhausting the budget (or the phase is over). */
  predicate RollsOver(c: Config, b: Bucket, now: Instant) {
    Expired(c, b, now) || (Elapsed(now, b.startedAt) >= c.window && b.consumed < c.maxFailures)
  }

  function Rolled(c: Config, b: Bucket, now: Instant): Bucket {
    if RollsOver(c, b, now) then Bucket(now, 0) else b
  }

  function Charged(c: Config, b: Bucket, now: Instant): Bucket {
    var r := Rolled(c, b, now);
    if r.consumed < c.maxFailures then r.(consumed := r.consumed + 1) else r
  }

  /** The hint is computed from the elapsed time before any rollover. */
  function ChargeDecision(c: Config, b: Bucket, now: Instant): Decision {
    if Charged(c, b, now).consumed < c.maxFailures then Allow
    else Deny(RemainingSecs(c.Lifetime(), Elapsed(now, b.startedAt)))
  }

  function Touched(c: Config, b: Bucket, call: Call): Bucket {
    if call.consumes then Charged(c, b, call.now) else b
  }

  function Decided(c: Config, b: Bucket, call: Call): Decision {
    if call.consumes then ChargeDecision(c, b, call.now) else DecisionAt(c, b, call.now)
  }

  // ---- The shared table ----

  function Unexpired(c: Config, t: Table, now: Instant): Table {
    map p | p in t && !Expired(c, t[p], now) :: t[p]
  }

  function Grown(c: Config, t: Table, call: Call): Table {
    var kept := Unexpired(c, t, call.now);
    if call.peer in kept then kept else kept[call.peer := Bucket(call.now, 0)]
  }

  predicate IsOldest(t: Table, p: Peer) {
    p in t && forall q | q in t :: t[p].startedAt <= t[q].startedAt
  }

  predicate Overfull(c: Config, t: Table, call: Call) {
    call.peer !in Unexpired(c, t, call.now) && |Grown(c, t, call)| > MAX_TRACKED_PEERS
  }

  predicate LegalVictim(c: Config, t: Table, call: Call) {
    Overfull(c, t, call) ==> IsOldest(Grown(c, t, call), call.victim)
  }

  predicate Panics(c: Config, t: Table, call: Call) {
    Overfull(c, t, call) && call.victim == call.peer
  }

  function Admitted(c: Config, t: Table, call: Call): (t': Table)
    ensures !Panics(c, t, call) ==> call.peer in t'
  {
    if Overfull(c, t, call) && !Panics(c, t, call) then Grown(c, t, call) - {call.victim} else Grown(c, t, call)
  }

  function Next(c: Config, l: Limiter, call: Call): Limiter {
    if l.poisoned then l
    else
      var t := Admitted(c, l.table, call);
      if Panics(c, l.table, call) then Limiter(t, true)
      else Limiter(t[call.peer := Touched(c, t[call.peer], call)], false)
  }

  function AnswerTo(c: Config, l: Limiter, call: Call): Answer {
    if l.poisoned then Said(Allow)
    else if Panics(c, l.table, call) then Panicked
    else Said(Decided(c, Admitted(c, l.table, call)[call.peer], call))
  }

  // ---- The object ----

  datatype ConfigError = ZeroBudget | ZeroWindow | ZeroLockout

  function Configure(maxFailures: nat, window: nat, lockout: nat): (r: Result<Config, ConfigError>)
    ensures r.Ok? <==> Config(maxFailures, window, lockout).Valid()
    ensures r.Ok? ==> r.value == Config(maxFailures, window, lockout)
  {
    if maxFailures == 0 then Err(ZeroBudget)
    else if window == 0 then Err(ZeroWindow)
    else if lockout == 0 then Err(ZeroLockout)
    else Ok(Config(maxFailures, window, lockout))
  }

  lemma {:induction false} OldestExists(t: Table)
    requires t != map[]
    ensures exists p :: IsOldest(t, p)
    decreases |t|
  {
    var p :| p in t;
    var rest := t - {p};
    assert forall q | q in t :: q == p || q in rest;
    if rest == map[] {
      assert IsOldest(t, p);
    } else {
      assert |rest.Keys| < |t.Keys| by { assert rest.Keys == t.Keys - {p}; }
      OldestExists(rest);
      var q :| IsOldest(rest, q);
      var oldest := if t[p].startedAt <= t[q].startedAt then p else q;
      forall x | x in t ensures t[oldest].startedAt <= t[x].startedAt {
        assert x == p || x in rest;
      }
      assert IsOldest(t, oldest);
    }
  }

  class AdminAuthRateLimiter {
    const config: Config
    var buckets: Table
    var poisoned: bool

    ghost function View(): Limiter
      reads this
    {
      Limiter(buckets, poisoned)
    }

    constructor (config: Config)
      requires config.Valid()
      ensures this.config == config && View() == Limiter(map[], false)
    {
      this.config := config;
      buckets, poisoned := map[], false;
    }

    /** Drop finished buckets, find or create the peer's, and keep the table within its bound. */
    method LiveBucket(peer: Peer, now: Instant, ghost consumes: bool) returns (panicked: bool, ghost victim: Peer)
      requires !poisoned
      modifies this`buckets
      ensures var call := Call(peer, now, consumes, victim);
              && LegalVictim(config, old(buckets), call)
              && panicked == Panics(config, old(buckets), call)
              && buckets == Admitted(config, old(buckets), call)
    {
      victim := peer;
      panicked := false;
      buckets := Unexpired(config, buckets, now);
      if peer !in buckets {
        buckets := buckets[peer := Bucket(now, 0)];
        if |buckets| > MAX_TRACKED_PEERS {
          OldestExists(buckets);
          var oldest :| oldest in buckets && forall q | q in buckets :: buckets[oldest].startedAt <= buckets[q].startedAt;
          victim := oldest;
          if oldest == peer {
            panicked := true;
          } else {
            buckets := buckets - {oldest};
          }
        }
      }
    }

    method CheckAt(peer: Peer, now: Instant) returns (a: Answer, ghost victim: Peer)
      modifies this
      ensures var call := Call(peer, now, false, victim);
              && (!old(poisoned) ==> LegalVictim(config, old(buckets), call))
              && View() == Next(config, old(View()), call)
              && a == AnswerTo(config, old(View()), call)
    {
      victim := peer;
      if poisoned {
        return Said(Allow), victim;
      }
      var panicked;
      panicked, victim := LiveBucket(peer, now, false);
      if panicked {
        poisoned := true;
        return Panicked, victim;
      }
      a := Said(DecisionAt(config, buckets[peer], now));
      assert buckets[peer := buckets[peer]] == buckets;
    }

    method ConsumeAt(peer: Peer, now: Instant) returns (a: Answer, ghost victim: Peer)
      modifies this
      ensures var call := Call(peer, now, true, victim);
              && (!old(poisoned) ==> LegalVictim(config, old(buckets), call))
              && View() == Next(config, old(View()), call)
              && a == AnswerTo(config, old(View()), call)
    {
      victim := peer;
      if poisoned {
        return Said(Allow), victim;
      }
      var panicked;
      panicked, victim := LiveBucket(peer, now, true);
      if panicked {
        poisoned := true;
        return Panicked, victim;
      }
      var lifetime := config.Lifetime();
      var bucket := buckets[peer];
      var elapsed := Elapsed(now, bucket.startedAt);
      if elapsed >= lifetime || (elapsed >= config.window && bucket.consumed < config.maxFailures) {
        bucket := Bucket(now, 0);
      }
      if bucket.consumed < config.maxFailures {
        bucket := bucket.(consumed := bucket.consumed + 1);
        a := if bucket.consumed >= config.maxFailures then Said(Deny(RemainingSecs(lifetime, elapsed))) else Said(Allow);
      } else {
        a := Said(Deny(RemainingSecs(lifetime, elapsed)));
      }
      buckets := buckets[peer := bucket];
    }
  }
}
