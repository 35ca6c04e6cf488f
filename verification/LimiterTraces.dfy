/**
  The limiter over every trace of checks and consumptions by any number of
  peers: the bound of the table, the independence of peers, how many failures
  get through, and how long a lockout lasts.
*/
module LimiterTraces {
  import opened Wrappers
  import opened AuthLimiter

  function LimiterAt(c: Config, cs: seq<Call>, n: nat): Limiter
    requires n <= |cs|
  {
    if n == 0 then Limiter(map[], false) else Next(c, LimiterAt(c, cs, n - 1), cs[n - 1])
  }

  predicate ClockForward(cs: seq<Call>) {
    forall i, j | 0 <= i < j < |cs| :: cs[i].now <= cs[j].now
  }

  predicate ClockStrict(cs: seq<Call>) {
    forall i, j | 0 <= i < j < |cs| :: cs[i].now < cs[j].now
  }

  ghost predicate LegalTrace(c: Config, cs: seq<Call>) {
    && c.Valid()
    && ClockForward(cs)
    && forall i | 0 <= i < |cs| :: LegalVictim(c, LimiterAt(c, cs, i).table, cs[i])
  }

  // ---- The bound, and when the eviction assertion can fail ----

  lemma UnexpiredIsNoLarger(c: Config, t: Table, now: Instant)
    ensures |Unexpired(c, t, now)| <= |t|
  {
    var kept := Unexpired(c, t, now);
    assert kept.Keys <= t.Keys;
    assert t.Keys == kept.Keys + (t.Keys - kept.Keys);
    assert |t.Keys| == |t| && |kept.Keys| == |kept|;
  }

  lemma StepKeepsBound(c: Config, l: Limiter, call: Call)
    requires LegalVictim(c, l.table, call)
    requires !l.poisoned && |l.table| <= MAX_TRACKED_PEERS
    ensures |Next(c, l, call).table| <= MAX_TRACKED_PEERS + 1
    ensures !Next(c, l, call).poisoned ==> |Next(c, l, call).table| <= MAX_TRACKED_PEERS
  {
    UnexpiredIsNoLarger(c, l.table, call.now);
    var kept, grown := Unexpired(c, l.table, call.now), Grown(c, l.table, call);
    assert grown.Keys == kept.Keys + {call.peer};
    assert |grown.Keys| == |grown| && |kept.Keys| == |kept|;
    if Overfull(c, l.table, call) && !Panics(c, l.table, call) {
      var left := grown - {call.victim};
      assert left.Keys == grown.Keys - {call.victim};
      assert |left.Keys| == |left|;
    }
    var t := Admitted(c, l.table, call);
    if !Panics(c, l.table, call) {
      var t' := Next(c, l, call).table;
      assert t'.Keys == t.Keys;
      assert |t'.Keys| == |t'| && |t.Keys| == |t|;
    }
  }

  lemma PoisonPersists(c: Config, l: Limiter, call: Call)
    requires l.poisoned
    ensures Next(c, l, call) == l && AnswerTo(c, l, call) == Said(Allow)
  {
  }

  /** The table never exceeds its bound while the limiter works. */
  lemma {:induction false} TableStaysBounded(c: Config, cs: seq<Call>, n: nat)
    requires LegalTrace(c, cs) && n <= |cs|
    ensures !LimiterAt(c, cs, n).poisoned ==> |LimiterAt(c, cs, n).table| <= 4096
  {
    hide ClockForward, LegalVictim, Next;
    if n > 0 {
      TableStaysBounded(c, cs, n - 1);
      if LimiterAt(c, cs, n - 1).poisoned {
        PoisonPersists(c, LimiterAt(c, cs, n - 1), cs[n - 1]);
      } else {
        StepKeepsBound(c, LimiterAt(c, cs, n - 1), cs[n - 1]);
      }
    }
  }

  /**
    Some legal eviction hits the fresh bucket exactly when the table is over its
    bound and no other bucket started before this instant.
  */
  lemma PanicPossibleIff(c: Config, t: Table, peer: Peer, now: Instant, consumes: bool)
    ensures (exists v :: LegalVictim(c, t, Call(peer, now, consumes, v)) && Panics(c, t, Call(peer, now, consumes, v)))
            <==> && peer !in Unexpired(c, t, now)
                 && |Unexpired(c, t, now)| >= 4096
                 && forall q | q in Unexpired(c, t, now) :: now <= t[q].startedAt
  {
    var call := Call(peer, now, consumes, peer);
    var kept, grown := Unexpired(c, t, now), Grown(c, t, call);
    assert peer !in kept ==> grown.Keys == kept.Keys + {peer};
    assert |grown| == |grown.Keys| && |kept| == |kept.Keys|;
    if Overfull(c, t, call) {
      assert grown == kept[peer := Bucket(now, 0)];
      if forall q | q in kept :: now <= t[q].startedAt {
        assert IsOldest(grown, peer);
        assert LegalVictim(c, t, call) && Panics(c, t, call);
      }
      if v :| LegalVictim(c, t, Call(peer, now, consumes, v)) && Panics(c, t, Call(peer, now, consumes, v)) {
        assert Grown(c, t, Call(peer, now, consumes, v)) == grown;
        assert IsOldest(grown, peer);
        forall q | q in kept ensures now <= t[q].startedAt {
          assert q in grown && grown[q] == t[q];
        }
      }
    }
  }

  /** `n` peers that all made their first call at instant zero. */
  function Crowd(n: nat): (t: Table)
    ensures |t| == n
    ensures forall p | p in t :: p < n && t[p] == Bucket(0, 0)
  {
    if n == 0 then map[] else Crowd(n - 1)[n - 1 := Bucket(0, 0)]
  }

  /** One more peer than the table holds, each checking once at the same instant. */
  function CrowdCalls(): seq<Call> {
    seq(MAX_TRACKED_PEERS + 1, i requires 0 <= i => Call(i, 0, false, i))
  }

  lemma CrowdStep(c: Config, n: nat)
    requires c.Valid() && n <= MAX_TRACKED_PEERS
    ensures Grown(c, Crowd(n), Call(n, 0, false, n)) == Crowd(n + 1)
    ensures Overfull(c, Crowd(n), Call(n, 0, false, n)) <==> n == MAX_TRACKED_PEERS
    ensures LegalVictim(c, Crowd(n), Call(n, 0, false, n))
  {
    assert Unexpired(c, Crowd(n), 0) == Crowd(n);
    assert n !in Crowd(n);
    assert Crowd(n + 1) == Crowd(n)[n := Bucket(0, 0)];
    hide Crowd;
    assert IsOldest(Crowd(n + 1), n);
  }

  lemma {:induction false} CrowdGathers(c: Config, n: nat)
    requires c.Valid() && n <= MAX_TRACKED_PEERS
    ensures LimiterAt(c, CrowdCalls(), n) == Limiter(Crowd(n), false)
  {
    hide Overfull, Grown, Crowd;
    if n > 0 {
      CrowdGathers(c, n - 1);
      CrowdStep(c, n - 1);
      assert CrowdCalls()[n - 1] == Call(n - 1, 0, false, n - 1);
      CrowdEntry(n);
    } else {
      assert Crowd(0) == map[] by { EmptyCrowd(); }
    }
  }

  lemma EmptyCrowd()
    ensures Crowd(0) == map[]
  {
  }

  lemma CrowdEntry(n: nat)
    requires n > 0
    ensures n - 1 in Crowd(n) && Crowd(n)[n - 1 := Crowd(n)[n - 1]] == Crowd(n)
  {
  }

  /**
    It happens: when one peer too many arrives at the instant at which all
    tracked peers first arrived, the eviction may pick the newcomer. That call
    panics, and the limiter then allows everything.
  */
  lemma SimultaneousCrowdPanics(c: Config, later: Call)
    requires c.Valid()
    ensures LegalTrace(c, CrowdCalls())
    ensures AnswerTo(c, LimiterAt(c, CrowdCalls(), MAX_TRACKED_PEERS), CrowdCalls()[MAX_TRACKED_PEERS]) == Panicked
    ensures AnswerTo(c, LimiterAt(c, CrowdCalls(), MAX_TRACKED_PEERS + 1), later) == Said(Allow)
  {
    hide Crowd, Grown, LegalVictim;
    var cs := CrowdCalls();
    forall i | 0 <= i < |cs| ensures LegalVictim(c, LimiterAt(c, cs, i).table, cs[i]) {
      CrowdGathers(c, i);
      CrowdStep(c, i);
    }
    CrowdGathers(c, MAX_TRACKED_PEERS);
    CrowdStep(c, MAX_TRACKED_PEERS);
  }

  lemma {:induction false} BucketsStartInThePast(c: Config, cs: seq<Call>, n: nat, p: Peer)
    requires n <= |cs| && p in LimiterAt(c, cs, n).table
    ensures exists i :: 0 <= i < n && cs[i].now == LimiterAt(c, cs, n).table[p].startedAt
  {
    hide Next;
    if n > 0 {
      var before, after := LimiterAt(c, cs, n - 1).table, LimiterAt(c, cs, n).table;
      StartedNow(c, LimiterAt(c, cs, n - 1), cs[n - 1], p);
      if after[p].startedAt == cs[n - 1].now {
        assert cs[n - 1].now == after[p].startedAt;
      } else {
        BucketsStartInThePast(c, cs, n - 1, p);
      }
    }
  }

  lemma StartedNow(c: Config, l: Limiter, call: Call, p: Peer)
    requires p in Next(c, l, call).table
    ensures (p in l.table && Next(c, l, call).table[p].startedAt == l.table[p].startedAt)
            || Next(c, l, call).table[p].startedAt == call.now
  {
  }

  lemma StrictClockSparesTheFreshBucket(c: Config, cs: seq<Call>, n: nat)
    requires LegalTrace(c, cs) && ClockStrict(cs) && n < |cs|
    ensures !Panics(c, LimiterAt(c, cs, n).table, cs[n])
  {
    hide LimiterAt, Grown;
    var t, call := LimiterAt(c, cs, n).table, cs[n];
    if Panics(c, t, call) {
      TableNotEmptyWhenOverfull(c, t, call);
      PanicPossibleIff(c, t, call.peer, call.now, call.consumes);
      var q :| q in Unexpired(c, t, call.now);
      BucketsStartInThePast(c, cs, n, q);
    }
  }

  lemma PoisonedOnlyByPanic(c: Config, l: Limiter, call: Call)
    requires !l.poisoned && !Panics(c, l.table, call)
    ensures !Next(c, l, call).poisoned && AnswerTo(c, l, call) != Panicked
  {
  }

  /** Under a strictly advancing clock the assertion never fails, so the limiter is never poisoned. */
  lemma {:induction false} StrictClockNeverPanics(c: Config, cs: seq<Call>, n: nat)
    requires LegalTrace(c, cs) && ClockStrict(cs) && n < |cs|
    ensures !LimiterAt(c, cs, n).poisoned
    ensures AnswerTo(c, LimiterAt(c, cs, n), cs[n]) != Panicked
  {
    hide LegalTrace, ClockStrict, Panics, Next, AnswerTo;
    if n > 0 {
      StrictClockNeverPanics(c, cs, n - 1);
      StrictClockSparesTheFreshBucket(c, cs, n - 1);
      PoisonedOnlyByPanic(c, LimiterAt(c, cs, n - 1), cs[n - 1]);
    }
    StrictClockSparesTheFreshBucket(c, cs, n);
    PoisonedOnlyByPanic(c, LimiterAt(c, cs, n), cs[n]);
  }

  lemma TableNotEmptyWhenOverfull(c: Config, t: Table, call: Call)
    requires Overfull(c, t, call)
    ensures Unexpired(c, t, call.now) != map[]
  {
    var kept, grown := Unexpired(c, t, call.now), Grown(c, t, call);
    assert grown.Keys == kept.Keys + {call.peer};
    assert |grown| == |grown.Keys| && |kept| == |kept.Keys|;
  }

  // ---- Each peer as a machine of its own ----

  /** The bucket a lone peer sees: it expires lazily, when next looked at. */
  function Current(c: Config, b: Option<Bucket>, now: Instant): Bucket {
    if b.Some? && !Expired(c, b.value, now) then b.value else Bucket(now, 0)
  }

  function Solo(c: Config, b: Option<Bucket>, call: Call): Bucket {
    Touched(c, Current(c, b, call.now), call)
  }

  /** Peer `p` alone, fed only its own calls. */
  function SoloAt(c: Config, cs: seq<Call>, n: nat, p: Peer): Option<Bucket>
    requires n <= |cs|
  {
    if n == 0 then None
    else if cs[n - 1].peer != p then SoloAt(c, cs, n - 1, p)
    else Some(Solo(c, SoloAt(c, cs, n - 1, p), cs[n - 1]))
  }

  function SoloAnswer(c: Config, cs: seq<Call>, n: nat, p: Peer): Decision
    requires n < |cs|
  {
    Decided(c, Current(c, SoloAt(c, cs, n, p), cs[n].now), cs[n])
  }

  function Lookup(t: Table, p: Peer): Option<Bucket> {
    if p in t then Some(t[p]) else None
  }

  predicate Evicts(c: Config, l: Limiter, call: Call, p: Peer) {
    !l.poisoned && Overfull(c, l.table, call) && call.victim == p
  }

  /** Same bucket, except that the table may already have dropped an expired one. */
  predicate SameBucket(c: Config, shared: Option<Bucket>, solo: Option<Bucket>, now: Instant) {
    shared == solo || (shared == None && solo.Some? && Expired(c, solo.value, now))
  }

  lemma StepKeepsSame(c: Config, l: Limiter, call: Call, solo: Option<Bucket>, p: Peer, before: Instant)
    requires !l.poisoned && !Panics(c, l.table, call) && !Evicts(c, l, call, p)
    requires before <= call.now && SameBucket(c, Lookup(l.table, p), solo, before)
    ensures call.peer == p ==> AnswerTo(c, l, call) == Said(Decided(c, Current(c, solo, call.now), call))
    ensures SameBucket(c, Lookup(Next(c, l, call).table, p),
                       if call.peer == p then Some(Solo(c, solo, call)) else solo, call.now)
  {
  }

  lemma {:induction false} TableMatchesSolo(c: Config, cs: seq<Call>, n: nat, p: Peer, before: Instant)
    requires ClockForward(cs) && n <= |cs|
    requires forall i | 0 <= i < n :: !LimiterAt(c, cs, i).poisoned && !Panics(c, LimiterAt(c, cs, i).table, cs[i])
    requires forall i | 0 <= i < n :: !Evicts(c, LimiterAt(c, cs, i), cs[i], p)
    requires n > 0 ==> before == cs[n - 1].now
    ensures !LimiterAt(c, cs, n).poisoned
    ensures SameBucket(c, Lookup(LimiterAt(c, cs, n).table, p), SoloAt(c, cs, n, p), before)
  {
    if n > 0 {
      var earlier := if n > 1 then cs[n - 2].now else cs[n - 1].now;
      TableMatchesSolo(c, cs, n - 1, p, earlier);
      StepKeepsSame(c, LimiterAt(c, cs, n - 1), cs[n - 1], SoloAt(c, cs, n - 1, p), p, earlier);
    }
  }

  /** A peer that is never evicted gets exactly the answers of its own machine, whatever the others do. */
  lemma PeersAreIndependent(c: Config, cs: seq<Call>, n: nat)
    requires ClockForward(cs) && n < |cs|
    requires forall i | 0 <= i <= n :: !LimiterAt(c, cs, i).poisoned && !Panics(c, LimiterAt(c, cs, i).table, cs[i])
    requires forall i | 0 <= i <= n :: !Evicts(c, LimiterAt(c, cs, i), cs[i], cs[n].peer)
    ensures AnswerTo(c, LimiterAt(c, cs, n), cs[n]) == Said(SoloAnswer(c, cs, n, cs[n].peer))
  {
    var p := cs[n].peer;
    var before := if n > 0 then cs[n - 1].now else cs[n].now;
    TableMatchesSolo(c, cs, n, p, before);
    StepKeepsSame(c, LimiterAt(c, cs, n), cs[n], SoloAt(c, cs, n, p), p, before);
  }
}
