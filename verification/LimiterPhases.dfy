/**
  What one peer's phases guarantee, over every trace: exactly which failures a
  bucket counts, how many consumptions are allowed in any window, how long a
  lockout holds, and when the retry hint is right.
*/
module LimiterPhases {
  import opened Wrappers
  import opened AuthLimiter
  import opened LimiterTraces

  predicate Fails(cs: seq<Call>, i: nat, p: Peer)
    requires i < |cs|
  {
    cs[i].peer == p && cs[i].consumes
  }

  /** Failed authentications of `p` among the first `n` calls, at instants in `[from, to)`. */
  function Failures(cs: seq<Call>, n: nat, p: Peer, from: Instant, to: Instant): nat
    requires n <= |cs|
  {
    if n == 0 then 0
    else Failures(cs, n - 1, p, from, to) + if Fails(cs, n - 1, p) && from <= cs[n - 1].now < to then 1 else 0
  }

  /** Those of them that were answered Allow. */
  function Allowed(c: Config, cs: seq<Call>, n: nat, p: Peer, from: Instant, to: Instant): nat
    requires n <= |cs|
  {
    if n == 0 then 0
    else
      Allowed(c, cs, n - 1, p, from, to)
      + if Fails(cs, n - 1, p) && from <= cs[n - 1].now < to && SoloAnswer(c, cs, n - 1, p) == Allow then 1 else 0
  }

  function Min(a: nat, b: nat): nat {
    if a < b then a else b
  }

  lemma {:induction false} NoFailuresBefore(cs: seq<Call>, n: nat, p: Peer, from: Instant, to: Instant)
    requires n <= |cs|
    requires forall i | 0 <= i < n && Fails(cs, i, p) :: cs[i].now < from
    ensures Failures(cs, n, p, from, to) == 0
  {
    if n > 0 {
      NoFailuresBefore(cs, n - 1, p, from, to);
    }
  }

  // ---- A bucket counts exactly the failures of its window ----

  /** At `t` the bucket is inside its counting window, or locked out. */
  predicate Steady(c: Config, b: Bucket, t: Instant) {
    && b.startedAt <= t
    && t - b.startedAt < c.Lifetime()
    && (t - b.startedAt < c.window || b.consumed == c.maxFailures)
  }

  /** Every earlier failure of the peer precedes the phase, or the phase has been steady since. */
  ghost predicate PhaseOk(c: Config, cs: seq<Call>, n: nat, p: Peer)
    requires n <= |cs|
  {
    var s := SoloAt(c, cs, n, p);
    && (s == None ==> forall i | 0 <= i < n :: !Fails(cs, i, p))
    && (s.Some? ==>
          && s.value.consumed <= c.maxFailures
          && (forall i | 0 <= i < n && Fails(cs, i, p) :: cs[i].now < s.value.startedAt || Steady(c, s.value, cs[i].now))
          && s.value.consumed == Min(c.maxFailures, Failures(cs, n, p, s.value.startedAt, s.value.startedAt + c.window))
          && exists i :: 0 <= i < n && cs[i].peer == p && cs[i].now == s.value.startedAt)
  }

  lemma SameStartStep(c: Config, cs: seq<Call>, n: nat, p: Peer)
    requires c.Valid() && ClockForward(cs) && n < |cs| && cs[n].peer == p && PhaseOk(c, cs, n, p)
    requires SoloAt(c, cs, n, p).Some?
    requires var b := SoloAt(c, cs, n, p).value;
             !Expired(c, b, cs[n].now) && !(cs[n].consumes && RollsOver(c, b, cs[n].now))
    ensures PhaseOk(c, cs, n + 1, p)
  {
    var b, b' := SoloAt(c, cs, n, p).value, SoloAt(c, cs, n + 1, p).value;
    assert b'.startedAt == b.startedAt;
    forall i | 0 <= i < n + 1 && Fails(cs, i, p)
      ensures cs[i].now < b'.startedAt || Steady(c, b', cs[i].now)
    {
    }
  }

  lemma NewStartStep(c: Config, cs: seq<Call>, n: nat, p: Peer)
    requires c.Valid() && ClockForward(cs) && n < |cs| && cs[n].peer == p && PhaseOk(c, cs, n, p)
    requires var s := SoloAt(c, cs, n, p);
             s == None || Expired(c, s.value, cs[n].now) || (cs[n].consumes && RollsOver(c, s.value, cs[n].now))
    ensures PhaseOk(c, cs, n + 1, p)
    ensures SoloAt(c, cs, n + 1, p).value.startedAt == cs[n].now
    ensures forall i | 0 <= i < n && Fails(cs, i, p) :: cs[i].now < cs[n].now
  {
    var now := cs[n].now;
    forall i | 0 <= i < n && Fails(cs, i, p) ensures cs[i].now < now {
      assert cs[i].now <= now;
    }
    NoFailuresBefore(cs, n, p, now, now + c.window);
  }

  lemma {:induction false} CountsExactlyItsWindow(c: Config, cs: seq<Call>, n: nat, p: Peer)
    requires c.Valid() && ClockForward(cs) && n <= |cs|
    ensures PhaseOk(c, cs, n, p)
  {
    hide ClockForward, PhaseOk, Expired, RollsOver, SoloAt;
    if n == 0 {
      EmptyPhaseOk(c, cs, p);
    } else {
      CountsExactlyItsWindow(c, cs, n - 1, p);
      if cs[n - 1].peer != p {
        OtherPeerStep(c, cs, n - 1, p);
      } else {
        var s := SoloAt(c, cs, n - 1, p);
        if s == None || Expired(c, s.value, cs[n - 1].now) || (cs[n - 1].consumes && RollsOver(c, s.value, cs[n - 1].now)) {
          NewStartStep(c, cs, n - 1, p);
        } else {
          SameStartStep(c, cs, n - 1, p);
        }
      }
    }
  }

  lemma EmptyPhaseOk(c: Config, cs: seq<Call>, p: Peer)
    ensures PhaseOk(c, cs, 0, p)
  {
  }

  lemma OtherPeerStep(c: Config, cs: seq<Call>, n: nat, p: Peer)
    requires n < |cs| && cs[n].peer != p && PhaseOk(c, cs, n, p)
    ensures PhaseOk(c, cs, n + 1, p)
  {
  }

  /**
    A denial at call `n` means the budget was spent inside one window: the phase
    start is the instant of one of the peer's calls, and at least `maxFailures`
    of its failures fall in the window that begins there.
  */
  lemma DenialMeansBudgetSpent(c: Config, cs: seq<Call>, n: nat, p: Peer)
    requires c.Valid() && ClockForward(cs) && n < |cs| && cs[n].peer == p
    requires SoloAnswer(c, cs, n, p).Deny?
    ensures var b := SoloAt(c, cs, n + 1, p).value;
            && b.consumed == c.maxFailures
            && Failures(cs, n + 1, p, b.startedAt, b.startedAt + c.window) >= c.maxFailures
            && b.startedAt <= cs[n].now < b.startedAt + c.window + c.lockout
  {
    CountsExactlyItsWindow(c, cs, n, p);
    CountsExactlyItsWindow(c, cs, n + 1, p);
    assert SoloAt(c, cs, n + 1, p).Some?;
  }

  // ---- Phases, told from the calls alone ----

  /**
    The phase that began at `start` is over for call `n`: its lockout has run
    out, or the call is a failure after the window closed below the budget.
    A check never ends a window.
  */
  predicate EndsPhase(c: Config, cs: seq<Call>, n: nat, p: Peer, start: Instant)
    requires n < |cs|
  {
    || cs[n].now >= start + c.window + c.lockout
    || (cs[n].consumes && cs[n].now >= start + c.window && Failures(cs, n, p, start, start + c.window) < c.maxFailures)
  }

  /** Where the peer's phase began: at its first call, and then at each call that finds the phase over. */
  function PhaseStart(c: Config, cs: seq<Call>, n: nat, p: Peer): Option<Instant>
    requires n <= |cs|
  {
    if n == 0 then None
    else
      var before := PhaseStart(c, cs, n - 1, p);
      if cs[n - 1].peer != p then before
      else if before.None? || EndsPhase(c, cs, n - 1, p, before.value) then Some(cs[n - 1].now)
      else before
  }

  /** The bucket's start is the start of that phase, on every trace. */
  lemma {:induction false} PhasesBeginAsTold(c: Config, cs: seq<Call>, n: nat, p: Peer)
    requires c.Valid() && ClockForward(cs) && n <= |cs|
    ensures SoloAt(c, cs, n, p).Some? <==> PhaseStart(c, cs, n, p).Some?
    ensures SoloAt(c, cs, n, p).Some? ==> PhaseStart(c, cs, n, p).value == SoloAt(c, cs, n, p).value.startedAt
  {
    if n > 0 {
      PhasesBeginAsTold(c, cs, n - 1, p);
      CountsExactlyItsWindow(c, cs, n - 1, p);
      hide Failures;
    }
  }

  /**
    The whole limiter in one rule. A call is denied exactly when the failures of
    its phase's window, this call included, reach the budget.
  */
  lemma DeniedIffBudgetSpent(c: Config, cs: seq<Call>, n: nat, p: Peer)
    requires c.Valid() && ClockForward(cs) && n < |cs| && cs[n].peer == p
    ensures PhaseStart(c, cs, n + 1, p).Some?
    ensures var start := PhaseStart(c, cs, n + 1, p).value;
            SoloAnswer(c, cs, n, p).Deny? <==> Failures(cs, n + 1, p, start, start + c.window) >= c.maxFailures
  {
    PhasesBeginAsTold(c, cs, n + 1, p);
    CountsExactlyItsWindow(c, cs, n + 1, p);
    CountsExactlyItsWindow(c, cs, n, p);
    assert SoloAt(c, cs, n + 1, p).Some?;
    hide Failures, PhaseStart;
  }

  /** Successive phases of a peer begin at least a window apart. */
  lemma {:induction false} PhasesAreSpaced(c: Config, cs: seq<Call>, m: nat, n: nat, p: Peer)
    requires c.Valid() && ClockForward(cs) && m <= n <= |cs| && PhaseStart(c, cs, m, p).Some?
    ensures PhaseStart(c, cs, n, p).Some?
    ensures PhaseStart(c, cs, n, p) != PhaseStart(c, cs, m, p) ==>
              PhaseStart(c, cs, n, p).value >= PhaseStart(c, cs, m, p).value + c.window
    decreases n
  {
    if m < n {
      PhasesAreSpaced(c, cs, m, n - 1, p);
    }
  }

  /**
    In the shared table a check leaves every unexpired bucket exactly as found,
    the checked peer's included, unless it is evicted; a peer without one gets
    an empty bucket that starts now.
  */
  lemma CheckLeavesBucketsAlone(c: Config, l: Limiter, call: Call, p: Peer)
    requires c.Valid() && !l.poisoned && !call.consumes && !Panics(c, l.table, call) && !Evicts(c, l, call, p)
    ensures var t := Next(c, l, call).table;
            && (p in l.table && call.now < l.table[p].startedAt + c.window + c.lockout ==> p in t && t[p] == l.table[p])
            && (p == call.peer && (p !in l.table || call.now >= l.table[p].startedAt + c.window + c.lockout) ==>
                  p in t && t[p] == Bucket(call.now, 0))
  {
  }

  // ---- Lockout ----

  lemma {:induction false} LockedBucketIsFrozen(c: Config, cs: seq<Call>, n: nat, m: nat, p: Peer)
    requires c.Valid() && ClockForward(cs) && n <= m <= |cs|
    requires SoloAt(c, cs, n, p).Some? && SoloAt(c, cs, n, p).value.consumed >= c.maxFailures
    requires forall i | n <= i < m && cs[i].peer == p :: cs[i].now < SoloAt(c, cs, n, p).value.startedAt + c.Lifetime()
    ensures SoloAt(c, cs, m, p) == SoloAt(c, cs, n, p)
    decreases m
  {
    if n < m {
      LockedBucketIsFrozen(c, cs, n, m - 1, p);
    }
  }

  /** Once denied, every later check and consumption before start + window + lockout is denied. */
  lemma LockoutHolds(c: Config, cs: seq<Call>, n: nat, m: nat, p: Peer)
    requires c.Valid() && ClockForward(cs) && n < m < |cs| && cs[n].peer == p && cs[m].peer == p
    requires SoloAnswer(c, cs, n, p).Deny?
    requires cs[m].now < SoloAt(c, cs, n + 1, p).value.startedAt + c.window + c.lockout
    ensures SoloAnswer(c, cs, m, p).Deny?
    ensures SoloAt(c, cs, m + 1, p) == SoloAt(c, cs, n + 1, p)
  {
    DenialMeansBudgetSpent(c, cs, n, p);
    LockedBucketIsFrozen(c, cs, n + 1, m, p);
    LockedBucketIsFrozen(c, cs, n + 1, m + 1, p);
  }

  /** ... and the first call after it is judged by a fresh phase: a check is allowed, a lone failure too if the budget is above one. */
  lemma LockoutEnds(c: Config, cs: seq<Call>, n: nat, m: nat, p: Peer)
    requires c.Valid() && ClockForward(cs) && n < m < |cs| && cs[n].peer == p && cs[m].peer == p
    requires SoloAnswer(c, cs, n, p).Deny?
    requires var start := SoloAt(c, cs, n + 1, p).value.startedAt;
             && cs[m].now >= start + c.window + c.lockout
             && forall i | n < i < m && cs[i].peer == p :: cs[i].now < start + c.window + c.lockout
    ensures SoloAnswer(c, cs, m, p) == Allow <==> !cs[m].consumes || c.maxFailures >= 2
    ensures SoloAt(c, cs, m + 1, p).value.startedAt == cs[m].now
  {
    DenialMeansBudgetSpent(c, cs, n, p);
    LockedBucketIsFrozen(c, cs, n + 1, m, p);
  }

  // ---- The retry hint ----

  /** The denial time that is really left after the call. */
  function TrueRemaining(c: Config, b: Bucket, now: Instant): int {
    b.startedAt + c.window + c.lockout - now
  }

  lemma RoundedWithinASecond(lifetime: nat, elapsed: nat)
    requires elapsed < lifetime
    ensures var error := RemainingSecs(lifetime, elapsed) * 1_000_000_000 - (lifetime - elapsed);
            -1_000_000_000 < error < 1_000_000_000 && (lifetime - elapsed >= 1_000_000_000 ==> error <= 0)
  {
    var left := lifetime - elapsed;
    assert left == (left / SECOND) * SECOND + left % SECOND;
  }

  predicate WithinASecond(error: int) {
    -1_000_000_000 < error < 1_000_000_000
  }

  /** A call with a budget of one that finds a window closed without a failure, and the phase not yet over. */
  predicate FindsStaleWindow(c: Config, cs: seq<Call>, n: nat, p: Peer)
    requires n < |cs|
  {
    var start := PhaseStart(c, cs, n, p);
    && c.maxFailures == 1 && cs[n].consumes && start.Some?
    && Failures(cs, n, p, start.value, start.value + c.window) == 0
    && start.value + c.window <= cs[n].now < start.value + c.window + c.lockout
  }

  /** How far the hint of a denial is from the denial time really left. */
  function HintError(c: Config, cs: seq<Call>, n: nat, p: Peer): int
    requires n < |cs| && cs[n].peer == p && SoloAnswer(c, cs, n, p).Deny?
  {
    SoloAnswer(c, cs, n, p).retryAfterSecs * 1_000_000_000 - TrueRemaining(c, SoloAt(c, cs, n + 1, p).value, cs[n].now)
  }

  /**
    The hint is within one second of the truth, and never exceeds it once at
    least a second is left, unless the call finds a stale window; so always for
    budgets of at least two. When it does find one, a window of two seconds or
    more makes the hint too short by more than a second.
  */
  lemma HintWithinASecondIff(c: Config, cs: seq<Call>, n: nat, p: Peer)
    requires c.Valid() && ClockForward(cs) && n < |cs| && cs[n].peer == p
    requires SoloAnswer(c, cs, n, p).Deny?
    ensures !FindsStaleWindow(c, cs, n, p) ==>
              && WithinASecond(HintError(c, cs, n, p))
              && (TrueRemaining(c, SoloAt(c, cs, n + 1, p).value, cs[n].now) >= 1_000_000_000 ==> HintError(c, cs, n, p) <= 0)
    ensures FindsStaleWindow(c, cs, n, p) && c.window >= 2_000_000_000 ==> !WithinASecond(HintError(c, cs, n, p))
  {
    DenialMeansBudgetSpent(c, cs, n, p);
    PhasesBeginAsTold(c, cs, n, p);
    CountsExactlyItsWindow(c, cs, n, p);
    var now, found, left := cs[n].now, Current(c, SoloAt(c, cs, n, p), cs[n].now), SoloAt(c, cs, n + 1, p).value;
    hide Failures, PhaseStart;
    if FindsStaleWindow(c, cs, n, p) {
      assert left == Bucket(now, 1);
      StaleHintBound(c, now - found.startedAt);
    } else {
      assert found.startedAt == left.startedAt;
      RoundedWithinASecond(c.Lifetime(), Elapsed(now, left.startedAt));
    }
  }

  lemma StaleHintBound(c: Config, elapsed: nat)
    requires c.window <= elapsed < c.window + c.lockout
    ensures c.window >= 2_000_000_000 ==>
              RemainingSecs(c.Lifetime(), elapsed) * 1_000_000_000 - (c.window + c.lockout) <= -1_000_000_000
  {
    var left := c.Lifetime() - elapsed;
    assert left == (left / SECOND) * SECOND + left % SECOND;
  }

  predicate WholeSeconds(c: Config) {
    c.window % SECOND == 0 && c.lockout % SECOND == 0
  }

  /**
    A consumption's hint is computed from the phase it found. It is the hint of
    the phase it leaves behind exactly when the budget is above one or the call
    did not roll the phase over (windows configured in whole seconds).
  */
  lemma HintExactIff(c: Config, b: Bucket, now: Instant)
    requires c.Valid() && WholeSeconds(c) && b.startedAt <= now && !Expired(c, b, now)
    requires b.consumed <= c.maxFailures && ChargeDecision(c, b, now).Deny?
    ensures ChargeDecision(c, b, now).retryAfterSecs == RemainingSecs(c.window + c.lockout, now - Charged(c, b, now).startedAt)
            <==> c.maxFailures >= 2 || !RollsOver(c, b, now)
  {
    if c.maxFailures == 1 && RollsOver(c, b, now) {
      StaleHintIsShort(c, Elapsed(now, b.startedAt));
    }
  }

  lemma StaleHintIsShort(c: Config, elapsed: nat)
    requires c.Valid() && WholeSeconds(c) && c.window <= elapsed < c.Lifetime()
    ensures RemainingSecs(c.Lifetime(), elapsed) < RemainingSecs(c.Lifetime(), 0)
  {
    var w, l := c.window / SECOND, c.lockout / SECOND;
    assert c.window == w * SECOND && c.lockout == l * SECOND;
    assert c.Lifetime() == (w + l) * SECOND;
    assert w >= 1 && l >= 1;
    var left := c.Lifetime() - elapsed;
    assert left <= l * SECOND;
    assert left / SECOND <= l;
    assert c.Lifetime() / SECOND == w + l;
  }

  /** Budget one, a minute's window, five minutes' lockout: a failure two minutes after an earlier check. */
  lemma HintExample()
    ensures var c := Config(1, 60 * SECOND, 300 * SECOND);
            var b, now := Bucket(0, 0), 120 * SECOND;
            && ChargeDecision(c, b, now) == Deny(240)
            && TrueRemaining(c, Charged(c, b, now), now) == 360 * SECOND
  {
  }

  // ---- The sliding window ----

  /** The count is split by whether the current phase began inside the interval. */
  ghost predicate WindowOk(c: Config, cs: seq<Call>, n: nat, p: Peer, from: Instant)
    requires c.Valid() && n <= |cs|
  {
    var got := Allowed(c, cs, n, p, from, from + c.window);
    match SoloAt(c, cs, n, p)
    case None => got == 0
    case Some(b) =>
      if b.startedAt < from then got <= Min(b.consumed, c.maxFailures - 1)
      else got <= c.maxFailures - 1 + Min(b.consumed, c.maxFailures - 1)
  }

  lemma {:induction false} NoneAllowedBefore(c: Config, cs: seq<Call>, n: nat, p: Peer, from: Instant, to: Instant)
    requires n <= |cs|
    requires forall i | 0 <= i < n :: cs[i].now < from
    ensures Allowed(c, cs, n, p, from, to) == 0
  {
    if n > 0 {
      NoneAllowedBefore(c, cs, n - 1, p, from, to);
    }
  }

  lemma WindowStep(c: Config, cs: seq<Call>, n: nat, p: Peer, from: Instant)
    requires c.Valid() && ClockForward(cs) && n < |cs| && cs[n].now < from + c.window && cs[n].peer == p
    requires WindowOk(c, cs, n, p, from) && PhaseOk(c, cs, n, p)
    ensures WindowOk(c, cs, n + 1, p, from)
  {
    if cs[n].now < from {
      NoneAllowedBefore(c, cs, n + 1, p, from, from + c.window);
    }
  }

  lemma {:induction false} WindowHolds(c: Config, cs: seq<Call>, n: nat, p: Peer, from: Instant)
    requires c.Valid() && ClockForward(cs) && n <= |cs|
    requires forall i | 0 <= i < n :: cs[i].now < from + c.window
    ensures WindowOk(c, cs, n, p, from)
  {
    if n > 0 {
      WindowHolds(c, cs, n - 1, p, from);
      CountsExactlyItsWindow(c, cs, n - 1, p);
      if cs[n - 1].peer == p {
        WindowStep(c, cs, n - 1, p, from);
      }
    }
  }

  /**
    Over every trace, any half-open interval as long as the failure window holds
    at most `2 * (maxFailures - 1)` consumptions of a peer that were allowed.
  */
  lemma {:induction false} AllowedInAnyWindow(c: Config, cs: seq<Call>, n: nat, p: Peer, from: Instant)
    requires c.Valid() && ClockForward(cs) && n <= |cs|
    ensures Allowed(c, cs, n, p, from, from + c.window) <= 2 * (c.maxFailures - 1)
  {
    if n > 0 && cs[n - 1].now >= from + c.window {
      AllowedInAnyWindow(c, cs, n - 1, p, from);
    } else {
      WindowHolds(c, cs, n, p, from);
    }
  }

  /** The same count, of the answers the shared table gave. */
  function AllowedByTable(c: Config, cs: seq<Call>, n: nat, p: Peer, from: Instant, to: Instant): nat
    requires n <= |cs|
  {
    if n == 0 then 0
    else
      AllowedByTable(c, cs, n - 1, p, from, to)
      + if Fails(cs, n - 1, p) && from <= cs[n - 1].now < to && AnswerTo(c, LimiterAt(c, cs, n - 1), cs[n - 1]) == Said(Allow) then 1 else 0
  }

  /** No panic, and no eviction of `p`, during the first `n` calls. */
  ghost predicate Undisturbed(c: Config, cs: seq<Call>, n: nat, p: Peer)
    requires n <= |cs|
  {
    && (forall i | 0 <= i < n :: !LimiterAt(c, cs, i).poisoned && !Panics(c, LimiterAt(c, cs, i).table, cs[i]))
    && (forall i | 0 <= i < n :: !Evicts(c, LimiterAt(c, cs, i), cs[i], p))
  }

  lemma {:induction false} TableCountsLikeSolo(c: Config, cs: seq<Call>, n: nat, p: Peer, from: Instant, to: Instant)
    requires c.Valid() && ClockForward(cs) && n <= |cs| && Undisturbed(c, cs, n, p)
    ensures AllowedByTable(c, cs, n, p, from, to) == Allowed(c, cs, n, p, from, to)
  {
    hide LimiterAt, AnswerTo, SoloAnswer, Panics, Evicts;
    if n > 0 {
      TableCountsLikeSolo(c, cs, n - 1, p, from, to);
      if cs[n - 1].peer == p {
        PeersAreIndependent(c, cs, n - 1);
      }
    }
  }

  /** The bound for the shared table, whatever the other peers do. */
  lemma TableAllowedInAnyWindow(c: Config, cs: seq<Call>, n: nat, p: Peer, from: Instant)
    requires c.Valid() && ClockForward(cs) && n <= |cs| && Undisturbed(c, cs, n, p)
    ensures AllowedByTable(c, cs, n, p, from, from + c.window) <= 2 * (c.maxFailures - 1)
  {
    hide *;
    TableCountsLikeSolo(c, cs, n, p, from, from + c.window);
    AllowedInAnyWindow(c, cs, n, p, from);
  }

  /** The rule for the shared table: an undisturbed peer is denied exactly when its own phase's budget is spent. */
  lemma TableDeniesIffBudgetSpent(c: Config, cs: seq<Call>, n: nat, p: Peer)
    requires c.Valid() && ClockForward(cs) && n < |cs| && cs[n].peer == p && Undisturbed(c, cs, n + 1, p)
    ensures PhaseStart(c, cs, n + 1, p).Some?
    ensures var start := PhaseStart(c, cs, n + 1, p).value;
            var answer := AnswerTo(c, LimiterAt(c, cs, n), cs[n]);
            && answer.Said?
            && (answer.decision.Deny? <==> Failures(cs, n + 1, p, start, start + c.window) >= c.maxFailures)
  {
    hide LimiterAt, AnswerTo, SoloAnswer, Panics, Evicts, Failures, PhaseStart, ClockForward;
    PeersAreIndependent(c, cs, n);
    DeniedIffBudgetSpent(c, cs, n, p);
  }

  /** A check at zero, then `maxFailures - 1` failures just before the window closes and as many at its end. */
  function BurstAcrossRollover(c: Config): seq<Call>
    requires c.Valid()
  {
    seq(2 * c.maxFailures - 1, i => Call(0, if i == 0 then 0 else if i < c.maxFailures then c.window - 1 else c.window, i > 0, 0))
  }

  /** Where the burst stands after `n` calls. */
  function BurstBucket(c: Config, n: nat): Bucket
    requires 0 < n
  {
    if n <= c.maxFailures then Bucket(0, n - 1) else Bucket(c.window, n - c.maxFailures)
  }

  lemma BurstStep(c: Config, n: nat)
    requires c.Valid() && c.window >= 2 && 1 < n <= 2 * c.maxFailures - 1
    ensures var call := BurstAcrossRollover(c)[n - 1];
            && call.peer == 0 && call.consumes && c.window - 1 <= call.now < 2 * c.window - 1
            && Solo(c, Some(BurstBucket(c, n - 1)), call) == BurstBucket(c, n)
            && Decided(c, Current(c, Some(BurstBucket(c, n - 1)), call.now), call) == Allow
  {
    assert BurstAcrossRollover(c)[n - 1] == Call(0, if n - 1 < c.maxFailures then c.window - 1 else c.window, true, 0);
  }

  lemma {:induction false} BurstGoesThrough(c: Config, n: nat)
    requires c.Valid() && c.window >= 2 && 0 < n <= 2 * c.maxFailures - 1
    ensures var cs := BurstAcrossRollover(c);
            && SoloAt(c, cs, n, 0) == Some(BurstBucket(c, n))
            && Allowed(c, cs, n, 0, c.window - 1, 2 * c.window - 1) == n - 1
  {
    var cs := BurstAcrossRollover(c);
    if n == 1 {
      assert SoloAt(c, cs, 0, 0) == None;
    } else {
      BurstGoesThrough(c, n - 1);
      BurstStep(c, n);
      hide BurstAcrossRollover, BurstBucket, Solo, Decided, Current;
    }
  }

  /** The bound is exact: some trace gets that many through in one window. */
  lemma AllowedBoundIsTight(c: Config)
    requires c.Valid() && c.window >= 2
    ensures var cs := BurstAcrossRollover(c);
            && ClockForward(cs)
            && Allowed(c, cs, |cs|, 0, c.window - 1, c.window - 1 + c.window) == 2 * (c.maxFailures - 1)
  {
    BurstGoesThrough(c, 2 * c.maxFailures - 1);
  }
}
