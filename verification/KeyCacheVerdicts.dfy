/**
  What becomes of a verification, over any interleaving: which events accept or
  reject it, when it forces or joins a refresh, where its material comes from and
  which kids are remembered.
*/
module KeyCacheVerdicts {
  import opened Wrappers
  import opened KeyCache
  import opened KeyCacheRuns

  // ---- What each event means for the task it names ----

  /** The kid is unknown to the material, or the signature is bad. */
  predicate RotationFailure(sys: System, t: nat, badSignature: bool)
    requires t in sys.tasks && sys.tasks[t].Verifying?
  {
    sys.tasks[t].kid !in sys.tasks[t].material.kids || badSignature
  }

  /** The kid is not listed and every forced refresh lies at least thirty seconds back. */
  ghost predicate RefreshAllowed(sys: System, kid: Kid, now: Instant) {
    kid !in sys.cache.negative && forall i | 0 <= i < |sys.forced| :: now - sys.forced[i] >= 30_000
  }

  lemma MayRefreshIff(sys: System, kid: Kid, now: Instant)
    requires Inv(sys)
    ensures MayRefresh(sys.cache, kid, now) <==> RefreshAllowed(sys, kid, now)
  {
  }

  /** A first failure of `t` that forces a refresh. */
  ghost predicate Forces(sys: System, e: Event, t: nat) {
    && e.VerifyFails? && e.task == t && t in sys.tasks && sys.tasks[t].Verifying?
    && RotationFailure(sys, t, e.badSignature)
    && RefreshAllowed(sys, sys.tasks[t].kid, e.checkedAt)
  }

  /** Every way in which a verification is rejected. */
  ghost predicate Rejects(sys: System, e: Event, t: nat) {
    && t in sys.tasks
    && match e
       case Resume(task) =>
         && task == t && Awaits(sys.tasks[t]) && sys.tasks[t].load < |sys.loads|
         && sys.loads[sys.tasks[t].load] == Settled(None)
       case AlgorithmRefused(task) => task == t
       case VerifyFails(task, badSignature, checkedAt, _) =>
         && task == t
         && (|| sys.tasks[t].VerifyingAgain?
             || (&& sys.tasks[t].Verifying?
                 && (|| !RotationFailure(sys, t, badSignature)
                     || (!RefreshAllowed(sys, sys.tasks[t].kid, checkedAt) && sys.cache.request.None?))))
       case _ => false
  }

  predicate Ended(sys: System, t: nat, accepted: bool) {
    t in sys.tasks && sys.tasks[t] == Finished(accepted)
  }

  lemma StepVerdict(sys: System, e: Event, t: nat)
    requires Enabled(sys, e) && Inv(sys)
    ensures Ended(Next(sys, e), t, true) <==> Ended(sys, t, true) || e == VerifyOk(t)
    ensures Ended(Next(sys, e), t, false) <==> Ended(sys, t, false) || Rejects(sys, e, t)
  {
    if e.VerifyFails? {
      FailureVerdict(sys, e, t);
    } else {
      hide Inv, RefreshAllowed;
    }
  }

  lemma FailureVerdict(sys: System, e: Event, t: nat)
    requires Enabled(sys, e) && Inv(sys) && e.VerifyFails?
    ensures Ended(Next(sys, e), t, true) <==> Ended(sys, t, true)
    ensures Ended(Next(sys, e), t, false) <==> Ended(sys, t, false) || Rejects(sys, e, t)
  {
    if sys.tasks[e.task].Verifying? {
      MayRefreshIff(sys, sys.tasks[e.task].kid, e.checkedAt);
    }
    hide Inv, RefreshAllowed;
  }

  lemma StepOfRun(clock: Instant, es: seq<Event>, states: seq<System>, n: nat)
    requires Run(clock, es, states) && n < |es|
    ensures |states| == |es| + 1
    ensures Enabled(states[n], es[n]) && states[n + 1] == Next(states[n], es[n]) && Inv(states[n])
  {
    RunKeepsInv(clock, es, states, n);
  }

  lemma RunStarts(clock: Instant, es: seq<Event>, states: seq<System>)
    requires Run(clock, es, states)
    ensures states[0].tasks == map[] && states[0].loads == [] && states[0].cache.cached == None && states[0].forced == []
  {
  }

  /** A verification has accepted its token exactly when it passed, and rejected it exactly for one of the reasons above. */
  lemma {:induction false} VerdictIff(clock: Instant, es: seq<Event>, states: seq<System>, n: nat, t: nat)
    requires Run(clock, es, states) && n <= |es|
    ensures Ended(states[n], t, true) <==> exists i :: 0 <= i < n && es[i] == VerifyOk(t)
    ensures Ended(states[n], t, false) <==> exists i :: 0 <= i < n && Rejects(states[i], es[i], t)
  {
    if n == 0 {
      RunStarts(clock, es, states);
    } else {
      VerdictIff(clock, es, states, n - 1, t);
      StepOfRun(clock, es, states, n - 1);
      hide Rejects, Inv, Enabled, Next, Run;
      StepVerdict(states[n - 1], es[n - 1], t);
    }
  }

  // ---- Starting, forcing and joining loads ----

  /** `sys'` awaits the load that was pending in `sys`, or one started just now. */
  predicate AwaitsPending(sys: System, sys': System, load: LoadId) {
    && sys'.cache.request == Some(load)
    && (sys.cache.request.Some? ==> sys.cache.request == Some(load) && sys'.loads == sys.loads)
    && (sys.cache.request.None? ==> load == |sys.loads| && sys'.loads == sys.loads + [Fetching])
  }

  /** A verification starts on material less than five minutes old, or awaits a load that it starts only if none is pending. */
  lemma BeginEffect(sys: System, e: Event)
    requires Enabled(sys, e) && e.Begin?
    ensures var sys' := Next(sys, e);
            var cached := sys.cache.cached;
            && e.task in sys'.tasks
            && if cached.Some? && e.at - cached.value.cachedAt < 300_000
               then sys'.tasks[e.task] == Verifying(e.kid, cached.value) && sys'.loads == sys.loads && sys'.cache == sys.cache
               else && sys'.tasks[e.task].AwaitMaterial? && sys'.tasks[e.task].kid == e.kid
                    && AwaitsPending(sys, sys', sys'.tasks[e.task].load)
  {
  }

  /**
    A rotation failure forces a refresh when its kid is not listed and the
    cooldown is over, joins a pending load when it may not, and otherwise ends
    the verification.
  */
  lemma RotationFailureEffect(sys: System, e: Event)
    requires Enabled(sys, e) && Inv(sys) && e.VerifyFails?
    requires sys.tasks[e.task].Verifying? && RotationFailure(sys, e.task, e.badSignature)
    ensures var sys' := Next(sys, e);
            var kid := sys.tasks[e.task].kid;
            && e.task in sys'.tasks
            && (RefreshAllowed(sys, kid, e.checkedAt) ==>
                  && sys'.tasks[e.task].AwaitRefresh? && sys'.tasks[e.task].kid == kid
                  && AwaitsPending(sys, sys', sys'.tasks[e.task].load)
                  && sys'.forced == sys.forced + [e.at])
            && (!RefreshAllowed(sys, kid, e.checkedAt) ==>
                  && sys'.forced == sys.forced && sys'.loads == sys.loads && sys'.cache == sys.cache
                  && sys'.tasks[e.task] == match sys.cache.request
                                           case Some(load) => AwaitJoined(kid, load)
                                           case None => Finished(false))
  {
    MayRefreshIff(sys, sys.tasks[e.task].kid, e.checkedAt);
    hide Inv, RefreshAllowed;
  }

  /** An awaited load that delivered material sends each task on with that material. */
  lemma ResumeEffect(sys: System, e: Event, m: Material)
    requires Enabled(sys, e) && e.Resume? && sys.loads[sys.tasks[e.task].load] == Settled(Some(m))
    ensures var t := sys.tasks[e.task];
            var sys' := Next(sys, e);
            && sys' == sys.(tasks := sys'.tasks)
            && e.task in sys'.tasks
            && sys'.tasks[e.task] == match t
                                     case AwaitMaterial(kid, _) => Verifying(kid, m)
                                     case AwaitJoined(kid, _) => VerifyingAgain(kid, m, false)
                                     case _ => VerifyingAgain(t.kid, m, true)
  {
  }

  /** An event of one task leaves every other task where it was. */
  lemma OtherTasksStay(sys: System, e: Event, t: nat)
    requires Enabled(sys, e) && t in sys.tasks
    requires e.LoadArrives? || e.LoadFails? || e.LoadSettles? || e.task != t
    ensures t in Next(sys, e).tasks && Next(sys, e).tasks[t] == sys.tasks[t]
  {
  }

  // ---- Where material comes from ----

  ghost predicate Arrived(es: seq<Event>, n: nat, m: Material)
    requires n <= |es|
  {
    exists i, load :: 0 <= i < n && es[i] == LoadArrives(load, m)
  }

  /** Material that a load holds. */
  ghost predicate Held(sys: System, m: Material) {
    exists id: LoadId :: id < |sys.loads| && (sys.loads[id] == Stored(m) || sys.loads[id] == Settled(Some(m)))
  }

  /** Material that a verification works with. */
  ghost predicate WorkedWith(sys: System, m: Material) {
    exists t :: t in sys.tasks && (sys.tasks[t].Verifying? || sys.tasks[t].VerifyingAgain?) && sys.tasks[t].material == m
  }

  ghost predicate InUse(sys: System, m: Material) {
    sys.cache.cached == Some(m) || Held(sys, m) || WorkedWith(sys, m)
  }

  lemma StepHolds(sys: System, e: Event, m: Material)
    requires Enabled(sys, e) && Held(Next(sys, e), m)
    ensures Held(sys, m) || (e.LoadArrives? && e.material == m)
  {
  }

  lemma StepWorksWith(sys: System, e: Event, m: Material)
    requires Enabled(sys, e) && WorkedWith(Next(sys, e), m)
    ensures InUse(sys, m)
  {
    var t :| t in Next(sys, e).tasks && (Next(sys, e).tasks[t].Verifying? || Next(sys, e).tasks[t].VerifyingAgain?)
             && Next(sys, e).tasks[t].material == m;
    if t in sys.tasks && Next(sys, e).tasks[t] == sys.tasks[t] {
      assert WorkedWith(sys, m);
    } else if e.Resume? {
      assert sys.loads[sys.tasks[t].load] == Settled(Some(m));
    }
  }

  lemma StepBringsMaterial(sys: System, e: Event, m: Material)
    requires Enabled(sys, e) && InUse(Next(sys, e), m)
    ensures InUse(sys, m) || (e.LoadArrives? && e.material == m)
  {
    if Held(Next(sys, e), m) {
      StepHolds(sys, e, m);
    } else if WorkedWith(Next(sys, e), m) {
      StepWorksWith(sys, e, m);
    } else {
      hide Held, WorkedWith;
    }
  }

  /** Whatever a verification uses was delivered by a load. */
  lemma {:induction false} MaterialWasLoaded(clock: Instant, es: seq<Event>, states: seq<System>, n: nat, m: Material)
    requires Run(clock, es, states) && n <= |es| && InUse(states[n], m)
    ensures Arrived(es, n, m)
  {
    if n == 0 {
      RunStarts(clock, es, states);
    } else {
      StepOfRun(clock, es, states, n - 1);
      hide Inv, Enabled, Next, Run, InUse;
      StepBringsMaterial(states[n - 1], es[n - 1], m);
      if InUse(states[n - 1], m) {
        MaterialWasLoaded(clock, es, states, n - 1, m);
      }
    }
  }

  /** The material of the latest load that arrived. */
  function LatestMaterial(es: seq<Event>, n: nat): Option<Material>
    requires n <= |es|
  {
    if n == 0 then None
    else if es[n - 1].LoadArrives? then Some(es[n - 1].material)
    else LatestMaterial(es, n - 1)
  }

  lemma {:induction false} CacheHoldsTheLatest(clock: Instant, es: seq<Event>, states: seq<System>, n: nat)
    requires Run(clock, es, states) && n <= |es|
    ensures states[n].cache.cached == LatestMaterial(es, n)
  {
    if n == 0 {
      RunStarts(clock, es, states);
    } else {
      CacheHoldsTheLatest(clock, es, states, n - 1);
      StepOfRun(clock, es, states, n - 1);
      hide Inv, Run;
    }
  }

  // ---- Which kids are remembered ----

  /** `t` forced a refresh among the first `n` events. */
  ghost predicate Forced(es: seq<Event>, states: seq<System>, n: nat, t: nat)
    requires n <= |es| && n <= |states|
  {
    exists i :: 0 <= i < n && Forces(states[i], es[i], t)
  }

  /** The task is on the path that follows a forced refresh. */
  predicate AfterRefresh(sys: System, t: nat) {
    t in sys.tasks && (sys.tasks[t].AwaitRefresh? || (sys.tasks[t].VerifyingAgain? && sys.tasks[t].remember))
  }

  predicate Pending(sys: System, t: nat) {
    t in sys.tasks && !sys.tasks[t].Finished?
  }

  lemma StepOntoRefreshPath(sys: System, e: Event, t: nat)
    requires Enabled(sys, e) && Inv(sys)
    ensures t in sys.tasks ==> t in Next(sys, e).tasks
    ensures Pending(Next(sys, e), t) && t in sys.tasks ==> Pending(sys, t)
    ensures Pending(Next(sys, e), t) ==> (AfterRefresh(Next(sys, e), t) <==> AfterRefresh(sys, t) || Forces(sys, e, t))
  {
    if e.VerifyFails? {
      FailureOntoRefreshPath(sys, e, t);
    } else {
      hide Inv, Forces;
      assert !Forces(sys, e, t) by { OnlyFailuresForce(sys, e, t); }
    }
  }

  lemma OnlyFailuresForce(sys: System, e: Event, t: nat)
    requires !e.VerifyFails?
    ensures !Forces(sys, e, t)
  {
  }

  lemma FailureOntoRefreshPath(sys: System, e: Event, t: nat)
    requires Enabled(sys, e) && Inv(sys) && e.VerifyFails?
    ensures t in sys.tasks ==> t in Next(sys, e).tasks
    ensures Pending(Next(sys, e), t) ==> Pending(sys, t)
    ensures Pending(Next(sys, e), t) ==> (AfterRefresh(Next(sys, e), t) <==> AfterRefresh(sys, t) || Forces(sys, e, t))
  {
    if sys.tasks[e.task].Verifying? {
      MayRefreshIff(sys, sys.tasks[e.task].kid, e.checkedAt);
    }
    hide Inv, RefreshAllowed;
  }

  lemma {:induction false} OnRefreshPathIffForced(clock: Instant, es: seq<Event>, states: seq<System>, n: nat, t: nat)
    requires Run(clock, es, states) && n <= |es|
    ensures t !in states[n].tasks ==> !Forced(es, states, n, t)
    ensures Pending(states[n], t) ==> (AfterRefresh(states[n], t) <==> Forced(es, states, n, t))
  {
    if n == 0 {
      RunStarts(clock, es, states);
    } else {
      OnRefreshPathIffForced(clock, es, states, n - 1, t);
      StepOfRun(clock, es, states, n - 1);
      hide Run, Enabled, Inv, Next, RotationFailure, RefreshAllowed;
      StepOntoRefreshPath(states[n - 1], es[n - 1], t);
      assert Forced(es, states, n, t) <==> Forced(es, states, n - 1, t) || Forces(states[n - 1], es[n - 1], t);
    }
  }

  /** A kid is remembered exactly when a verification fails that had forced a refresh; a joined load never counts. */
  lemma RememberedIff(clock: Instant, es: seq<Event>, states: seq<System>, n: nat)
    requires Run(clock, es, states) && n < |es|
    ensures |states| == |es| + 1
    ensures if es[n].VerifyFails? && Forced(es, states, n, es[n].task)
            then && es[n].task in states[n].tasks && !states[n].tasks[es[n].task].Finished?
                 && states[n + 1].remembered == states[n].remembered + [states[n].tasks[es[n].task].kid]
            else states[n + 1].remembered == states[n].remembered
  {
    StepOfRun(clock, es, states, n);
    if es[n].VerifyFails? {
      OnRefreshPathIffForced(clock, es, states, n, es[n].task);
    }
    hide Run, Inv, Forced;
  }

  // ---- Tasks keep their kid, and loads their outcome ----

  ghost predicate BegunWith(es: seq<Event>, n: nat, t: nat, kid: Kid)
    requires n <= |es|
  {
    exists i :: 0 <= i < n && es[i].Begin? && es[i].task == t && es[i].kid == kid
  }

  lemma StepKeepsKid(sys: System, e: Event, t: nat)
    requires Enabled(sys, e) && Pending(Next(sys, e), t)
    ensures if t in sys.tasks then Pending(sys, t) && Next(sys, e).tasks[t].kid == sys.tasks[t].kid
            else e.Begin? && e.task == t && Next(sys, e).tasks[t].kid == e.kid
  {
  }

  /** A verification is about the kid it began with. */
  lemma {:induction false} TaskKeepsItsKid(clock: Instant, es: seq<Event>, states: seq<System>, n: nat, t: nat)
    requires Run(clock, es, states) && n <= |es| && Pending(states[n], t)
    ensures BegunWith(es, n, t, states[n].tasks[t].kid)
  {
    if n == 0 {
      RunStarts(clock, es, states);
    } else {
      StepOfRun(clock, es, states, n - 1);
      hide Inv, Enabled, Next;
      StepKeepsKid(states[n - 1], es[n - 1], t);
      if t in states[n - 1].tasks {
        TaskKeepsItsKid(clock, es, states, n - 1, t);
      }
    }
  }

  predicate HasFailed(sys: System, id: LoadId) {
    id < |sys.loads| && sys.loads[id] == Settled(None)
  }

  predicate HasDelivered(sys: System, id: LoadId, m: Material) {
    id < |sys.loads| && (sys.loads[id] == Stored(m) || sys.loads[id] == Settled(Some(m)))
  }

  lemma StepOfLoad(sys: System, e: Event, id: LoadId, m: Material)
    requires Enabled(sys, e)
    ensures HasFailed(Next(sys, e), id) <==> HasFailed(sys, id) || e == LoadFails(id)
    ensures HasDelivered(Next(sys, e), id, m) <==> HasDelivered(sys, id, m) || e == LoadArrives(id, m)
  {
  }

  /** A load has failed, or delivered material, exactly when that happened to it. */
  lemma {:induction false} LoadOutcomeIff(clock: Instant, es: seq<Event>, states: seq<System>, n: nat, id: LoadId, m: Material)
    requires Run(clock, es, states) && n <= |es|
    ensures HasFailed(states[n], id) <==> LoadFails(id) in es[..n]
    ensures HasDelivered(states[n], id, m) <==> LoadArrives(id, m) in es[..n]
  {
    if n == 0 {
      RunStarts(clock, es, states);
    } else {
      LoadOutcomeIff(clock, es, states, n - 1, id, m);
      StepOfRun(clock, es, states, n - 1);
      hide Inv, Run, Enabled, Next, HasFailed, HasDelivered;
      StepOfLoad(states[n - 1], es[n - 1], id, m);
      assert es[..n] == es[..n - 1] + [es[n - 1]];
    }
  }
}
