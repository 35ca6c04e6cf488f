/**
  Any number of token verifications over the shared cache. Each stretch of code
  between two awaits is one atomic step, and so is each reaction of a load
  (`.then` stores the material, `.finally` drops the promise).
*/
module KeyCacheRuns {
  import opened Wrappers
  import opened KeyCache

  datatype Load = Fetching | Stored(material: Material) | Settled(outcome: Option<Material>)

  /** Where a verification stands, and what it awaits. */
  datatype Task =
    | AwaitMaterial(kid: Kid, load: LoadId)
    | Verifying(kid: Kid, material: Material)
    | AwaitJoined(kid: Kid, load: LoadId)
    | AwaitRefresh(kid: Kid, load: LoadId)
    | VerifyingAgain(kid: Kid, material: Material, remember: bool)
    | Finished(accepted: bool)

  /** `forced` and `remembered` record the forced refreshes and the remembered kids so far. */
  datatype System = System(
    cache: Cache,
    loads: seq<Load>,
    tasks: map<nat, Task>,
    clock: Instant,
    forced: seq<Instant>,
    remembered: seq<Kid>)

  datatype Event =
    | Begin(task: nat, kid: Kid, at: Instant)
    | LoadArrives(load: LoadId, material: Material)
    | LoadFails(load: LoadId)
    | LoadSettles(load: LoadId)
    | Resume(task: nat)
    | AlgorithmRefused(task: nat)
    | VerifyOk(task: nat)
    | VerifyFails(task: nat, badSignature: bool, checkedAt: Instant, at: Instant)

  const IDLE := Cache(None, None, None, [])

  function Initial(clock: Instant): System {
    System(IDLE, [], map[], clock, [], [])
  }

  predicate Unsettled(sys: System, id: LoadId) {
    id < |sys.loads| && !sys.loads[id].Settled?
  }

  /** The promise a task awaits. */
  predicate Awaits(t: Task) {
    t.AwaitMaterial? || t.AwaitJoined? || t.AwaitRefresh?
  }

  predicate Enabled(sys: System, e: Event) {
    match e
    case Begin(task, _, at) => task !in sys.tasks && sys.clock <= at
    case LoadArrives(load, _) => load < |sys.loads| && sys.loads[load] == Fetching
    case LoadFails(load) => load < |sys.loads| && sys.loads[load] == Fetching
    case LoadSettles(load) => load < |sys.loads| && sys.loads[load].Stored?
    case Resume(task) =>
      && task in sys.tasks && Awaits(sys.tasks[task])
      && sys.tasks[task].load < |sys.loads| && sys.loads[sys.tasks[task].load].Settled?
    case AlgorithmRefused(task) => task in sys.tasks && sys.tasks[task].Verifying?
    case VerifyOk(task) => task in sys.tasks && (sys.tasks[task].Verifying? || sys.tasks[task].VerifyingAgain?)
    case VerifyFails(task, _, checkedAt, at) =>
      && task in sys.tasks && (sys.tasks[task].Verifying? || sys.tasks[task].VerifyingAgain?)
      && sys.clock <= checkedAt <= at
  }

  /** The promise to await: the pending one, or that of a load started now. */
  function Requested(sys: System): (System, LoadId) {
    match sys.cache.request
    case Some(id) => (sys, id)
    case None => (sys.(cache := sys.cache.(request := Some(|sys.loads|)), loads := sys.loads + [Fetching]), |sys.loads|)
  }

  function Placed(sys: System, task: nat, t: Task): System {
    sys.(tasks := sys.tasks[task := t])
  }

  function Begun(sys: System, task: nat, kid: Kid, at: Instant): System {
    if FreshAt(sys.cache, at) then Placed(sys, task, Verifying(kid, sys.cache.cached.value))
    else
      var (s, id) := Requested(sys);
      Placed(s, task, AwaitMaterial(kid, id))
  }

  function Resumed(sys: System, task: nat): System
    requires Enabled(sys, Resume(task))
  {
    var t := sys.tasks[task];
    match sys.loads[t.load].outcome
    case None => Placed(sys, task, Finished(false))
    case Some(m) =>
      Placed(sys, task, if t.AwaitMaterial? then Verifying(t.kid, m) else VerifyingAgain(t.kid, m, t.AwaitRefresh?))
  }

  /** The first verification failed: give up, join a pending load, or force a refresh. */
  function FirstFailure(sys: System, task: nat, badSignature: bool, checkedAt: Instant, at: Instant): System
    requires task in sys.tasks && sys.tasks[task].Verifying?
  {
    var t := sys.tasks[task];
    var rotationFailure := t.kid !in t.material.kids || badSignature;
    if !rotationFailure then Placed(sys, task, Finished(false))
    else if !MayRefresh(sys.cache, t.kid, checkedAt) then
      Placed(sys, task, if sys.cache.request.Some? then AwaitJoined(t.kid, sys.cache.request.value) else Finished(false))
    else
      var (s, id) := Requested(sys.(cache := sys.cache.(lastRefreshAt := Some(at)), forced := sys.forced + [at]));
      Placed(s, task, AwaitRefresh(t.kid, id))
  }

  function SecondFailure(sys: System, task: nat): System
    requires task in sys.tasks && sys.tasks[task].VerifyingAgain?
  {
    var t := sys.tasks[task];
    var s := if t.remember
             then sys.(cache := sys.cache.(negative := Remembered(sys.cache.negative, t.kid)), remembered := sys.remembered + [t.kid])
             else sys;
    Placed(s, task, Finished(false))
  }

  function Next(sys: System, e: Event): System
    requires Enabled(sys, e)
  {
    match e
    case Begin(task, kid, at) => Begun(sys, task, kid, at).(clock := at)
    case LoadArrives(load, m) => sys.(cache := sys.cache.(cached := Some(m)), loads := sys.loads[load := Stored(m)])
    case LoadFails(load) => sys.(cache := sys.cache.(request := None), loads := sys.loads[load := Settled(None)])
    case LoadSettles(load) =>
      sys.(cache := sys.cache.(request := None), loads := sys.loads[load := Settled(Some(sys.loads[load].material))])
    case Resume(task) => Resumed(sys, task)
    case AlgorithmRefused(task) => Placed(sys, task, Finished(false))
    case VerifyOk(task) => Placed(sys, task, Finished(true))
    case VerifyFails(task, badSignature, checkedAt, at) =>
      (if sys.tasks[task].Verifying? then FirstFailure(sys, task, badSignature, checkedAt, at) else SecondFailure(sys, task))
      .(clock := at)
  }

  // ---- Invariants ----

  /** The promise variable names the one load that is not settled, and nothing else is in flight. */
  ghost predicate SingleFlight(sys: System) {
    && (sys.cache.request.Some? ==> Unsettled(sys, sys.cache.request.value))
    && (forall id: LoadId | Unsettled(sys, id) :: sys.cache.request == Some(id))
  }

  /** Forced refreshes keep their distance, and the variable holds the latest. */
  ghost predicate Spaced(sys: System) {
    && (forall i, j | 0 <= i < j < |sys.forced| :: sys.forced[j] - sys.forced[i] >= REFRESH_COOLDOWN_MS)
    && (if sys.forced == [] then sys.cache.lastRefreshAt == None
        else sys.cache.lastRefreshAt == Some(sys.forced[|sys.forced| - 1]) && sys.forced[|sys.forced| - 1] <= sys.clock)
  }

  ghost predicate ListIsRecent(sys: System) {
    sys.cache.negative == Newest(Recency(sys.remembered))
  }

  ghost predicate Inv(sys: System) {
    SingleFlight(sys) && Spaced(sys) && ListIsRecent(sys)
  }

  lemma RequestKeepsSingleFlight(sys: System)
    requires SingleFlight(sys)
    ensures SingleFlight(Requested(sys).0)
  {
  }

  lemma StepKeepsSingleFlight(sys: System, e: Event)
    requires Enabled(sys, e) && SingleFlight(sys)
    ensures SingleFlight(Next(sys, e))
  {
    match e {
      case Begin(task, kid, at) =>
        RequestKeepsSingleFlight(sys);
      case VerifyFails(task, _, _, at) =>
        if sys.tasks[task].Verifying? {
          RequestKeepsSingleFlight(sys.(cache := sys.cache.(lastRefreshAt := Some(at)), forced := sys.forced + [at]));
        }
      case LoadArrives(load, _) => assert Unsettled(sys, load);
      case LoadFails(load) => assert Unsettled(sys, load);
      case LoadSettles(load) => assert Unsettled(sys, load);
      case _ =>
    }
  }

  lemma StepKeepsSpaced(sys: System, e: Event)
    requires Enabled(sys, e) && Spaced(sys)
    ensures Spaced(Next(sys, e))
  {
  }

  lemma StepKeepsList(sys: System, e: Event)
    requires Enabled(sys, e) && ListIsRecent(sys)
    ensures ListIsRecent(Next(sys, e))
  {
    if e.VerifyFails? && sys.tasks[e.task].VerifyingAgain? && sys.tasks[e.task].remember {
      var k := sys.tasks[e.task].kid;
      RecencyDistinct(sys.remembered);
      TruncationCommutes(Recency(sys.remembered), k);
      assert (sys.remembered + [k])[..|sys.remembered|] == sys.remembered;
    }
  }

  // ---- Runs ----

  /** The system after `n` events, as long as each was enabled. */
  ghost predicate Run(clock: Instant, es: seq<Event>, states: seq<System>) {
    && |states| == |es| + 1
    && states[0] == Initial(clock)
    && forall i | 0 <= i < |es| :: Enabled(states[i], es[i]) && states[i + 1] == Next(states[i], es[i])
  }

  lemma {:induction false} RunKeepsInv(clock: Instant, es: seq<Event>, states: seq<System>, n: nat)
    requires Run(clock, es, states) && n <= |es|
    ensures Inv(states[n])
  {
    hide SingleFlight, Spaced, ListIsRecent, Enabled, Next, Initial;
    if n == 0 {
      InitialInv(clock);
    } else {
      RunKeepsInv(clock, es, states, n - 1);
      assert states[n - 1 + 1] == Next(states[n - 1], es[n - 1]);
      StepKeepsSingleFlight(states[n - 1], es[n - 1]);
      StepKeepsSpaced(states[n - 1], es[n - 1]);
      StepKeepsList(states[n - 1], es[n - 1]);
    }
  }

  lemma InitialInv(clock: Instant)
    ensures Inv(Initial(clock))
  {
  }

  /** In any interleaving at most one load is in flight. */
  lemma AtMostOneLoadInFlight(clock: Instant, es: seq<Event>, states: seq<System>, n: nat, a: LoadId, b: LoadId)
    requires Run(clock, es, states) && n <= |es|
    requires Unsettled(states[n], a) && Unsettled(states[n], b)
    ensures a == b
  {
    RunKeepsInv(clock, es, states, n);
  }

  /** Forced refreshes are at least the cooldown apart. */
  lemma ForcedRefreshesAreSpaced(clock: Instant, es: seq<Event>, states: seq<System>, n: nat, i: nat, j: nat)
    requires Run(clock, es, states) && n <= |es| && i < j < |states[n].forced|
    ensures states[n].forced[j] - states[n].forced[i] >= 30_000
  {
    RunKeepsInv(clock, es, states, n);
  }

  /** The negative list is the last distinct remembered kids, in order, up to the bound. */
  lemma NegativeListIsRecent(clock: Instant, es: seq<Event>, states: seq<System>, n: nat)
    requires Run(clock, es, states) && n <= |es|
    ensures states[n].cache.negative == Newest(Recency(states[n].remembered))
    ensures |states[n].cache.negative| <= 128
  {
    RunKeepsInv(clock, es, states, n);
  }

  lemma {:induction false} LastOccurrence(history: seq<Kid>, i: nat) returns (l: nat)
    requires i < |history|
    ensures i <= l < |history| && history[l] == history[i] && history[l] !in history[l + 1..]
    decreases |history| - i
  {
    if history[i] in history[i + 1..] {
      var j :| 0 <= j < |history[i + 1..]| && history[i + 1..][j] == history[i];
      l := LastOccurrence(history, i + 1 + j);
    } else {
      l := i;
    }
  }

  lemma {:induction false} RememberedOnlyGrows(clock: Instant, es: seq<Event>, states: seq<System>, m: nat, n: nat)
    requires Run(clock, es, states) && m <= n <= |es|
    ensures states[m].remembered <= states[n].remembered
    decreases n
  {
    if m < n {
      RememberedOnlyGrows(clock, es, states, m, n - 1);
      assert states[n - 1 + 1] == Next(states[n - 1], es[n - 1]);
    }
  }

  /**
    A kid remembered in state `m` can force a refresh in state `n` only if at
    least the bound of other distinct kids were remembered after it.
  */
  lemma RememberedKidNeedsManyOthers(clock: Instant, es: seq<Event>, states: seq<System>, m: nat, n: nat, i: nat, now: Instant)
    requires Run(clock, es, states) && m <= n <= |es| && i < |states[m].remembered|
    requires MayRefresh(states[n].cache, states[m].remembered[i], now)
    ensures i < |states[n].remembered|
    ensures |SetOf(states[n].remembered[i + 1..]) - {states[m].remembered[i]}| >= 128
  {
    RememberedOnlyGrows(clock, es, states, m, n);
    NegativeListIsRecent(clock, es, states, n);
    hide Run, Recency;
    var h, k := states[n].remembered, states[m].remembered[i];
    assert h[i] == k;
    var l := LastOccurrence(h, i);
    ListedIffRecent(h, l);
    var since, later := SetOf(h[i + 1..]) - {k}, SetOf(h[l + 1..]);
    var tail := h[i + 1..];
    assert h[l + 1..] == tail[l - i..];
    assert later <= since;
    SubsetSize(later, since);
  }

  lemma {:induction false} SubsetSize(a: set<Kid>, b: set<Kid>)
    requires a <= b
    ensures |a| <= |b|
  {
    assert b == a + (b - a);
  }
}
