/**
  Traces of the store as its callers see them: single-use claims are
  exactly-once, and the expiry sweep cannot be observed through claims, counts
  or listings.
*/
module SessionTraces {
  import opened Sessions

  function StateAt(retentionSecs: nat, st: State, es: seq<Event>, n: nat): State
    requires n <= |es|
  {
    if n == 0 then st else Next(retentionSecs, StateAt(retentionSecs, st, es, n - 1), es[n - 1])
  }

  function AnswerAt(retentionSecs: nat, st: State, es: seq<Event>, i: nat): Reply
    requires i < |es|
  {
    Answer(StateAt(retentionSecs, st, es, i), es[i])
  }

  predicate ClockForward(es: seq<Event>) {
    forall i, j | 0 <= i < j < |es| :: es[i].at <= es[j].at
  }

  // ---- Single-use claims ----

  predicate Claims(retentionSecs: nat, es: seq<Event>, i: nat, k: Id)
    requires i < |es|
  {
    es[i].op.PutSingleUse? && es[i].op.key == k && AnswerAt(retentionSecs, EMPTY_STATE, es, i) == Flag(true)
  }

  predicate Takes(es: seq<Event>, i: nat, k: Id)
    requires i < |es|
  {
    es[i].op == TakeSingleUse(k)
  }

  /** The claim at `p` was granted, and up to event `n` nobody took the key or claimed it anew. */
  ghost predicate Outstanding(retentionSecs: nat, es: seq<Event>, p: nat, n: nat, k: Id)
    requires n <= |es|
  {
    && p < n
    && Claims(retentionSecs, es, p, k)
    && forall i | p < i < n :: !Takes(es, i, k) && !Claims(retentionSecs, es, i, k)
  }

  /** The store holds `k` unexpired at `now` exactly when an unexpired claim on it is outstanding. */
  ghost predicate HeldIffOutstanding(retentionSecs: nat, es: seq<Event>, n: nat, k: Id, now: Instant)
    requires n <= |es|
  {
    var claims := StateAt(retentionSecs, EMPTY_STATE, es, n).singleUse;
    && (k in claims && claims[k] > now ==>
          exists p: nat :: Outstanding(retentionSecs, es, p, n, k) && es[p].op.expiresAt == claims[k])
    && (forall p: nat | Outstanding(retentionSecs, es, p, n, k) && es[p].op.expiresAt > now ::
          k in claims && claims[k] == es[p].op.expiresAt)
  }

  /** What one event does to the claim on `k`. */
  lemma ClaimStep(retentionSecs: nat, st: State, e: Event, k: Id, now: Instant)
    requires e.at <= now
    ensures var c, c' := st.singleUse, Next(retentionSecs, st, e).singleUse;
            && (e.op == TakeSingleUse(k) ==> k !in c')
            && (e.op.PutSingleUse? && e.op.key == k && Answer(st, e) == Flag(true) ==> k in c' && c'[k] == e.op.expiresAt)
            && (e.op != TakeSingleUse(k) && !(e.op.PutSingleUse? && e.op.key == k && Answer(st, e) == Flag(true)) ==>
                  && (k in c' ==> k in c && c'[k] == c[k])
                  && (k in c && c[k] > now ==> k in c'))
  {
  }

  lemma {:induction false} ClaimsAreOutstandingPuts(retentionSecs: nat, es: seq<Event>, n: nat, k: Id, now: Instant)
    requires n <= |es|
    requires forall i | 0 <= i < n :: es[i].at <= now
    ensures HeldIffOutstanding(retentionSecs, es, n, k, now)
  {
    if n > 0 {
      ClaimsAreOutstandingPuts(retentionSecs, es, n - 1, k, now);
      var st := StateAt(retentionSecs, EMPTY_STATE, es, n - 1);
      ClaimStep(retentionSecs, st, es[n - 1], k, now);
      hide Next, Answer;
      var claims := StateAt(retentionSecs, EMPTY_STATE, es, n).singleUse;
      forall p: nat | Outstanding(retentionSecs, es, p, n, k) && es[p].op.expiresAt > now
        ensures k in claims && claims[k] == es[p].op.expiresAt
      {
        if p < n - 1 {
          assert Outstanding(retentionSecs, es, p, n - 1, k);
          assert !Takes(es, n - 1, k) && !Claims(retentionSecs, es, n - 1, k);
        }
      }
      if k in claims && claims[k] > now {
        if Claims(retentionSecs, es, n - 1, k) {
          assert Outstanding(retentionSecs, es, n - 1, n, k);
        } else {
          var p: nat :| Outstanding(retentionSecs, es, p, n - 1, k) && es[p].op.expiresAt == claims[k];
          assert Outstanding(retentionSecs, es, p, n, k);
        }
      }
    }
  }

  /** A take succeeds exactly when it consumes an outstanding unexpired claim. */
  lemma TakeConsumesOneClaim(retentionSecs: nat, es: seq<Event>, j: nat, k: Id)
    requires ClockForward(es) && j < |es| && Takes(es, j, k)
    ensures AnswerAt(retentionSecs, EMPTY_STATE, es, j) == Flag(true)
            <==> exists p: nat :: Outstanding(retentionSecs, es, p, j, k) && es[p].op.expiresAt > es[j].at
  {
    ClaimsAreOutstandingPuts(retentionSecs, es, j, k, es[j].at);
  }

  /** A claim succeeds exactly when no unexpired claim on the key is outstanding. */
  lemma ClaimIsExclusive(retentionSecs: nat, es: seq<Event>, j: nat, k: Id)
    requires ClockForward(es) && j < |es| && es[j].op.PutSingleUse? && es[j].op.key == k
    ensures AnswerAt(retentionSecs, EMPTY_STATE, es, j) == Flag(true)
            <==> !exists p: nat :: Outstanding(retentionSecs, es, p, j, k) && es[p].op.expiresAt > es[j].at
  {
    ClaimsAreOutstandingPuts(retentionSecs, es, j, k, es[j].at);
  }

  /** Takes at different events consume different claims. */
  lemma TakesConsumeDistinctClaims(retentionSecs: nat, es: seq<Event>, i: nat, j: nat, p: nat, q: nat, k: Id)
    requires i < j < |es| && Takes(es, i, k)
    requires Outstanding(retentionSecs, es, p, i, k) && Outstanding(retentionSecs, es, q, j, k)
    ensures p < i < q
  {
  }

  /** Two granted claims on one key have a take between them, or the first had expired by the second. */
  lemma {:induction false} GrantedClaimsAreSeparated(retentionSecs: nat, es: seq<Event>, i: nat, j: nat, k: Id)
    requires ClockForward(es) && i < j < |es|
    requires Claims(retentionSecs, es, i, k) && Claims(retentionSecs, es, j, k)
    ensures (exists t :: i < t < j && Takes(es, t, k)) || es[i].op.expiresAt <= es[j].at
    decreases j - i
  {
    if m :| i < m < j && Claims(retentionSecs, es, m, k) {
      GrantedClaimsAreSeparated(retentionSecs, es, i, m, k);
    } else if forall t | i < t < j :: !Takes(es, t, k) {
      assert Outstanding(retentionSecs, es, i, j, k);
      ClaimIsExclusive(retentionSecs, es, j, k);
    }
  }

  // ---- The sweep is invisible ----

  /** `st'` lacks only rows of `st` that had expired by `t`. */
  ghost predicate SweptBy(st: State, st': State, t: Instant) {
    && (forall h | h in st'.sessions :: h in st.sessions && st'.sessions[h] == st.sessions[h])
    && (forall h | h in st.sessions && h !in st'.sessions :: st.sessions[h].expiresAt <= t)
    && (forall k | k in st'.singleUse :: k in st.singleUse && st'.singleUse[k] == st.singleUse[k])
    && (forall k | k in st.singleUse && k !in st'.singleUse :: st.singleUse[k] <= t)
  }

  /** The store's assertions hold, and a replacement inherits the deadline it replaces. */
  predicate WellBehaved(st: State, op: Op) {
    && Allowed(st, op)
    && (op.Rotate? && op.liveHash in st.sessions ==> op.replacement.expiresAt == st.sessions[op.liveHash].expiresAt)
  }

  predicate Observes(op: Op) {
    op.PutSingleUse? || op.TakeSingleUse? || op.CountActive?
  }

  lemma SweptRowsStayHidden(st: State, st': State, t: Instant, now: Instant)
    requires SweptBy(st, st', t) && t <= now
    ensures ActiveAt(st, now) == ActiveAt(st', now)
    ensures forall k :: (k in st.singleUse && st.singleUse[k] > now) == (k in st'.singleUse && st'.singleUse[k] > now)
    ensures forall u :: Listable(st, u, now) == Listable(st', u, now)
  {
  }

  lemma RotationKeepsSwept(retentionSecs: nat, st: State, st': State, t: Instant, e: Event)
    requires SweptBy(st, st', t) && WellBehaved(st, e.op) && e.op.Rotate?
    ensures SweptBy(Next(retentionSecs, st, e), Next(retentionSecs, st', e), t)
  {
  }

  lemma RemovalKeepsSwept(retentionSecs: nat, st: State, st': State, t: Instant, e: Event)
    requires SweptBy(st, st', t)
    requires e.op.RevokeSession? || e.op.RevokeFamily? || e.op.RevokeUser? || e.op.Sweep?
    requires t <= e.at
    ensures SweptBy(Next(retentionSecs, st, e), Next(retentionSecs, st', e), t)
  {
  }

  lemma ClaimKeepsSwept(retentionSecs: nat, st: State, st': State, t: Instant, e: Event)
    requires SweptBy(st, st', t) && t <= e.at
    requires e.op.PutSingleUse? || e.op.TakeSingleUse?
    ensures SweptBy(Next(retentionSecs, st, e), Next(retentionSecs, st', e), t)
  {
  }

  lemma StepKeepsSwept(retentionSecs: nat, st: State, st': State, t: Instant, e: Event)
    requires SweptBy(st, st', t) && WellBehaved(st, e.op) && t <= e.at
    ensures SweptBy(Next(retentionSecs, st, e), Next(retentionSecs, st', e), t)
    ensures Observes(e.op) ==> Answer(st, e) == Answer(st', e)
  {
    SweptRowsStayHidden(st, st', t, e.at);
    match e.op {
      case StoreToken(_) =>
      case Rotate(_, _) => RotationKeepsSwept(retentionSecs, st, st', t, e);
      case PutSingleUse(_, _) => ClaimKeepsSwept(retentionSecs, st, st', t, e);
      case TakeSingleUse(_) => ClaimKeepsSwept(retentionSecs, st, st', t, e);
      case CountActive =>
      case _ => RemovalKeepsSwept(retentionSecs, st, st', t, e);
    }
  }

  function WithSweep(es: seq<Event>, p: nat, t: Instant): seq<Event>
    requires p <= |es|
  {
    es[..p] + [Event(t, Sweep)] + es[p..]
  }

  lemma {:induction false} PrefixIsUntouched(retentionSecs: nat, st: State, es: seq<Event>, p: nat, t: Instant, n: nat)
    requires n <= p <= |es|
    ensures StateAt(retentionSecs, st, WithSweep(es, p, t), n) == StateAt(retentionSecs, st, es, n)
  {
    if n > 0 {
      PrefixIsUntouched(retentionSecs, st, es, p, t, n - 1);
      hide Next;
      assert WithSweep(es, p, t)[n - 1] == es[n - 1];
    }
  }

  lemma SweepDropsOnlyExpired(st: State, t: Instant)
    ensures SweptBy(st, Swept(st, t), t)
  {
  }

  lemma {:induction false} SweptRunStaysSwept(retentionSecs: nat, st: State, es: seq<Event>, p: nat, t: Instant, n: nat)
    requires p <= n <= |es|
    requires forall i | p <= i < |es| :: t <= es[i].at
    requires forall i | 0 <= i < |es| :: WellBehaved(StateAt(retentionSecs, st, es, i), es[i].op)
    ensures SweptBy(StateAt(retentionSecs, st, es, n), StateAt(retentionSecs, st, WithSweep(es, p, t), n + 1), t)
    decreases n
  {
    hide Next, Answer, SweptBy, WellBehaved, Swept;
    var longer := WithSweep(es, p, t);
    if n == p {
      PrefixIsUntouched(retentionSecs, st, es, p, t, p);
      assert longer[p] == Event(t, Sweep);
      SweepStep(retentionSecs, StateAt(retentionSecs, st, es, p), t);
    } else {
      SweptRunStaysSwept(retentionSecs, st, es, p, t, n - 1);
      assert longer[n] == es[n - 1];
      StepKeepsSwept(retentionSecs, StateAt(retentionSecs, st, es, n - 1), StateAt(retentionSecs, st, longer, n), t, es[n - 1]);
    }
  }

  lemma SweepStep(retentionSecs: nat, st: State, t: Instant)
    ensures SweptBy(st, Next(retentionSecs, st, Event(t, Sweep)), t)
  {
    SweepDropsOnlyExpired(st, t);
  }

  /**
    Inserting a sweep anywhere in a run changes no later answer of a claim, a
    take or a count, and no later listing at an instant no earlier than the sweep.
  */
  lemma InsertedSweepIsInvisible(retentionSecs: nat, st: State, es: seq<Event>, p: nat, t: Instant, n: nat)
    requires p <= n <= |es|
    requires forall i | p <= i < |es| :: t <= es[i].at
    requires forall i | 0 <= i < |es| :: WellBehaved(StateAt(retentionSecs, st, es, i), es[i].op)
    ensures n < |es| && Observes(es[n].op) ==>
              AnswerAt(retentionSecs, st, WithSweep(es, p, t), n + 1) == AnswerAt(retentionSecs, st, es, n)
    ensures forall u, now, limit, out | t <= now ::
              IsListing(StateAt(retentionSecs, st, WithSweep(es, p, t), n + 1), u, now, limit, out)
              <==> IsListing(StateAt(retentionSecs, st, es, n), u, now, limit, out)
  {
    hide Next, Answer, SweptBy, WellBehaved, IsListing;
    var a, b := StateAt(retentionSecs, st, es, n), StateAt(retentionSecs, st, WithSweep(es, p, t), n + 1);
    SweptRunStaysSwept(retentionSecs, st, es, p, t, n);
    if n < |es| {
      StepKeepsSwept(retentionSecs, a, b, t, es[n]);
      assert WithSweep(es, p, t)[n + 1] == es[n];
    }
    forall u, now, limit, out | t <= now
      ensures IsListing(b, u, now, limit, out) <==> IsListing(a, u, now, limit, out)
    {
      SweptListing(a, b, t, u, now, limit, out);
    }
  }

  lemma SweptListing(st: State, st': State, t: Instant, u: Id, now: Instant, limit: nat, out: seq<Id>)
    requires SweptBy(st, st', t) && t <= now
    ensures IsListing(st, u, now, limit, out) <==> IsListing(st', u, now, limit, out)
  {
    SweptRowsStayHidden(st, st', t, now);
    var rows := Listable(st, u, now);
    assert forall h | h in rows :: h in st.sessions && h in st'.sessions && st.sessions[h] == st'.sessions[h];
  }

  /** Listings of one state differ only among rows created at the same instant. */
  lemma ListingsAgreeUpToTies(st: State, u: Id, now: Instant, limit: nat, a: seq<Id>, b: seq<Id>, i: nat)
    requires IsListing(st, u, now, limit, a) && IsListing(st, u, now, limit, b) && i < |a|
    ensures |a| == |b| && st.sessions[a[i]].createdAt == st.sessions[b[i]].createdAt
  {
    NoNewerAt(st, u, now, limit, a, b, i);
    NoNewerAt(st, u, now, limit, b, a, i);
  }

  /** Were `b[i]` older than `a[i]`, the `i + 1` rows `a[..i + 1]` would all have to sit among `b[..i]`. */
  lemma NoNewerAt(st: State, u: Id, now: Instant, limit: nat, a: seq<Id>, b: seq<Id>, i: nat)
    requires IsListing(st, u, now, limit, a) && IsListing(st, u, now, limit, b) && i < |a|
    ensures i < |b| && st.sessions[a[i]].createdAt <= st.sessions[b[i]].createdAt
  {
    if st.sessions[a[i]].createdAt > st.sessions[b[i]].createdAt {
      forall j | 0 <= j <= i ensures a[j] in b[..i] {
        NewerRowComesEarlier(st, u, now, limit, b, i, a[j]);
      }
      assert forall j, k | 0 <= j < k <= i :: a[j] != a[k];
      DistinctRowsFit(a[..i + 1], b[..i]);
    }
  }

  lemma NewerRowComesEarlier(st: State, u: Id, now: Instant, limit: nat, b: seq<Id>, i: nat, h: Id)
    requires IsListing(st, u, now, limit, b) && i < |b| && h in Listable(st, u, now)
    requires st.sessions[h].createdAt > st.sessions[b[i]].createdAt
    ensures h in b[..i]
  {
    assert h in b;
    var k :| 0 <= k < |b| && b[k] == h;
    assert k < i;
    assert b[..i][k] == h;
  }

  lemma {:induction false} DistinctRowsFit(a: seq<Id>, b: seq<Id>)
    requires forall j, k | 0 <= j < k < |a| :: a[j] != a[k]
    requires forall j | 0 <= j < |a| :: a[j] in b
    ensures |a| <= |b|
  {
    if a != [] {
      var last := a[|a| - 1];
      var k :| 0 <= k < |b| && b[k] == last;
      var rest := b[..k] + b[k + 1..];
      forall j | 0 <= j < |a| - 1 ensures a[j] in rest {
        var m :| 0 <= m < |b| && b[m] == a[j];
        assert rest[if m < k then m else m - 1] == a[j];
      }
      DistinctRowsFit(a[..|a| - 1], rest);
    }
  }
}
