/**
  The obligations SR1 to SR5 of the session port, for every run of the store.
*/
module SessionTheorems {
  import opened Sessions
  import opened SessionFamilies

  ghost predicate Reachable(retentionSecs: nat, w: World) {
    exists clock, es :: AdmissibleRun(retentionSecs, Genesis(clock), es) && w == WorldAt(retentionSecs, Genesis(clock), es, |es|)
  }

  lemma ReachableIsInv(retentionSecs: nat, w: World)
    requires Reachable(retentionSecs, w)
    ensures Inv(retentionSecs, w)
  {
    var clock, es :| AdmissibleRun(retentionSecs, Genesis(clock), es) && w == WorldAt(retentionSecs, Genesis(clock), es, |es|);
    ReachableInv(retentionSecs, Genesis(clock), es, |es|);
  }

  /** What is known just before event `i` of a run. */
  lemma AtStep(retentionSecs: nat, w: World, es: seq<Event>, i: nat)
    requires Inv(retentionSecs, w) && AdmissibleRun(retentionSecs, w, es) && i < |es|
    ensures Inv(retentionSecs, WorldAt(retentionSecs, w, es, i))
    ensures Admissible(WorldAt(retentionSecs, w, es, i), es[i])
    ensures WorldAt(retentionSecs, w, es, i + 1) == Stepped(retentionSecs, WorldAt(retentionSecs, w, es, i), es[i])
  {
    ReachableInv(retentionSecs, w, es, i);
  }

  // ---- Retained records are the most recent run of a family's history ----

  /** The records of `f` are exactly those of the superseded generations from `k` on. */
  ghost predicate RetainedFrom(w: World, f: Id, k: nat)
    requires f in w.families
  {
    var chain := w.families[f].chain;
    && k < |chain|
    && (forall i | 0 <= i < |chain| - 1 :: chain[i] in w.store.retired <==> k <= i)
    && (forall h | h in RecordsOfFamily(w.store, f) :: exists i :: k <= i < |chain| - 1 && chain[i] == h)
  }

  ghost predicate DeadlinesOrdered(w: World, f: Id)
    requires f in w.families
  {
    var line := w.families[f];
    forall i, j | 0 <= i < j < |line.chain| - 1 && line.chain[i] in w.store.retired && line.chain[j] in w.store.retired ::
      w.store.retired[line.chain[i]].expiresAt <= w.store.retired[line.chain[j]].expiresAt <= line.expiresAt
  }

  lemma {:induction false} FirstRetained(chain: seq<Id>, retired: map<Id, Retirement>, k: nat) returns (first: nat)
    requires SuffixOk(chain, retired) && k < |chain|
    requires forall i | 0 <= i < k :: chain[i] !in retired
    ensures first < |chain|
    ensures forall i | 0 <= i < |chain| - 1 :: chain[i] in retired <==> first <= i
    decreases |chain| - k
  {
    if k == |chain| - 1 || chain[k] in retired {
      first := k;
    } else {
      first := FirstRetained(chain, retired, k + 1);
    }
  }

  lemma RetainedRecordsAreTheLatest(retentionSecs: nat, w: World, f: Id)
    requires Reachable(retentionSecs, w) && f in w.families
    ensures exists k: nat :: RetainedFrom(w, f, k)
    ensures DeadlinesOrdered(w, f)
  {
    ReachableIsInv(retentionSecs, w);
    hide Reachable;
    var line := w.families[f];
    assert LineageOk(w.families, w.places, f) && SuffixOk(line.chain, w.store.retired);
    var k := FirstRetained(line.chain, w.store.retired, 0);
    forall h | h in RecordsOfFamily(w.store, f)
      ensures exists i :: k <= i < |line.chain| - 1 && line.chain[i] == h
    {
      assert RecordOk(retentionSecs, w, h);
      assert line.chain[w.places[h].index] == h;
    }
    assert RetainedFrom(w, f, k);
    forall i, j | 0 <= i < j < |line.chain| - 1 && line.chain[i] in w.store.retired && line.chain[j] in w.store.retired
      ensures w.store.retired[line.chain[i]].expiresAt <= w.store.retired[line.chain[j]].expiresAt <= line.expiresAt
    {
      assert RecordOk(retentionSecs, w, line.chain[i]) && RecordOk(retentionSecs, w, line.chain[j]);
      LaterRetirementExpiresLater(retentionSecs, w.store.retired[line.chain[i]].retiredAt,
                                  w.store.retired[line.chain[j]].retiredAt, line.expiresAt);
    }
  }

  /** A sweep that removes the live row removes every record of that family with it. */
  lemma SweepingTheLiveRowClearsTheFamily(retentionSecs: nat, w: World, liveHash: Id, now: Instant)
    requires Reachable(retentionSecs, w) && liveHash in w.store.sessions
    requires w.store.sessions[liveHash].familyId != LEGACY_FAMILY
    requires liveHash !in Swept(w.store, now).sessions
    ensures RecordsOfFamily(Swept(w.store, now), w.store.sessions[liveHash].familyId) == {}
    ensures LiveOfFamily(Swept(w.store, now), w.store.sessions[liveHash].familyId) == {}
  {
    hide Reachable, Inv;
    ReachableIsInv(retentionSecs, w);
    var f := w.store.sessions[liveHash].familyId;
    LiveRowIsLast(retentionSecs, w, liveHash);
    LiveRowExpiry(retentionSecs, w, liveHash);
    forall h | h in w.store.retired && w.store.retired[h].familyId == f
      ensures w.store.retired[h].expiresAt <= now
    {
      RecordExpiry(retentionSecs, w, h);
    }
    forall h | h in w.store.sessions && w.store.sessions[h].familyId == f
      ensures h == liveHash
    {
      LiveRowIsLast(retentionSecs, w, h);
    }
  }

  lemma LiveRowExpiry(retentionSecs: nat, w: World, h: Id)
    requires Inv(retentionSecs, w) && h in w.store.sessions && w.store.sessions[h].familyId != LEGACY_FAMILY
    ensures w.store.sessions[h].familyId in w.families
    ensures w.store.sessions[h].expiresAt == w.families[w.store.sessions[h].familyId].expiresAt
  {
    assert SessionOk(w, h);
  }

  lemma RecordExpiry(retentionSecs: nat, w: World, h: Id)
    requires Inv(retentionSecs, w) && h in w.store.retired
    ensures w.store.retired[h].familyId in w.families
    ensures w.store.retired[h].expiresAt <= w.families[w.store.retired[h].familyId].expiresAt
  {
    assert RecordOk(retentionSecs, w, h);
  }

  // ---- Classification only moves forward ----

  function Rank(r: Resolution): nat {
    match r
    case Live(_) => 0
    case Superseded(_, _) => 1
    case Retired(_, _, _) => 2
    case Unknown => 3
    case Corrupt => 4
  }

  /**
    Successor pointers name the next generation of the same family, so they
    are injective and acyclic, and the corruption panic is unreachable.
  */
  lemma ResolutionNeverCorrupt(retentionSecs: nat, w: World, h: Id)
    requires Inv(retentionSecs, w)
    ensures Resolve(w.store, h) != Corrupt
    ensures h in w.store.retired ==>
              && h !in w.store.sessions
              && h in w.places && w.store.retired[h].successor in w.places
              && w.places[w.store.retired[h].successor] == Place(w.store.retired[h].familyId, w.places[h].index + 1)
              && w.places[h].familyId == w.store.retired[h].familyId
  {
    if h in w.store.retired {
      assert RecordOk(retentionSecs, w, h);
      var r := w.store.retired[h];
      assert LineageOk(w.families, w.places, r.familyId);
      assert h in w.store.sessions ==> SessionOk(w, h);
      assert r.successor in w.store.sessions ==> SessionOk(w, r.successor);
    }
  }

  lemma SuccessorsInjective(retentionSecs: nat, w: World, g: Id, h: Id)
    requires Reachable(retentionSecs, w)
    requires g in w.store.retired && h in w.store.retired
    requires w.store.retired[g].successor == w.store.retired[h].successor
    ensures g == h
  {
    hide Reachable;
    ReachableIsInv(retentionSecs, w);
    ResolutionNeverCorrupt(retentionSecs, w, g);
    ResolutionNeverCorrupt(retentionSecs, w, h);
    assert RecordOk(retentionSecs, w, g) && RecordOk(retentionSecs, w, h);
  }

  lemma StepMovesForward(retentionSecs: nat, w: World, e: Event, h: Id)
    requires Inv(retentionSecs, w) && Admissible(w, e) && h in w.places
    ensures h in Stepped(retentionSecs, w, e).places
    ensures Rank(Resolve(w.store, h)) <= Rank(Resolve(Stepped(retentionSecs, w, e).store, h))
  {
    var w' := Stepped(retentionSecs, w, e);
    StepKeepsInv(retentionSecs, w, e);
    ResolutionNeverCorrupt(retentionSecs, w, h);
    ResolutionNeverCorrupt(retentionSecs, w', h);
    StepNeverRevives(retentionSecs, w, e, h);
    if h in w.store.retired && h in w'.store.retired {
      StepNeverRevives(retentionSecs, w, e, w.store.retired[h].successor);
      assert w'.store.retired[h] == w.store.retired[h];
    }
  }

  /** No step makes a used hash live again, or retires one that was not live. */
  lemma StepNeverRevives(retentionSecs: nat, w: World, e: Event, h: Id)
    requires Inv(retentionSecs, w) && Admissible(w, e) && h in w.places
    ensures var st, st' := w.store, Next(retentionSecs, w.store, e);
            && (h in st'.sessions ==> h in st.sessions)
            && (h in st'.retired ==> h in st.retired || h in st.sessions)
            && (h in st'.retired && h !in st.sessions ==> st'.retired[h] == st.retired[h])
  {
    if !e.op.StoreToken? && !(e.op.Rotate? && e.op.liveHash in w.store.sessions) {
      hide Inv, Admissible, Next;
      RemovalShrinks(retentionSecs, w.store, e);
    }
  }

  /** For every run and every installed hash: Live, Superseded, Retired, Unknown, in that order. */
  lemma {:induction false} ClassificationMovesForward(retentionSecs: nat, w: World, es: seq<Event>, m: nat, n: nat, h: Id)
    requires Inv(retentionSecs, w) && AdmissibleRun(retentionSecs, w, es)
    requires m <= n <= |es|
    requires h in WorldAt(retentionSecs, w, es, m).places
    ensures h in WorldAt(retentionSecs, w, es, n).places
    ensures Rank(Resolve(WorldAt(retentionSecs, w, es, m).store, h)) <= Rank(Resolve(WorldAt(retentionSecs, w, es, n).store, h))
    ensures Resolve(WorldAt(retentionSecs, w, es, n).store, h) != Corrupt
    decreases n
  {
    hide *;
    if m < n {
      ClassificationMovesForward(retentionSecs, w, es, m, n - 1, h);
      AtStep(retentionSecs, w, es, n - 1);
      StepMovesForward(retentionSecs, WorldAt(retentionSecs, w, es, n - 1), es[n - 1], h);
    }
    ReachableInv(retentionSecs, w, es, n);
    ResolutionNeverCorrupt(retentionSecs, WorldAt(retentionSecs, w, es, n), h);
  }

  // ---- One winner, one live generation ----

  predicate IsWin(st: State, e: Event, h: Id) {
    e.op.Rotate? && e.op.liveHash == h && Answer(st, e) == Flag(true)
  }

  ghost predicate WinsAt(retentionSecs: nat, w: World, es: seq<Event>, i: nat, h: Id)
    requires i < |es|
  {
    IsWin(WorldAt(retentionSecs, w, es, i).store, es[i], h)
  }

  /** However callers interleave, a hash is redeemed at most once. */
  lemma AtMostOneWinner(retentionSecs: nat, w: World, es: seq<Event>, i: nat, j: nat, h: Id)
    requires Inv(retentionSecs, w) && AdmissibleRun(retentionSecs, w, es)
    requires i < j < |es| && WinsAt(retentionSecs, w, es, i, h)
    ensures !WinsAt(retentionSecs, w, es, j, h)
  {
    hide *;
    AtStep(retentionSecs, w, es, i);
    assert IsWin(WorldAt(retentionSecs, w, es, i).store, es[i], h) by { WinAt(retentionSecs, w, es, i, h); }
    WinnerLeavesTheLiveRow(retentionSecs, WorldAt(retentionSecs, w, es, i), es[i], h);
    ClassificationMovesForward(retentionSecs, w, es, i + 1, j, h);
    OnlyLiveRowsWin(retentionSecs, w, es, j, h);
  }

  lemma WinAt(retentionSecs: nat, w: World, es: seq<Event>, i: nat, h: Id)
    requires i < |es| && WinsAt(retentionSecs, w, es, i, h)
    ensures IsWin(WorldAt(retentionSecs, w, es, i).store, es[i], h)
  {
  }

  lemma WinnerLeavesTheLiveRow(retentionSecs: nat, w: World, e: Event, h: Id)
    requires Inv(retentionSecs, w) && Admissible(w, e) && IsWin(w.store, e, h)
    ensures h in Stepped(retentionSecs, w, e).places
    ensures Rank(Resolve(Stepped(retentionSecs, w, e).store, h)) > 0
  {
    assert SessionOk(w, h);
  }

  lemma OnlyLiveRowsWin(retentionSecs: nat, w: World, es: seq<Event>, j: nat, h: Id)
    requires j < |es| && Rank(Resolve(WorldAt(retentionSecs, w, es, j).store, h)) > 0
    ensures !WinsAt(retentionSecs, w, es, j, h)
  {
  }

  /** A rotation wins exactly when the hash is live, and otherwise leaves the whole state as it was. */
  lemma LosingRotationChangesNothing(retentionSecs: nat, st: State, e: Event)
    requires e.op.Rotate?
    ensures Answer(st, e) == Flag(Resolve(st, e.op.liveHash).Live?)
    ensures Answer(st, e) == Flag(false) ==> Next(retentionSecs, st, e) == st
  {
  }

  lemma OneLiveGenerationPerFamily(retentionSecs: nat, w: World, g: Id, h: Id)
    requires Reachable(retentionSecs, w)
    requires g in w.store.sessions && h in w.store.sessions
    requires w.store.sessions[g].familyId == w.store.sessions[h].familyId != LEGACY_FAMILY
    ensures g == h
  {
    hide Inv, Reachable;
    ReachableIsInv(retentionSecs, w);
    LiveRowIsLast(retentionSecs, w, g);
    LiveRowIsLast(retentionSecs, w, h);
  }

  lemma LiveRowIsLast(retentionSecs: nat, w: World, h: Id)
    requires Inv(retentionSecs, w) && h in w.store.sessions && w.store.sessions[h].familyId != LEGACY_FAMILY
    ensures w.store.sessions[h].familyId in w.families
    ensures |w.families[w.store.sessions[h].familyId].chain| > 0
    ensures h == w.families[w.store.sessions[h].familyId].chain[|w.families[w.store.sessions[h].familyId].chain| - 1]
  {
    assert SessionOk(w, h);
  }

  /**
    The whole effect of a winning rotation on what any hash resolves to: the
    replacement is live; the redeemed hash is superseded by it (a legacy hash is
    forgotten); a hash it had superseded becomes retired; nothing else changes.
  */
  lemma WinningRotationEffect(retentionSecs: nat, w: World, e: Event, h: Id)
    requires Inv(retentionSecs, w) && Admissible(w, e) && e.op.Rotate? && e.op.liveHash in w.store.sessions
    ensures var before, after := w.store, Next(retentionSecs, w.store, e);
            var live, r := before.sessions[e.op.liveHash], e.op.replacement;
            Resolve(after, h) ==
              if h == r.hash then Live(r)
              else if h == e.op.liveHash then (if live.familyId == LEGACY_FAMILY then Unknown else Superseded(r, e.at))
              else if h in before.retired && before.retired[h].successor == e.op.liveHash
              then Retired(live.familyId, live.userId, before.retired[h].retiredAt)
              else Resolve(before, h)
  {
    var live := w.store.sessions[e.op.liveHash];
    assert SessionOk(w, e.op.liveHash);
    ResolutionNeverCorrupt(retentionSecs, w, h);
    assert e.op.liveHash in w.store.retired ==> RecordOk(retentionSecs, w, e.op.liveHash);
    ResolutionNeverCorrupt(retentionSecs, w, e.op.liveHash);
    if h in w.store.retired {
      assert RecordOk(retentionSecs, w, h);
      if w.store.retired[h].successor == e.op.liveHash {
        assert w.store.retired[h].familyId == live.familyId;
      }
    }
  }

  // ---- Reuse stays detectable until the retention deadline ----

  /** The operation revokes the family or the user the record belongs to. */
  predicate RevokesRecord(op: Op, r: Retirement) {
    || (op.RevokeFamily? && op.familyId == r.familyId)
    || (op.RevokeUser? && op.userId == r.userId)
  }

  lemma StepKeepsRecord(retentionSecs: nat, w: World, e: Event, h: Id)
    requires Inv(retentionSecs, w) && h in w.store.retired && !RevokesRecord(e.op, w.store.retired[h])
    requires e.op.Sweep? ==> e.at < w.store.retired[h].expiresAt
    ensures h in Stepped(retentionSecs, w, e).store.retired
    ensures Stepped(retentionSecs, w, e).store.retired[h] == w.store.retired[h]
  {
    ResolutionNeverCorrupt(retentionSecs, w, h);
    hide Inv, Next;
    RecordStays(retentionSecs, w.store, e, h);
  }

  lemma RecordStays(retentionSecs: nat, st: State, e: Event, h: Id)
    requires h in st.retired && h !in st.sessions && !RevokesRecord(e.op, st.retired[h])
    requires e.op.Sweep? ==> e.at < st.retired[h].expiresAt
    ensures h in Next(retentionSecs, st, e).retired && Next(retentionSecs, st, e).retired[h] == st.retired[h]
  {
  }

  /** A record survives every run that neither revokes its own family or user nor sweeps at or after its deadline. */
  lemma {:induction false} RecordOutlivesEarlierSweeps(retentionSecs: nat, w: World, es: seq<Event>, m: nat, n: nat, h: Id)
    requires Inv(retentionSecs, w) && AdmissibleRun(retentionSecs, w, es) && m <= n <= |es|
    requires h in WorldAt(retentionSecs, w, es, m).store.retired
    requires forall i | m <= i < n :: !RevokesRecord(es[i].op, WorldAt(retentionSecs, w, es, m).store.retired[h])
    requires forall i | m <= i < n && es[i].op.Sweep? :: es[i].at < WorldAt(retentionSecs, w, es, m).store.retired[h].expiresAt
    ensures h in WorldAt(retentionSecs, w, es, n).store.retired
    ensures WorldAt(retentionSecs, w, es, n).store.retired[h] == WorldAt(retentionSecs, w, es, m).store.retired[h]
    decreases n
  {
    hide *;
    if m < n {
      RecordOutlivesEarlierSweeps(retentionSecs, w, es, m, n - 1, h);
      AtStep(retentionSecs, w, es, n - 1);
      StepKeepsRecord(retentionSecs, WorldAt(retentionSecs, w, es, n - 1), es[n - 1], h);
    }
  }

  // ---- The whole chain, when nothing removes rows ----

  predicate Removes(op: Op) {
    op.RevokeSession? || op.RevokeFamily? || op.RevokeUser? || op.Sweep?
  }

  /** Winning rotations of family `f` among the first `n` events. */
  ghost function Wins(retentionSecs: nat, w: World, es: seq<Event>, n: nat, f: Id): nat
    requires n <= |es|
  {
    if n == 0 then 0
    else Wins(retentionSecs, w, es, n - 1, f) + WinOf(WorldAt(retentionSecs, w, es, n - 1).store, es[n - 1], f)
  }

  /** Nothing was removed: the last generation is live and every earlier one has its record. */
  ghost predicate ChainIntact(w: World, f: Id)
    requires f in w.families
  {
    var chain := w.families[f].chain;
    && |chain| > 0
    && chain[|chain| - 1] in w.store.sessions
    && forall i | 0 <= i < |chain| - 1 :: chain[i] in w.store.retired
  }

  lemma NewLineageIsIntact(retentionSecs: nat, w: World, e: Event, f: Id)
    requires Inv(retentionSecs, w) && Admissible(w, e)
    requires f in Stepped(retentionSecs, w, e).families && f !in w.families
    ensures ChainIntact(Stepped(retentionSecs, w, e), f)
  {
    if e.op.Rotate? && e.op.liveHash in w.store.sessions {
      assert SessionOk(w, e.op.liveHash);
    }
  }

  lemma OwnRotationKeepsChain(retentionSecs: nat, w: World, e: Event, f: Id)
    requires Inv(retentionSecs, w) && Admissible(w, e) && e.op.Rotate? && f in w.families && ChainIntact(w, f)
    requires e.op.liveHash in w.store.sessions && w.store.sessions[e.op.liveHash].familyId == f
    ensures f in Stepped(retentionSecs, w, e).families && ChainIntact(Stepped(retentionSecs, w, e), f)
  {
    LineageIsNonEmpty(retentionSecs, w, f);
    LiveRowIsLast(retentionSecs, w, e.op.liveHash);
    hide Inv;
  }

  lemma OtherRotationKeepsChain(retentionSecs: nat, w: World, e: Event, f: Id)
    requires Inv(retentionSecs, w) && Admissible(w, e) && e.op.Rotate? && f in w.families && ChainIntact(w, f)
    requires e.op.liveHash in w.store.sessions && w.store.sessions[e.op.liveHash].familyId != f
    ensures f in Stepped(retentionSecs, w, e).families && ChainIntact(Stepped(retentionSecs, w, e), f)
  {
    var last := w.families[f].chain[|w.families[f].chain| - 1];
    assert SessionOk(w, last) && LineageOk(w.families, w.places, f);
    hide Inv;
    assert last != e.op.liveHash;
  }

  lemma RotationKeepsChain(retentionSecs: nat, w: World, e: Event, f: Id)
    requires Inv(retentionSecs, w) && Admissible(w, e) && e.op.Rotate? && f in w.families && ChainIntact(w, f)
    ensures f in Stepped(retentionSecs, w, e).families && ChainIntact(Stepped(retentionSecs, w, e), f)
  {
    if e.op.liveHash in w.store.sessions {
      hide Inv, Admissible, ChainIntact, Stepped;
      if w.store.sessions[e.op.liveHash].familyId == f {
        OwnRotationKeepsChain(retentionSecs, w, e, f);
      } else {
        OtherRotationKeepsChain(retentionSecs, w, e, f);
      }
    }
  }

  lemma StepKeepsChain(retentionSecs: nat, w: World, e: Event, f: Id)
    requires Inv(retentionSecs, w) && Admissible(w, e) && !Removes(e.op)
    requires f in w.families && ChainIntact(w, f)
    ensures f in Stepped(retentionSecs, w, e).families
    ensures ChainIntact(Stepped(retentionSecs, w, e), f)
  {
    if e.op.Rotate? {
      RotationKeepsChain(retentionSecs, w, e, f);
    }
  }

  lemma GenesisInv(retentionSecs: nat, clock: Instant)
    ensures Inv(retentionSecs, Genesis(clock))
    ensures forall f :: f !in Genesis(clock).families
  {
  }

  lemma {:induction false} UnremovedChainIsIntact(retentionSecs: nat, clock: Instant, es: seq<Event>, n: nat, f: Id)
    requires AdmissibleRun(retentionSecs, Genesis(clock), es) && n <= |es|
    requires forall i | 0 <= i < n :: !Removes(es[i].op)
    requires f in WorldAt(retentionSecs, Genesis(clock), es, n).families
    ensures ChainIntact(WorldAt(retentionSecs, Genesis(clock), es, n), f)
  {
    hide Inv, AdmissibleRun, Admissible, Stepped, ChainIntact, Removes, Genesis;
    GenesisInv(retentionSecs, clock);
    if n > 0 {
      var w := WorldAt(retentionSecs, Genesis(clock), es, n - 1);
      AtStep(retentionSecs, Genesis(clock), es, n - 1);
      if f in w.families {
        UnremovedChainIsIntact(retentionSecs, clock, es, n - 1, f);
        StepKeepsChain(retentionSecs, w, es[n - 1], f);
      } else {
        NewLineageIsIntact(retentionSecs, w, es[n - 1], f);
      }
    }
  }

  ghost function WinOf(st: State, e: Event, f: Id): nat {
    if e.op.Rotate? && e.op.liveHash in st.sessions && st.sessions[e.op.liveHash].familyId == f then 1 else 0
  }

  ghost function Generations(w: World, f: Id): nat {
    if f in w.families then |w.families[f].chain| else 0
  }

  lemma WinLengthensChain(retentionSecs: nat, w: World, e: Event, f: Id)
    requires Inv(retentionSecs, w) && Admissible(w, e) && f != LEGACY_FAMILY
    ensures f in w.families ==> Generations(Stepped(retentionSecs, w, e), f) == Generations(w, f) + WinOf(w.store, e, f)
    ensures f !in w.families ==> Generations(Stepped(retentionSecs, w, e), f) <= 1 && WinOf(w.store, e, f) == 0
  {
    if e.op.Rotate? && e.op.liveHash in w.store.sessions {
      assert SessionOk(w, e.op.liveHash);
    }
  }

  lemma {:induction false} ChainLengthCountsWins(retentionSecs: nat, clock: Instant, es: seq<Event>, n: nat, f: Id)
    requires AdmissibleRun(retentionSecs, Genesis(clock), es) && n <= |es| && f != LEGACY_FAMILY
    ensures var g := Generations(WorldAt(retentionSecs, Genesis(clock), es, n), f);
            Wins(retentionSecs, Genesis(clock), es, n, f) == if g > 0 then g - 1 else 0
  {
    hide Inv, AdmissibleRun, Admissible, Stepped, WinOf, Genesis;
    GenesisInv(retentionSecs, clock);
    if n > 0 {
      ChainLengthCountsWins(retentionSecs, clock, es, n - 1, f);
      AtStep(retentionSecs, Genesis(clock), es, n - 1);
      var w := WorldAt(retentionSecs, Genesis(clock), es, n - 1);
      WinLengthensChain(retentionSecs, w, es[n - 1], f);
      if f in w.families {
        LineageIsNonEmpty(retentionSecs, w, f);
      }
    }
  }

  lemma LineageIsNonEmpty(retentionSecs: nat, w: World, f: Id)
    requires Inv(retentionSecs, w) && f in w.families
    ensures f != LEGACY_FAMILY && |w.families[f].chain| > 0
  {
    assert LineageOk(w.families, w.places, f);
  }

  /** How the generations of an intact family classify. */
  ghost predicate Classified(w: World, f: Id, n: nat)
    requires f in w.families
  {
    var line := w.families[f];
    && |line.chain| == n + 1
    && line.chain[n] in w.store.sessions
    && w.store.sessions[line.chain[n]].familyId == f
    && Resolve(w.store, line.chain[n]) == Live(w.store.sessions[line.chain[n]])
    && (n > 0 ==>
          var before := Resolve(w.store, line.chain[n - 1]);
          before.Superseded? && before.live == w.store.sessions[line.chain[n]])
    && (forall i | 0 <= i < n - 1 ::
          var older := Resolve(w.store, line.chain[i]);
          older.Retired? && older.familyId == f && older.userId == line.userId)
  }

  lemma IntactChainClassified(retentionSecs: nat, w: World, f: Id)
    requires Inv(retentionSecs, w) && f in w.families && ChainIntact(w, f)
    ensures Classified(w, f, |w.families[f].chain| - 1)
  {
    var line := w.families[f];
    var n := |line.chain| - 1;
    assert SessionOk(w, line.chain[n]) by { assert LineageOk(w.families, w.places, f); }
    assert w.store.sessions[line.chain[n]].familyId == f by { assert LineageOk(w.families, w.places, f); }
    forall i | 0 <= i < n
      ensures var r := Resolve(w.store, line.chain[i]);
              if i == n - 1 then r.Superseded? && r.live == w.store.sessions[line.chain[n]]
              else r.Retired? && r.familyId == f && r.userId == line.userId
    {
      IntactGenerationClassified(retentionSecs, w, f, i);
    }
  }

  lemma IntactGenerationClassified(retentionSecs: nat, w: World, f: Id, i: nat)
    requires Inv(retentionSecs, w) && f in w.families && ChainIntact(w, f)
    requires i < |w.families[f].chain| - 1
    ensures var line := w.families[f];
            var n := |line.chain| - 1;
            var r := Resolve(w.store, line.chain[i]);
            if i == n - 1 then r.Superseded? && r.live == w.store.sessions[line.chain[n]]
            else r.Retired? && r.familyId == f && r.userId == line.userId
  {
    var chain := w.families[f].chain;
    assert LineageOk(w.families, w.places, f);
    assert RecordOk(retentionSecs, w, chain[i]);
    ResolutionNeverCorrupt(retentionSecs, w, chain[i]);
    if i + 1 < |chain| - 1 {
      ResolutionNeverCorrupt(retentionSecs, w, chain[i + 1]);
    }
  }

  lemma NeverInstalledIsUnknown(retentionSecs: nat, w: World, h: Id)
    requires Inv(retentionSecs, w) && h !in w.places
    ensures Resolve(w.store, h) == Unknown
  {
    assert h in w.store.sessions ==> SessionOk(w, h);
    assert h in w.store.retired ==> RecordOk(retentionSecs, w, h);
  }

  /**
    After any run without removals, a family that won `n` rotations has `n + 1`
    generations: the last is Live, the one before it Superseded and naming it,
    all older ones Retired with the family and its user, and a hash that was
    never installed is Unknown.
  */
  lemma UnremovedFamilyClassification(retentionSecs: nat, clock: Instant, es: seq<Event>, f: Id)
    requires AdmissibleRun(retentionSecs, Genesis(clock), es)
    requires forall i | 0 <= i < |es| :: !Removes(es[i].op)
    requires f in WorldAt(retentionSecs, Genesis(clock), es, |es|).families
    ensures Classified(WorldAt(retentionSecs, Genesis(clock), es, |es|), f, Wins(retentionSecs, Genesis(clock), es, |es|, f))
    ensures forall h | h !in WorldAt(retentionSecs, Genesis(clock), es, |es|).places ::
              Resolve(WorldAt(retentionSecs, Genesis(clock), es, |es|).store, h) == Unknown
  {
    hide Inv, AdmissibleRun, WorldAt, Classified, ChainIntact, Removes, Genesis, Resolve;
    GenesisInv(retentionSecs, clock);
    ReachableInv(retentionSecs, Genesis(clock), es, |es|);
    var w := WorldAt(retentionSecs, Genesis(clock), es, |es|);
    LineageIsNonEmpty(retentionSecs, w, f);
    UnremovedChainIsIntact(retentionSecs, clock, es, |es|, f);
    ChainLengthCountsWins(retentionSecs, clock, es, |es|, f);
    IntactChainClassified(retentionSecs, w, f);
    forall h | h !in w.places ensures Resolve(w.store, h) == Unknown {
      NeverInstalledIsUnknown(retentionSecs, w, h);
    }
  }

  // ---- Revocation ----

  lemma FamilyRevocationIsExact(retentionSecs: nat, w: World, f: Id, h: Id)
    requires Inv(retentionSecs, w) && f != LEGACY_FAMILY && h in w.places
    ensures Resolve(Next(retentionSecs, w.store, Event(w.clock, RevokeFamily(f))), h)
            == if w.places[h].familyId == f then Unknown else Resolve(w.store, h)
  {
    assert h in w.store.sessions ==> SessionOk(w, h);
    ResolutionNeverCorrupt(retentionSecs, w, h);
    if h in w.store.retired {
      var next := w.store.retired[h].successor;
      assert RecordOk(retentionSecs, w, h);
      assert next in w.store.sessions ==> SessionOk(w, next);
    }
  }

  /** Whatever runs later, no hash the revoked family ever held is anything but Unknown. */
  lemma RevokedFamilyStaysUnknown(retentionSecs: nat, w: World, es: seq<Event>, i: nat, n: nat, h: Id)
    requires Inv(retentionSecs, w) && AdmissibleRun(retentionSecs, w, es)
    requires i < n <= |es| && es[i].op.RevokeFamily?
    requires h in WorldAt(retentionSecs, w, es, i).places
    requires WorldAt(retentionSecs, w, es, i).places[h].familyId == es[i].op.familyId
    ensures Resolve(WorldAt(retentionSecs, w, es, n).store, h) == Unknown
  {
    hide *;
    AtStep(retentionSecs, w, es, i);
    FamilyRevocationStep(retentionSecs, WorldAt(retentionSecs, w, es, i), es[i], h);
    ClassificationMovesForward(retentionSecs, w, es, i + 1, n, h);
    UnknownIsLast(WorldAt(retentionSecs, w, es, n).store, h);
  }

  lemma UnknownIsLast(st: State, h: Id)
    ensures Rank(Resolve(st, h)) >= Rank(Unknown) && Resolve(st, h) != Corrupt ==> Resolve(st, h) == Unknown
  {
  }

  lemma FamilyRevocationStep(retentionSecs: nat, w: World, e: Event, h: Id)
    requires Inv(retentionSecs, w) && Admissible(w, e) && e.op.RevokeFamily?
    requires h in w.places && w.places[h].familyId == e.op.familyId
    ensures h in Stepped(retentionSecs, w, e).places
    ensures Resolve(Stepped(retentionSecs, w, e).store, h) == Unknown
  {
    FamilyRevocationIsExact(retentionSecs, w, e.op.familyId, h);
  }

  function FamiliesOf(st: State, rows: set<Id>): set<Id>
    requires rows <= st.sessions.Keys
  {
    set h | h in rows :: st.sessions[h].familyId
  }

  lemma {:induction false} DistinctFamilies(st: State, rows: set<Id>)
    requires rows <= st.sessions.Keys
    requires forall g, h | g in rows && h in rows && st.sessions[g].familyId == st.sessions[h].familyId :: g == h
    ensures |FamiliesOf(st, rows)| == |rows|
    decreases |rows|
  {
    if rows != {} {
      var h :| h in rows;
      var rest := rows - {h};
      DistinctFamilies(st, rest);
      assert FamiliesOf(st, rows) == FamiliesOf(st, rest) + {st.sessions[h].familyId};
      assert st.sessions[h].familyId !in FamiliesOf(st, rest);
    }
  }

  function LegacyOfUser(st: State, userId: Id): set<Id> {
    set h | h in st.sessions && st.sessions[h].userId == userId && st.sessions[h].familyId == LEGACY_FAMILY
  }

  function FamilyRowsOfUser(st: State, userId: Id): set<Id> {
    set h | h in st.sessions && st.sessions[h].userId == userId && st.sessions[h].familyId != LEGACY_FAMILY
  }

  /** `h` belongs to `u`: a generation of one of the user's families, or a live legacy row of the user. */
  predicate BelongsTo(w: World, h: Id, u: Id) {
    && h in w.places
    && if w.places[h].familyId in w.families then w.families[w.places[h].familyId].userId == u
       else h in w.store.sessions && w.store.sessions[h].userId == u
  }

  /**
    The bulk answer counts families with a live generation plus legacy rows.
    Every hash of the user becomes Unknown, and every other hash keeps its
    classification.
  */
  lemma UserRevocationIsExact(retentionSecs: nat, w: World, u: Id)
    requires Reachable(retentionSecs, w)
    ensures Answer(w.store, Event(w.clock, RevokeUser(u)))
            == Count(|FamiliesOf(w.store, FamilyRowsOfUser(w.store, u))| + |LegacyOfUser(w.store, u)|)
    ensures var st' := Next(retentionSecs, w.store, Event(w.clock, RevokeUser(u)));
            && (forall h :: Resolve(st', h) == if BelongsTo(w, h, u) then Unknown else Resolve(w.store, h))
            && (forall h | h in st'.sessions :: st'.sessions[h].userId != u)
            && (forall h | h in st'.retired :: st'.retired[h].userId != u)
  {
    hide Reachable, Inv, Resolve, BelongsTo;
    ReachableIsInv(retentionSecs, w);
    UserRowsCounted(retentionSecs, w, u);
    forall h ensures Resolve(WithoutUser(w.store, u), h) == if BelongsTo(w, h, u) then Unknown else Resolve(w.store, h) {
      UserRevocationOfHash(retentionSecs, w, u, h);
    }
  }

  lemma UserRevocationOfHash(retentionSecs: nat, w: World, u: Id, h: Id)
    requires Inv(retentionSecs, w)
    ensures Resolve(WithoutUser(w.store, u), h) == if BelongsTo(w, h, u) then Unknown else Resolve(w.store, h)
  {
    if h in w.store.sessions {
      assert SessionOk(w, h);
    } else if h in w.store.retired {
      assert RecordOk(retentionSecs, w, h);
      var next := w.store.retired[h].successor;
      assert next in w.store.sessions ==> SessionOk(w, next);
      ResolutionNeverCorrupt(retentionSecs, w, h);
    }
    if h in w.places && w.places[h].familyId in w.families {
      assert LineageOk(w.families, w.places, w.places[h].familyId);
    }
  }

  lemma UserRowsCounted(retentionSecs: nat, w: World, u: Id)
    requires Inv(retentionSecs, w)
    ensures |LiveOfUser(w.store, u)| == |FamiliesOf(w.store, FamilyRowsOfUser(w.store, u))| + |LegacyOfUser(w.store, u)|
  {
    var rows := FamilyRowsOfUser(w.store, u);
    forall g, h | g in rows && h in rows && w.store.sessions[g].familyId == w.store.sessions[h].familyId
      ensures g == h
    {
      LiveRowIsLast(retentionSecs, w, g);
      LiveRowIsLast(retentionSecs, w, h);
    }
    hide *;
    DistinctFamilies(w.store, rows);
    UserRowsSplit(w.store, u);
  }

  lemma UserRowsSplit(st: State, u: Id)
    ensures |LiveOfUser(st, u)| == |FamilyRowsOfUser(st, u)| + |LegacyOfUser(st, u)|
  {
    assert LiveOfUser(st, u) == FamilyRowsOfUser(st, u) + LegacyOfUser(st, u);
    assert FamilyRowsOfUser(st, u) !! LegacyOfUser(st, u);
  }

  lemma RevokedUserStaysUnknown(retentionSecs: nat, w: World, es: seq<Event>, i: nat, n: nat, h: Id)
    requires Inv(retentionSecs, w) && AdmissibleRun(retentionSecs, w, es)
    requires i < n <= |es| && es[i].op.RevokeUser?
    requires h in WorldAt(retentionSecs, w, es, i).places
    requires var at := WorldAt(retentionSecs, w, es, i);
             at.places[h].familyId in at.families && at.families[at.places[h].familyId].userId == es[i].op.userId
    ensures Resolve(WorldAt(retentionSecs, w, es, n).store, h) == Unknown
  {
    hide *;
    AtStep(retentionSecs, w, es, i);
    UserRevocationStep(retentionSecs, WorldAt(retentionSecs, w, es, i), es[i], h);
    ClassificationMovesForward(retentionSecs, w, es, i + 1, n, h);
    UnknownIsLast(WorldAt(retentionSecs, w, es, n).store, h);
  }

  lemma UserRevocationStep(retentionSecs: nat, w: World, e: Event, h: Id)
    requires Inv(retentionSecs, w) && e.op.RevokeUser? && h in w.places
    requires w.places[h].familyId in w.families && w.families[w.places[h].familyId].userId == e.op.userId
    ensures h in Stepped(retentionSecs, w, e).places
    ensures Resolve(Stepped(retentionSecs, w, e).store, h) == Unknown
  {
    assert LineageOk(w.families, w.places, w.places[h].familyId);
    assert h in w.store.sessions ==> SessionOk(w, h);
    assert h in w.store.retired ==> RecordOk(retentionSecs, w, h);
  }

  // ---- The other steps, hash by hash ----

  /** A stored session is live at once, and no other hash changes. */
  lemma StoreEffect(retentionSecs: nat, w: World, e: Event, h: Id)
    requires Inv(retentionSecs, w) && Admissible(w, e) && e.op.StoreToken?
    ensures Resolve(Next(retentionSecs, w.store, e), h)
            == if h == e.op.session.hash then Live(e.op.session) else Resolve(w.store, h)
  {
    if h in w.store.retired {
      ResolutionNeverCorrupt(retentionSecs, w, h);
    }
  }

  /** Revoking one live row forgets it; the generation it superseded stays on record as Retired. */
  lemma SessionRevocationIsExact(retentionSecs: nat, w: World, g: Id, h: Id)
    requires Inv(retentionSecs, w)
    ensures var before := Resolve(w.store, h);
            Resolve(Next(retentionSecs, w.store, Event(w.clock, RevokeSession(g))), h) ==
              if h == g && before.Live? then Unknown
              else if before.Superseded? && before.live.hash == g
              then Retired(before.live.familyId, before.live.userId, before.since)
              else before
  {
    ResolutionNeverCorrupt(retentionSecs, w, h);
    assert h in w.store.sessions ==> SessionOk(w, h);
    if h in w.store.retired {
      var next := w.store.retired[h].successor;
      assert RecordOk(retentionSecs, w, h);
      assert next in w.store.sessions ==> SessionOk(w, next);
    }
  }

  /**
    A sweep makes a hash Unknown exactly when its own row or record has expired.
    It never turns Superseded into Retired, since a record's deadline never
    passes the expiry of the live row it names.
  */
  lemma SweepIsExact(retentionSecs: nat, w: World, now: Instant, h: Id)
    requires Inv(retentionSecs, w)
    ensures Resolve(Next(retentionSecs, w.store, Event(now, Sweep)), h) ==
              if h in w.store.sessions && w.store.sessions[h].expiresAt <= now then Unknown
              else if h in w.store.retired && w.store.retired[h].expiresAt <= now then Unknown
              else Resolve(w.store, h)
  {
    ResolutionNeverCorrupt(retentionSecs, w, h);
    if h in w.store.retired {
      var next := w.store.retired[h].successor;
      assert RecordOk(retentionSecs, w, h);
      assert next in w.store.sessions ==> SessionOk(w, next);
    }
  }

  /** What was there before and is gone after. */
  function Lost<K, V>(before: map<K, V>, after: map<K, V>): set<K> {
    before.Keys - after.Keys
  }

  /** A family revocation counts the rows and the records that went, and touches no claim. */
  lemma FamilyRemovalsAreCounted(retentionSecs: nat, st: State, at: Instant, f: Id)
    ensures var st' := Next(retentionSecs, st, Event(at, RevokeFamily(f)));
            && Answer(st, Event(at, RevokeFamily(f))) == Count(|Lost(st.sessions, st'.sessions)| + |Lost(st.retired, st'.retired)|)
            && st'.singleUse == st.singleUse
  {
    LostFamilyRows(st, f);
    LostFamilyRecords(st, f);
    hide Lost, SessionsOutside, RecordsOutside, LiveOfFamily, RecordsOfFamily;
  }

  lemma LostFamilyRows(st: State, f: Id)
    ensures Lost(st.sessions, SessionsOutside(st.sessions, f)) == LiveOfFamily(st, f)
  {
  }

  lemma LostFamilyRecords(st: State, f: Id)
    ensures Lost(st.retired, RecordsOutside(st.retired, f)) == RecordsOfFamily(st, f)
  {
  }

  /** A user revocation counts the rows that went, not the records, and touches no claim. */
  lemma UserRemovalsAreCounted(retentionSecs: nat, st: State, at: Instant, u: Id)
    ensures var st' := Next(retentionSecs, st, Event(at, RevokeUser(u)));
            && Answer(st, Event(at, RevokeUser(u))) == Count(|Lost(st.sessions, st'.sessions)|)
            && st'.singleUse == st.singleUse
  {
    var st' := Next(retentionSecs, st, Event(at, RevokeUser(u)));
    assert Lost(st.sessions, st'.sessions) == LiveOfUser(st, u);
  }

  /** A sweep counts the rows, records and claims that went. */
  lemma SweptRowsAreCounted(retentionSecs: nat, st: State, at: Instant)
    ensures var st' := Next(retentionSecs, st, Event(at, Sweep));
            Answer(st, Event(at, Sweep))
            == Count(|Lost(st.sessions, st'.sessions)| + |Lost(st.retired, st'.retired)| + |Lost(st.singleUse, st'.singleUse)|)
  {
    LostSessions(st, at);
    LostRecords(st, at);
    LostClaims(st, at);
    hide Lost, UnexpiredSessions, UnexpiredRecords, UnexpiredClaims, ExpiredSessions, ExpiredRecords, ExpiredClaims;
  }

  lemma LostSessions(st: State, at: Instant)
    ensures Lost(st.sessions, UnexpiredSessions(st.sessions, at)) == ExpiredSessions(st, at)
  {
  }

  lemma LostRecords(st: State, at: Instant)
    ensures Lost(st.retired, UnexpiredRecords(st.retired, at)) == ExpiredRecords(st, at)
  {
  }

  lemma LostClaims(st: State, at: Instant)
    ensures Lost(st.singleUse, UnexpiredClaims(st.singleUse, at)) == ExpiredClaims(st, at)
  {
  }

  /** The active count is the number of live rows a sweep at that instant would leave. */
  lemma ActiveCountIsWhatASweepLeaves(retentionSecs: nat, st: State, at: Instant)
    ensures Answer(st, Event(at, CountActive)) == Count(|Next(retentionSecs, st, Event(at, Sweep)).sessions|)
  {
    var left := Next(retentionSecs, st, Event(at, Sweep)).sessions;
    assert ActiveAt(st, at) == left.Keys;
    assert |left| == |left.Keys|;
  }

  // ---- Listing ----

  /**
    A listing holds the user's own unexpired live rows, newest first and each
    once. All of them are listed when the limit allows, and whatever is left out
    is no newer than anything listed.
  */
  lemma ListingIsExact(st: State, u: Id, now: Instant, limit: nat, out: seq<Id>)
    requires IsListing(st, u, now, limit, out)
    ensures forall i | 0 <= i < |out| :: out[i] in st.sessions && st.sessions[out[i]].userId == u && st.sessions[out[i]].expiresAt > now
    ensures forall i, j | 0 <= i < j < |out| :: out[i] != out[j] && st.sessions[out[i]].createdAt >= st.sessions[out[j]].createdAt
    ensures forall h | h in st.sessions && st.sessions[h].userId == u && st.sessions[h].expiresAt > now && h !in out ::
              |out| == limit && forall i | 0 <= i < |out| :: st.sessions[out[i]].createdAt >= st.sessions[h].createdAt
  {
    var rows := Listable(st, u, now);
    if h :| h in rows && h !in out {
      ListedFewer(rows, out, h);
    }
  }

  lemma ListedFewer(rows: set<Id>, out: seq<Id>, h: Id)
    requires forall i | 0 <= i < |out| :: out[i] in rows
    requires forall i, j | 0 <= i < j < |out| :: out[i] != out[j]
    requires h in rows && h !in out
    ensures |out| < |rows|
  {
    DistinctRows(out);
    var listed := set x | x in out;
    assert rows == (rows - listed - {h}) + listed + {h};
  }

  lemma {:induction false} DistinctRows(out: seq<Id>)
    requires forall i, j | 0 <= i < j < |out| :: out[i] != out[j]
    ensures |set x | x in out| == |out|
  {
    if out != [] {
      var front, last := out[..|out| - 1], out[|out| - 1];
      DistinctRows(front);
      assert (set x | x in out) == (set x | x in front) + {last};
      assert last !in front;
    }
  }

  /** A listing shows a non-legacy family at most once. */
  lemma ListingShowsAFamilyOnce(retentionSecs: nat, w: World, u: Id, now: Instant, limit: nat, out: seq<Id>, i: nat, j: nat)
    requires Reachable(retentionSecs, w) && IsListing(w.store, u, now, limit, out)
    requires i < j < |out|
    ensures w.store.sessions[out[i]].familyId != w.store.sessions[out[j]].familyId || w.store.sessions[out[i]].familyId == LEGACY_FAMILY
  {
    if w.store.sessions[out[i]].familyId == w.store.sessions[out[j]].familyId != LEGACY_FAMILY {
      OneLiveGenerationPerFamily(retentionSecs, w, out[i], out[j]);
    }
  }
}
