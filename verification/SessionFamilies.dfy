/**
  What every run of the session store keeps.

  A `World` is the store together with the history its environment produced:
  for each family its lineage (every generation ever installed, in order), for
  each hash ever installed its place in that history, and the clock. The
  environment's side of the contract is `Admissible`:
    - the clock never goes back;
    - an installed hash and a newly stored or minted family id was never used before;
    - a replacement inherits `expiresAt` and `createdAt` of the row it replaces;
    - the store's own assertions hold.
*/
module SessionFamilies {
  import opened Sessions

  datatype Lineage = Lineage(userId: Id, createdAt: Instant, expiresAt: Instant, chain: seq<Id>)

  datatype Place = Place(familyId: Id, index: nat)

  datatype World = World(store: State, families: map<Id, Lineage>, places: map<Id, Place>, clock: Instant)

  // ---- The environment ----

  predicate FreshFamily(w: World, familyId: Id) {
    familyId !in w.families && IsValidFamilyId(familyId)
  }

  predicate AdmissibleRotation(w: World, liveHash: Id, r: Session) {
    && RotationAllowed(w.store, liveHash, r)
    && (liveHash in w.store.sessions ==>
          var live := w.store.sessions[liveHash];
          && r.hash !in w.places
          && r.expiresAt == live.expiresAt
          && r.createdAt == live.createdAt
          && (live.familyId == LEGACY_FAMILY ==> FreshFamily(w, r.familyId)))
  }

  predicate Admissible(w: World, e: Event) {
    && w.clock <= e.at
    && Allowed(w.store, e.op)
    && match e.op
       case StoreToken(s) => s.hash !in w.places && (s.familyId == LEGACY_FAMILY || FreshFamily(w, s.familyId))
       case Rotate(liveHash, r) => AdmissibleRotation(w, liveHash, r)
       case _ => true
  }

  // ---- Histories ----

  /** A row that starts a family (or a legacy row, which belongs to none). */
  function Founded(w: World, s: Session): World {
    if s.familyId == LEGACY_FAMILY then
      w.(places := w.places[s.hash := Place(LEGACY_FAMILY, 0)])
    else
      w.(families := w.families[s.familyId := Lineage(s.userId, s.createdAt, s.expiresAt, [s.hash])],
         places := w.places[s.hash := Place(s.familyId, 0)])
  }

  function Extended(w: World, familyId: Id, h: Id): World
    requires familyId in w.families
  {
    var line := w.families[familyId];
    w.(families := w.families[familyId := line.(chain := line.chain + [h])],
       places := w.places[h := Place(familyId, |line.chain|)])
  }

  function Recorded(w: World, e: Event): World {
    match e.op
    case StoreToken(s) => Founded(w, s)
    case Rotate(liveHash, r) =>
      if liveHash !in w.store.sessions then w
      else
        var f := w.store.sessions[liveHash].familyId;
        if f in w.families then Extended(w, f, r.hash) else Founded(w, r)
    case _ => w
  }

  function Stepped(retentionSecs: nat, w: World, e: Event): World {
    Recorded(w, e).(store := Next(retentionSecs, w.store, e), clock := e.at)
  }

  function WorldAt(retentionSecs: nat, w: World, es: seq<Event>, n: nat): World
    requires n <= |es|
  {
    if n == 0 then w else Stepped(retentionSecs, WorldAt(retentionSecs, w, es, n - 1), es[n - 1])
  }

  ghost predicate AdmissibleRun(retentionSecs: nat, w: World, es: seq<Event>) {
    forall i | 0 <= i < |es| :: Admissible(WorldAt(retentionSecs, w, es, i), es[i])
  }

  function Genesis(clock: Instant): World {
    World(EMPTY_STATE, map[], map[], clock)
  }

  // ---- The invariant ----

  /** The history agrees with itself, so no hash occurs twice in it. */
  ghost predicate LineageOk(families: map<Id, Lineage>, places: map<Id, Place>, f: Id)
    requires f in families
  {
    var chain := families[f].chain;
    && f != LEGACY_FAMILY
    && |chain| > 0
    && forall i | 0 <= i < |chain| :: chain[i] in places && places[chain[i]] == Place(f, i)
  }

  ghost predicate LineagesOk(w: World) {
    forall f | f in w.families :: LineageOk(w.families, w.places, f)
  }

  /** A live row is legacy, or it is the last generation of its family. */
  ghost predicate SessionOk(w: World, h: Id)
    requires h in w.store.sessions
  {
    var s := w.store.sessions[h];
    && s.hash == h
    && h in w.places
    && w.places[h].familyId == s.familyId
    && (s.familyId != LEGACY_FAMILY ==>
          && s.familyId in w.families
          && var line := w.families[s.familyId];
          && |line.chain| > 0
          && h == line.chain[|line.chain| - 1]
          && s.userId == line.userId
          && s.createdAt == line.createdAt
          && s.expiresAt == line.expiresAt)
  }

  /** A record belongs to a generation that has a next one, and names it. */
  ghost predicate RecordOk(retentionSecs: nat, w: World, h: Id)
    requires h in w.store.retired
  {
    var r := w.store.retired[h];
    && r.hash == h
    && h in w.places
    && r.familyId == w.places[h].familyId
    && r.familyId in w.families
    && var line := w.families[r.familyId];
    var i := w.places[h].index;
    && i + 1 < |line.chain|
    && line.chain[i] == h
    && r.successor == line.chain[i + 1]
    && r.userId == line.userId
    && r.retiredAt <= w.clock
    && r.expiresAt == RetentionDeadline(r.retiredAt, retentionSecs, line.expiresAt)
  }

  ghost predicate SessionsOk(w: World) {
    forall h | h in w.store.sessions :: SessionOk(w, h)
  }

  ghost predicate RecordsOk(retentionSecs: nat, w: World) {
    forall h | h in w.store.retired :: RecordOk(retentionSecs, w, h)
  }

  /** Once a generation's record is retained, so is every later superseded one, retired no earlier. */
  ghost predicate SuffixOk(chain: seq<Id>, retired: map<Id, Retirement>) {
    forall i, j | 0 <= i < j < |chain| - 1 && chain[i] in retired ::
      && chain[j] in retired
      && retired[chain[i]].retiredAt <= retired[chain[j]].retiredAt
  }

  ghost predicate SuffixesOk(w: World) {
    forall f | f in w.families :: SuffixOk(w.families[f].chain, w.store.retired)
  }

  ghost predicate Inv(retentionSecs: nat, w: World) {
    && LineagesOk(w)
    && SessionsOk(w)
    && RecordsOk(retentionSecs, w)
    && SuffixesOk(w)
  }

  // ---- Every step keeps it ----

  lemma LaterRetirementExpiresLater(retentionSecs: nat, a: Instant, b: Instant, familyExpiresAt: Instant)
    requires a <= b
    ensures RetentionDeadline(a, retentionSecs, familyExpiresAt) <= RetentionDeadline(b, retentionSecs, familyExpiresAt)
  {
  }

  /** `st'` holds some of the rows of `st`, unchanged. */
  ghost predicate Shrunk(st: State, st': State) {
    && (forall h | h in st'.sessions :: h in st.sessions && st'.sessions[h] == st.sessions[h])
    && (forall h | h in st'.retired :: h in st.retired && st'.retired[h] == st.retired[h])
  }

  lemma FewerSessionsOk(w: World, w': World)
    requires SessionsOk(w) && Shrunk(w.store, w'.store)
    requires w'.families == w.families && w'.places == w.places
    ensures SessionsOk(w')
  {
    forall h | h in w'.store.sessions ensures SessionOk(w', h) {
      assert SessionOk(w, h);
    }
  }

  lemma FewerRecordsOk(retentionSecs: nat, w: World, w': World)
    requires RecordsOk(retentionSecs, w) && Shrunk(w.store, w'.store)
    requires w'.families == w.families && w'.places == w.places && w.clock <= w'.clock
    ensures RecordsOk(retentionSecs, w')
  {
    forall h | h in w'.store.retired ensures RecordOk(retentionSecs, w', h) {
      assert RecordOk(retentionSecs, w, h);
    }
  }

  /** Removing live rows, and records whose family suffixes survive, keeps the invariant. */
  lemma RemovalKeepsInv(retentionSecs: nat, w: World, w': World)
    requires Inv(retentionSecs, w) && Shrunk(w.store, w'.store)
    requires w'.families == w.families && w'.places == w.places && w.clock <= w'.clock
    requires SuffixesOk(w')
    ensures Inv(retentionSecs, w')
  {
    FewerSessionsOk(w, w');
    FewerRecordsOk(retentionSecs, w, w');
  }

  lemma RemovalShrinks(retentionSecs: nat, st: State, e: Event)
    requires !e.op.StoreToken? && !(e.op.Rotate? && e.op.liveHash in st.sessions)
    ensures Shrunk(st, Next(retentionSecs, st, e))
  {
  }

  lemma SweepKeepsSuffix(retentionSecs: nat, w: World, now: Instant, f: Id)
    requires Inv(retentionSecs, w) && f in w.families
    ensures SuffixOk(w.families[f].chain, UnexpiredRecords(w.store.retired, now))
  {
    var retired := UnexpiredRecords(w.store.retired, now);
    var line := w.families[f];
    forall i, j | 0 <= i < j < |line.chain| - 1 && line.chain[i] in retired
      ensures line.chain[j] in retired
      ensures retired[line.chain[i]].retiredAt <= retired[line.chain[j]].retiredAt
    {
      assert SuffixOk(w.families[f].chain, w.store.retired);
      assert RecordOk(retentionSecs, w, line.chain[i]) && RecordOk(retentionSecs, w, line.chain[j]);
      LaterRetirementExpiresLater(retentionSecs, w.store.retired[line.chain[i]].retiredAt,
                                  w.store.retired[line.chain[j]].retiredAt, line.expiresAt);
    }
  }

  lemma FamilyRevocationKeepsSuffix(retentionSecs: nat, w: World, gone: Id, f: Id)
    requires Inv(retentionSecs, w) && f in w.families
    ensures SuffixOk(w.families[f].chain, RecordsOutside(w.store.retired, gone))
  {
    var retired := RecordsOutside(w.store.retired, gone);
    var chain := w.families[f].chain;
    forall i, j | 0 <= i < j < |chain| - 1 && chain[i] in retired
      ensures chain[j] in retired
      ensures retired[chain[i]].retiredAt <= retired[chain[j]].retiredAt
    {
      assert SuffixOk(w.families[f].chain, w.store.retired);
      assert RecordOk(retentionSecs, w, chain[i]) && RecordOk(retentionSecs, w, chain[j]);
    }
  }

  lemma UserRevocationKeepsSuffix(retentionSecs: nat, w: World, gone: Id, f: Id)
    requires Inv(retentionSecs, w) && f in w.families
    ensures SuffixOk(w.families[f].chain, RecordsNotOf(w.store.retired, gone))
  {
    var retired := RecordsNotOf(w.store.retired, gone);
    var chain := w.families[f].chain;
    forall i, j | 0 <= i < j < |chain| - 1 && chain[i] in retired
      ensures chain[j] in retired
      ensures retired[chain[i]].retiredAt <= retired[chain[j]].retiredAt
    {
      assert SuffixOk(w.families[f].chain, w.store.retired);
      assert RecordOk(retentionSecs, w, chain[i]) && RecordOk(retentionSecs, w, chain[j]);
    }
  }

  lemma FoundingKeepsLineages(w: World, s: Session)
    requires LineagesOk(w) && s.hash !in w.places
    requires s.familyId == LEGACY_FAMILY || FreshFamily(w, s.familyId)
    ensures LineagesOk(Founded(w, s))
  {
    var w' := Founded(w, s);
    forall f | f in w'.families ensures LineageOk(w'.families, w'.places, f) {
      if f in w.families {
        assert LineageOk(w.families, w.places, f);
      }
    }
  }

  lemma FoundingKeepsRecords(retentionSecs: nat, w: World, w': World, s: Session)
    requires RecordsOk(retentionSecs, w) && SuffixesOk(w)
    requires s.hash !in w.places
    requires s.familyId == LEGACY_FAMILY || FreshFamily(w, s.familyId)
    requires w.clock <= w'.clock
    requires w'.families == Founded(w, s).families && w'.places == Founded(w, s).places
    requires w'.store.retired == w.store.retired
    ensures RecordsOk(retentionSecs, w') && SuffixesOk(w')
  {
    forall h | h in w'.store.retired ensures RecordOk(retentionSecs, w', h) {
      assert RecordOk(retentionSecs, w, h);
    }
    forall f | f in w'.families ensures SuffixOk(w'.families[f].chain, w'.store.retired) {
      if f in w.families {
        assert SuffixOk(w.families[f].chain, w.store.retired);
      }
    }
  }

  /** Installing the first row of a family, or a legacy row, at a hash never used. */
  lemma FoundingKeepsInv(retentionSecs: nat, w: World, w': World, s: Session)
    requires Inv(retentionSecs, w)
    requires s.hash !in w.places
    requires s.familyId == LEGACY_FAMILY || FreshFamily(w, s.familyId)
    requires w.clock <= w'.clock
    requires w'.families == Founded(w, s).families && w'.places == Founded(w, s).places
    requires s.hash in w'.store.sessions && w'.store.sessions[s.hash] == s
    requires forall h | h in w'.store.sessions && h != s.hash :: h in w.store.sessions && w'.store.sessions[h] == w.store.sessions[h]
    requires w'.store.retired == w.store.retired
    ensures Inv(retentionSecs, w')
  {
    FoundingKeepsLineages(w, s);
    FoundingKeepsRecords(retentionSecs, w, w', s);
    forall h | h in w'.store.sessions ensures SessionOk(w', h) {
      if h != s.hash {
        assert SessionOk(w, h);
      }
    }
  }

  lemma ExtensionKeepsLineages(w: World, f: Id, h: Id)
    requires LineagesOk(w) && f in w.families && h !in w.places
    ensures LineagesOk(Extended(w, f, h))
  {
    var w' := Extended(w, f, h);
    forall g | g in w'.families ensures LineageOk(w'.families, w'.places, g) {
      assert LineageOk(w.families, w.places, g);
    }
  }

  lemma ExtensionKeepsSessions(retentionSecs: nat, w: World, liveHash: Id, r: Session, now: Instant)
    requires Inv(retentionSecs, w) && AdmissibleRotation(w, liveHash, r) && liveHash in w.store.sessions
    requires w.store.sessions[liveHash].familyId != LEGACY_FAMILY && r.familyId in w.families
    ensures SessionsOk(Extended(w, r.familyId, r.hash).(store := Swapped(w.store, retentionSecs, liveHash, r, now), clock := now))
  {
    assert SessionOk(w, liveHash);
    var w' := Extended(w, r.familyId, r.hash).(store := Swapped(w.store, retentionSecs, liveHash, r, now), clock := now);
    forall h | h in w'.store.sessions ensures SessionOk(w', h) {
      if h != r.hash {
        assert SessionOk(w, h);
      }
    }
  }

  lemma ExtensionKeepsRecords(retentionSecs: nat, w: World, liveHash: Id, r: Session, now: Instant)
    requires Inv(retentionSecs, w) && w.clock <= now
    requires AdmissibleRotation(w, liveHash, r) && liveHash in w.store.sessions
    requires w.store.sessions[liveHash].familyId != LEGACY_FAMILY
    ensures r.familyId in w.families
    ensures RecordsOk(retentionSecs, Extended(w, r.familyId, r.hash).(store := Swapped(w.store, retentionSecs, liveHash, r, now), clock := now))
  {
    assert SessionOk(w, liveHash);
    var w' := Extended(w, r.familyId, r.hash).(store := Swapped(w.store, retentionSecs, liveHash, r, now), clock := now);
    forall h | h in w'.store.retired ensures RecordOk(retentionSecs, w', h) {
      if h != liveHash {
        assert RecordOk(retentionSecs, w, h);
      }
    }
  }

  lemma ExtensionKeepsSuffix(retentionSecs: nat, w: World, liveHash: Id, r: Session, now: Instant, f: Id)
    requires Inv(retentionSecs, w) && w.clock <= now
    requires AdmissibleRotation(w, liveHash, r) && liveHash in w.store.sessions
    requires w.store.sessions[liveHash].familyId != LEGACY_FAMILY
    requires r.familyId in w.families && f in w.families
    ensures SuffixOk(Extended(w, r.familyId, r.hash).families[f].chain, Swapped(w.store, retentionSecs, liveHash, r, now).retired)
  {
    assert SessionOk(w, liveHash) && SuffixOk(w.families[f].chain, w.store.retired);
    var w' := Extended(w, r.familyId, r.hash).(store := Swapped(w.store, retentionSecs, liveHash, r, now), clock := now);
    var chain := w'.families[f].chain;
    forall i, j | 0 <= i < j < |chain| - 1 && chain[i] in w'.store.retired
      ensures chain[j] in w'.store.retired
      ensures w'.store.retired[chain[i]].retiredAt <= w'.store.retired[chain[j]].retiredAt
    {
      assert w.families[f].chain[i] == chain[i] && w.families[f].chain[j] == chain[j];
      assert chain[i] != liveHash;
      assert RecordOk(retentionSecs, w, chain[i]);
    }
  }

  lemma ExtensionKeepsInv(retentionSecs: nat, w: World, liveHash: Id, r: Session, now: Instant)
    requires Inv(retentionSecs, w) && w.clock <= now
    requires AdmissibleRotation(w, liveHash, r) && liveHash in w.store.sessions
    requires w.store.sessions[liveHash].familyId != LEGACY_FAMILY
    ensures Inv(retentionSecs, Stepped(retentionSecs, w, Event(now, Rotate(liveHash, r))))
  {
    assert SessionOk(w, liveHash);
    ExtensionKeepsRecords(retentionSecs, w, liveHash, r, now);
    ExtensionKeepsLineages(w, r.familyId, r.hash);
    ExtensionKeepsSessions(retentionSecs, w, liveHash, r, now);
    var w' := Stepped(retentionSecs, w, Event(now, Rotate(liveHash, r)));
    forall f | f in w'.families ensures SuffixOk(w'.families[f].chain, w'.store.retired) {
      ExtensionKeepsSuffix(retentionSecs, w, liveHash, r, now, f);
    }
  }

  lemma RotationKeepsInv(retentionSecs: nat, w: World, liveHash: Id, r: Session, now: Instant)
    requires Inv(retentionSecs, w)
    requires Admissible(w, Event(now, Rotate(liveHash, r)))
    ensures Inv(retentionSecs, Stepped(retentionSecs, w, Event(now, Rotate(liveHash, r))))
  {
    var w' := Stepped(retentionSecs, w, Event(now, Rotate(liveHash, r)));
    if liveHash !in w.store.sessions {
      SameRecordsKeepSuffixes(w, w');
      RemovalShrinks(retentionSecs, w.store, Event(now, Rotate(liveHash, r)));
      RemovalKeepsInv(retentionSecs, w, w');
    } else if w.store.sessions[liveHash].familyId == LEGACY_FAMILY {
      assert LEGACY_FAMILY !in w.families;
      FoundingKeepsInv(retentionSecs, w, w', r);
    } else {
      ExtensionKeepsInv(retentionSecs, w, liveHash, r, now);
    }
  }

  lemma SameRecordsKeepSuffixes(w: World, w': World)
    requires SuffixesOk(w) && w'.families == w.families && w'.store.retired == w.store.retired
    ensures SuffixesOk(w')
  {
  }

  lemma StepKeepsInv(retentionSecs: nat, w: World, e: Event)
    requires Inv(retentionSecs, w) && Admissible(w, e)
    ensures Inv(retentionSecs, Stepped(retentionSecs, w, e))
  {
    match e.op
    case StoreToken(s) =>
      FoundingKeepsInv(retentionSecs, w, Stepped(retentionSecs, w, e), s);
    case Rotate(liveHash, r) =>
      RotationKeepsInv(retentionSecs, w, liveHash, r, e.at);
    case _ =>
      RemovalStepKeepsInv(retentionSecs, w, e);
  }

  lemma RemovalStepKeepsInv(retentionSecs: nat, w: World, e: Event)
    requires Inv(retentionSecs, w) && w.clock <= e.at
    requires !e.op.StoreToken? && !e.op.Rotate?
    ensures Inv(retentionSecs, Stepped(retentionSecs, w, e))
  {
    var w' := Stepped(retentionSecs, w, e);
    RemovalKeepsSuffixes(retentionSecs, w, e);
    RemovalShrinks(retentionSecs, w.store, e);
    RemovalKeepsInv(retentionSecs, w, w');
  }

  lemma RemovalKeepsSuffixes(retentionSecs: nat, w: World, e: Event)
    requires Inv(retentionSecs, w)
    requires !e.op.StoreToken? && !e.op.Rotate?
    ensures SuffixesOk(Stepped(retentionSecs, w, e))
  {
    var w' := Stepped(retentionSecs, w, e);
    match e.op {
      case RevokeFamily(gone) =>
        forall f | f in w'.families ensures SuffixOk(w'.families[f].chain, w'.store.retired) { FamilyRevocationKeepsSuffix(retentionSecs, w, gone, f); }
      case RevokeUser(gone) =>
        forall f | f in w'.families ensures SuffixOk(w'.families[f].chain, w'.store.retired) { UserRevocationKeepsSuffix(retentionSecs, w, gone, f); }
      case Sweep =>
        forall f | f in w'.families ensures SuffixOk(w'.families[f].chain, w'.store.retired) { SweepKeepsSuffix(retentionSecs, w, e.at, f); }
      case _ =>
        SameRecordsKeepSuffixes(w, w');
    }
  }

  /** Every world any admissible run reaches satisfies the invariant. */
  lemma {:induction false} ReachableInv(retentionSecs: nat, w: World, es: seq<Event>, n: nat)
    requires Inv(retentionSecs, w) && AdmissibleRun(retentionSecs, w, es) && n <= |es|
    ensures Inv(retentionSecs, WorldAt(retentionSecs, w, es, n))
  {
    if n > 0 {
      ReachableInv(retentionSecs, w, es, n - 1);
      StepKeepsInv(retentionSecs, WorldAt(retentionSecs, w, es, n - 1), es[n - 1]);
    }
  }
}
