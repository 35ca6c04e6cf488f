/**
  The session-family store (crates/test-utils/src/lib.rs): its rows, the effect
  and the answer of each operation as pure functions of the locked state, and
  the class whose methods carry them out in place.

  Every method of the store takes the state mutex exactly once, so each is one
  atomic step and concurrent callers are interleavings of these steps.
  Instants are nanoseconds. `Utc::now()` is the `now` argument.
*/
module Sessions {
  import opened Wrappers

  type Instant = int

  const SECOND: int := 1_000_000_000

  /** A refresh-token hash, family id, user id or single-use key. */
  datatype Id = Id(text: string)

  const FAMILY_ID_PREFIX := "fam_"
  const ULID_CHAR_LEN := 26
  const ULID_ALPHABET := "0123456789abcdefghjkmnpqrstvwxyz"

  /** The pre-rotation (legacy) rows carry this sentinel instead of a family. */
  const LEGACY_FAMILY := Id("")

  datatype Session = Session(
    hash: Id,
    familyId: Id,
    userId: Id,
    generation: nat,
    createdAt: Instant,
    expiresAt: Instant)

  datatype Retirement = Retirement(
    hash: Id,
    familyId: Id,
    userId: Id,
    successor: Id,
    retiredAt: Instant,
    expiresAt: Instant)

  datatype State = State(
    sessions: map<Id, Session>,
    retired: map<Id, Retirement>,
    singleUse: map<Id, Instant>)

  const EMPTY_STATE := State(map[], map[], map[])

  /** `Corrupt` is the panic of the successor assertion inside resolution. */
  datatype Resolution =
    | Live(session: Session)
    | Superseded(live: Session, since: Instant)
    | Retired(familyId: Id, userId: Id, retiredAt: Instant)
    | Unknown
    | Corrupt

  datatype Op =
    | StoreToken(session: Session)
    | Rotate(liveHash: Id, replacement: Session)
    | RevokeSession(hash: Id)
    | RevokeFamily(familyId: Id)
    | RevokeUser(userId: Id)
    | Sweep
    | PutSingleUse(key: Id, expiresAt: Instant)
    | TakeSingleUse(key: Id)
    | CountActive

  datatype Event = Event(at: Instant, op: Op)

  datatype Reply = Done | Flag(won: bool) | Count(n: nat)

  predicate IsValidFamilyId(id: Id) {
    && |id.text| == |FAMILY_ID_PREFIX| + ULID_CHAR_LEN
    && id.text[..|FAMILY_ID_PREFIX|] == FAMILY_ID_PREFIX
    && forall i | |FAMILY_ID_PREFIX| <= i < |id.text| :: id.text[i] in ULID_ALPHABET
  }

  function RetentionDeadline(retiredAt: Instant, retentionSecs: nat, familyExpiresAt: Instant): (deadline: Instant)
    ensures deadline <= familyExpiresAt && deadline <= retiredAt + retentionSecs * 1_000_000_000
    ensures deadline == familyExpiresAt || deadline == retiredAt + retentionSecs * 1_000_000_000
  {
    var byRetention := retiredAt + retentionSecs * SECOND;
    if byRetention < familyExpiresAt then byRetention else familyExpiresAt
  }

  // ---- What each operation demands of its callers (its assertions) ----

  predicate RotationAllowed(st: State, liveHash: Id, replacement: Session) {
    && IsValidFamilyId(replacement.familyId)
    && liveHash != replacement.hash
    && (liveHash in st.sessions ==>
          var live := st.sessions[liveHash];
          && (live.familyId == LEGACY_FAMILY || live.familyId == replacement.familyId)
          && live.userId == replacement.userId
          && replacement.hash !in st.sessions
          && replacement.hash !in st.retired)
  }

  predicate Allowed(st: State, op: Op) {
    match op
    case StoreToken(s) => (s.familyId == LEGACY_FAMILY || IsValidFamilyId(s.familyId)) && s.hash != Id("")
    case Rotate(liveHash, replacement) => RotationAllowed(st, liveHash, replacement)
    case RevokeFamily(familyId) => IsValidFamilyId(familyId)
    case PutSingleUse(key, _) => key != Id("")
    case TakeSingleUse(key) => key != Id("")
    case _ => true
  }

  // ---- Rows an operation selects ----

  function LiveOfFamily(st: State, familyId: Id): set<Id> {
    set h | h in st.sessions && st.sessions[h].familyId == familyId
  }

  function RecordsOfFamily(st: State, familyId: Id): set<Id> {
    set h | h in st.retired && st.retired[h].familyId == familyId
  }

  function LiveOfUser(st: State, userId: Id): set<Id> {
    set h | h in st.sessions && st.sessions[h].userId == userId
  }

  function ActiveAt(st: State, now: Instant): set<Id> {
    set h | h in st.sessions && st.sessions[h].expiresAt > now
  }

  function ExpiredSessions(st: State, now: Instant): set<Id> {
    set h | h in st.sessions && st.sessions[h].expiresAt <= now
  }

  function ExpiredRecords(st: State, now: Instant): set<Id> {
    set h | h in st.retired && st.retired[h].expiresAt <= now
  }

  function ExpiredClaims(st: State, now: Instant): set<Id> {
    set k | k in st.singleUse && st.singleUse[k] <= now
  }

  // ---- The `retain` filters ----

  function SessionsOutside(m: map<Id, Session>, familyId: Id): map<Id, Session> {
    map h | h in m && m[h].familyId != familyId :: m[h]
  }

  function RecordsOutside(m: map<Id, Retirement>, familyId: Id): map<Id, Retirement> {
    map h | h in m && m[h].familyId != familyId :: m[h]
  }

  function SessionsNotOf(m: map<Id, Session>, userId: Id): map<Id, Session> {
    map h | h in m && m[h].userId != userId :: m[h]
  }

  function RecordsNotOf(m: map<Id, Retirement>, userId: Id): map<Id, Retirement> {
    map h | h in m && m[h].userId != userId :: m[h]
  }

  function UnexpiredSessions(m: map<Id, Session>, now: Instant): map<Id, Session> {
    map h | h in m && m[h].expiresAt > now :: m[h]
  }

  function UnexpiredRecords(m: map<Id, Retirement>, now: Instant): map<Id, Retirement> {
    map h | h in m && m[h].expiresAt > now :: m[h]
  }

  function UnexpiredClaims(m: map<Id, Instant>, now: Instant): map<Id, Instant> {
    map k | k in m && m[k] > now :: m[k]
  }

  // ---- Effects ----

  function WithoutFamily(st: State, familyId: Id): State {
    State(SessionsOutside(st.sessions, familyId), RecordsOutside(st.retired, familyId), st.singleUse)
  }

  function WithoutUser(st: State, userId: Id): State {
    State(SessionsNotOf(st.sessions, userId), RecordsNotOf(st.retired, userId), st.singleUse)
  }

  function Swept(st: State, now: Instant): State {
    State(UnexpiredSessions(st.sessions, now), UnexpiredRecords(st.retired, now), UnexpiredClaims(st.singleUse, now))
  }

  /** The compare-and-swap that won: retire the live row (unless it is a legacy row), install the replacement. */
  function Swapped(st: State, retentionSecs: nat, liveHash: Id, r: Session, now: Instant): State
    requires liveHash in st.sessions
  {
    var record := Retirement(liveHash, r.familyId, r.userId, r.hash, now,
                             RetentionDeadline(now, retentionSecs, r.expiresAt));
    State((st.sessions - {liveHash})[r.hash := r],
          if st.sessions[liveHash].familyId == LEGACY_FAMILY then st.retired else st.retired[liveHash := record],
          st.singleUse)
  }

  function Next(retentionSecs: nat, st: State, e: Event): State {
    match e.op
    case StoreToken(s) => st.(sessions := st.sessions[s.hash := s])
    case Rotate(liveHash, r) =>
      if liveHash in st.sessions then Swapped(st, retentionSecs, liveHash, r, e.at) else st
    case RevokeSession(h) => st.(sessions := st.sessions - {h})
    case RevokeFamily(f) => WithoutFamily(st, f)
    case RevokeUser(u) => WithoutUser(st, u)
    case Sweep => Swept(st, e.at)
    case PutSingleUse(k, expiresAt) =>
      if k in st.singleUse && st.singleUse[k] > e.at then st
      else st.(singleUse := st.singleUse[k := expiresAt])
    case TakeSingleUse(k) => st.(singleUse := st.singleUse - {k})
    case CountActive => st
  }

  function Answer(st: State, e: Event): Reply {
    match e.op
    case StoreToken(_) => Done
    case Rotate(liveHash, _) => Flag(liveHash in st.sessions)
    case RevokeSession(_) => Done
    case RevokeFamily(f) => Count(|LiveOfFamily(st, f)| + |RecordsOfFamily(st, f)|)
    case RevokeUser(u) => Count(|LiveOfUser(st, u)|)
    case Sweep => Count(|ExpiredSessions(st, e.at)| + |ExpiredRecords(st, e.at)| + |ExpiredClaims(st, e.at)|)
    case PutSingleUse(k, _) => Flag(!(k in st.singleUse && st.singleUse[k] > e.at))
    case TakeSingleUse(k) => Flag(k in st.singleUse && st.singleUse[k] > e.at)
    case CountActive => Count(|ActiveAt(st, e.at)|)
  }

  function Resolve(st: State, h: Id): Resolution {
    if h in st.sessions then Live(st.sessions[h])
    else if h !in st.retired then Unknown
    else
      var record := st.retired[h];
      if record.successor in st.sessions then
        var live := st.sessions[record.successor];
        if live.familyId == record.familyId then Superseded(live, record.retiredAt) else Corrupt
      else Retired(record.familyId, record.userId, record.retiredAt)
  }

  // ---- Listing ----

  /** The rows `list_live_sessions` filters for. */
  function Listable(st: State, userId: Id, now: Instant): set<Id> {
    set h | h in st.sessions && st.sessions[h].userId == userId && st.sessions[h].expiresAt > now
  }

  /**
    `out` is a listing of the newest `limit` unexpired live rows of the user,
    newest first. The hash map's iteration order decides between rows created
    at the same instant, so several listings can satisfy this.
  */
  ghost predicate IsListing(st: State, userId: Id, now: Instant, limit: nat, out: seq<Id>) {
    var rows := Listable(st, userId, now);
    && |out| == (if |rows| < limit then |rows| else limit)
    && (forall i | 0 <= i < |out| :: out[i] in rows)
    && (forall i, j | 0 <= i < j < |out| :: out[i] != out[j])
    && (forall i, j | 0 <= i < j < |out| :: st.sessions[out[i]].createdAt >= st.sessions[out[j]].createdAt)
    && (forall i, h | 0 <= i < |out| && h in rows && h !in out :: st.sessions[out[i]].createdAt >= st.sessions[h].createdAt)
  }

  // ---- Counting what a retain removed ----

  lemma RetainedSize<V>(m: map<Id, V>, kept: map<Id, V>, gone: set<Id>)
    requires gone <= m.Keys
    requires kept.Keys == m.Keys - gone
    ensures |m| - |kept| == |gone|
  {
    assert |m.Keys| == |m| && |kept.Keys| == |kept|;
    assert m.Keys == kept.Keys + gone;
  }

  lemma FamilyRemovalSizes(st: State, familyId: Id)
    ensures |st.sessions| - |SessionsOutside(st.sessions, familyId)| == |LiveOfFamily(st, familyId)|
    ensures |st.retired| - |RecordsOutside(st.retired, familyId)| == |RecordsOfFamily(st, familyId)|
  {
    RetainedSize(st.sessions, SessionsOutside(st.sessions, familyId), LiveOfFamily(st, familyId));
    RetainedSize(st.retired, RecordsOutside(st.retired, familyId), RecordsOfFamily(st, familyId));
  }

  lemma SweptSessionsSize(st: State, now: Instant)
    ensures |st.sessions| - |UnexpiredSessions(st.sessions, now)| == |ExpiredSessions(st, now)|
  {
    RetainedSize(st.sessions, UnexpiredSessions(st.sessions, now), ExpiredSessions(st, now));
  }

  lemma SweptRecordsSize(st: State, now: Instant)
    ensures |st.retired| - |UnexpiredRecords(st.retired, now)| == |ExpiredRecords(st, now)|
  {
    RetainedSize(st.retired, UnexpiredRecords(st.retired, now), ExpiredRecords(st, now));
  }

  lemma SweptClaimsSize(st: State, now: Instant)
    ensures |st.singleUse| - |UnexpiredClaims(st.singleUse, now)| == |ExpiredClaims(st, now)|
  {
    RetainedSize(st.singleUse, UnexpiredClaims(st.singleUse, now), ExpiredClaims(st, now));
  }

  class SessionStore {
    const retentionSecs: nat
    var sessions: map<Id, Session>
    var retired: map<Id, Retirement>
    var singleUse: map<Id, Instant>

    ghost function View(): State
      reads this
    {
      State(sessions, retired, singleUse)
    }

    constructor (retentionSecs: nat)
      requires retentionSecs > 0
      ensures this.retentionSecs == retentionSecs && View() == EMPTY_STATE
    {
      this.retentionSecs := retentionSecs;
      sessions, retired, singleUse := map[], map[], map[];
    }

    method StoreRefreshToken(session: Session)
      requires Allowed(View(), StoreToken(session))
      modifies this
      ensures View() == old(View()).(sessions := old(sessions)[session.hash := session])
      ensures forall at :: View() == Next(retentionSecs, old(View()), Event(at, StoreToken(session)))
    {
      sessions := sessions[session.hash := session];
    }

    method ResolveRefreshToken(hash: Id) returns (r: Resolution)
      ensures r == Resolve(View(), hash)
    {
      if hash in sessions {
        return Live(sessions[hash]);
      }
      if hash !in retired {
        return Unknown;
      }
      var record := retired[hash];
      if record.successor !in sessions {
        return Retired(record.familyId, record.userId, record.retiredAt);
      }
      var live := sessions[record.successor];
      if live.familyId != record.familyId {
        return Corrupt;
      }
      return Superseded(live, record.retiredAt);
    }

    method RotateRefreshToken(liveHash: Id, replacement: Session, now: Instant) returns (won: bool)
      requires RotationAllowed(View(), liveHash, replacement)
      modifies this
      ensures View() == Next(retentionSecs, old(View()), Event(now, Rotate(liveHash, replacement)))
      ensures Flag(won) == Answer(old(View()), Event(now, Rotate(liveHash, replacement)))
      ensures !won ==> View() == old(View())
    {
      if liveHash !in sessions {
        return false;
      }
      var live := sessions[liveHash];
      if live.familyId != LEGACY_FAMILY {
        var record := Retirement(liveHash, replacement.familyId, replacement.userId, replacement.hash, now,
                                 RetentionDeadline(now, retentionSecs, replacement.expiresAt));
        retired := retired[record.hash := record];
      }
      sessions := sessions - {liveHash};
      sessions := sessions[replacement.hash := replacement];
      return true;
    }

    method RevokeSessionToken(hash: Id)
      modifies this
      ensures View() == old(View()).(sessions := old(sessions) - {hash})
      ensures forall at :: View() == Next(retentionSecs, old(View()), Event(at, RevokeSession(hash)))
    {
      sessions := sessions - {hash};
    }

    method RevokeFamilyTokens(familyId: Id) returns (removed: nat)
      requires IsValidFamilyId(familyId)
      modifies this
      ensures forall at :: View() == Next(retentionSecs, old(View()), Event(at, RevokeFamily(familyId)))
      ensures forall at :: Count(removed) == Answer(old(View()), Event(at, RevokeFamily(familyId)))
    {
      var liveBefore := |sessions|;
      sessions := SessionsOutside(sessions, familyId);
      FamilyRemovalSizes(old(View()), familyId);
      var sessionsRemoved := liveBefore - |sessions|;

      var retiredBefore := |retired|;
      retired := RecordsOutside(retired, familyId);
      var retiredRemoved := retiredBefore - |retired|;

      removed := sessionsRemoved + retiredRemoved;
    }

    method RevokeAllUserSessions(userId: Id) returns (removed: nat)
      modifies this
      ensures forall at :: View() == Next(retentionSecs, old(View()), Event(at, RevokeUser(userId)))
      ensures forall at :: Count(removed) == Answer(old(View()), Event(at, RevokeUser(userId)))
    {
      var liveBefore := |sessions|;
      sessions := SessionsNotOf(sessions, userId);
      RetainedSize(old(sessions), sessions, LiveOfUser(old(View()), userId));
      removed := liveBefore - |sessions|;
      retired := RecordsNotOf(retired, userId);
    }

    method CleanupExpiredSessions(now: Instant) returns (removed: nat)
      modifies this
      ensures View() == Next(retentionSecs, old(View()), Event(now, Sweep))
      ensures Count(removed) == Answer(old(View()), Event(now, Sweep))
    {
      var sessionsBefore := |sessions|;
      sessions := UnexpiredSessions(sessions, now);
      SweptSessionsSize(old(View()), now);
      var sessionsRemoved := sessionsBefore - |sessions|;

      var retiredBefore := |retired|;
      retired := UnexpiredRecords(retired, now);
      SweptRecordsSize(old(View()), now);
      var retiredRemoved := retiredBefore - |retired|;

      var singleUseBefore := |singleUse|;
      singleUse := UnexpiredClaims(singleUse, now);
      SweptClaimsSize(old(View()), now);
      var singleUseRemoved := singleUseBefore - |singleUse|;

      removed := sessionsRemoved + retiredRemoved + singleUseRemoved;
    }

    method PutSingleUseRecord(key: Id, expiresAt: Instant, now: Instant) returns (claimed: bool)
      requires key != Id("")
      modifies this
      ensures View() == Next(retentionSecs, old(View()), Event(now, PutSingleUse(key, expiresAt)))
      ensures Flag(claimed) == Answer(old(View()), Event(now, PutSingleUse(key, expiresAt)))
    {
      if key in singleUse && singleUse[key] > now {
        return false;
      }
      singleUse := singleUse[key := expiresAt];
      return true;
    }

    method TakeSingleUseRecord(key: Id, now: Instant) returns (taken: bool)
      requires key != Id("")
      modifies this
      ensures View() == Next(retentionSecs, old(View()), Event(now, TakeSingleUse(key)))
      ensures Flag(taken) == Answer(old(View()), Event(now, TakeSingleUse(key)))
    {
      taken := key in singleUse && singleUse[key] > now;
      singleUse := singleUse - {key};
    }

    method CountActiveSessions(now: Instant) returns (n: nat)
      ensures Count(n) == Answer(View(), Event(now, CountActive))
    {
      n := |set h | h in sessions && sessions[h].expiresAt > now|;
    }

    /** Filter, sort newest first, truncate. */
    method ListLiveSessions(userId: Id, now: Instant, limit: nat) returns (out: seq<Id>)
      ensures IsListing(View(), userId, now, limit, out)
    {
      var rows := set h | h in sessions && sessions[h].userId == userId && sessions[h].expiresAt > now;
      assert rows == Listable(View(), userId, now);
      var sorted := SortNewestFirst(sessions, rows);
      out := if |sorted| <= limit then sorted else sorted[..limit];
      forall i, h | 0 <= i < |out| && h in rows && h !in out
        ensures sessions[out[i]].createdAt >= sessions[h].createdAt
      {
        var j :| 0 <= j < |sorted| && sorted[j] == h;
      }
    }
  }

  // ---- Sorting by creation instant, newest first ----

  ghost predicate NewestFirst(sessions: map<Id, Session>, rows: set<Id>, sorted: seq<Id>)
    requires rows <= sessions.Keys
  {
    && |sorted| == |rows|
    && (forall i | 0 <= i < |sorted| :: sorted[i] in rows)
    && (forall h | h in rows :: h in sorted)
    && (forall i, j | 0 <= i < j < |sorted| :: sorted[i] != sorted[j])
    && (forall i, j | 0 <= i < j < |sorted| :: sessions[sorted[i]].createdAt >= sessions[sorted[j]].createdAt)
  }

  ghost predicate IsNewest(sessions: map<Id, Session>, rows: set<Id>, h: Id)
    requires rows <= sessions.Keys
  {
    h in rows && forall x | x in rows :: sessions[x].createdAt <= sessions[h].createdAt
  }

  lemma NewestExists(sessions: map<Id, Session>, rows: set<Id>)
    requires rows <= sessions.Keys && rows != {}
    ensures exists h :: IsNewest(sessions, rows, h)
    decreases |rows|
  {
    var h :| h in rows;
    var others := rows - {h};
    if others == {} {
      assert rows == {h};
      assert IsNewest(sessions, rows, h);
    } else {
      NewestExists(sessions, others);
      var n :| IsNewest(sessions, others, n);
      assert rows == others + {h};
      assert IsNewest(sessions, rows, if sessions[n].createdAt <= sessions[h].createdAt then h else n);
    }
  }

  /** Every sorted row is at least as new as every row still to be sorted. */
  ghost predicate Dominates(sessions: map<Id, Session>, sorted: seq<Id>, todo: set<Id>)
    requires todo <= sessions.Keys && forall i | 0 <= i < |sorted| :: sorted[i] in sessions
  {
    forall i, x | 0 <= i < |sorted| && x in todo :: sessions[sorted[i]].createdAt >= sessions[x].createdAt
  }

  lemma AppendOldest(sessions: map<Id, Session>, done: set<Id>, todo: set<Id>, sorted: seq<Id>, h: Id)
    requires done <= sessions.Keys && todo <= sessions.Keys && done !! todo
    requires NewestFirst(sessions, done, sorted) && Dominates(sessions, sorted, todo) && IsNewest(sessions, todo, h)
    ensures NewestFirst(sessions, done + {h}, sorted + [h])
    ensures Dominates(sessions, sorted + [h], todo - {h})
  {
    var longer := sorted + [h];
    assert longer[|sorted|] == h;
    assert forall i | 0 <= i < |sorted| :: longer[i] == sorted[i];
  }

  method SortNewestFirst(sessions: map<Id, Session>, rows: set<Id>) returns (sorted: seq<Id>)
    requires rows <= sessions.Keys
    ensures NewestFirst(sessions, rows, sorted)
  {
    ghost var done := {};
    var todo := rows;
    sorted := [];
    while todo != {}
      invariant todo <= rows && done == rows - todo
      invariant NewestFirst(sessions, done, sorted)
      invariant Dominates(sessions, sorted, todo)
      decreases |todo|
    {
      NewestExists(sessions, todo);
      var h :| h in todo && forall x | x in todo :: sessions[x].createdAt <= sessions[h].createdAt;
      AppendOldest(sessions, done, todo, sorted, h);
      hide NewestFirst, Dominates, IsNewest;
      sorted, done, todo := sorted + [h], done + {h}, todo - {h};
    }
    assert done == rows;
  }
}
