/**
  The assumptions of the session theorems can be met: for every n there is an
  admissible run, from an empty store, in which one family wins n rotations.
*/
module SessionHistories {
  import opened Sessions
  import opened SessionFamilies
  import opened SessionTheorems

  const FAMILY := Id("fam_01234567890123456789012345")
  const USER := Id("user")

  function Hash(i: nat): Id {
    Id(seq(i + 1, _ => 'h'))
  }

  function Generation(i: nat, expiresAt: Instant): Session {
    Session(Hash(i), FAMILY, USER, i, 0, expiresAt)
  }

  function RotationRun(n: nat, expiresAt: Instant): (es: seq<Event>)
    ensures |es| == n + 1
  {
    if n == 0 then [Event(0, StoreToken(Generation(0, expiresAt)))]
    else RotationRun(n - 1, expiresAt) + [Event(0, Rotate(Hash(n - 1), Generation(n, expiresAt)))]
  }

  lemma {:induction false} SharedPrefix(retentionSecs: nat, w: World, es: seq<Event>, e: Event, k: nat)
    requires k <= |es|
    ensures WorldAt(retentionSecs, w, es + [e], k) == WorldAt(retentionSecs, w, es, k)
  {
    if k > 0 {
      SharedPrefix(retentionSecs, w, es, e, k - 1);
    }
  }

  /** The family has the first `n + 1` hashes as its lineage and the last one live. */
  ghost predicate AfterRotations(w: World, n: nat, expiresAt: Instant) {
    && w.clock == 0
    && FAMILY in w.families
    && |w.families[FAMILY].chain| == n + 1
    && w.store.sessions == map[Hash(n) := Generation(n, expiresAt)]
    && Hash(n) in w.places
    && (forall h | h in w.store.retired :: h in w.places)
    && (forall h | h in w.places :: |h.text| <= n + 1)
  }

  lemma FamilyIsValid()
    ensures IsValidFamilyId(FAMILY)
  {
  }

  lemma NextRotation(retentionSecs: nat, w: World, n: nat, expiresAt: Instant)
    requires AfterRotations(w, n, expiresAt)
    ensures var e := Event(0, Rotate(Hash(n), Generation(n + 1, expiresAt)));
            Admissible(w, e) && AfterRotations(Stepped(retentionSecs, w, e), n + 1, expiresAt)
  {
    hide IsValidFamilyId;
    FamilyIsValid();
    var e := Event(0, Rotate(Hash(n), Generation(n + 1, expiresAt)));
    assert |Hash(n).text| == n + 1 && |Hash(n + 1).text| == n + 2;
    assert Admissible(w, e);
    assert Stepped(retentionSecs, w, e).store.sessions == map[Hash(n + 1) := Generation(n + 1, expiresAt)];
  }

  lemma FirstStore(retentionSecs: nat, expiresAt: Instant)
    ensures var e := Event(0, StoreToken(Generation(0, expiresAt)));
            Admissible(Genesis(0), e) && AfterRotations(Stepped(retentionSecs, Genesis(0), e), 0, expiresAt)
  {
    hide IsValidFamilyId;
    FamilyIsValid();
    assert |Hash(0).text| == 1;
  }

  /** One more admissible event makes a longer admissible run. */
  lemma RunGrows(retentionSecs: nat, w: World, es: seq<Event>, e: Event)
    requires AdmissibleRun(retentionSecs, w, es) && Admissible(WorldAt(retentionSecs, w, es, |es|), e)
    ensures AdmissibleRun(retentionSecs, w, es + [e])
    ensures WorldAt(retentionSecs, w, es + [e], |es| + 1) == Stepped(retentionSecs, WorldAt(retentionSecs, w, es, |es|), e)
  {
    hide Admissible, Stepped;
    forall k | 0 <= k <= |es| ensures WorldAt(retentionSecs, w, es + [e], k) == WorldAt(retentionSecs, w, es, k) {
      SharedPrefix(retentionSecs, w, es, e, k);
    }
  }

  lemma {:induction false} RotationRunIsAdmissible(retentionSecs: nat, n: nat, expiresAt: Instant)
    ensures AdmissibleRun(retentionSecs, Genesis(0), RotationRun(n, expiresAt))
    ensures AfterRotations(WorldAt(retentionSecs, Genesis(0), RotationRun(n, expiresAt), n + 1), n, expiresAt)
    ensures forall i | 0 <= i <= n :: !Removes(RotationRun(n, expiresAt)[i].op)
  {
    hide Admissible, Stepped, AfterRotations, Genesis;
    if n == 0 {
      FirstStore(retentionSecs, expiresAt);
      RunGrows(retentionSecs, Genesis(0), [], RotationRun(0, expiresAt)[0]);
      assert [] + [RotationRun(0, expiresAt)[0]] == RotationRun(0, expiresAt);
    } else {
      RotationRunIsAdmissible(retentionSecs, n - 1, expiresAt);
      var before := RotationRun(n - 1, expiresAt);
      NextRotation(retentionSecs, WorldAt(retentionSecs, Genesis(0), before, n), n - 1, expiresAt);
      RunGrows(retentionSecs, Genesis(0), before, RotationRun(n, expiresAt)[n]);
    }
  }

  /** Every number of winning rotations occurs, so the theorems about runs are about something. */
  lemma EveryNumberOfWinsOccurs(retentionSecs: nat, n: nat, expiresAt: Instant)
    ensures exists es: seq<Event> ::
              && AdmissibleRun(retentionSecs, Genesis(0), es)
              && (forall i | 0 <= i < |es| :: !Removes(es[i].op))
              && FAMILY in WorldAt(retentionSecs, Genesis(0), es, |es|).families
              && Wins(retentionSecs, Genesis(0), es, |es|, FAMILY) == n
  {
    hide AdmissibleRun, WorldAt, Wins, Removes;
    var es := RotationRun(n, expiresAt);
    RotationRunIsAdmissible(retentionSecs, n, expiresAt);
    ChainLengthCountsWins(retentionSecs, 0, es, n + 1, FAMILY);
  }
}
