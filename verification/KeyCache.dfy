/**
  The verification-material cache of the admin UI (apps/admin-ui/src/lib/auth.ts):
  a module-level cache with single-flight loading, a refresh cooldown and a
  bounded list of negative key ids. Instants are milliseconds.

  Signature checking and the two fetches behind a load are outside the model;
  their outcomes are events chosen by the environment.
*/
module KeyCache {
  import opened Wrappers

  type Instant = int

  const CACHE_TTL_MS := 300_000
  const REFRESH_COOLDOWN_MS := 30_000
  const MAX_NEGATIVE_KIDS := 128

  datatype Kid = Kid(text: string)

  datatype Material = Material(kids: set<Kid>, cachedAt: Instant)

  /** A promise for material is the number of its load. */
  type LoadId = nat

  // ---- The negative list: a Map keeps insertion order ----

  function Without(s: seq<Kid>, k: Kid): (r: seq<Kid>)
    ensures |r| <= |s| && k !in r
    ensures forall x :: x in r <==> x in s && x != k
  {
    if s == [] then [] else if s[0] == k then Without(s[1..], k) else [s[0]] + Without(s[1..], k)
  }

  /** The last entries, at most as many as the bound. */
  function Newest(s: seq<Kid>): (r: seq<Kid>)
    ensures |r| == if |s| <= MAX_NEGATIVE_KIDS then |s| else MAX_NEGATIVE_KIDS
  {
    if |s| <= MAX_NEGATIVE_KIDS then s else s[|s| - MAX_NEGATIVE_KIDS..]
  }

  function Remembered(negative: seq<Kid>, k: Kid): seq<Kid> {
    Newest(Without(negative, k) + [k])
  }

  predicate Cooled(lastRefreshAt: Option<Instant>, now: Instant) {
    lastRefreshAt.None? || now - lastRefreshAt.value >= REFRESH_COOLDOWN_MS
  }

  /** The module variables. */
  datatype Cache = Cache(
    cached: Option<Material>,
    request: Option<LoadId>,
    lastRefreshAt: Option<Instant>,
    negative: seq<Kid>)

  predicate MayRefresh(c: Cache, k: Kid, now: Instant) {
    k !in c.negative && Cooled(c.lastRefreshAt, now)
  }

  predicate FreshAt(c: Cache, now: Instant) {
    c.cached.Some? && now - c.cached.value.cachedAt < CACHE_TTL_MS
  }

  class VerificationCache {
    var cached: Option<Material>
    var request: Option<LoadId>
    var lastRefreshAt: Option<Instant>
    var negativeKids: seq<Kid>

    ghost function View(): Cache
      reads this
    {
      Cache(cached, request, lastRefreshAt, negativeKids)
    }

    constructor ()
      ensures View() == Cache(None, None, None, [])
    {
      cached, request, lastRefreshAt, negativeKids := None, None, None, [];
    }

    method CanRefresh(kid: Kid, now: Instant) returns (can: bool)
      ensures can == MayRefresh(View(), kid, now)
    {
      var seen := kid in negativeKids;
      can := !seen && (lastRefreshAt.None? || now - lastRefreshAt.value >= REFRESH_COOLDOWN_MS);
    }

    method RememberNegativeKid(kid: Kid)
      modifies this`negativeKids
      ensures negativeKids == Remembered(old(negativeKids), kid)
    {
      negativeKids := Without(negativeKids, kid);
      negativeKids := negativeKids + [kid];
      ghost var all := negativeKids;
      while |negativeKids| > MAX_NEGATIVE_KIDS
        invariant |negativeKids| <= |all| && negativeKids == all[|all| - |negativeKids|..]
        invariant |negativeKids| >= if |all| < MAX_NEGATIVE_KIDS then |all| else MAX_NEGATIVE_KIDS
      {
        negativeKids := negativeKids[1..];
      }
    }

    /** Returns cached material, or the promise to await; starts a load only if none is pending. */
    method GetVerificationMaterial(forceRefresh: bool, now: Instant, nextLoad: LoadId)
      returns (material: Option<Material>, promise: LoadId)
      modifies this`request
      ensures material == if !forceRefresh && FreshAt(old(View()), now) then cached else None
      ensures material.Some? ==> request == old(request)
      ensures material.None? ==> request == Some(promise) && promise == old(if request.Some? then request.value else nextLoad)
    {
      promise := nextLoad;
      material := None;
      if !forceRefresh && cached.Some? && now - cached.value.cachedAt < CACHE_TTL_MS {
        return cached, promise;
      }
      if request.None? {
        request := Some(nextLoad);
      }
      promise := request.value;
    }
  }

  // ---- Recency: what the list should be ----

  ghost predicate Distinct(s: seq<Kid>) {
    forall i, j | 0 <= i < j < |s| :: s[i] != s[j]
  }

  /** Distinct kids of a history, ordered by their last occurrence. */
  function Recency(history: seq<Kid>): (r: seq<Kid>)
    ensures forall x :: x in r <==> x in history
  {
    if history == [] then []
    else
      var last := history[|history| - 1];
      Without(Recency(history[..|history| - 1]), last) + [last]
  }

  lemma {:induction false} WithoutConcat(a: seq<Kid>, b: seq<Kid>, k: Kid)
    ensures Without(a + b, k) == Without(a, k) + Without(b, k)
  {
    if a == [] {
      assert a + b == b;
    } else {
      assert (a + b)[1..] == a[1..] + b;
      WithoutConcat(a[1..], b, k);
    }
  }

  lemma {:induction false} WithoutDistinct(s: seq<Kid>, k: Kid)
    requires Distinct(s)
    ensures Distinct(Without(s, k))
    ensures |Without(s, k)| == if k in s then |s| - 1 else |s|
  {
    if s != [] {
      var rest := s[1..];
      assert Distinct(rest);
      assert s[0] !in rest;
      assert k in s <==> k == s[0] || k in rest;
      WithoutDistinct(rest, k);
    }
  }

  lemma {:induction false} RecencyDistinct(history: seq<Kid>)
    ensures Distinct(Recency(history))
  {
    if history != [] {
      RecencyDistinct(history[..|history| - 1]);
      WithoutDistinct(Recency(history[..|history| - 1]), history[|history| - 1]);
    }
  }

  /** Truncating before remembering makes no difference to what is kept. */
  lemma TruncationCommutes(r: seq<Kid>, k: Kid)
    requires Distinct(r)
    ensures Remembered(Newest(r), k) == Newest(Without(r, k) + [k])
  {
    if |r| > MAX_NEGATIVE_KIDS {
      var a, b := r[..|r| - MAX_NEGATIVE_KIDS], r[|r| - MAX_NEGATIVE_KIDS..];
      assert r == a + b;
      WithoutConcat(a, b, k);
      WithoutDistinct(b, k);
      SameTail(Without(a, k), Without(b, k) + [k]);
      assert Without(r, k) + [k] == Without(a, k) + (Without(b, k) + [k]);
    }
  }

  lemma SameTail(a: seq<Kid>, b: seq<Kid>)
    requires |b| >= MAX_NEGATIVE_KIDS
    ensures Newest(a + b) == Newest(b)
  {
  }

  function SetOf(s: seq<Kid>): set<Kid> {
    set x | x in s
  }

  lemma MovedToBack(head: seq<Kid>, k: Kid, tail: seq<Kid>, last: Kid)
    requires k != last
    ensures Without(head + [k] + tail, last) + [last] == Without(head, last) + [k] + (Without(tail, last) + [last])
  {
    WithoutConcat(head + [k], tail, last);
    WithoutConcat(head, [k], last);
    assert [k][1..] == [];
  }

  /** The kids listed after `history[l]` are those remembered since its last occurrence there. */
  lemma {:induction false} KidsAfter(history: seq<Kid>, l: nat) returns (head: seq<Kid>, tail: seq<Kid>)
    requires l < |history| && history[l] !in history[l + 1..]
    ensures Recency(history) == head + [history[l]] + tail
    ensures SetOf(tail) == SetOf(history[l + 1..])
    decreases |history|
  {
    var n := |history| - 1;
    var before, last := history[..n], history[n];
    if l == n {
      head, tail := Without(Recency(before), last), [];
      assert history[l + 1..] == [];
    } else {
      assert history[l + 1..] == before[l + 1..] + [last];
      assert last in history[l + 1..];
      var h, t := KidsAfter(before, l);
      MovedToBack(h, history[l], t, last);
      SinceGrows(t, before[l + 1..], last);
      head, tail := Without(h, last), Without(t, last) + [last];
    }
  }

  lemma SinceGrows(listed: seq<Kid>, since: seq<Kid>, last: Kid)
    requires SetOf(listed) == SetOf(since)
    ensures SetOf(Without(listed, last) + [last]) == SetOf(since + [last])
  {
    forall x ensures x in Without(listed, last) + [last] <==> x in since + [last] {
      assert x in SetOf(listed) <==> x in SetOf(since);
    }
  }

  lemma {:induction false} DistinctSize(s: seq<Kid>)
    requires Distinct(s)
    ensures |SetOf(s)| == |s|
  {
    if s != [] {
      var front, last := s[..|s| - 1], s[|s| - 1];
      DistinctSize(front);
      assert s == front + [last];
      assert SetOf(s) == SetOf(front) + {last};
      assert last !in front;
    }
  }

  lemma KeptIffNearTheEnd(head: seq<Kid>, k: Kid, tail: seq<Kid>)
    requires Distinct(head + [k] + tail)
    ensures k in Newest(head + [k] + tail) <==> |tail| < MAX_NEGATIVE_KIDS
    ensures |SetOf(tail)| == |tail|
  {
    var r := head + [k] + tail;
    assert r[|head|] == k;
    assert forall i | 0 <= i < |tail| :: tail[i] == r[|head| + 1 + i];
    assert Distinct(tail);
    DistinctSize(tail);
    if |tail| < MAX_NEGATIVE_KIDS {
      assert Newest(r)[|Newest(r)| - |tail| - 1] == k;
    } else {
      assert forall i | 0 <= i < |Newest(r)| :: Newest(r)[i] == r[|r| - MAX_NEGATIVE_KIDS + i];
    }
  }

  /** A kid is on the list exactly while fewer than the bound of other kids were remembered since. */
  lemma ListedIffRecent(history: seq<Kid>, l: nat)
    requires l < |history| && history[l] !in history[l + 1..]
    ensures history[l] in Newest(Recency(history)) <==> |SetOf(history[l + 1..])| < 128
  {
    RecencyDistinct(history);
    var head, tail := KidsAfter(history, l);
    hide *;
    KeptIffNearTheEnd(head, history[l], tail);
  }
}
