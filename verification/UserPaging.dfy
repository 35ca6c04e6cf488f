/**
  Keyset pagination of users: the store's page (crates/test-utils/src/lib.rs),
  the opaque cursor (crates/core/src/cursor.rs) and the client that follows
  cursors (apps/admin-ui/src/lib/api.ts).
*/
module UserPaging {
  import opened Wrappers
  import opened Utf8
  import Base64Url

  type Instant = int

  const MAX_ADMIN_PAGE_SIZE: nat := 200
  const PAGER_MAX_PAGES: nat := 1000

  datatype Status = Active | Suspended | Deleted

  datatype User = User(createdAt: Instant, status: Status, version: nat)

  /** A listing position; the id is unique. */
  datatype Key = Key(createdAt: Instant, id: string)

  type Users = map<string, User>

  // ---- The order ----

  predicate TextLess(a: string, b: string) {
    b != "" && (a == "" || a[0] < b[0] || (a[0] == b[0] && TextLess(a[1..], b[1..])))
  }

  predicate Less(a: Key, b: Key) {
    a.createdAt < b.createdAt || (a.createdAt == b.createdAt && TextLess(a.id, b.id))
  }

  lemma {:induction false} TextOrder(a: string, b: string, c: string)
    ensures !TextLess(a, a)
    ensures a == b || TextLess(a, b) || TextLess(b, a)
    ensures !(TextLess(a, b) && TextLess(b, a))
    ensures TextLess(a, b) && TextLess(b, c) ==> TextLess(a, c)
    decreases |a| + |b| + |c|
  {
    if a != "" {
      TextOrder(a[1..], if b == "" then "" else b[1..], if c == "" then "" else c[1..]);
      assert b != "" && a[0] == b[0] && a[1..] == b[1..] ==> a == [a[0]] + a[1..] && b == [b[0]] + b[1..];
    }
  }

  /** A strict total order on positions. */
  lemma Order(a: Key, b: Key, c: Key)
    ensures !Less(a, a)
    ensures a == b || Less(a, b) || Less(b, a)
    ensures !(Less(a, b) && Less(b, a))
    ensures Less(a, b) && Less(b, c) ==> Less(a, c)
  {
    TextOrder(a.id, b.id, c.id);
  }

  /** The texts agree before position `d`, where `a` has the larger character or `b` has ended. */
  predicate ExceedsAt(a: string, b: string, d: nat) {
    d < |a| && d <= |b| && a[..d] == b[..d] && (d == |b| || a[d] > b[d])
  }

  lemma {:induction false} TextOrderIsByFirstDifference(a: string, b: string)
    ensures TextLess(b, a) <==> exists d: nat :: ExceedsAt(a, b, d)
  {
    if a == "" {
    } else if b == "" || b[0] != a[0] {
      assert ExceedsAt(a, b, 0) <==> TextLess(b, a);
      assert forall d: nat | 0 < d && ExceedsAt(a, b, d) :: a[..d][0] == b[..d][0];
    } else {
      TextOrderIsByFirstDifference(a[1..], b[1..]);
      if d: nat :| ExceedsAt(a[1..], b[1..], d) {
        assert a[..d + 1] == [a[0]] + a[1..][..d] && b[..d + 1] == [b[0]] + b[1..][..d];
        assert ExceedsAt(a, b, d + 1);
      }
      if d: nat :| ExceedsAt(a, b, d) {
        assert d > 0;
        assert a[1..][..d - 1] == a[..d][1..] && b[1..][..d - 1] == b[..d][1..];
        assert ExceedsAt(a[1..], b[1..], d - 1);
      }
    }
  }

  /** The listing order: newer first, and at one instant the larger id first. */
  ghost predicate ListedBefore(a: Key, b: Key) {
    a.createdAt > b.createdAt || (a.createdAt == b.createdAt && exists d: nat :: ExceedsAt(a.id, b.id, d))
  }

  lemma OrderIsNewestFirst(a: Key, b: Key)
    ensures Less(b, a) <==> ListedBefore(a, b)
  {
    TextOrderIsByFirstDifference(a.id, b.id);
  }

  predicate Descending(s: seq<Key>) {
    forall i, j | 0 <= i < j < |s| :: Less(s[j], s[i])
  }

  // ---- One page ----

  function Keys(users: Users): set<Key> {
    set id | id in users :: Key(users[id].createdAt, id)
  }

  /** Strictly after the resume position. */
  function Remaining(users: Users, after: Option<Key>): set<Key> {
    set k | k in Keys(users) && (after.None? || Less(k, after.value))
  }

  /** The first `limit` remaining positions in descending order, and whether there are more. */
  ghost predicate IsPage(users: Users, after: Option<Key>, limit: nat, page: seq<Key>, more: bool) {
    var remaining := Remaining(users, after);
    && Descending(page)
    && (forall i | 0 <= i < |page| :: page[i] in remaining)
    && |page| == (if |remaining| < limit then |remaining| else limit)
    && (forall i, k | 0 <= i < |page| && k in remaining && k !in page :: Less(k, page[i]))
    && (more <==> |remaining| > limit)
  }

  ghost predicate IsGreatest(ks: set<Key>, g: Key) {
    g in ks && forall k | k in ks :: k == g || Less(k, g)
  }

  lemma {:induction false} GreatestExists(ks: set<Key>)
    requires ks != {}
    ensures exists g :: IsGreatest(ks, g)
    decreases |ks|
  {
    var k :| k in ks;
    var rest := ks - {k};
    if rest == {} {
      assert ks == {k};
      assert IsGreatest(ks, k);
    } else {
      GreatestExists(rest);
      var g :| IsGreatest(rest, g);
      Order(k, g, g);
      var top := if Less(k, g) then g else k;
      forall x | x in ks ensures x == top || Less(x, top) {
        if x != k {
          assert x in rest;
          Order(x, g, k);
        }
      }
      assert IsGreatest(ks, top);
    }
  }

  /** `page` was taken off `remaining` from the top, leaving `todo`. */
  ghost predicate Taken(remaining: set<Key>, page: seq<Key>, todo: set<Key>) {
    && todo <= remaining && |page| + |todo| == |remaining|
    && Descending(page)
    && (forall i | 0 <= i < |page| :: page[i] in remaining && page[i] !in todo)
    && (forall k | k in remaining :: k in todo || k in page)
    && (forall i, k | 0 <= i < |page| && k in todo :: Less(k, page[i]))
  }

  lemma TakeOne(remaining: set<Key>, page: seq<Key>, todo: set<Key>, g: Key)
    requires Taken(remaining, page, todo) && IsGreatest(todo, g)
    ensures Taken(remaining, page + [g], todo - {g})
  {
    var longer := page + [g];
    assert longer[|page|] == g;
    forall k | k in remaining ensures k in todo - {g} || k in longer {
      assert k in page ==> k in longer;
    }
  }

  /** Sort descending and keep what comes strictly after the resume position; here, the greatest first. */
  method SortedPage(users: Users, after: Option<Key>, limit: nat) returns (page: seq<Key>, more: bool)
    ensures IsPage(users, after, limit, page, more)
  {
    var remaining := set id | id in users && (after.None? || Less(Key(users[id].createdAt, id), after.value)) :: Key(users[id].createdAt, id);
    assert remaining == Remaining(users, after);
    var todo := remaining;
    page := [];
    while |page| < limit && todo != {}
      invariant |page| <= limit
      invariant Taken(remaining, page, todo)
      decreases |todo|
    {
      GreatestExists(todo);
      var g :| g in todo && forall k | k in todo :: k == g || Less(k, g);
      TakeOne(remaining, page, todo, g);
      hide Taken, IsGreatest;
      page, todo := page + [g], todo - {g};
    }
    PageTaken(users, after, limit, page, todo);
    more := |remaining| > limit;
  }

  lemma PageTaken(users: Users, after: Option<Key>, limit: nat, page: seq<Key>, todo: set<Key>)
    requires Taken(Remaining(users, after), page, todo) && |page| <= limit && (|page| == limit || todo == {})
    ensures IsPage(users, after, limit, page, |Remaining(users, after)| > limit)
  {
  }

  /** The user is listed strictly after the resume position. */
  ghost predicate Due(users: Users, after: Option<Key>, id: string) {
    id in users && (after.None? || ListedBefore(after.value, Key(users[id].createdAt, id)))
  }

  /**
    A page in plain terms: its rows are users due after the position, newest
    first; a due user is left out only when the page is full, and then is listed
    after every row on it; and `more` says whether anyone is left out.
  */
  lemma PageIsExact(users: Users, after: Option<Key>, limit: nat, page: seq<Key>, more: bool)
    requires IsPage(users, after, limit, page, more)
    ensures forall i | 0 <= i < |page| :: Due(users, after, page[i].id) && page[i].createdAt == users[page[i].id].createdAt
    ensures forall i, j | 0 <= i < j < |page| :: ListedBefore(page[i], page[j])
    ensures forall id | Due(users, after, id) && Key(users[id].createdAt, id) !in page ::
              && |page| == limit && more
              && forall i | 0 <= i < |page| :: ListedBefore(page[i], Key(users[id].createdAt, id))
    ensures more ==> |page| == limit && exists id :: Due(users, after, id) && Key(users[id].createdAt, id) !in page
  {
    var remaining := Remaining(users, after);
    DueIffRemaining(users, after);
    forall i, j | 0 <= i < j < |page| ensures ListedBefore(page[i], page[j]) {
      OrderIsNewestFirst(page[i], page[j]);
    }
    forall id | Due(users, after, id) && Key(users[id].createdAt, id) !in page
      ensures |page| == limit && more
      ensures forall i | 0 <= i < |page| :: ListedBefore(page[i], Key(users[id].createdAt, id))
    {
      var k := Key(users[id].createdAt, id);
      assert k in remaining;
      if |page| == |remaining| {
        DistinctCover(page, remaining);
      } else {
        RowsFit(page, remaining);
      }
      forall i | 0 <= i < |page| ensures ListedBefore(page[i], k) {
        OrderIsNewestFirst(page[i], k);
      }
    }
    if more {
      var k := Unlisted(page, remaining);
      assert Due(users, after, k.id);
    }
  }

  lemma DueIffRemaining(users: Users, after: Option<Key>)
    ensures forall id :: Due(users, after, id) <==> id in users && Key(users[id].createdAt, id) in Remaining(users, after)
    ensures forall k :: k in Remaining(users, after) ==> k.id in users && k.createdAt == users[k.id].createdAt && Due(users, after, k.id)
  {
    hide Less, ListedBefore;
    if after.Some? {
      forall k ensures Less(k, after.value) <==> ListedBefore(after.value, k) {
        OrderIsNewestFirst(after.value, k);
      }
    }
  }

  lemma {:induction false} RowsFit(s: seq<Key>, ks: set<Key>)
    requires Descending(s) && forall i | 0 <= i < |s| :: s[i] in ks
    ensures |s| <= |ks|
    decreases |s|
  {
    if s != [] {
      var front, last := s[..|s| - 1], s[|s| - 1];
      forall i | 0 <= i < |front| ensures front[i] in ks - {last} {
        Order(last, s[i], s[i]);
      }
      RowsFit(front, ks - {last});
    }
  }

  /** A set larger than the page has a member that is not on it. */
  lemma {:induction false} Unlisted(s: seq<Key>, ks: set<Key>) returns (k: Key)
    requires |s| < |ks|
    ensures k in ks && k !in s
    decreases |s|
  {
    if s == [] {
      k :| k in ks;
    } else {
      var last := s[|s| - 1];
      k := Unlisted(s[..|s| - 1], ks - {last});
    }
  }

  // ---- Cursors ----

  /** The JSON pair of an RFC 3339 instant and an id, as rendered and parsed by libraries. */
  datatype WireFormat = WireFormat(render: Key -> seq<Byte>, parse: seq<Byte> -> Option<Key>)

  ghost predicate Lossless(f: WireFormat) {
    forall k :: f.parse(f.render(k)) == Some(k) && f.render(k) != []
  }

  datatype CursorError = InvalidRequest

  function EncodeCursor(f: WireFormat, k: Key): string
    requires k.id != ""
  {
    Base64Url.Encoded(f.render(k))
  }

  function DecodeCursor(f: WireFormat, raw: string): Result<Key, CursorError> {
    if raw == "" then Err(InvalidRequest)
    else
      match Base64Url.Decoded(raw)
      case None => Err(InvalidRequest)
      case Some(json) =>
        match f.parse(json)
        case None => Err(InvalidRequest)
        case Some(k) => if k.id == "" then Err(InvalidRequest) else Ok(k)
  }

  /** A cursor round-trips and is never empty; a text decodes to a position exactly when it is the base64url of a rendering of it. */
  lemma CursorRoundTrips(f: WireFormat, k: Key, raw: string)
    requires Lossless(f) && k.id != ""
    ensures EncodeCursor(f, k) != "" && DecodeCursor(f, EncodeCursor(f, k)) == Ok(k)
    ensures DecodeCursor(f, raw) == Ok(k) <==> raw != "" && exists json :: raw == Base64Url.Encoded(json) && f.parse(json) == Some(k)
    ensures DecodeCursor(f, raw).Ok? ==> DecodeCursor(f, raw).value.id != ""
  {
    var json := f.render(k);
    Base64Url.DecodesIffEncoded(Base64Url.Encoded(json), json);
    Base64Url.DecodesIffEncoded("", json);
    assert Base64Url.Decoded("") == Some([]);
    if DecodeCursor(f, raw).Ok? {
      Base64Url.DecodesIffEncoded(raw, Base64Url.Decoded(raw).value);
    }
    if j :| raw == Base64Url.Encoded(j) && f.parse(j) == Some(k) {
      Base64Url.DecodesIffEncoded(raw, j);
    }
  }

  datatype Page = Page(rows: seq<Key>, nextCursor: Option<string>)

  /** What one listing call answers. */
  ghost predicate IsAnswer(f: WireFormat, users: Users, cursor: Option<string>, limit: nat, r: Result<Page, CursorError>) {
    if cursor.Some? && DecodeCursor(f, cursor.value).Err? then r == Err(InvalidRequest)
    else
      var after := if cursor.None? then None else Some(DecodeCursor(f, cursor.value).value);
      && r.Ok?
      && IsPage(users, after, limit, r.value.rows, r.value.nextCursor.Some?)
      && (r.value.nextCursor.Some? ==>
            && |r.value.rows| == limit > 0
            && r.value.rows[limit - 1].id != ""
            && r.value.nextCursor.value == EncodeCursor(f, r.value.rows[limit - 1]))
  }

  ghost predicate NamedUsers(users: Users) {
    "" !in users
  }

  method ListUsersPage(f: WireFormat, users: Users, cursor: Option<string>, limit: nat) returns (r: Result<Page, CursorError>)
    requires 1 <= limit <= MAX_ADMIN_PAGE_SIZE && NamedUsers(users)
    ensures IsAnswer(f, users, cursor, limit, r)
  {
    var after: Option<Key> := None;
    if cursor.Some? {
      var position := DecodeCursor(f, cursor.value);
      if position.Err? {
        return Err(InvalidRequest);
      }
      after := Some(position.value);
    }
    var page, more := SortedPage(users, after, limit);
    if more {
      assert page[limit - 1] in Remaining(users, after);
      return Ok(Page(page, Some(EncodeCursor(f, page[|page| - 1]))));
    }
    return Ok(Page(page, None));
  }

  // ---- Walks ----

  /** Inserts and updates between calls: rows keep their id and creation instant (deletion only marks them). */
  ghost predicate Evolves(before: Users, after: Users) {
    forall id | id in before :: id in after && after[id].createdAt == before[id].createdAt
  }

  function After(pages: seq<seq<Key>>, i: nat): Option<Key>
    requires i <= |pages| && forall j | 0 <= j < i :: pages[j] != []
  {
    if i == 0 then None else Some(pages[i - 1][|pages[i - 1]| - 1])
  }

  /** A walk from the start to the page without a cursor, the store evolving between calls. */
  ghost predicate Walk(stores: seq<Users>, limit: nat, pages: seq<seq<Key>>) {
    && |stores| == |pages| > 0 && limit > 0
    && (forall i | 0 <= i < |pages| - 1 :: Evolves(stores[i], stores[i + 1]))
    && (forall i | 0 <= i < |pages| - 1 :: pages[i] != [])
    && (forall i | 0 <= i < |pages| :: IsPage(stores[i], After(pages, i), limit, pages[i], i < |pages| - 1))
  }

  function Rows(pages: seq<seq<Key>>, n: nat): seq<Key>
    requires n <= |pages|
  {
    if n == 0 then [] else Rows(pages, n - 1) + pages[n - 1]
  }

  lemma {:induction false} StillThere(stores: seq<Users>, limit: nat, pages: seq<seq<Key>>, i: nat, k: Key)
    requires Walk(stores, limit, pages) && i < |stores| && k in Keys(stores[0])
    ensures k in Keys(stores[i])
  {
    if i > 0 {
      StillThere(stores, limit, pages, i - 1, k);
      assert Evolves(stores[i - 1], stores[i - 1 + 1]);
    }
  }

  /** What the first `i` pages leave: they descend to the resume position, and every start row is above or below it. */
  ghost predicate WalkOk(stores: seq<Users>, pages: seq<seq<Key>>, i: nat)
    requires 0 < |stores| && i < |pages| && forall j | 0 <= j < i :: pages[j] != []
  {
    var rows, after := Rows(pages, i), After(pages, i);
    && Descending(rows)
    && (i > 0 ==> rows != [] && after == Some(rows[|rows| - 1]))
    && (forall k | k in Keys(stores[0]) && k !in rows :: after.None? || Less(k, after.value))
  }

  lemma JoinDescending(a: seq<Key>, b: seq<Key>)
    requires Descending(a) && Descending(b)
    requires a != [] ==> forall i | 0 <= i < |b| :: Less(b[i], a[|a| - 1])
    ensures Descending(a + b)
  {
    var s := a + b;
    forall i, j | 0 <= i < j < |s| ensures Less(s[j], s[i]) {
      if i < |a| <= j {
        Order(b[j - |a|], a[|a| - 1], a[i]);
      }
    }
  }

  lemma PageBelow(users: Users, after: Option<Key>, limit: nat, page: seq<Key>, more: bool, i: nat)
    requires IsPage(users, after, limit, page, more) && i < |page| && after.Some?
    ensures Less(page[i], after.value)
  {
    assert page[i] in Remaining(users, after);
  }

  lemma StepDescends(stores: seq<Users>, limit: nat, pages: seq<seq<Key>>, i: nat)
    requires Walk(stores, limit, pages) && i < |pages| && WalkOk(stores, pages, i)
    ensures Descending(Rows(pages, i + 1))
  {
    var rows, page, after := Rows(pages, i), pages[i], After(pages, i);
    var more := i < |pages| - 1;
    assert IsPage(stores[i], after, limit, page, more);
    forall j | 0 <= j < |page| && rows != [] ensures Less(page[j], rows[|rows| - 1]) {
      if i > 0 {
        PageBelow(stores[i], after, limit, page, more, j);
      }
    }
    JoinDescending(rows, page);
  }

  lemma StepMissesNone(stores: seq<Users>, limit: nat, pages: seq<seq<Key>>, i: nat, k: Key)
    requires Walk(stores, limit, pages) && i < |pages| - 1 && WalkOk(stores, pages, i)
    requires k in Keys(stores[0]) && k !in Rows(pages, i + 1)
    ensures Less(k, pages[i][|pages[i]| - 1])
  {
    var rows, page, after := Rows(pages, i), pages[i], After(pages, i);
    assert Rows(pages, i + 1) == rows + page;
    StillThere(stores, limit, pages, i, k);
    hide Walk, Evolves, Rows, Descending, Less;
    assert IsPage(stores[i], after, limit, page, true) by { PageOfWalk(stores, limit, pages, i); }
    assert k !in rows && k !in page;
    assert k in Remaining(stores[i], after);
  }

  lemma PageOfWalk(stores: seq<Users>, limit: nat, pages: seq<seq<Key>>, i: nat)
    requires Walk(stores, limit, pages) && i < |pages|
    ensures forall j | 0 <= j < i :: pages[j] != []
    ensures IsPage(stores[i], After(pages, i), limit, pages[i], i < |pages| - 1)
  {
  }

  lemma WalkStep(stores: seq<Users>, limit: nat, pages: seq<seq<Key>>, i: nat)
    requires Walk(stores, limit, pages) && i < |pages| - 1 && WalkOk(stores, pages, i)
    ensures WalkOk(stores, pages, i + 1)
  {
    StepDescends(stores, limit, pages, i);
    forall k | k in Keys(stores[0]) && k !in Rows(pages, i + 1) ensures Less(k, pages[i][|pages[i]| - 1]) {
      StepMissesNone(stores, limit, pages, i, k);
    }
    hide Descending, IsPage, Less, Evolves;
    var rows := Rows(pages, i + 1);
    assert pages[i] != [] && rows == Rows(pages, i) + pages[i];
    assert rows[|rows| - 1] == pages[i][|pages[i]| - 1];
  }

  lemma {:induction false} WalkHolds(stores: seq<Users>, limit: nat, pages: seq<seq<Key>>, i: nat)
    requires Walk(stores, limit, pages) && i < |pages|
    ensures WalkOk(stores, pages, i)
  {
    PageOfWalk(stores, limit, pages, i);
    hide Descending, IsPage, Walk, Less, Keys;
    if i > 0 {
      WalkHolds(stores, limit, pages, i - 1);
      WalkStep(stores, limit, pages, i - 1);
    } else {
      WalkStarts(stores, pages);
    }
  }

  lemma WalkStarts(stores: seq<Users>, pages: seq<seq<Key>>)
    requires 0 < |stores| && 0 < |pages|
    ensures WalkOk(stores, pages, 0)
  {
  }

  lemma {:induction false} DistinctCover(s: seq<Key>, ks: set<Key>)
    requires Descending(s) && (forall i | 0 <= i < |s| :: s[i] in ks) && |s| == |ks|
    ensures forall k | k in ks :: k in s
    decreases |s|
  {
    if s != [] {
      var front, last := s[..|s| - 1], s[|s| - 1];
      forall i | 0 <= i < |front| ensures front[i] in ks - {last} {
        Order(last, s[i], s[i]);
      }
      DistinctCover(front, ks - {last});
      forall k | k in ks ensures k in s {
        assert k != last ==> k in front;
      }
    }
  }

  /**
    Following cursors to the end lists rows in strictly descending order, each
    once, and misses no user present at the start, whatever is inserted or soft
    deleted between the calls.
  */
  lemma WalkIsComplete(stores: seq<Users>, limit: nat, pages: seq<seq<Key>>)
    requires Walk(stores, limit, pages)
    ensures Descending(Rows(pages, |pages|))
    ensures forall k | k in Keys(stores[0]) :: k in Rows(pages, |pages|)
  {
    var n := |pages| - 1;
    WalkHolds(stores, limit, pages, n);
    StepDescends(stores, limit, pages, n);
    PageOfWalk(stores, limit, pages, n);
    var rows, page, after := Rows(pages, n), pages[n], After(pages, n);
    DistinctCover(page, Remaining(stores[n], after));
    forall k | k in Keys(stores[0]) ensures k in rows + page {
      if k !in rows {
        StillThere(stores, limit, pages, n, k);
        assert k in Remaining(stores[n], after);
      }
    }
  }

  // ---- A fixed store ----

  ghost predicate IsWholeListing(users: Users, rows: seq<Key>) {
    Descending(rows) && |rows| == |Keys(users)| && forall k :: k in rows <==> k in Keys(users)
  }

  /** A whole listing in plain terms: every user once, newest first. */
  lemma WholeListingIsExact(users: Users, rows: seq<Key>)
    requires IsWholeListing(users, rows)
    ensures |rows| == |users|
    ensures forall id | id in users :: Key(users[id].createdAt, id) in rows
    ensures forall i | 0 <= i < |rows| :: rows[i].id in users && rows[i].createdAt == users[rows[i].id].createdAt
    ensures forall i, j | 0 <= i < j < |rows| :: ListedBefore(rows[i], rows[j]) && rows[i].id != rows[j].id
  {
    OneKeyPerUser(users);
    assert forall i | 0 <= i < |rows| :: rows[i] in rows;
    forall i, j | 0 <= i < j < |rows| ensures ListedBefore(rows[i], rows[j]) && rows[i].id != rows[j].id {
      OrderIsNewestFirst(rows[i], rows[j]);
      Order(rows[i], rows[j], rows[j]);
    }
  }

  lemma RemainingAfterPage(users: Users, after: Option<Key>, limit: nat, page: seq<Key>, more: bool)
    requires IsPage(users, after, limit, page, more) && page != []
    ensures var last := page[|page| - 1];
            forall k :: k in Remaining(users, Some(last)) <==> k in Remaining(users, after) && k !in page
  {
    var last := page[|page| - 1];
    assert last in Remaining(users, after);
    forall k ensures k in Remaining(users, Some(last)) <==> k in Remaining(users, after) && k !in page {
      if k in page {
        var i :| 0 <= i < |page| && page[i] == k;
        Order(k, last, last);
      } else {
        Order(k, last, if after.Some? then after.value else last);
      }
    }
  }

  lemma {:induction false} RemovalSize(s: seq<Key>, from: set<Key>, left: set<Key>)
    requires Descending(s) && (forall i | 0 <= i < |s| :: s[i] in from) && forall k :: k in left <==> k in from && k !in s
    ensures |left| == |from| - |s|
    decreases |s|
  {
    if s == [] {
      assert left == from;
    } else {
      var front, last := s[..|s| - 1], s[|s| - 1];
      assert s == front + [last];
      forall i | 0 <= i < |front| ensures front[i] != last {
        Order(last, s[i], s[i]);
      }
      RemovalSize(front, from, left + {last});
    }
  }

  /** One page more has been taken off the whole listing. */
  lemma TakePage(users: Users, rows: seq<Key>, after: Option<Key>, limit: nat, page: seq<Key>, more: bool)
    requires Taken(Keys(users), rows, Remaining(users, after)) && IsPage(users, after, limit, page, more) && page != []
    ensures Taken(Keys(users), rows + page, Remaining(users, Some(page[|page| - 1])))
  {
    var rem, left := Remaining(users, after), Remaining(users, Some(page[|page| - 1]));
    RemainingAfterPage(users, after, limit, page, more);
    RemovalSize(page, rem, left);
    assert forall i | 0 <= i < |page| :: page[i] in rem;
    hide Remaining, Less;
    JoinTaken(Keys(users), rows, rem, page, left);
  }

  lemma JoinTaken(all: set<Key>, rows: seq<Key>, rem: set<Key>, page: seq<Key>, left: set<Key>)
    requires Taken(all, rows, rem) && Taken(rem, page, left)
    ensures Taken(all, rows + page, left)
  {
    assert rows != [] ==> forall i | 0 <= i < |page| :: Less(page[i], rows[|rows| - 1]);
    JoinDescending(rows, page);
    hide Less, Descending;
    var s := rows + page;
    forall k | k in all ensures k in left || k in s {
      assert k in rows || k in rem;
    }
    forall i | 0 <= i < |s| ensures s[i] in all && s[i] !in left {
      assert s[i] == if i < |rows| then rows[i] else page[i - |rows|];
    }
  }

  lemma WholeListing(users: Users, rows: seq<Key>)
    requires Taken(Keys(users), rows, {})
    ensures IsWholeListing(users, rows)
  {
  }

  lemma NothingTaken(users: Users)
    ensures Taken(Keys(users), [], Remaining(users, None))
  {
    assert Remaining(users, None) == Keys(users);
  }

  lemma LastPageTaken(users: Users, rows: seq<Key>, after: Option<Key>, limit: nat, page: seq<Key>)
    requires Taken(Keys(users), rows, Remaining(users, after)) && IsPage(users, after, limit, page, false)
    ensures IsWholeListing(users, rows + page)
  {
    DistinctCover(page, Remaining(users, after));
    hide Remaining, Less;
    JoinTaken(Keys(users), rows, Remaining(users, after), page, {});
    WholeListing(users, rows + page);
  }

  lemma {:induction false} OneKeyPerUser(users: Users)
    ensures |Keys(users)| == |users|
    decreases |users|
  {
    if users == map[] {
      assert Keys(users) == {};
    } else {
      var id :| id in users;
      var rest := users - {id};
      assert users.Keys == rest.Keys + {id};
      assert |users| == |users.Keys| && |rest| == |rest.Keys|;
      OneKeyPerUser(rest);
      assert Keys(users) == Keys(rest) + {Key(users[id].createdAt, id)};
      assert Key(users[id].createdAt, id) !in Keys(rest);
    }
  }

  // ---- The client ----

  datatype PagerError = PagerExhausted | BadCursor

  /**
    Follow cursors from the start, at most `PAGER_MAX_PAGES` pages. On a fixed
    store the whole listing comes back exactly when it fits that many pages.
  */
  method ListUsers(f: WireFormat, users: Users, limit: nat) returns (r: Result<seq<Key>, PagerError>)
    requires 1 <= limit <= MAX_ADMIN_PAGE_SIZE && NamedUsers(users) && Lossless(f)
    ensures r.Ok? <==> |users| <= 1000 * limit
    ensures r.Ok? ==> IsWholeListing(users, r.value)
    ensures r.Err? ==> r.error == PagerExhausted
  {
    var cursor: Option<string> := None;
    var rows: seq<Key> := [];
    ghost var after: Option<Key> := None;
    NothingTaken(users);
    OneKeyPerUser(users);
    hide Taken, IsPage, IsWholeListing, Lossless, Keys, Remaining, DecodeCursor, EncodeCursor, NamedUsers;
    for page := 0 to PAGER_MAX_PAGES
      invariant |rows| == page * limit
      invariant Taken(Keys(users), rows, Remaining(users, after))
      invariant cursor.None? <==> after.None?
      invariant cursor.Some? ==> DecodeCursor(f, cursor.value) == Ok(after.value)
      invariant page > 0 ==> |Keys(users)| > page * limit
    {
      var result := ListUsersPage(f, users, cursor, limit);
      assert result.Ok?;
      TakenSize(users, rows, after, limit, result.value.rows, result.value.nextCursor.Some?);
      if result.value.nextCursor.None? {
        LastPageTaken(users, rows, after, limit, result.value.rows);
        FitsInPages(|Keys(users)|, page + 1, limit);
        return Ok(rows + result.value.rows);
      }
      ghost var last := result.value.rows[limit - 1];
      TakePage(users, rows, after, limit, result.value.rows, true);
      CursorRoundTrips(f, last, "");
      rows := rows + result.value.rows;
      cursor := result.value.nextCursor;
      after := Some(last);
    }
    return Err(PagerExhausted);
  }

  lemma TakenSize(users: Users, rows: seq<Key>, after: Option<Key>, limit: nat, page: seq<Key>, more: bool)
    requires Taken(Keys(users), rows, Remaining(users, after)) && IsPage(users, after, limit, page, more)
    ensures more <==> |Keys(users)| > |rows| + limit
    ensures more ==> |page| == limit
  {
  }

  lemma FitsInPages(total: nat, pages: nat, limit: nat)
    requires total <= pages * limit && pages <= PAGER_MAX_PAGES
    ensures total <= PAGER_MAX_PAGES * limit
  {
    assert pages * limit <= PAGER_MAX_PAGES * limit;
  }

  // ---- How long a walk over a fixed store is ----

  /** A walk during which the store does not change. */
  ghost predicate FixedWalk(users: Users, limit: nat, pages: seq<seq<Key>>) {
    && |pages| > 0 && limit > 0
    && (forall i | 0 <= i < |pages| - 1 :: pages[i] != [])
    && (forall i | 0 <= i < |pages| :: IsPage(users, After(pages, i), limit, pages[i], i < |pages| - 1))
  }

  function Unchanged(users: Users, n: nat): seq<Users> {
    seq(n, _ => users)
  }

  lemma FixedWalkIsAWalk(users: Users, limit: nat, pages: seq<seq<Key>>)
    ensures FixedWalk(users, limit, pages) <==> Walk(Unchanged(users, |pages|), limit, pages)
  {
    hide IsPage;
    var stores := Unchanged(users, |pages|);
    assert forall i | 0 <= i < |pages| :: stores[i] == users;
    assert Evolves(users, users);
  }

  lemma PageOfFixedWalk(users: Users, limit: nat, pages: seq<seq<Key>>, i: nat)
    requires FixedWalk(users, limit, pages) && i < |pages|
    ensures forall j | 0 <= j < i :: pages[j] != []
    ensures IsPage(users, After(pages, i), limit, pages[i], i < |pages| - 1)
    ensures i < |pages| - 1 ==> pages[i] != []
  {
  }

  lemma {:induction false} FixedWalkTaken(users: Users, limit: nat, pages: seq<seq<Key>>, i: nat)
    requires FixedWalk(users, limit, pages) && i < |pages|
    ensures forall j | 0 <= j < i :: pages[j] != []
    ensures Taken(Keys(users), Rows(pages, i), Remaining(users, After(pages, i)))
    ensures |Rows(pages, i)| == i * limit
    ensures i < |pages| - 1 <==> |Keys(users)| > i * limit + limit
    ensures i < |pages| - 1 ==> |pages[i]| == limit
  {
    hide FixedWalk, Taken, IsPage, Keys, Remaining;
    PageOfFixedWalk(users, limit, pages, i);
    if i == 0 {
      NothingTaken(users);
    } else {
      FixedWalkTaken(users, limit, pages, i - 1);
      PageOfFixedWalk(users, limit, pages, i - 1);
      TakePage(users, Rows(pages, i - 1), After(pages, i - 1), limit, pages[i - 1], true);
      assert i * limit == (i - 1) * limit + limit;
    }
    TakenSize(users, Rows(pages, i), After(pages, i), limit, pages[i], i < |pages| - 1);
  }

  /** On a fixed store every page but the last is full, and the walk ends as soon as the rows are exhausted. */
  lemma FixedWalkIsShort(users: Users, limit: nat, pages: seq<seq<Key>>)
    requires Walk(Unchanged(users, |pages|), limit, pages)
    ensures forall i | 0 <= i < |pages| - 1 :: |pages[i]| == limit
    ensures (|pages| - 1) * limit < |users| <= |pages| * limit || (|pages| == 1 && |users| == 0)
    ensures IsWholeListing(users, Rows(pages, |pages|))
  {
    OneKeyPerUser(users);
    FixedWalkIsAWalk(users, limit, pages);
    hide Walk, FixedWalk, Taken, IsPage, Keys, Remaining, IsWholeListing;
    assert |pages| > 0 by { WalkIsNonEmpty(users, limit, pages); }
    var n := |pages| - 1;
    forall i | 0 <= i < n ensures |pages[i]| == limit {
      FixedWalkTaken(users, limit, pages, i);
    }
    FixedWalkTaken(users, limit, pages, n);
    PageOfFixedWalk(users, limit, pages, n);
    LastPageTaken(users, Rows(pages, n), After(pages, n), limit, pages[n]);
    assert |pages| * limit == n * limit + limit;
    if n > 0 {
      FixedWalkTaken(users, limit, pages, n - 1);
      assert n * limit == (n - 1) * limit + limit;
    }
  }

  lemma WalkIsNonEmpty(users: Users, limit: nat, pages: seq<seq<Key>>)
    requires FixedWalk(users, limit, pages)
    ensures |pages| > 0
  {
  }
}
