/** handleAdminAudit of internal/api/handlers_files.go: keyset paging over the append-only audit
    log, newest first. */
module AuditPager {
  import opened Prelude
  import opened Decimal

  datatype Event = Event(id: int, entry: Entry)

  datatype Entry = Entry(
    at: int, actor: string, action: string, target: string, result: string, reason: string, requestId: string)

  /** The visible rows of audit_events by id. Identity values are positive. */
  type Table = map<int, Event>

  ghost predicate Valid(t: Table) {
    forall id :: id in t ==> 0 < id <= MAX_INT && t[id].id == id
  }

  datatype Page = Page(events: seq<Event>, nextBefore: Option<int>)

  datatype BadRequest = BadLimit | BadBefore

  function ParseLimit(v: string): Option<nat> {
    if v == "" then Some(50)
    else match Atoi(v)
      case None => None
      case Some(n) => if n < 1 || n > 1000 then None else Some(n)
  }

  /** 0 starts from the newest event. */
  function ParseBefore(v: string): Option<nat> {
    if v == "" then Some(0)
    else match Atoi(v)
      case None => None
      case Some(n) => if n < 1 then None else Some(n)
  }

  /** A positive number is spelled without a minus. */
  lemma PositiveIsSpelled(v: string, n: nat)
    requires 1 <= n <= 0x7FFF_FFFF_FFFF_FFFF
    ensures Atoi(v) == Some(n) <==> exists sign: string, zeros: nat :: sign != "-" && Spells(v, sign, zeros, n)
  {
    AtoiExactly(v, n);
    if Atoi(v) == Some(n) {
      var sign: string, zeros: nat, size: nat :| Spells(v, sign, zeros, size) && n == Signed(sign, size);
      assert Spells(v, sign, zeros, n);
    }
    if sign: string, zeros: nat :| sign != "-" && Spells(v, sign, zeros, n) { SpelledIsRead(v, sign, zeros, n); }
  }

  /** The limit is fifty unless one is given; what is given must be a number from 1 to 1000. */
  lemma LimitExactly(v: string, n: nat)
    ensures ParseLimit(v) == Some(n) <==>
      if v == "" then n == 50
      else 1 <= n <= 1000 && exists sign: string, zeros: nat :: sign != "-" && Spells(v, sign, zeros, n)
  {
    if 1 <= n <= 0x7FFF_FFFF_FFFF_FFFF { PositiveIsSpelled(v, n); }
  }

  /** No cursor starts from the newest event; what is given must be a positive 64-bit number. */
  lemma BeforeExactly(v: string, n: nat)
    ensures ParseBefore(v) == Some(n) <==>
      if v == "" then n == 0
      else
        && 1 <= n <= 0x7FFF_FFFF_FFFF_FFFF
        && exists sign: string, zeros: nat :: sign != "-" && Spells(v, sign, zeros, n)
  {
    if 1 <= n <= 0x7FFF_FFFF_FFFF_FFFF { PositiveIsSpelled(v, n); }
  }

  /** before = 0 OR id < before */
  predicate Below(id: int, before: int) {
    before == 0 || id < before
  }

  ghost function Matching(t: Table, before: int): set<int> {
    set id | id in t && Below(id, before)
  }

  predicate Descending(events: seq<Event>) {
    forall i, j :: 0 <= i < j < |events| ==> events[i].id > events[j].id
  }

  ghost predicate Lists(events: seq<Event>, id: int) {
    exists k :: 0 <= k < |events| && events[k].id == id
  }

  /** What a page promises: the newest `limit` events below the cursor, newest first, and the last
      of them as the next cursor exactly when older ones remain. */
  ghost predicate Shows(t: Table, before: int, limit: nat, page: Page) {
    && Descending(page.events) && |page.events| <= limit
    && (forall k :: 0 <= k < |page.events| ==>
          page.events[k].id in Matching(t, before) && page.events[k] == t[page.events[k].id])
    && match page.nextBefore
       case None => forall id :: id in Matching(t, before) ==> Lists(page.events, id)
       case Some(n) =>
         && |page.events| == limit > 0 && n == page.events[limit - 1].id
         && (exists id :: id in Matching(t, before) && id < n)
         && (forall id :: id in Matching(t, before) && id >= n ==> Lists(page.events, id))
  }

  // ----- the query and the handler -----

  lemma {:induction false} LargestExists(ids: set<int>)
    requires ids != {}
    ensures exists id :: id in ids && forall k :: k in ids ==> k <= id
    decreases |ids|
  {
    SomeMember(ids);
    var x :| x in ids;
    if ids != {x} {
      assert ids - {x} != {};
      LargestExists(ids - {x});
      var y :| y in ids - {x} && forall k :: k in ids - {x} ==> k <= y;
      var best := if x <= y then y else x;
      forall k | k in ids
        ensures k <= best
      {
        if k != x { assert k in ids - {x}; }
      }
    }
  }

  /** The rows of a query: matching ids, largest first, the `n` largest. */
  ghost predicate Selected(t: Table, before: int, n: nat, rows: seq<Event>) {
    && Descending(rows) && |rows| <= n
    && (forall k :: 0 <= k < |rows| ==> rows[k].id in Matching(t, before) && rows[k] == t[rows[k].id])
    && (|rows| < n ==> forall id :: id in Matching(t, before) ==> Lists(rows, id))
    && (forall id, k :: id in Matching(t, before) && 0 <= k < |rows| && rows[k].id <= id ==> Lists(rows, id))
  }

  /** Part of the way: `rows` picked, largest first, `todo` left. */
  ghost predicate Picked(t: Table, before: int, rows: seq<Event>, todo: set<int>) {
    && todo <= Matching(t, before) && Descending(rows)
    && (forall k :: 0 <= k < |rows| ==> rows[k].id in Matching(t, before) && rows[k] == t[rows[k].id])
    && (forall id :: id in Matching(t, before) ==> id in todo || Lists(rows, id))
    && (forall k, id :: 0 <= k < |rows| && id in todo ==> rows[k].id > id)
  }

  lemma PickOne(t: Table, before: int, rows: seq<Event>, todo: set<int>, id: int)
    requires Valid(t) && Picked(t, before, rows, todo) && id in todo && forall k :: k in todo ==> k <= id
    ensures Picked(t, before, rows + [t[id]], todo - {id})
  {
    var rows' := rows + [t[id]];
    assert rows'[|rows|].id == id;
    forall x | x in Matching(t, before)
      ensures x in todo - {id} || Lists(rows', x)
    {
      if Lists(rows, x) {
        var k :| 0 <= k < |rows| && rows[k].id == x;
        assert rows'[k].id == x;
      }
    }
  }

  /** SELECT ... WHERE before = 0 OR id < before ORDER BY id DESC LIMIT n */
  method Select(t: Table, before: int, n: nat) returns (rows: seq<Event>)
    requires Valid(t)
    ensures Selected(t, before, n, rows)
  {
    var todo := set id | id in t && Below(id, before);
    rows := [];
    while |rows| < n && todo != {}
      invariant Picked(t, before, rows, todo) && |rows| <= n
      decreases |todo|
    {
      LargestExists(todo);
      var id :| id in todo && forall k :: k in todo ==> k <= id;
      PickOne(t, before, rows, todo, id);
      rows := rows + [t[id]];
      todo := todo - {id};
    }
  }

  function Least(a: nat, b: nat): nat {
    if a <= b then a else b
  }

  /** The first of the largest are the largest. */
  lemma FirstRows(t: Table, before: int, n: nat, rows: seq<Event>, k: nat)
    requires Selected(t, before, n, rows) && k <= |rows|
    ensures Selected(t, before, k, rows[..k])
  {
    forall id, i | id in Matching(t, before) && 0 <= i < k && rows[..k][i].id <= id
      ensures Lists(rows[..k], id)
    {
      assert rows[i].id <= id && Lists(rows, id);
      var j :| 0 <= j < |rows| && rows[j].id == id;
      assert j <= i && rows[..k][j].id == id;
    }
  }

  /** The page shows the newest matching events in order. It is right exactly when every row was
      delivered: the loop does not ask why it ended, and takes a broken connection for the end of
      the log. */
  method FetchPage(t: Table, before: int, limit: nat, delivered: nat) returns (page: Page)
    requires Valid(t) && limit > 0
    ensures Shows(t, before, limit, page) <==> delivered > limit || delivered >= |Matching(t, before)|
    ensures |page.events| == Least(limit, Least(delivered, |Matching(t, before)|))
    ensures page.nextBefore.None? <==> delivered <= limit || |Matching(t, before)| <= limit
    ensures Selected(t, before, |page.events|, page.events)
  {
    var rows := Select(t, before, limit + 1);
    RowsAre(t, before, limit, rows);
    var events: seq<Event> := [];
    var i := 0;
    while i < |rows| && i < delivered
      invariant 0 <= i <= |rows| && i <= delivered && events == rows[..i]
    {
      events := events + [rows[i]];
      i := i + 1;
    }
    var nextBefore := None;
    ghost var all := events;
    if |events| > limit {
      events := events[..limit];
      nextBefore := Some(events[limit - 1].id);
    }
    page := Page(events, nextBefore);
    FirstRows(t, before, limit + 1, rows, |events|);
    RowsShow(t, before, limit, rows, all, page);
  }

  /** Two events, and a connection that is lost after the first: the page shows one and claims to
      be the last. */
  method PageCutShort(a: Event, b: Event) returns (page: Page)
    requires 0 < a.id < b.id <= MAX_INT
    ensures |page.events| == 1 && page.nextBefore.None? && !Shows(map[a.id := a, b.id := b], 0, 50, page)
  {
    var t := map[a.id := a, b.id := b];
    assert Matching(t, 0) == {a.id, b.id};
    page := FetchPage(t, 0, 50, 1);
  }

  /** Rows with different ids are as many as their ids. */
  lemma {:induction false} AsManyIds(rows: seq<Event>)
    requires Descending(rows)
    ensures |set k | 0 <= k < |rows| :: rows[k].id| == |rows|
  {
    var ids := set k | 0 <= k < |rows| :: rows[k].id;
    if rows == [] {
    } else {
      var init, last := rows[..|rows| - 1], rows[|rows| - 1];
      var before := set k | 0 <= k < |init| :: init[k].id;
      AsManyIds(init);
      assert forall k :: 0 <= k < |init| ==> init[k].id == rows[k].id > last.id;
      forall x | x in ids
        ensures x in before + {last.id}
      {
        var k :| 0 <= k < |rows| && rows[k].id == x;
        if k < |init| { assert init[k].id == x; }
      }
      forall x | x in before
        ensures x in ids
      {
        var k :| 0 <= k < |init| && init[k].id == x;
        assert rows[k].id == x;
      }
      assert rows[|rows| - 1].id in ids;
      assert ids == before + {last.id};
    }
  }

  lemma RowsAre(t: Table, before: int, limit: nat, rows: seq<Event>)
    requires Selected(t, before, limit + 1, rows)
    ensures |rows| == Least(limit + 1, |Matching(t, before)|)
  {
    var ids := set k | 0 <= k < |rows| :: rows[k].id;
    AsManyIds(rows);
    assert ids <= Matching(t, before);
    SubsetNotLarger(ids, Matching(t, before));
    if |rows| <= limit {
      forall id | id in Matching(t, before)
        ensures id in ids
      {
        assert Lists(rows, id);
      }
      assert ids == Matching(t, before);
    }
  }

  lemma RowsShow(t: Table, before: int, limit: nat, rows: seq<Event>, got: seq<Event>, page: Page)
    requires limit > 0 && Selected(t, before, limit + 1, rows)
    requires |got| <= |rows| && got == rows[..|got|]
    requires page == if |got| > limit then Page(got[..limit], Some(got[limit - 1].id)) else Page(got, None)
    ensures Shows(t, before, limit, page) <==> got == rows
  {
    if got != rows {
      MissingRowNotShown(t, before, limit, rows, page);
    } else if |rows| <= limit {
      assert forall id :: id in Matching(t, before) ==> Lists(rows, id);
    } else {
      FullPageShown(t, before, limit, rows, page);
    }
  }

  lemma MissingRowNotShown(t: Table, before: int, limit: nat, rows: seq<Event>, page: Page)
    requires Selected(t, before, limit + 1, rows) && page.nextBefore.None?
    requires |page.events| < |rows| && page.events == rows[..|page.events|]
    ensures !Shows(t, before, limit, page)
  {
    var missed := rows[|page.events|].id;
    assert missed in Matching(t, before);
    forall k | 0 <= k < |page.events|
      ensures page.events[k].id != missed
    {
      assert page.events[k] == rows[k];
    }
    assert !Lists(page.events, missed);
  }

  lemma FullPageShown(t: Table, before: int, limit: nat, rows: seq<Event>, page: Page)
    requires limit > 0 && Selected(t, before, limit + 1, rows) && |rows| == limit + 1
    requires page == Page(rows[..limit], Some(rows[limit - 1].id))
    ensures Shows(t, before, limit, page)
  {
    var n := rows[limit - 1].id;
    assert rows[limit].id in Matching(t, before) && rows[limit].id < n;
    forall id | id in Matching(t, before) && id >= n
      ensures Lists(page.events, id)
    {
      assert rows[limit - 1].id <= id;
      var k :| 0 <= k < |rows| && rows[k].id == id;
      assert k != limit;
      assert page.events[k].id == id;
    }
  }

  /** The whole handler: parameters, then the page. */
  method HandleAdminAudit(t: Table, limitParam: string, beforeParam: string, delivered: nat)
    returns (r: Result<Page, BadRequest>)
    requires Valid(t)
    ensures r == Failure(BadLimit) <==> ParseLimit(limitParam).None?
    ensures r == Failure(BadBefore) <==> ParseLimit(limitParam).Some? && ParseBefore(beforeParam).None?
    ensures r.Success? <==> ParseLimit(limitParam).Some? && ParseBefore(beforeParam).Some?
    ensures r.Success? ==>
      var limit, before := ParseLimit(limitParam).value, ParseBefore(beforeParam).value;
      && |r.value.events| == Least(limit, Least(delivered, |Matching(t, before)|))
      && Selected(t, before, |r.value.events|, r.value.events)
      && (Shows(t, before, limit, r.value) <==> delivered > limit || delivered >= |Matching(t, before)|)
  {
    var limit := ParseLimit(limitParam);
    if limit.None? { return Failure(BadLimit); }
    var before := ParseBefore(beforeParam);
    if before.None? { return Failure(BadBefore); }
    var page := FetchPage(t, before.value, limit.value, delivered);
    r := Success(page);
  }

  // ----- what paging promises -----

  /** A growing table: rows are never changed or removed. */
  ghost predicate Grows(t: Table, t': Table) {
    forall id :: id in t ==> id in t' && t'[id] == t[id]
  }

  /** A page stays as it is while the log grows exactly when no new event lands in it: every event
      that became visible is at or above the cursor, or below a next cursor. */
  lemma PageStaysExactly(t: Table, t': Table, before: int, limit: nat, page: Page)
    requires Valid(t) && Valid(t') && Grows(t, t') && limit > 0 && Shows(t, before, limit, page)
    ensures Shows(t', before, limit, page)
       <==> forall id :: id in t' && id !in t ==>
              !Below(id, before) || (page.nextBefore.Some? && id < page.nextBefore.value)
  {
    if forall id :: id in t' && id !in t ==>
         !Below(id, before) || (page.nextBefore.Some? && id < page.nextBefore.value) {
      forall id | id in Matching(t', before) && (page.nextBefore.Some? ==> id >= page.nextBefore.value)
        ensures Lists(page.events, id)
      {
        assert id in Matching(t, before);
      }
      if page.nextBefore.Some? {
        var id :| id in Matching(t, before) && id < page.nextBefore.value;
        assert id in Matching(t', before);
      }
    } else {
      var id :| id in t' && id !in t && Below(id, before) && (page.nextBefore.Some? ==> id >= page.nextBefore.value);
      assert id in Matching(t', before);
      assert !Lists(page.events, id);
    }
  }

  /** Identity values become visible in order: nothing new below what is already there. */
  ghost predicate InOrder(t: Table, t': Table) {
    forall id, old' :: id in t' && id !in t && old' in t ==> id > old'
  }

  /** The pages so far, fetched up to table `t` and continuing at `next`: newest first, and
      nothing of the first table `t0` passed over. */
  ghost predicate Walked(t0: Table, t: Table, ordered: bool, events: seq<Event>, next: Option<int>) {
    && Grows(t0, t) && Descending(events)
    && (next.Some? ==> events != [] && next.value == events[|events| - 1].id)
    && (forall id :: id in t0 && (next.Some? ==> id >= next.value) ==> Lists(events, id))
    && (forall k :: 0 <= k < |events| ==> events[k].id in t && t[events[k].id] == events[k])
    && (ordered ==> InOrder(t0, t) && forall k :: 0 <= k < |events| ==> events[k].id in t0)
  }

  lemma WalkStarts(t0: Table, limit: nat, page: Page)
    requires Valid(t0) && limit > 0 && Shows(t0, 0, limit, page)
    ensures Walked(t0, t0, true, page.events, page.nextBefore)
  {
    forall id | id in t0 && (page.nextBefore.Some? ==> id >= page.nextBefore.value)
      ensures Lists(page.events, id)
    {
      assert id in Matching(t0, 0);
    }
  }

  lemma ListsBoth(a: seq<Event>, b: seq<Event>, id: int)
    requires Lists(a, id) || Lists(b, id)
    ensures Lists(a + b, id)
  {
    if Lists(a, id) {
      var k :| 0 <= k < |a| && a[k].id == id;
      assert (a + b)[k].id == id;
    } else {
      var k :| 0 <= k < |b| && b[k].id == id;
      assert (a + b)[|a| + k].id == id;
    }
  }

  lemma WalkOn(t0: Table, t1: Table, t2: Table, ordered: bool, events: seq<Event>, cursor: int, limit: nat, page: Page)
    requires Valid(t1) && Valid(t2) && Grows(t1, t2) && Walked(t0, t1, ordered, events, Some(cursor))
    requires ordered ==> InOrder(t1, t2)
    requires limit > 0 && cursor > 0 && Shows(t2, cursor, limit, page)
    ensures Walked(t0, t2, ordered, events + page.events, page.nextBefore)
  {
    var all := events + page.events;
    forall id | id in t0 && (page.nextBefore.Some? ==> id >= page.nextBefore.value)
      ensures Lists(all, id)
    {
      if id < cursor { assert id in Matching(t2, cursor); }
      ListsBoth(events, page.events, id);
    }
    assert forall k :: 0 <= k < |page.events| ==> page.events[k].id < cursor;
    if ordered {
      assert events[|events| - 1].id in t0;
      forall k | 0 <= k < |page.events|
        ensures page.events[k].id in t0
      {
        assert page.events[k].id in t2 && page.events[k].id < cursor;
      }
    }
  }

  /** A client's fetch: the first page, or the one a nextBefore asks for. */
  method Fetch(t: Table, limitParam: string, cursor: Option<int>) returns (page: Page)
    requires Valid(t) && ParseLimit(limitParam).Some?
    requires cursor.Some? ==> 0 < cursor.value <= MAX_INT
    ensures Shows(t, if cursor.Some? then cursor.value else 0, ParseLimit(limitParam).value, page)
  {
    if cursor.Some? { AtoiOfPrint(cursor.value); }
    var r := HandleAdminAudit(t, limitParam, if cursor.Some? then Print(cursor.value) else "",
                              ParseLimit(limitParam).value + 1);
    page := r.value;
  }

  lemma CursorInRange(t0: Table, t: Table, ordered: bool, events: seq<Event>, cursor: int)
    requires Valid(t) && Walked(t0, t, ordered, events, Some(cursor))
    ensures 0 < cursor <= MAX_INT
  {
    assert events[|events| - 1].id in t;
  }

  /** One page more. */
  method WalkOne(ghost t0: Table, ghost t1: Table, t2: Table, ghost ordered: bool, events: seq<Event>, cursor: int,
                 limitParam: string)
    returns (page: Page)
    requires Valid(t1) && Valid(t2) && Grows(t1, t2) && Walked(t0, t1, ordered, events, Some(cursor))
    requires ParseLimit(limitParam).Some? && (ordered ==> InOrder(t1, t2))
    ensures Walked(t0, t2, ordered, events + page.events, page.nextBefore)
    ensures page.nextBefore.Some? ==> 0 < page.nextBefore.value < cursor
  {
    CursorInRange(t0, t1, ordered, events, cursor);
    page := Fetch(t2, limitParam, Some(cursor));
    WalkOn(t0, t1, t2, ordered, events, cursor, ParseLimit(limitParam).value, page);
    if page.nextBefore.Some? { NextBelow(t2, cursor, ParseLimit(limitParam).value, page); }
  }

  lemma NextBelow(t: Table, cursor: int, limit: nat, page: Page)
    requires Valid(t) && cursor > 0 && Shows(t, cursor, limit, page) && page.nextBefore.Some?
    ensures 0 < page.nextBefore.value < cursor
  {
    assert page.events[|page.events| - 1].id in Matching(t, cursor);
  }

  /** A log that only grows, as the pages find it one after the other. */
  ghost predicate Growing(table: nat -> Table) {
    forall i: nat :: Valid(table(i)) && Grows(table(i), table(i + 1))
  }

  ghost predicate Ordered(table: nat -> Table) {
    forall i: nat :: InOrder(table(i), table(i + 1))
  }

  /** Following nextBefore to the end: every event there at the first fetch, once, newest first,
      whatever is appended between the pages; and nothing else if ids become visible in order. */
  method Walk(table: nat -> Table, limitParam: string) returns (events: seq<Event>, ghost last: nat)
    requires Growing(table) && ParseLimit(limitParam).Some?
    ensures Descending(events)
    ensures forall id :: id in table(0) ==> Lists(events, id)
    ensures forall k :: 0 <= k < |events| ==> events[k].id in table(last) && table(last)[events[k].id] == events[k]
    ensures Ordered(table) ==> forall k :: 0 <= k < |events| ==> events[k].id in table(0)
  {
    ghost var t0, ordered := table(0), Ordered(table);
    var page := Fetch(table(0), limitParam, None);
    WalkStarts(t0, ParseLimit(limitParam).value, page);
    events, last := page.events, 0;
    var cursor, next := page.nextBefore, 1;
    while cursor.Some?
      invariant next == last + 1 && Walked(t0, table(last), ordered, events, cursor)
      decreases if cursor.Some? then cursor.value else 0
    {
      page := WalkOne(t0, table(last), table(next), ordered, events, cursor.value, limitParam);
      events, cursor := events + page.events, page.nextBefore;
      last, next := last + 1, next + 1;
    }
  }
}
