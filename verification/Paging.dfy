/**
 Keyset paging over the audit table (`list_requests` in `frostglass/audit/store.py`). The table is a sequence of rows in
 insertion order; an SQL query filters, orders and cuts it.
 */
module Paging {
  import opened Outcomes
  import opened Text
  import opened Sorting

  datatype Row = Row(id: string, tenant: string, team: string, action: string, ts: string)

  datatype Query = Query(tenant: string, team: Option<string>, action: Option<string>) {
    predicate Selects(r: Row) {
      && r.tenant == tenant && (team.Some? ==> r.team == team.value) && (action.Some? ==> r.action == action.value)
    }
  }

  datatype PageError = NoLastRow

  /** Position of a row: `(ts, id)`. */
  type Cursor = (string, string)

  function KeyOf(r: Row): Cursor { (r.ts, r.id) }

  predicate KeyLess(a: Cursor, b: Cursor) {
    (a.0 != b.0 && StrLeq(a.0, b.0)) || (a.0 == b.0 && a.1 != b.1 && StrLeq(a.1, b.1))
  }

  predicate NewestFirst(a: Row, b: Row) { KeyOf(a) == KeyOf(b) || KeyLess(KeyOf(b), KeyOf(a)) }

  predicate Below(r: Row, cursor: Option<Cursor>) { cursor.None? || KeyLess(KeyOf(r), cursor.value) }

  /** The rows the query selects below the cursor, newest first. */
  function Remaining(table: seq<Row>, q: Query, cursor: Option<Cursor>): seq<Row> {
    Sort(Filter(table, (r: Row) => q.Selects(r) && Below(r, cursor)), NewestFirst)
  }

  /** One page and where the next one starts. */
  function Page(table: seq<Row>, q: Query, limit: nat, cursor: Option<Cursor>): (seq<Row>, Option<Cursor>)
    requires limit >= 1
  {
    var rows := Remaining(table, q, cursor);
    if |rows| > limit then (rows[..limit], Some(KeyOf(rows[limit - 1]))) else (rows, None)
  }

  class AuditStore {
    var requests: seq<Row>

    constructor ()
      ensures requests == []
    {
      requests := [];
    }

    /** The primary key rejects a second row with the same id. */
    method RecordRequest(r: Row) returns (stored: bool)
      modifies this
      ensures stored == !(exists i :: 0 <= i < |old(requests)| && old(requests)[i].id == r.id)
      ensures requests == if stored then old(requests) + [r] else old(requests)
    {
      stored := !(exists i :: 0 <= i < |requests| && requests[i].id == r.id);
      if stored {
        requests := requests + [r];
      }
    }

    /**
     One extra row is fetched to see whether there is a further page. A limit below 1, which the route rejects, has no
     last row to continue from, unless it is below -1: then SQL returns all rows and Python drops that many at the end.
     */
    method ListRequests(
      q: Query, limit: int, cursor: Option<Cursor>) returns (page: Result<(seq<Row>, Option<Cursor>), PageError>)
      ensures limit >= 1 ==> page == Ok(Page(requests, q, limit, cursor))
      ensures limit < 1 ==>
                var all := Remaining(requests, q, cursor);
                page == if limit == 0 && all == [] then Ok(([], None))
                        else if limit < -1 && |all| + limit > 0
                        then Ok((all[..|all| + limit], Some(KeyOf(all[|all| + limit - 1]))))
                        else Err(NoLastRow)
    {
      var all := Remaining(requests, q, cursor);
      var rows := if limit + 1 < 0 || |all| <= limit + 1 then all else all[..limit + 1];
      if |rows| <= limit {
        return Ok((rows, None));
      }
      var kept := if limit >= 0 then limit else if |rows| + limit < 0 then 0 else |rows| + limit;
      assert limit >= 1 ==> rows[..kept] == all[..limit];
      rows := rows[..kept];
      if rows == [] {
        return Err(NoLastRow);
      }
      var last := rows[|rows| - 1];
      page := Ok((rows, Some((last.ts, last.id))));
    }
  }

  // ---- the order of rows ----

  lemma KeyOrder()
    ensures forall a, b :: !(KeyLess(a, b) && KeyLess(b, a)) && !KeyLess(a, a)
    ensures forall a, b :: KeyLess(a, b) || KeyLess(b, a) || a == b
    ensures forall a, b, c :: KeyLess(a, b) && KeyLess(b, c) ==> KeyLess(a, c)
  {
    forall a: Cursor, b: Cursor
      ensures !(KeyLess(a, b) && KeyLess(b, a)) && !KeyLess(a, a) && (KeyLess(a, b) || KeyLess(b, a) || a == b)
    {
      StrLeqTotal(a.0, b.0);
      StrLeqTotal(a.1, b.1);
    }
    forall a: Cursor, b: Cursor, c: Cursor | KeyLess(a, b) && KeyLess(b, c) ensures KeyLess(a, c) {
      StrLeqTotal(a.0, b.0);
      StrLeqTotal(b.0, c.0);
      StrLeqTotal(a.1, b.1);
      StrLeqTotal(b.1, c.1);
      if a.0 != b.0 && b.0 != c.0 { StrLeqTransitive(a.0, b.0, c.0); }
      if a.0 == b.0 == c.0 { StrLeqTransitive(a.1, b.1, c.1); }
    }
  }

  /** Newest first, and no two rows at the same position. */
  ghost predicate Descending(rows: seq<Row>) {
    forall i, j :: 0 <= i < j < |rows| ==> KeyLess(KeyOf(rows[j]), KeyOf(rows[i]))
  }

  ghost predicate IdsDistinct(table: seq<Row>) {
    forall i, j :: 0 <= i < j < |table| ==> table[i].id != table[j].id
  }

  lemma RemainingElements(table: seq<Row>, q: Query, cursor: Option<Cursor>, r: Row)
    ensures r in Remaining(table, q, cursor) <==> r in table && q.Selects(r) && Below(r, cursor)
  {
    var p := (r: Row) => q.Selects(r) && Below(r, cursor);
    SortSameElements(Filter(table, p), NewestFirst, r);
    FilterElements(table, p, r);
  }

  predicate OtherId(a: Row, b: Row) { a.id != b.id }

  lemma {:induction false} FilterIdsDistinct(table: seq<Row>, p: Row -> bool)
    requires Pairwise(table, OtherId)
    ensures Pairwise(Filter(table, p), OtherId)
  {
    if table != [] {
      assert Pairwise(table[1..], OtherId);
      FilterIdsDistinct(table[1..], p);
      forall r | r in Filter(table[1..], p) ensures r.id != table[0].id {
        FilterElements(table[1..], p, r);
        var k :| 0 <= k < |table[1..]| && table[1..][k] == r;
        assert table[k + 1] == r;
      }
    }
  }

  lemma RemainingDescending(table: seq<Row>, q: Query, cursor: Option<Cursor>)
    requires IdsDistinct(table)
    ensures Descending(Remaining(table, q, cursor))
  {
    var p := (r: Row) => q.Selects(r) && Below(r, cursor);
    var rows := Remaining(table, q, cursor);
    KeyOrder();
    assert TotalPreorder(NewestFirst);
    FilterIdsDistinct(table, p);
    SortSorted(Filter(table, p), NewestFirst);
    SortPairwise(Filter(table, p), NewestFirst, OtherId);
    forall i, j | 0 <= i < j < |rows| ensures KeyLess(KeyOf(rows[j]), KeyOf(rows[i])) {
      assert NewestFirst(rows[i], rows[j]) && OtherId(rows[i], rows[j]);
    }
  }

  // ---- a walk over the pages while rows are inserted ----

  /**
   Follow the cursor; page `k` reads the table as it is then. The flag says whether the walk reached the last page.
   */
  function Walk(tables: seq<seq<Row>>, q: Query, limit: nat, cursor: Option<Cursor>): (seq<seq<Row>>, bool)
    requires limit >= 1
    decreases |tables|
  {
    if tables == [] then ([], false)
    else
      var (rows, next) := Page(tables[0], q, limit, cursor);
      if next.None? then ([rows], true)
      else
        var (pages, done) := Walk(tables[1..], q, limit, next);
        ([rows] + pages, done)
  }

  function Joined(pages: seq<seq<Row>>): seq<Row> {
    if pages == [] then [] else pages[0] + Joined(pages[1..])
  }

  ghost predicate Grows(before: seq<Row>, after: seq<Row>) { forall r :: r in before ==> r in after }

  /** Rows are only ever added. */
  ghost predicate OnlyInserts(tables: seq<seq<Row>>) {
    tables != [] ==>
      IdsDistinct(tables[0]) && (|tables| > 1 ==> Grows(tables[0], tables[1])) && OnlyInserts(tables[1..])
  }

  /** A page: its rows are the newest below the cursor, and what it leaves lies below the next cursor. */
  lemma PageCuts(table: seq<Row>, q: Query, limit: nat, cursor: Option<Cursor>)
    requires limit >= 1 && IdsDistinct(table)
    ensures var (rows, next) := Page(table, q, limit, cursor);
            && Descending(rows)
            && (forall r :: r in rows ==> r in table && q.Selects(r) && Below(r, cursor))
            && (forall r :: r in table && q.Selects(r) && Below(r, cursor)
                  ==> r in rows || (next.Some? && Below(r, next)))
            && (next.Some? ==> forall r :: r in rows ==> KeyOf(r) == next.value || KeyLess(next.value, KeyOf(r)))
            && (next.Some? && cursor.Some? ==> KeyLess(next.value, cursor.value))
  {
    var all := Remaining(table, q, cursor);
    var (rows, next) := Page(table, q, limit, cursor);
    RemainingDescending(table, q, cursor);
    forall r | r in rows ensures r in table && q.Selects(r) && Below(r, cursor) {
      assert r in all;
      RemainingElements(table, q, cursor, r);
    }
    forall r | r in table && q.Selects(r) && Below(r, cursor) ensures r in rows || (next.Some? && Below(r, next)) {
      RemainingElements(table, q, cursor, r);
      var i :| 0 <= i < |all| && all[i] == r;
      if next.Some? && i < limit { assert rows[i] == r; }
    }
    if next.Some? {
      assert rows[limit - 1] in rows;
      forall r | r in rows ensures KeyOf(r) == next.value || KeyLess(next.value, KeyOf(r)) {
        var i :| 0 <= i < |rows| && rows[i] == r;
        assert all[i] == r;
      }
    }
  }

  predicate StrLess(a: string, b: string) { StrLeq(a, b) && a != b }

  /** The row has the asked tenant, and the asked team and action where one is asked for. */
  predicate Wanted(r: Row, q: Query) {
    r.tenant == q.tenant && (q.team.None? || q.team == Some(r.team)) && (q.action.None? || q.action == Some(r.action))
  }

  /** The row is older than that time, or as old with a smaller id. */
  predicate Older(r: Row, ts: string, id: string) { StrLess(r.ts, ts) || (r.ts == ts && StrLess(r.id, id)) }

  /** A page in the rows' own fields: wanted rows older than the cursor, newest first; nothing newer is missing. */
  lemma PageInFields(table: seq<Row>, q: Query, limit: nat, cursor: Option<Cursor>)
    requires limit >= 1 && IdsDistinct(table)
    ensures var (rows, next) := Page(table, q, limit, cursor);
            && |rows| <= limit
            && (forall r :: r in rows ==>
                  r in table && Wanted(r, q) && (cursor.Some? ==> Older(r, cursor.value.0, cursor.value.1)))
            && (forall i, j :: 0 <= i < j < |rows| ==> Older(rows[j], rows[i].ts, rows[i].id))
            && (next.Some? ==> |rows| == limit && next.value == (rows[limit - 1].ts, rows[limit - 1].id))
            && (forall r :: r in table && Wanted(r, q) && (cursor.Some? ==> Older(r, cursor.value.0, cursor.value.1))
                  ==> r in rows || (next.Some? && Older(r, next.value.0, next.value.1)))
  {
    PageCuts(table, q, limit, cursor);
    var (rows, next) := Page(table, q, limit, cursor);
    forall i, j | 0 <= i < j < |rows| ensures Older(rows[j], rows[i].ts, rows[i].id) {
      assert KeyLess(KeyOf(rows[j]), KeyOf(rows[i]));
    }
    forall r | r in rows ensures Wanted(r, q) { assert q.Selects(r); }
    forall r | r in table && Wanted(r, q) && (cursor.Some? ==> Older(r, cursor.value.0, cursor.value.1))
      ensures r in rows || (next.Some? && Older(r, next.value.0, next.value.1))
    {
      assert q.Selects(r) && Below(r, cursor);
    }
  }

  /** There is a next page exactly when some wanted row was left out. */
  lemma NextPageExactly(table: seq<Row>, q: Query, limit: nat, cursor: Option<Cursor>)
    requires limit >= 1 && IdsDistinct(table)
    ensures var (rows, next) := Page(table, q, limit, cursor);
            next.Some? <==> exists r :: r in table && Wanted(r, q) && r !in rows
                              && (cursor.Some? ==> Older(r, cursor.value.0, cursor.value.1))
  {
    var (rows, next) := Page(table, q, limit, cursor);
    var all := Remaining(table, q, cursor);
    PageInFields(table, q, limit, cursor);
    if next.Some? {
      RemainingDescending(table, q, cursor);
      KeyOrder();
      var r := all[limit];
      assert r in all;
      RemainingElements(table, q, cursor, r);
      assert q.Selects(r) && Below(r, cursor);
      forall i | 0 <= i < limit ensures rows[i] != r { assert KeyLess(KeyOf(all[limit]), KeyOf(all[i])); }
    }
  }

  lemma DescendingConcat(a: seq<Row>, b: seq<Row>, cut: Cursor)
    requires Descending(a) && Descending(b)
    requires forall r :: r in a ==> KeyOf(r) == cut || KeyLess(cut, KeyOf(r))
    requires forall r :: r in b ==> KeyLess(KeyOf(r), cut)
    ensures Descending(a + b)
  {
    KeyOrder();
    var c := a + b;
    forall i, j | 0 <= i < j < |c| ensures KeyLess(KeyOf(c[j]), KeyOf(c[i])) {
      if i < |a| && |a| <= j {
        assert c[i] == a[i] && c[j] == b[j - |a|] && a[i] in a && b[j - |a|] in b;
      }
    }
  }

  /**
   Following the cursor while rows are inserted: keys strictly decrease over all pages, every returned row was in some
   table and selected, and once the walk ends every selected row that was there from the start has been returned.
   */
  lemma {:induction false} WalkWithInserts(tables: seq<seq<Row>>, q: Query, limit: nat, cursor: Option<Cursor>)
    requires limit >= 1 && OnlyInserts(tables)
    ensures var (pages, done) := Walk(tables, q, limit, cursor);
            var all := Joined(pages);
            && Descending(all)
            && (forall r :: r in all
                  ==> q.Selects(r) && Below(r, cursor) && exists k :: 0 <= k < |tables| && r in tables[k])
            && (done ==> forall r :: r in tables[0] && q.Selects(r) && Below(r, cursor) ==> r in all)
    decreases |tables|
  {
    if tables != [] {
      PageCuts(tables[0], q, limit, cursor);
      var (rows, next) := Page(tables[0], q, limit, cursor);
      if next.Some? {
        assert |tables| > 1 ==> tables[1..][0] == tables[1];
        WalkWithInserts(tables[1..], q, limit, next);
        var (pages, done) := Walk(tables[1..], q, limit, next);
        var rest := Joined(pages);
        assert Joined([rows] + pages) == rows + rest by { assert ([rows] + pages)[1..] == pages; }
        DescendingConcat(rows, rest, next.value);
        KeyOrder();
        forall r | r in rest ensures Below(r, cursor) && exists k :: 0 <= k < |tables| && r in tables[k] {
          var k :| 0 <= k < |tables[1..]| && r in tables[1..][k];
          assert tables[1..][k] == tables[k + 1];
        }
      } else {
        assert Joined([rows]) == rows by { assert [rows][1..] == []; }
      }
    }
  }

  // ---- a walk over a table that does not change ----

  lemma {:induction false} SameDescending(a: seq<Row>, b: seq<Row>)
    requires Descending(a) && Descending(b) && forall r :: r in a <==> r in b
    ensures a == b
    decreases |a|
  {
    KeyOrder();
    assert b != [] ==> b[0] in b;
    if a != [] {
      assert a[0] in b;
      var i :| 0 <= i < |b| && b[i] == a[0];
      assert b[0] in a;
      var j :| 0 <= j < |a| && a[j] == b[0];
      assert a[0] == b[0];
      forall r ensures r in a[1..] <==> r in b[1..] {
        if r in a[1..] {
          var k :| 0 <= k < |a[1..]| && a[1..][k] == r;
          assert a[k + 1] == r && r in a && KeyLess(KeyOf(a[k + 1]), KeyOf(a[0]));
          var l :| 0 <= l < |b| && b[l] == r;
          assert b[1..][l - 1] == r;
        }
        if r in b[1..] {
          var k :| 0 <= k < |b[1..]| && b[1..][k] == r;
          assert b[k + 1] == r && r in b && KeyLess(KeyOf(b[k + 1]), KeyOf(b[0]));
          var l :| 0 <= l < |a| && a[l] == r;
          assert a[1..][l - 1] == r;
        }
      }
      SameDescending(a[1..], b[1..]);
    }
  }

  function Copies(table: seq<Row>, n: nat): seq<seq<Row>> { seq(n, i => table) }

  /** After the first `limit` rows the next cursor leaves exactly the rest. */
  lemma RestBelow(table: seq<Row>, q: Query, limit: nat, cursor: Option<Cursor>)
    requires limit >= 1 && IdsDistinct(table) && |Remaining(table, q, cursor)| > limit
    ensures var all := Remaining(table, q, cursor);
            Remaining(table, q, Some(KeyOf(all[limit - 1]))) == all[limit..]
  {
    var all := Remaining(table, q, cursor);
    var next := Some(KeyOf(all[limit - 1]));
    RemainingDescending(table, q, cursor);
    RemainingDescending(table, q, next);
    KeyOrder();
    forall r ensures r in Remaining(table, q, next) <==> r in all[limit..] {
      RemainingElements(table, q, cursor, r);
      RemainingElements(table, q, next, r);
      RemainingElements(table, q, cursor, all[limit - 1]);
      if r in all {
        var i :| 0 <= i < |all| && all[i] == r;
        if i >= limit { assert all[limit..][i - limit] == r; }
      }
      if r in all[limit..] {
        var i :| 0 <= i < |all[limit..]| && all[limit..][i] == r;
        assert all[limit + i] == r;
      }
    }
    SameDescending(Remaining(table, q, next), all[limit..]);
  }

  /** How many pages `n` rows take. */
  function PageCount(n: nat, limit: nat): nat
    requires limit >= 1
  {
    if n <= limit then 1 else 1 + PageCount(n - limit, limit)
  }

  /** That is the least number of pages that hold them, and at least one. */
  lemma {:induction false} PageCountIsCeiling(n: nat, limit: nat)
    requires limit >= 1
    ensures PageCount(n, limit) >= 1 && n <= PageCount(n, limit) * limit
    ensures if n == 0 then PageCount(n, limit) == 1 else (PageCount(n, limit) - 1) * limit < n
    decreases n
  {
    if n > limit {
      PageCountIsCeiling(n - limit, limit);
      var k := PageCount(n - limit, limit);
      assert (k + 1) * limit == k * limit + limit;
      assert (k - 1) * limit + limit == k * limit;
    }
  }

  /** Over a fixed table the pages are the selected rows, newest first, each once, in `PageCount` pages. */
  lemma {:induction false} WalkFixedTable(table: seq<Row>, q: Query, limit: nat, cursor: Option<Cursor>, n: nat)
    requires limit >= 1 && IdsDistinct(table) && n >= PageCount(|Remaining(table, q, cursor)|, limit)
    ensures var (pages, done) := Walk(Copies(table, n), q, limit, cursor);
            && done && Joined(pages) == Remaining(table, q, cursor)
            && |pages| == PageCount(|Remaining(table, q, cursor)|, limit)
    decreases n
  {
    var all := Remaining(table, q, cursor);
    var tables := Copies(table, n);
    assert tables[0] == table && tables[1..] == Copies(table, n - 1);
    if |all| > limit {
      var next := Some(KeyOf(all[limit - 1]));
      RestBelow(table, q, limit, cursor);
      WalkFixedTable(table, q, limit, next, n - 1);
      var (pages, done) := Walk(tables[1..], q, limit, next);
      assert ([all[..limit]] + pages)[1..] == pages;
      assert all[..limit] + all[limit..] == all;
    } else {
      assert [all][1..] == [];
    }
  }
}
