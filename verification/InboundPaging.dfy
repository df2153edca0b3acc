/** Keyset paging over inbound mail (src/db/inbound.local.ts) while the table changes between pages:
    each page is one query over whatever the table holds at that moment. */
module InboundPaging {
  import opened Wrappers
  import opened Text
  import opened Sorting

  /** `receivedAt` is stored text; `Julian` is SQLite's `julianday` over it, in whole milliseconds. */
  datatype Row = Row(id: string, receivedAt: string, isSent: bool, isArchived: bool)

  /** SQLite's `julianday`, for the texts it parses. */
  type Julian = string -> int

  /** What the opaque cursor text carries; its encoding is injective, so it is modelled as itself. */
  datatype Cursor = Cursor(receivedAt: string, id: string, since: Option<string>)

  datatype Fault = LimitOutOfRange | CursorOfAnotherQuery | CursorDidNotAdvance

  datatype Page = Page(items: seq<Row>, cursor: Option<Cursor>)

  const DEFAULT_PAGE := 200
  const MAX_PAGE := 500

  // ---------------------------------------------------------------- the order

  /** A place in the listing: newest first, the larger id first among equal instants. */
  datatype Place = Place(at: int, id: string)

  function PlaceOf(row: Row, julian: Julian): Place {
    Place(julian(row.receivedAt), row.id)
  }

  function CursorPlace(c: Cursor, julian: Julian): Place {
    Place(julian(c.receivedAt), c.id)
  }

  /** `a` is listed strictly before `b`. */
  predicate Before(a: Place, b: Place) {
    a.at > b.at || (a.at == b.at && Less(b.id, a.id))
  }

  lemma BeforeIsTotal(a: Place, b: Place)
    ensures a == b || Before(a, b) || Before(b, a)
    ensures !(Before(a, b) && Before(b, a)) && !Before(a, a)
  {
    LessTotal(a.id, b.id);
    LessTotal(a.id, a.id);
  }

  lemma BeforeTransitive(a: Place, b: Place, c: Place)
    requires Before(a, b) && Before(b, c)
    ensures Before(a, c)
  {
    if a.at == b.at == c.at {
      LessTransitive(c.id, b.id, a.id);
    }
  }

  function Order(julian: Julian): (Row, Row) -> bool {
    (a: Row, b: Row) => !Before(PlaceOf(b, julian), PlaceOf(a, julian))
  }

  lemma OrderIsTotal(julian: Julian)
    ensures TotalPreorder(Order(julian))
  {
    var le := Order(julian);
    forall a, b
      ensures le(a, b) || le(b, a)
    {
      BeforeIsTotal(PlaceOf(a, julian), PlaceOf(b, julian));
    }
    forall a, b, c | le(a, b) && le(b, c)
      ensures le(a, c)
    {
      var x, y, z := PlaceOf(a, julian), PlaceOf(b, julian), PlaceOf(c, julian);
      BeforeIsTotal(x, y);
      BeforeIsTotal(y, z);
      BeforeIsTotal(x, z);
      if Before(x, y) && Before(y, z) {
        BeforeTransitive(x, y, z);
      }
    }
  }

  // ---------------------------------------------------------------- one page

  predicate Matches(row: Row, since: Option<string>, julian: Julian) {
    !row.isSent && !row.isArchived && (since.Some? ==> julian(row.receivedAt) >= julian(since.value))
  }

  /** The WHERE clause: a matching row strictly past the cursor. */
  predicate Eligible(row: Row, since: Option<string>, cursor: Option<Cursor>, julian: Julian) {
    Matches(row, since, julian) && (cursor.Some? ==> Before(CursorPlace(cursor.value, julian), PlaceOf(row, julian)))
  }

  function Where(table: seq<Row>, since: Option<string>, cursor: Option<Cursor>, julian: Julian): (r: seq<Row>)
    ensures forall row :: row in r <==> row in table && Eligible(row, since, cursor, julian)
  {
    if table == [] then []
    else
      assert table == [table[0]] + table[1..];
      var rest := Where(table[1..], since, cursor, julian);
      if Eligible(table[0], since, cursor, julian) then [table[0]] + rest else rest
  }

  function PageLimit(limit: Option<int>): (r: Option<nat>)
    ensures r.Some? ==> 1 <= r.value <= MAX_PAGE
  {
    match limit
    case None => Some(DEFAULT_PAGE)
    case Some(n) => if 1 <= n <= MAX_PAGE then Some(n) else None
  }

  function ListPage(table: seq<Row>, limit: Option<int>, since: Option<string>, cursor: Option<Cursor>, julian: Julian)
    : (r: Result<Page, Fault>)
  {
    if PageLimit(limit).None? then Err(LimitOutOfRange)
    else if cursor.Some? && cursor.value.since != since then Err(CursorOfAnotherQuery)
    else
      var size := PageLimit(limit).value;
      var sorted := Sort(Where(table, since, cursor, julian), Order(julian));
      var rows := sorted[..Min(size + 1, |sorted|)];
      var items := rows[..Min(size, |rows|)];
      var next := if |rows| > size && items != []
                  then Some(Cursor(items[|items| - 1].receivedAt, items[|items| - 1].id, since))
                  else None;
      if next.Some? && next == cursor then Err(CursorDidNotAdvance) else Ok(Page(items, next))
  }

  ghost predicate DistinctIds(table: seq<Row>) {
    DistinctBy(table, (r: Row) => r.id)
  }

  ghost predicate Descending(items: seq<Row>, julian: Julian) {
    forall i, j :: 0 <= i < j < |items| ==> Before(PlaceOf(items[i], julian), PlaceOf(items[j], julian))
  }

  /** What one page is, without saying how it is computed. */
  ghost predicate IsPage(p: Page, size: nat, table: seq<Row>, since: Option<string>, cursor: Option<Cursor>,
                         julian: Julian) {
    && |p.items| <= size
    && (forall row :: row in p.items ==> row in table && Eligible(row, since, cursor, julian))
    && Descending(p.items, julian)
    && (p.cursor.None? ==> forall row :: row in table && Eligible(row, since, cursor, julian) ==> row in p.items)
    && (p.cursor.Some? ==>
          && |p.items| == size > 0
          && p.cursor.value.since == since
          && CursorPlace(p.cursor.value, julian) == PlaceOf(p.items[|p.items| - 1], julian)
          && (exists row :: row in table && Eligible(row, since, p.cursor, julian))
          && forall row :: row in table && Eligible(row, since, cursor, julian) ==>
               row in p.items || Eligible(row, since, p.cursor, julian))
  }

  lemma {:induction false} WhereDistinct(table: seq<Row>, since: Option<string>, cursor: Option<Cursor>, julian: Julian)
    requires DistinctIds(table)
    ensures DistinctIds(Where(table, since, cursor, julian))
  {
    if table == [] {
    } else {
      WhereDistinct(table[1..], since, cursor, julian);
      var rest := Where(table[1..], since, cursor, julian);
      forall i | 0 <= i < |rest|
        ensures rest[i].id != table[0].id
      {
        assert rest[i] in table[1..];
      }
    }
  }

  /** The sorted eligible rows, with the ties a distinct id rules out. */
  lemma SortedEligible(table: seq<Row>, since: Option<string>, cursor: Option<Cursor>,
                       julian: Julian) returns (sorted: seq<Row>)
    requires DistinctIds(table)
    ensures sorted == Sort(Where(table, since, cursor, julian), Order(julian))
    ensures Descending(sorted, julian)
    ensures forall row :: row in sorted <==> row in table && Eligible(row, since, cursor, julian)
  {
    var kept := Where(table, since, cursor, julian);
    sorted := Sort(kept, Order(julian));
    OrderIsTotal(julian);
    SortSorted(kept, Order(julian));
    WhereDistinct(table, since, cursor, julian);
    RearrangedDistinct(kept, sorted, (row: Row) => row.id);
    forall i, j | 0 <= i < j < |sorted|
      ensures Before(PlaceOf(sorted[i], julian), PlaceOf(sorted[j], julian))
    {
      assert Order(julian)(sorted[i], sorted[j]);
      BeforeIsTotal(PlaceOf(sorted[i], julian), PlaceOf(sorted[j], julian));
    }
    forall row
      ensures row in sorted <==> row in kept
    {
      SameMembers(sorted, kept, row);
    }
  }

  lemma LastPage(sorted: seq<Row>, size: nat, table: seq<Row>, since: Option<string>, cursor: Option<Cursor>,
                 julian: Julian)
    requires |sorted| <= size && Descending(sorted, julian)
    requires forall row :: row in sorted <==> row in table && Eligible(row, since, cursor, julian)
    ensures IsPage(Page(sorted, None), size, table, since, cursor, julian)
  {}

  /** Cutting the sorted rows after `size`: the rest is exactly what the next cursor admits. */
  lemma SplitPage(sorted: seq<Row>, size: nat, table: seq<Row>, since: Option<string>, cursor: Option<Cursor>,
                  julian: Julian)
    requires 1 <= size < |sorted| && Descending(sorted, julian)
    requires forall row :: row in sorted <==> row in table && Eligible(row, since, cursor, julian)
    ensures var next := Cursor(sorted[size - 1].receivedAt, sorted[size - 1].id, since);
            Some(next) != cursor && IsPage(Page(sorted[..size], Some(next)), size, table, since, cursor, julian)
  {
    hide Matches, Before;
    var last := sorted[size - 1];
    var next := Cursor(last.receivedAt, last.id, since);
    var items := sorted[..size];
    assert items[size - 1] == last && last in sorted;
    BeforeIsTotal(PlaceOf(last, julian), PlaceOf(last, julian));
    assert sorted[size] in sorted;
    assert Eligible(sorted[size], since, Some(next), julian);
    forall row | row in items
      ensures row in table && Eligible(row, since, cursor, julian)
    {
      assert row in sorted;
    }
    forall row | row in table && Eligible(row, since, cursor, julian)
      ensures row in items || Eligible(row, since, Some(next), julian)
    {
      var k :| 0 <= k < |sorted| && sorted[k] == row;
      if k < size {
        assert items[k] == row;
      }
    }
  }

  lemma PageIsPage(table: seq<Row>, limit: Option<int>, since: Option<string>, cursor: Option<Cursor>, julian: Julian)
    requires DistinctIds(table)
    requires PageLimit(limit).Some? && (cursor.Some? ==> cursor.value.since == since)
    ensures ListPage(table, limit, since, cursor, julian).Ok?
    ensures var page := ListPage(table, limit, since, cursor, julian).value;
            IsPage(page, PageLimit(limit).value, table, since, cursor, julian)
  {
    hide Sort, Where, Order, Eligible, Descending, Before, PlaceOf, CursorPlace, IsPage, DistinctIds;
    var size := PageLimit(limit).value;
    var sorted := SortedEligible(table, since, cursor, julian);
    var items := sorted[..Min(size, |sorted|)];
    assert sorted[..Min(size + 1, |sorted|)][..Min(size, Min(size + 1, |sorted|))] == items;
    if |sorted| > size {
      SplitPage(sorted, size, table, since, cursor, julian);
    } else {
      assert items == sorted;
      LastPage(sorted, size, table, since, cursor, julian);
    }
  }

  /** The "cursor did not advance" throw is never reached. */
  lemma CursorAlwaysAdvances(table: seq<Row>, limit: Option<int>, since: Option<string>, cursor: Option<Cursor>,
                             julian: Julian)
    requires DistinctIds(table)
    ensures ListPage(table, limit, since, cursor, julian) != Err(CursorDidNotAdvance)
  {
    if PageLimit(limit).Some? && (cursor.Some? ==> cursor.value.since == since) {
      PageIsPage(table, limit, since, cursor, julian);
    }
  }

  // ---------------------------------------------------------------- a walk over a changing table

  datatype Walked = Walked(items: seq<Row>, finished: bool)

  /** The pages of one caller that follows its cursor, `tables[i]` being the table when it asks for the
      i-th page; the walk is finished when a page carries no cursor. */
  function Walk(tables: seq<seq<Row>>, limit: Option<int>, since: Option<string>, cursor: Option<Cursor>,
                julian: Julian)
    : (r: Walked)
  {
    if tables == [] then Walked([], false)
    else
      match ListPage(tables[0], limit, since, cursor, julian)
      case Err(_) => Walked([], false)
      case Ok(page) =>
        if page.cursor.None? then Walked(page.items, true)
        else
          var rest := Walk(tables[1..], limit, since, page.cursor, julian);
          Walked(page.items + rest.items, rest.finished)
  }

  ghost predicate Tables(tables: seq<seq<Row>>) {
    forall i :: 0 <= i < |tables| ==> DistinctIds(tables[i])
  }

  ghost predicate Usable(limit: Option<int>, since: Option<string>, cursor: Option<Cursor>) {
    PageLimit(limit).Some? && (cursor.Some? ==> cursor.value.since == since)
  }

  lemma PageThenRest(items: seq<Row>, rest: seq<Row>, since: Option<string>, cursor: Cursor, julian: Julian)
    requires items != [] && Descending(items, julian) && Descending(rest, julian)
    requires CursorPlace(cursor, julian) == PlaceOf(items[|items| - 1], julian)
    requires forall row :: row in rest ==> Eligible(row, since, Some(cursor), julian)
    ensures Descending(items + rest, julian)
  {
    var n := |items|;
    forall i, j | 0 <= i < n && 0 <= j < |rest|
      ensures Before(PlaceOf(items[i], julian), PlaceOf(rest[j], julian))
    {
      assert rest[j] in rest;
      if i < n - 1 {
        BeforeTransitive(PlaceOf(items[i], julian), PlaceOf(items[n - 1], julian), PlaceOf(rest[j], julian));
      }
    }
  }

  /** Whatever happens to the table between pages, the rows come out in strictly descending order, and
      each was stored and past the starting cursor when it was read. */
  lemma {:induction false} WalkDescends(tables: seq<seq<Row>>, limit: Option<int>, since: Option<string>,
                                        cursor: Option<Cursor>, julian: Julian)
    requires Tables(tables) && Usable(limit, since, cursor)
    ensures Descending(Walk(tables, limit, since, cursor, julian).items, julian)
    ensures forall row :: row in Walk(tables, limit, since, cursor, julian).items ==>
              Eligible(row, since, cursor, julian) && exists i :: 0 <= i < |tables| && row in tables[i]
  {
    hide ListPage, Matches, PageLimit, DistinctIds, Before, PlaceOf, CursorPlace;
    if tables == [] {
    } else {
      PageIsPage(tables[0], limit, since, cursor, julian);
      var page := ListPage(tables[0], limit, since, cursor, julian).value;
      if page.cursor.Some? {
        WalkDescends(tables[1..], limit, since, page.cursor, julian);
        var rest := Walk(tables[1..], limit, since, page.cursor, julian).items;
        PageThenRest(page.items, rest, since, page.cursor.value, julian);
        forall row | row in rest
          ensures Eligible(row, since, cursor, julian) && exists i :: 0 <= i < |tables| && row in tables[i]
        {
          var k :| 0 <= k < |tables[1..]| && row in tables[1..][k];
          assert row in tables[k + 1];
          assert page.items[|page.items| - 1] in page.items;
          if cursor.Some? {
            BeforeTransitive(CursorPlace(cursor.value, julian), CursorPlace(page.cursor.value, julian),
                             PlaceOf(row, julian));
          }
        }
      }
    }
  }

  /** No row is returned twice, as long as a row's instant does not change under its id. */
  lemma WalkNeverRepeats(tables: seq<seq<Row>>, limit: Option<int>, since: Option<string>, cursor: Option<Cursor>,
                         julian: Julian)
    requires Tables(tables) && Usable(limit, since, cursor)
    requires forall i, j, a, b ::
               0 <= i < |tables| && 0 <= j < |tables| && a in tables[i] && b in tables[j] && a.id == b.id ==>
               julian(a.receivedAt) == julian(b.receivedAt)
    ensures DistinctIds(Walk(tables, limit, since, cursor, julian).items)
  {
    var items := Walk(tables, limit, since, cursor, julian).items;
    WalkDescends(tables, limit, since, cursor, julian);
    forall i, j | 0 <= i < j < |items|
      ensures items[i].id != items[j].id
    {
      assert items[i] in items && items[j] in items;
      BeforeIsTotal(PlaceOf(items[i], julian), PlaceOf(items[j], julian));
    }
  }

  /** Every row that matches and stays in the table for the whole of a finished walk is returned. */
  lemma {:induction false} WalkMissesNothing(tables: seq<seq<Row>>, limit: Option<int>, since: Option<string>,
                                             cursor: Option<Cursor>, julian: Julian, row: Row)
    requires Tables(tables) && Usable(limit, since, cursor)
    requires Walk(tables, limit, since, cursor, julian).finished
    requires Eligible(row, since, cursor, julian) && forall i :: 0 <= i < |tables| ==> row in tables[i]
    ensures row in Walk(tables, limit, since, cursor, julian).items
  {
    PageIsPage(tables[0], limit, since, cursor, julian);
    var page := ListPage(tables[0], limit, since, cursor, julian).value;
    if page.cursor.Some? && row !in page.items {
      WalkMissesNothing(tables[1..], limit, since, page.cursor, julian, row);
    }
  }

  // ---------------------------------------------------------------- termination

  /** The rows still ahead of a cursor. */
  ghost function Ahead(table: seq<Row>, since: Option<string>, cursor: Option<Cursor>, julian: Julian): set<Row> {
    set row | row in table && Eligible(row, since, cursor, julian)
  }

  /** A page that carries a cursor leaves strictly fewer rows ahead. */
  lemma PageConsumes(table: seq<Row>, limit: Option<int>, since: Option<string>, cursor: Option<Cursor>, julian: Julian)
    requires DistinctIds(table) && Usable(limit, since, cursor)
    requires ListPage(table, limit, since, cursor, julian).Ok?
               && ListPage(table, limit, since, cursor, julian).value.cursor.Some?
    ensures var next := ListPage(table, limit, since, cursor, julian).value.cursor;
            Ahead(table, since, next, julian) < Ahead(table, since, cursor, julian)
  {
    PageIsPage(table, limit, since, cursor, julian);
    hide ListPage, Matches;
    var page := ListPage(table, limit, since, cursor, julian).value;
    var next := page.cursor;
    var last := page.items[|page.items| - 1];
    assert last in page.items;
    BeforeIsTotal(PlaceOf(last, julian), PlaceOf(last, julian));
    assert last in Ahead(table, since, cursor, julian) && last !in Ahead(table, since, next, julian);
    forall row | row in Ahead(table, since, next, julian)
      ensures row in Ahead(table, since, cursor, julian)
    {
      if cursor.Some? {
        BeforeTransitive(CursorPlace(cursor.value, julian), CursorPlace(next.value, julian), PlaceOf(row, julian));
      }
    }
  }

  lemma Smaller<T>(a: set<T>, b: set<T>)
    requires a <= b
    ensures |a| <= |b| && (a != b ==> |a| < |b|)
  {
    assert b == a + (b - a) && a * (b - a) == {};
    if a != b {
      var x :| x in b - a;
    }
  }

  /** Each time the walk moves on, what is ahead of its new cursor was ahead of it before. */
  ghost predicate NothingInsertedBelow(tables: seq<seq<Row>>, limit: Option<int>, since: Option<string>,
                                       cursor: Option<Cursor>, julian: Julian) {
    |tables| > 1 ==>
      match ListPage(tables[0], limit, since, cursor, julian)
      case Err(_) => true
      case Ok(page) =>
        page.cursor.Some? ==>
          && Ahead(tables[1], since, page.cursor, julian) <= Ahead(tables[0], since, page.cursor, julian)
          && NothingInsertedBelow(tables[1..], limit, since, page.cursor, julian)
  }

  /** When nothing is inserted below the cursor while it moves, the walk finishes: it needs no more
      pages than there were rows ahead at the start, and one. */
  lemma {:induction false} WalkFinishes(tables: seq<seq<Row>>, limit: Option<int>, since: Option<string>,
                                        cursor: Option<Cursor>, julian: Julian)
    requires tables != [] && Tables(tables) && Usable(limit, since, cursor)
    requires NothingInsertedBelow(tables, limit, since, cursor, julian)
    requires |tables| > |Ahead(tables[0], since, cursor, julian)|
    ensures Walk(tables, limit, since, cursor, julian).finished
  {
    PageIsPage(tables[0], limit, since, cursor, julian);
    var page := ListPage(tables[0], limit, since, cursor, julian).value;
    if page.cursor.Some? {
      PageConsumes(tables[0], limit, since, cursor, julian);
      Smaller(Ahead(tables[0], since, page.cursor, julian), Ahead(tables[0], since, cursor, julian));
      assert tables[1..] != [];
      Smaller(Ahead(tables[1], since, page.cursor, julian), Ahead(tables[0], since, page.cursor, julian));
      WalkFinishes(tables[1..], limit, since, page.cursor, julian);
    }
  }

  // ---------------------------------------------------------------- in the columns' own terms

  /** Newest first by `julianday`, the larger id first among equal instants. */
  ghost predicate NewestFirst(items: seq<Row>, julian: Julian) {
    forall i, j :: 0 <= i < j < |items| ==>
      || julian(items[i].receivedAt) > julian(items[j].receivedAt)
      || (julian(items[i].receivedAt) == julian(items[j].receivedAt) && Less(items[j].id, items[i].id))
  }

  /** Received mail that is not archived, not before `since`, and past the cursor: older, or as old with a
      smaller id. */
  ghost predicate Asked(row: Row, since: Option<string>, cursor: Option<Cursor>, julian: Julian) {
    && row.isSent == row.isArchived == false
    && (since.Some? ==> julian(since.value) <= julian(row.receivedAt))
    && (cursor.Some? ==>
          || julian(row.receivedAt) < julian(cursor.value.receivedAt)
          || (julian(row.receivedAt) == julian(cursor.value.receivedAt) && Less(row.id, cursor.value.id)))
  }

  lemma EligibleIsAsked(row: Row, since: Option<string>, cursor: Option<Cursor>, julian: Julian)
    ensures Eligible(row, since, cursor, julian) <==> Asked(row, since, cursor, julian)
  {}

  lemma DescendingIsNewestFirst(items: seq<Row>, julian: Julian)
    ensures Descending(items, julian) <==> NewestFirst(items, julian)
  {}

  /** A page is refused outside 1 to 500 rows, and for the cursor of another query. */
  lemma PageRefused(table: seq<Row>, limit: Option<int>, since: Option<string>, cursor: Option<Cursor>, julian: Julian)
    requires DistinctIds(table)
    ensures ListPage(table, limit, since, cursor, julian).Err? <==>
              (limit.Some? && !(1 <= limit.value <= 500)) || (cursor.Some? && cursor.value.since != since)
  {
    hide Sort, Where;
    CursorAlwaysAdvances(table, limit, since, cursor, julian);
  }

  /** One page: the newest of the rows asked for, 200 of them when no limit is given, and a cursor at the
      last row exactly when some were left out. */
  lemma PageMeans(table: seq<Row>, limit: Option<int>, since: Option<string>, cursor: Option<Cursor>, julian: Julian)
    requires DistinctIds(table) && ListPage(table, limit, since, cursor, julian).Ok?
    ensures var page := ListPage(table, limit, since, cursor, julian).value;
            var size := if limit.Some? then limit.value else 200;
            && NewestFirst(page.items, julian) && |page.items| <= size
            && (forall row :: row in page.items ==> row in table && Asked(row, since, cursor, julian))
            && (page.cursor.None? ==>
                  forall row :: row in table && Asked(row, since, cursor, julian) ==> row in page.items)
            && (page.cursor.Some? ==>
                  && |page.items| == size > 0
                  && julian(page.cursor.value.receivedAt) == julian(page.items[size - 1].receivedAt)
                  && page.cursor.value.id == page.items[size - 1].id && page.cursor.value.since == since
                  && forall row :: row in table && Asked(row, since, cursor, julian) ==>
                       row in page.items || Asked(row, since, page.cursor, julian))
  {
    PageRefused(table, limit, since, cursor, julian);
    PageIsPage(table, limit, since, cursor, julian);
    var page := ListPage(table, limit, since, cursor, julian).value;
    hide ListPage, Eligible, Descending, Asked, NewestFirst, DistinctIds;
    DescendingIsNewestFirst(page.items, julian);
    forall row, c
      ensures Eligible(row, since, c, julian) <==> Asked(row, since, c, julian)
    {
      EligibleIsAsked(row, since, c, julian);
    }
  }

  /** A walk over a changing table: newest first to its end, nothing that was not asked for, and, when it
      finishes, every row asked for that was there throughout. */
  lemma WalkMeans(tables: seq<seq<Row>>, limit: Option<int>, since: Option<string>, cursor: Option<Cursor>,
                  julian: Julian)
    requires Tables(tables) && Usable(limit, since, cursor)
    ensures var walked := Walk(tables, limit, since, cursor, julian);
            && NewestFirst(walked.items, julian)
            && (forall row :: row in walked.items ==>
                  Asked(row, since, cursor, julian) && exists i :: 0 <= i < |tables| && row in tables[i])
            && (walked.finished ==> forall row ::
                  Asked(row, since, cursor, julian) && (forall i :: 0 <= i < |tables| ==> row in tables[i]) ==>
                    row in walked.items)
  {
    hide Walk, Eligible, Asked, Tables, Usable, Descending, NewestFirst;
    var walked := Walk(tables, limit, since, cursor, julian);
    WalkDescends(tables, limit, since, cursor, julian);
    DescendingIsNewestFirst(walked.items, julian);
    forall row
      ensures Eligible(row, since, cursor, julian) <==> Asked(row, since, cursor, julian)
    {
      EligibleIsAsked(row, since, cursor, julian);
    }
    if walked.finished {
      forall row | Asked(row, since, cursor, julian) && forall i :: 0 <= i < |tables| ==> row in tables[i]
        ensures row in walked.items
      {
        WalkMissesNothing(tables, limit, since, cursor, julian, row);
      }
    }
  }
}
