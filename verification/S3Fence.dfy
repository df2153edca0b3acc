/** The S3 fence repair that runs on every open (src/db/database.ts): mail stored before the fence
    existed adopts its raw S3 URL as `source_id`, one row for each URL. */
module S3Fence {
  import opened Wrappers
  import opened Text

  /** One row of `inbound_emails`; the table is keyed by its primary key `id`. */
  datatype Row = Row(createdAt: string, rawUrl: Option<string>, sourceId: Option<string>)

  type Table = map<string, Row>

  /** `LIKE 's3://%'`: SQLite's LIKE ignores the case of ASCII letters. */
  predicate IsS3(url: string) {
    |url| >= 5 && Lower(url[..5]) == "s3://"
  }

  predicate Unfenced(row: Row) {
    row.sourceId.None? && row.rawUrl.Some? && IsS3(row.rawUrl.value)
  }

  predicate Taken(t: Table, url: string) {
    exists id :: id in t && t[id].sourceId == Some(url)
  }

  /** The order that `ORDER BY created_at, id` ranks rows in. */
  predicate Earlier(t: Table, a: string, b: string)
    requires a in t && b in t
  {
    Less(t[a].createdAt, t[b].createdAt) || (t[a].createdAt == t[b].createdAt && Less(a, b))
  }

  /** `id` is the first unfenced row of its URL. */
  predicate First(t: Table, id: string)
    requires id in t
  {
    forall other :: other in t && other != id && t[other].sourceId.None? && t[other].rawUrl == t[id].rawUrl ==>
      Earlier(t, id, other)
  }

  /** The UPDATE's WHERE clause. */
  predicate Chosen(t: Table, id: string) {
    id in t && Unfenced(t[id]) && !Taken(t, t[id].rawUrl.value) && First(t, id)
  }

  function ChosenIds(t: Table): (r: set<string>) {
    set id | id in t && Chosen(t, id)
  }

  /** The rows of `ids` take their URL as fence. */
  function Fence(t: Table, ids: set<string>): (r: Table) {
    map id | id in t :: if id in ids then t[id].(sourceId := t[id].rawUrl) else t[id]
  }

  /** The whole-table UPDATE, every row judged against the table as it was. */
  function Repaired(t: Table): (r: Table) {
    Fence(t, ChosenIds(t))
  }

  /** The S3 URLs that no row had claimed and some unfenced row was waiting for. */
  function Orphans(t: Table): (r: set<string>) {
    set id | id in t && Unfenced(t[id]) && !Taken(t, t[id].rawUrl.value) :: t[id].rawUrl.value
  }

  // ---------------------------------------------------------------- the earliest row of a URL

  lemma EarlierIsTotal(t: Table, a: string, b: string)
    requires a in t && b in t
    ensures a == b || Earlier(t, a, b) || Earlier(t, b, a)
    ensures !(Earlier(t, a, b) && Earlier(t, b, a)) && !Earlier(t, a, a)
  {
    LessTotal(t[a].createdAt, t[b].createdAt);
    LessTotal(t[a].createdAt, t[a].createdAt);
    LessTotal(a, b);
    LessTotal(a, a);
  }

  lemma EarlierTransitive(t: Table, a: string, b: string, c: string)
    requires a in t && b in t && c in t && Earlier(t, a, b) && Earlier(t, b, c)
    ensures Earlier(t, a, c)
  {
    var x, y, z := t[a].createdAt, t[b].createdAt, t[c].createdAt;
    LessTotal(x, y);
    LessTotal(y, z);
    if x == y == z {
      LessTransitive(a, b, c);
    } else if x != y && y != z {
      LessTransitive(x, y, z);
    }
  }

  lemma {:induction false} Minimum(t: Table, ids: set<string>) returns (m: string)
    requires ids <= t.Keys && ids != {}
    ensures m in ids && forall other :: other in ids && other != m ==> Earlier(t, m, other)
    decreases |ids|
  {
    var x :| x in ids;
    if ids == {x} {
      m := x;
    } else {
      var rest := ids - {x};
      assert ids == rest + {x};
      var n := Minimum(t, rest);
      EarlierIsTotal(t, x, n);
      m := if Earlier(t, x, n) then x else n;
      forall other | other in ids && other != m
        ensures Earlier(t, m, other)
      {
        if m == x && other != n {
          EarlierTransitive(t, x, n, other);
        }
      }
    }
  }

  /** A URL that is waiting has one first row, and only one. */
  lemma OneFirst(t: Table, url: string) returns (id: string)
    requires url in Orphans(t)
    ensures Chosen(t, id) && t[id].rawUrl == Some(url)
    ensures forall other :: Chosen(t, other) && t[other].rawUrl == Some(url) ==> other == id
  {
    hide Less;
    var waiting := set k | k in t && t[k].sourceId.None? && t[k].rawUrl == Some(url);
    var some :| some in t && Unfenced(t[some]) && t[some].rawUrl == Some(url);
    assert some in waiting;
    id := Minimum(t, waiting);
    forall other | Chosen(t, other) && t[other].rawUrl == Some(url)
      ensures other == id
    {
      EarlierIsTotal(t, id, other);
    }
  }

  // ---------------------------------------------------------------- what the repair does

  ghost predicate FencesUnique(t: Table) {
    forall a, b :: a in t && b in t && a != b && t[a].sourceId.Some? ==> t[a].sourceId != t[b].sourceId
  }

  lemma ChosenApart(t: Table, a: string, b: string)
    requires Chosen(t, a) && Chosen(t, b) && t[a].rawUrl == t[b].rawUrl
    ensures a == b
  {
    hide Less;
    EarlierIsTotal(t, a, b);
  }

  lemma UnfencedMeans(t: Table)
    ensures forall id :: Chosen(t, id) ==>
              t[id].sourceId.None? && t[id].rawUrl.Some? && t[id].rawUrl.value in Orphans(t)
  {}

  /** The partial unique index on `source_id` is never violated. */
  lemma RepairKeepsFencesUnique(t: Table)
    requires FencesUnique(t)
    ensures FencesUnique(Repaired(t))
  {
    hide First, Unfenced;
    var r := Repaired(t);
    forall a, b | a in r && b in r && a != b && r[a].sourceId.Some?
      ensures r[a].sourceId != r[b].sourceId
    {
      UnfencedMeans(t);
      if Chosen(t, a) && Chosen(t, b) && t[a].rawUrl == t[b].rawUrl {
        ChosenApart(t, a, b);
      }
    }
  }

  /** Each waiting URL ends with exactly one claimant, its first row; no other row changes, and no row
      changes in anything but its fence. */
  lemma RepairMeans(t: Table)
    ensures Repaired(t).Keys == t.Keys
    ensures forall id :: id in t && !Chosen(t, id) ==> Repaired(t)[id] == t[id]
    ensures forall id :: Chosen(t, id) ==> Repaired(t)[id] == t[id].(sourceId := t[id].rawUrl)
    ensures forall url :: url in Orphans(t) ==>
              exists id :: id in t && Repaired(t)[id].sourceId == Some(url) && Chosen(t, id) && First(t, id)
                           && forall other :: other in t && Repaired(t)[other].sourceId == Some(url) ==> other == id
  {
    var r := Repaired(t);
    forall url | url in Orphans(t)
      ensures exists id :: id in t && r[id].sourceId == Some(url) && Chosen(t, id) && First(t, id)
                           && forall other :: other in t && r[other].sourceId == Some(url) ==> other == id
    {
      var id := OneFirst(t, url);
    }
  }

  /** The row waits for the S3 URL that no row has claimed, and of those that wait for it stands first by
      creation and then by id. */
  ghost predicate Adopts(t: Table, id: string, url: string) {
    && id in t && t[id].sourceId == None && t[id].rawUrl == Some(url)
    && (exists scheme, rest :: url == scheme + rest && Lower(scheme) == "s3://")
    && (forall other :: other in t ==> t[other].sourceId != Some(url))
    && forall other :: other in t && other != id && t[other].sourceId == None && t[other].rawUrl == Some(url) ==>
         || Less(t[id].createdAt, t[other].createdAt)
         || (t[id].createdAt == t[other].createdAt && Less(id, other))
  }

  lemma S3Means(url: string)
    ensures IsS3(url) <==> exists scheme, rest :: url == scheme + rest && Lower(scheme) == "s3://"
  {
    if IsS3(url) {
      assert url == url[..5] + url[5..];
    }
    if scheme, rest :| url == scheme + rest && Lower(scheme) == "s3://" {
      assert |Lower(scheme)| == |scheme| && url[..5] == scheme;
    }
  }

  /** After the repair exactly the adopting rows carry their URL as fence; every other column of every row,
      and the fences of the others, are as they were. */
  lemma RepairColumns(t: Table, id: string)
    requires id in t
    ensures var now := Repaired(t)[id];
            && now.createdAt == t[id].createdAt && now.rawUrl == t[id].rawUrl
            && (t[id].rawUrl.Some? && Adopts(t, id, t[id].rawUrl.value) ==> now.sourceId == t[id].rawUrl)
            && (!(t[id].rawUrl.Some? && Adopts(t, id, t[id].rawUrl.value)) ==> now.sourceId == t[id].sourceId)
  {
    hide Less, Lower;
    if t[id].rawUrl.Some? {
      S3Means(t[id].rawUrl.value);
    }
  }

  lemma {:induction false} ImageSize(t: Table, ids: set<string>, urls: set<string>)
    requires forall id :: id in ids ==> id in t && t[id].rawUrl.Some?
    requires forall a, b :: a in ids && b in ids && t[a].rawUrl == t[b].rawUrl ==> a == b
    requires urls == set id | id in ids :: t[id].rawUrl.value
    ensures |ids| == |urls|
    decreases |ids|
  {
    if ids == {} {
      assert urls == {};
    } else {
      var x :| x in ids;
      var rest, less := ids - {x}, urls - {t[x].rawUrl.value};
      assert less == set id | id in rest :: t[id].rawUrl.value;
      ImageSize(t, rest, less);
    }
  }

  /** The number of rows that changed is the number of URLs that were waiting. */
  lemma ChangesAreOrphans(t: Table)
    ensures |ChosenIds(t)| == |Orphans(t)|
  {
    var ids := ChosenIds(t);
    UnfencedMeans(t);
    forall a, b | a in ids && b in ids && t[a].rawUrl == t[b].rawUrl
      ensures a == b
    {
      ChosenApart(t, a, b);
    }
    var urls := set id | id in ids :: t[id].rawUrl.value;
    forall url | url in Orphans(t)
      ensures url in urls
    {
      var id := OneFirst(t, url);
    }
    assert urls == Orphans(t);
    ImageSize(t, ids, urls);
  }

  lemma TakenPartway(t: Table, done: set<string>, url: string)
    requires done <= ChosenIds(t) && forall k :: k in done ==> t[k].rawUrl != Some(url)
    ensures Taken(Fence(t, done), url) <==> Taken(t, url)
  {
    hide First;
    var now := Fence(t, done);
    if Taken(t, url) {
      var k :| k in t && t[k].sourceId == Some(url);
      assert k !in done;
      assert now[k].sourceId == Some(url);
    }
  }

  lemma FirstPartway(t: Table, now: Table, id: string)
    requires t.Keys == now.Keys && id in t
    requires forall k :: k in t ==> now[k].createdAt == t[k].createdAt && now[k].rawUrl == t[k].rawUrl
    requires forall k :: k in t && t[k].rawUrl == t[id].rawUrl ==> now[k] == t[k]
    ensures First(now, id) <==> First(t, id)
  {
    hide Less;
    forall k | k in t && k != id
      ensures Earlier(now, id, k) <==> Earlier(t, id, k)
    {}
  }

  /** What is fenced partway, when some of the chosen rows have been rewritten already: a row is chosen
      now exactly when it was chosen at the start and has not been rewritten. */
  lemma ChosenPartway(t: Table, done: set<string>, id: string)
    requires done <= ChosenIds(t)
    ensures Chosen(Fence(t, done), id) <==> Chosen(t, id) && id !in done
  {
    hide Less, IsS3;
    var now := Fence(t, done);
    if id in t && id !in done && Unfenced(t[id]) {
      var url := t[id].rawUrl.value;
      if other :| other in done && t[other].rawUrl == Some(url) {
        assert Chosen(t, other) && now[other].sourceId == Some(url);
        if Chosen(t, id) {
          ChosenApart(t, id, other);
        }
      } else {
        assert forall k :: k in t && t[k].rawUrl == Some(url) ==> now[k] == t[k];
        TakenPartway(t, done, url);
        FirstPartway(t, now, id);
      }
    }
  }

  /** Running the repair again finds nothing to do. */
  lemma RepairIdempotent(t: Table)
    ensures Orphans(Repaired(t)) == {} && Repaired(Repaired(t)) == Repaired(t)
  {
    var r := Repaired(t);
    forall id | id in r
      ensures !Chosen(r, id)
    {
      ChosenPartway(t, ChosenIds(t), id);
    }
    assert ChosenIds(r) == {};
    ChangesAreOrphans(r);
  }

  // ---------------------------------------------------------------- row by row

  /** The UPDATE judged row by row against the table as it stands, in the order the rows are visited. */
  function Sweep(t: Table, order: seq<string>): (r: Table)
    decreases |order|
  {
    if order == [] then t
    else Sweep(if Chosen(t, order[0]) then Fence(t, {order[0]}) else t, order[1..])
  }

  lemma ChosenIsStored(t: Table, id: string)
    ensures Chosen(t, id) ==> id in t
  {}

  lemma {:induction false} SweepFrom(t: Table, done: set<string>, order: seq<string>)
    requires done <= ChosenIds(t)
    ensures Sweep(Fence(t, done), order) == Fence(t, done + set id | id in order && Chosen(t, id))
    decreases |order|
  {
    hide Chosen;
    if order == [] {
      assert done + (set id | id in order && Chosen(t, id)) == done;
    } else {
      var id := order[0];
      var now := Fence(t, done);
      ChosenPartway(t, done, id);
      var more := if Chosen(t, id) then done + {id} else done;
      assert Chosen(t, id) ==> id in ChosenIds(t) by { ChosenIsStored(t, id); }
      assert (if Chosen(now, id) then Fence(now, {id}) else now) == Fence(t, more);
      SweepFrom(t, more, order[1..]);
      assert order == [id] + order[1..];
      assert more + (set k | k in order[1..] && Chosen(t, k)) == done + set k | k in order && Chosen(t, k);
    }
  }

  /** Whatever the order, as long as every row is visited, row by row gives the same table as all at
      once. */
  lemma SweepIsRepaired(t: Table, order: seq<string>)
    requires forall id :: id in t ==> id in order
    ensures Sweep(t, order) == Repaired(t)
  {
    assert Fence(t, {}) == t;
    SweepFrom(t, {}, order);
    assert {} + (set id | id in order && Chosen(t, id)) == ChosenIds(t);
  }

  class InboundMail {
    var rows: Table

    constructor (stored: Table)
      ensures rows == stored
    {
      rows := stored;
    }

    /** The repair, with the look-ahead that spares a repaired table the UPDATE, and the UPDATE
        visiting the rows in an order the caller does not choose. */
    method BackfillSourceIds() returns (changes: nat)
      modifies this
      ensures rows == Repaired(old(rows))
      ensures changes == |Orphans(old(rows))|
    {
      hide First, Taken, IsS3;
      ghost var start := rows;
      ChangesAreOrphans(start);
      if !exists id :: id in rows && Unfenced(rows[id]) {
        assert ChosenIds(rows) == {};
        return 0;
      }
      hide Unfenced;
      var left := rows.Keys;
      ghost var done: set<string> := {};
      changes := 0;
      while left != {}
        invariant left <= start.Keys && done <= ChosenIds(start)
        invariant done == set id | id in ChosenIds(start) && id !in left
        invariant rows == Fence(start, done) && changes == |done|
        decreases |left|
      {
        var id :| id in left;
        ChosenPartway(start, done, id);
        if Chosen(rows, id) {
          rows := rows[id := rows[id].(sourceId := rows[id].rawUrl)];
          changes := changes + 1;
          done := done + {id};
        }
        left := left - {id};
      }
      assert done == ChosenIds(start);
    }
  }
}
