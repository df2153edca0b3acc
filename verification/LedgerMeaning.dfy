/** What the sent ledger's listing and search show (src/db/emails.ts), said of the columns of the rows and of
    the fields of the emails. */
module LedgerMeaning {
  import opened Wrappers
  import opened Text
  import opened EmailAddress
  import opened Sorting
  import opened SentLedger

  // ---------------------------------------------------------------- one row

  ghost predicate Outbound(row: Row) {
    Lower(Trim(row.direction)) == "outbound"
  }

  /** The send time: when the ledger received the row, or else when the row was created. */
  ghost predicate SentAt(row: Row, t: string) {
    if row.receivedAt.Some? then row.receivedAt.value == t else row.createdAt == Some(t)
  }

  /** The row has no send time that says anything. */
  ghost predicate Undated(row: Row) {
    forall t :: SentAt(row, t) ==> t == ""
  }

  /** Status and sender are as asked for; a blank sender asks for nothing. */
  ghost predicate Wanted(row: Row, filter: Filter) {
    && (filter.statuses.Some? ==>
      exists i :: 0 <= i < |filter.statuses.value| && filter.statuses.value[i] == row.status)
    && (filter.from.Some? && CanonicalOf(filter.from.value) != "" ==>
          CanonicalOf(row.from) == CanonicalOf(filter.from.value))
  }

  /** Sent neither before `since` nor after `until`; an empty bound bounds nothing. */
  ghost predicate Within(row: Row, since: Option<string>, until: Option<string>) {
    forall t :: SentAt(row, t) ==>
      && (since.Some? && since.value != "" ==> t == since.value || Less(since.value, t))
      && (until.Some? && until.value != "" ==> t == until.value || Less(t, until.value))
  }

  ghost predicate AsksDates(filter: Filter) {
    filter.since.Some? || filter.until.Some?
  }

  ghost predicate Listed(row: Row, filter: Filter) {
    && Outbound(row) && Wanted(row, filter)
    && (AsksDates(filter) ==> !Undated(row) && Within(row, filter.since, filter.until))
  }

  lemma SentAtMeans(row: Row)
    ensures RawSentAt(row).None? <==> Undated(row)
    ensures RawSentAt(row).Some? ==> SentAt(row, RawSentAt(row).value) && RawSentAt(row).value != ""
    ensures forall t :: SentAt(row, t) && t != "" ==> RawSentAt(row) == Some(t)
    ensures forall t :: SentAt(row, t) ==> SortKey(row) == t
  {
    assert row.receivedAt.Some? ==> SentAt(row, row.receivedAt.value);
    assert row.receivedAt.None? && row.createdAt.Some? ==> SentAt(row, row.createdAt.value);
  }

  lemma WithinMeans(row: Row, since: Option<string>, until: Option<string>)
    requires RawSentAt(row).Some?
    ensures var t := RawSentAt(row).value;
            Within(row, since, until) <==>
              !(Given(since) && Less(t, since.value)) && !(Given(until) && Less(until.value, t))
  {
    hide Less, RawSentAt;
    SentAtMeans(row);
    var t := RawSentAt(row).value;
    assert forall u :: SentAt(row, u) <==> u == t;
    if Given(since) {
      LessTotal(t, since.value);
    }
    if Given(until) {
      LessTotal(t, until.value);
    }
  }

  lemma WantedMeans(row: Row, filter: Filter)
    ensures Wanted(row, filter) <==>
              && !(filter.statuses.Some? && row.status !in filter.statuses.value)
              && !(NormalizedSender(filter.from).Some? && CanonicalOf(row.from) != NormalizedSender(filter.from).value)
  {
    hide CanonicalOf;
  }

  /** What the filter keeps, and which rows it cannot judge. */
  lemma JudgeMeans(row: Row, filter: Filter)
    requires Outbound(row)
    ensures Judge(row, filter) == Keep <==> Listed(row, filter)
    ensures Judge(row, filter) == CannotDate <==> Wanted(row, filter) && AsksDates(filter) && Undated(row)
  {
    hide Wanted, Within, Undated, RawSentAt, NormalizedSender, CanonicalOf, Less, Given;
    WantedMeans(row, filter);
    SentAtMeans(row);
    if RawSentAt(row).Some? {
      WithinMeans(row, filter.since, filter.until);
    }
  }

  /** The text stands, in whatever case, in the subject, the sender or a recipient. */
  ghost predicate Matches(row: Row, query: string) {
    || (row.subject.Some? && Includes(Lower(row.subject.value), Lower(query)))
    || (row.subject.None? && query == "")
    || Includes(Lower(row.from), Lower(query))
    || exists r :: r in row.recipients && Includes(Lower(r), Lower(query))
  }

  ghost predicate Found(row: Row, query: string, since: Option<string>) {
    && Outbound(row) && Matches(row, query)
    && (since.Some? ==> !Undated(row) && Within(row, since, None))
  }

  lemma EmptyIncludes(needle: string)
    ensures Includes("", needle) <==> needle == ""
  {
    if needle == "" {
      assert OccursAt("", "", 0);
    }
  }

  lemma MentionsMeans(row: Row, query: string)
    ensures Mentions(row, Lower(query)) <==> Matches(row, query)
  {
    hide Lower;
    EmptyIncludes(Lower(query));
    assert |Lower(query)| == |query|;
    assert Lower("") == "";
    if r :| r in row.recipients && Includes(Lower(r), Lower(query)) {
      var i :| 0 <= i < |row.recipients| && row.recipients[i] == r;
    }
  }

  lemma NothingBeforeEmpty(t: string)
    ensures !Less(t, "")
  {}

  lemma JudgeSearchMeans(row: Row, query: string, since: Option<string>)
    requires Outbound(row)
    ensures JudgeSearch(row, query, since) == Keep <==> Found(row, query, since)
    ensures JudgeSearch(row, query, since) == CannotDate <==> since.Some? && Undated(row)
  {
    hide Matches, Mentions, Within, Undated, RawSentAt, Less;
    MentionsMeans(row, query);
    SentAtMeans(row);
    if RawSentAt(row).Some? {
      WithinMeans(row, since, None);
      NothingBeforeEmpty(RawSentAt(row).value);
    }
  }

  // ---------------------------------------------------------------- one email

  /** The email shows the row: its sender, recipients, status and stamps, the subject or an empty one. */
  ghost predicate Shows(row: Row, e: Email) {
    && e.id == row.id && e.from == row.from && e.recipients == row.recipients && e.status == row.status
    && (row.subject.Some? ==> e.subject == row.subject.value) && (row.subject.None? ==> e.subject == "")
    && SentAt(row, e.sentAt) && row.createdAt == Some(e.createdAt) && row.updatedAt == Some(e.updatedAt)
    && e.attachmentCount == row.attachmentCount
  }

  /** A row can be shown when it says when it was created and updated, and its status is a known one. */
  ghost predicate Showable(row: Row) {
    && row.createdAt.Some? && row.createdAt.value != "" && row.updatedAt.Some? && row.updatedAt.value != ""
    && row.status in ["sent", "delivered", "bounced", "complained", "failed", "queued", "blocked", "uncertain"]
  }

  lemma PresentMeans(row: Row)
    ensures Present(row).Ok? <==> Showable(row)
    ensures Present(row).Ok? ==> Shows(row, Present(row).value)
  {}

  lemma {:induction false} AllShown(rows: seq<Row>)
    ensures PresentAll(rows).Ok? <==> forall k :: 0 <= k < |rows| ==> Showable(rows[k])
    ensures PresentAll(rows).Ok? ==> |PresentAll(rows).value| == |rows|
    ensures PresentAll(rows).Ok? ==> forall k :: 0 <= k < |rows| ==> Shows(rows[k], PresentAll(rows).value[k])
  {
    hide Present, Showable, Shows;
    if rows == [] {
    } else {
      PresentMeans(rows[0]);
      AllShown(rows[1..]);
      assert forall k :: 0 < k < |rows| ==> rows[k] == rows[1..][k - 1];
    }
  }

  /** Newest first by the send time, the larger id first among equal times. */
  ghost predicate LatestFirst(emails: seq<Email>) {
    forall i, j :: 0 <= i < j < |emails| ==>
      || Less(emails[j].sentAt, emails[i].sentAt)
      || (emails[j].sentAt == emails[i].sentAt && Less(emails[j].id, emails[i].id))
  }

  /** The emails are those of the rows that `keep` holds of, and every one of them. */
  ghost predicate ShowsAll(rows: seq<Row>, emails: seq<Email>, keep: Row -> bool) {
    && (forall e :: e in emails ==> exists row :: row in rows && keep(row) && Shows(row, e))
    && (forall row :: row in rows && keep(row) ==> exists e :: e in emails && Shows(row, e))
  }

  lemma ShownInOrder(listed: seq<Row>, emails: seq<Email>)
    requires Sorted(listed, NewestFirst) && DistinctIds(listed) && |emails| == |listed|
    requires forall k :: 0 <= k < |listed| ==> Shows(listed[k], emails[k])
    ensures LatestFirst(emails)
  {
    hide Less;
    forall i, j | 0 <= i < j < |emails|
      ensures || Less(emails[j].sentAt, emails[i].sentAt)
              || (emails[j].sentAt == emails[i].sentAt && Less(emails[j].id, emails[i].id))
    {
      SentAtMeans(listed[i]);
      SentAtMeans(listed[j]);
      assert NewestFirst(listed[i], listed[j]);
      assert listed[i].id != listed[j].id;
      LessTotal(emails[i].id, emails[j].id);
    }
  }

  lemma ShownEach(rows: seq<Row>, listed: seq<Row>, emails: seq<Email>, keep: Row -> bool)
    requires |emails| == |listed| && forall k :: 0 <= k < |listed| ==> Shows(listed[k], emails[k])
    requires forall row :: row in listed <==> row in rows && keep(row)
    ensures ShowsAll(rows, emails, keep)
  {
    hide Shows;
    forall e | e in emails
      ensures exists row :: row in rows && keep(row) && Shows(row, e)
    {
      var k :| 0 <= k < |emails| && emails[k] == e;
      assert listed[k] in listed;
    }
    forall row | row in rows && keep(row)
      ensures exists e :: e in emails && Shows(row, e)
    {
      var k :| 0 <= k < |listed| && listed[k] == row;
      assert emails[k] in emails;
    }
  }

  /** A whole listing under a judge that keeps what `keep` says. */
  lemma AnswerMeans(rows: seq<Row>, judge: Row -> Verdict, keep: Row -> bool)
    requires DistinctIds(rows)
    requires forall row :: row in rows ==> (IsOutbound(row.direction) && judge(row) == Keep <==> keep(row))
    ensures var r := Answer(Listing(rows, judge, None, None));
            && (r.Err? <==>
                  || (exists row :: row in rows && IsOutbound(row.direction) && judge(row) == CannotDate)
                  || (exists row :: row in rows && keep(row) && !Showable(row)))
            && (r.Ok? ==> LatestFirst(r.value) && ShowsAll(rows, r.value, keep))
  {
    hide IsOutbound, Showable, Shows, Sort, Select, PresentAll, DistinctIds, ShowsAll, LatestFirst, NewestFirst;
    SelectMeans(rows, judge);
    if Listing(rows, judge, None, None).Ok? {
      var listed := Listing(rows, judge, None, None).value;
      ListingMeans(rows, judge);
      AllShown(listed);
      forall row
        ensures row in listed <==> row in rows && keep(row)
      {}
      if PresentAll(listed).Ok? {
        ShownInOrder(listed, PresentAll(listed).value);
        ShownEach(rows, listed, PresentAll(listed).value, keep);
      } else {
        var k :| 0 <= k < |listed| && !Showable(listed[k]);
        assert listed[k] in listed;
      }
    }
  }

  /** `listEmails` without a window: all the emails asked for and no others, newest first; it faults exactly
      where a wanted row cannot be dated for a date bound, or a listed one cannot be shown. */
  lemma ListEmailsMeans(rows: seq<Row>, filter: Filter)
    requires DistinctIds(rows) && filter.limit.None? && (filter.provider.None? || Trim(filter.provider.value) == "")
    ensures var r := ListEmails(rows, filter.(offset := None));
            && (r.Err? <==>
                  || (exists row ::
                    row in rows && Outbound(row) && Wanted(row, filter) && AsksDates(filter) && Undated(row))
                  || (exists row :: row in rows && Listed(row, filter) && !Showable(row)))
            && (r.Ok? ==> LatestFirst(r.value) && ShowsAll(rows, r.value, (row: Row) => Listed(row, filter)))
  {
    hide Judge, Wanted, Undated, Within, Showable, LatestFirst, ShowsAll, Answer, Listing, DistinctIds;
    var f := filter.(offset := None);
    ListIsAnswer(rows, filter, None, None);
    forall row: Row | Outbound(row)
      ensures JudgedBy(filter)(row) == Keep <==> Listed(row, filter)
      ensures JudgedBy(filter)(row) == CannotDate <==> Wanted(row, filter) && AsksDates(filter) && Undated(row)
    {
      JudgeMeans(row, filter);
    }
    AnswerMeans(rows, JudgedBy(filter), (row: Row) => Listed(row, filter));
    assert filter.(limit := None, offset := None) == f;
  }

  /** `searchEmails` without a window, the same. */
  lemma SearchEmailsMeans(rows: seq<Row>, query: string, since: Option<string>)
    requires DistinctIds(rows)
    ensures var r := SearchEmails(rows, query, since, None, None);
            && (r.Err? <==>
                  || (exists row :: row in rows && Outbound(row) && since.Some? && Undated(row))
                  || (exists row :: row in rows && Found(row, query, since) && !Showable(row)))
            && (r.Ok? ==> LatestFirst(r.value) && ShowsAll(rows, r.value, (row: Row) => Found(row, query, since)))
  {
    hide JudgeSearch, Matches, Undated, Within, Showable, LatestFirst, ShowsAll, Answer, Listing, DistinctIds;
    SearchIsAnswer(rows, query, since, None, None);
    forall row: Row | Outbound(row)
      ensures SoughtBy(query, since)(row) == Keep <==> Found(row, query, since)
      ensures SoughtBy(query, since)(row) == CannotDate <==> since.Some? && Undated(row)
    {
      JudgeSearchMeans(row, query, since);
    }
    AnswerMeans(rows, SoughtBy(query, since), (row: Row) => Found(row, query, since));
  }

  /** A part of what is presented in full is presented as that part. */
  lemma PresentPart(rows: seq<Row>, i: nat, j: nat)
    requires i <= j <= |rows| && PresentAll(rows).Ok?
    ensures |PresentAll(rows).value| == |rows| && PresentAll(rows[i..j]) == Ok(PresentAll(rows).value[i..j])
  {
    hide PresentAll, Showable, Shows;
    AllShown(rows);
    AllShown(rows[..i]);
    AllShown(rows[i..j]);
    assert rows == rows[..j] + rows[j..] && rows[..j] == rows[..i] + rows[i..j];
    PresentAppended(rows[..j], rows[j..]);
    PresentAppended(rows[..i], rows[i..j]);
  }

  /** `shown` is what `all` holds from place `offset` on, `size` of them or as many as are left. */
  ghost predicate IsWindow(all: seq<Email>, shown: seq<Email>, size: nat, offset: nat) {
    && |shown| == (if |all| <= offset then 0 else if |all| - offset < size then |all| - offset else size)
    && forall k :: 0 <= k < |shown| ==> shown[k] == all[offset + k]
  }

  lemma WindowShown(rows: seq<Row>, judge: Row -> Verdict, size: nat, offset: nat)
    requires size >= 1 && Answer(Listing(rows, judge, None, None)).Ok?
    ensures var shown := Answer(Listing(rows, judge, Some(Finite(size as real)), Some(Finite(offset as real))));
            shown.Ok? && IsWindow(Answer(Listing(rows, judge, None, None)).value, shown.value, size, offset)
  {
    hide Listing, PresentAll;
    CallWindow(rows, judge, size, offset);
    var listed := Listing(rows, judge, None, None).value;
    PresentPart(listed, Min(offset, |listed|), Min(offset + size, |listed|));
  }

  /** A call with a limit and an offset answers that window of what the call without them answers. */
  lemma ListWindow(rows: seq<Row>, filter: Filter, size: nat, offset: nat)
    requires size >= 1 && ListEmails(rows, filter.(limit := None, offset := None)).Ok?
    ensures var shown := ListEmails(rows, filter.(limit := Some(Finite(size as real)),
                                                  offset := Some(Finite(offset as real))));
            && shown.Ok?
            && IsWindow(ListEmails(rows, filter.(limit := None, offset := None)).value, shown.value, size, offset)
  {
    hide Listing, Answer, Judge, IsWindow, Trim;
    ListIsAnswer(rows, filter, None, None);
    ListIsAnswer(rows, filter, Some(Finite(size as real)), Some(Finite(offset as real)));
    WindowShown(rows, JudgedBy(filter), size, offset);
  }

  lemma SearchWindow(rows: seq<Row>, query: string, since: Option<string>, size: nat, offset: nat)
    requires size >= 1 && SearchEmails(rows, query, since, None, None).Ok?
    ensures var shown := SearchEmails(rows, query, since, Some(Finite(size as real)), Some(Finite(offset as real)));
            shown.Ok? && IsWindow(SearchEmails(rows, query, since, None, None).value, shown.value, size, offset)
  {
    hide Listing, Answer, JudgeSearch, IsWindow;
    SearchIsAnswer(rows, query, since, None, None);
    SearchIsAnswer(rows, query, since, Some(Finite(size as real)), Some(Finite(offset as real)));
    WindowShown(rows, SoughtBy(query, since), size, offset);
  }

  /** A limit is cut to a whole number and is one at least; one that is no number is 50; an offset is cut too
      and is never negative. */
  lemma WindowMeans(x: real)
    ensures OptionalLimit(Some(NotFinite)) == Some(50) && OptionalLimit(None) == None
    ensures OptionalLimit(Some(Finite(x))) == Some(if x < 2.0 then 1 else x.Floor)
    ensures Offset(Some(Finite(x))) == (if x < 1.0 then 0 else x.Floor)
    ensures Offset(Some(NotFinite)) == 0 && Offset(None) == 0
  {}

  // ---------------------------------------------------------------- resolving an id

  /** The ids of the outbound messages that begin with `prefix`. */
  ghost function Hits(rows: seq<Row>, prefix: string): set<string> {
    set row | row in rows && Outbound(row) && StartsWith(row.id, prefix) :: row.id
  }

  lemma {:induction false} CountDistinct(s: seq<string>)
    requires DistinctBy(s, (x: string) => x)
    ensures |set x | x in s| == |s|
  {
    if s == [] {
    } else {
      CountDistinct(s[1..]);
      assert (set x | x in s) == {s[0]} + set x | x in s[1..];
      assert s[0] !in s[1..];
    }
  }

  lemma MatchedIds(rows: seq<Row>, prefix: string)
    requires DistinctIds(rows)
    ensures var ids := Sort(Ids(PrefixMatches(rows, prefix)), TextLe);
            && DistinctBy(ids, (x: string) => x) && Sorted(ids, TextLe)
            && (forall x :: x in ids <==> x in Hits(rows, prefix)) && |ids| == |Hits(rows, prefix)|
  {
    var found := Ids(PrefixMatches(rows, prefix));
    var ids := Sort(found, TextLe);
    PrefixMatchesDistinct(rows, prefix);
    assert DistinctBy(found, (x: string) => x);
    RearrangedDistinct(found, ids, (x: string) => x);
    TextLeIsTotal();
    SortSorted(found, TextLe);
    hide PrefixMatches, Ids, StartsWith, Sort;
    forall x
      ensures x in ids <==> x in Hits(rows, prefix)
    {
      SameMembers(found, ids, x);
      HitsAreMatches(rows, prefix, x);
    }
    CountDistinct(ids);
    assert (set x | x in ids) == Hits(rows, prefix);
  }

  /** The first of the hits in their order: five of them, or all where there are fewer. */
  ghost predicate Previews(hits: set<string>, preview: seq<string>) {
    && |preview| == (if |hits| < 5 then |hits| else 5)
    && (forall i, j :: 0 <= i < j < |preview| ==> Less(preview[i], preview[j]))
    && (forall x :: x in preview ==> x in hits)
    && forall x, y :: x in preview && y in hits && y !in preview ==> Less(x, y)
  }

  lemma FirstFive(ids: seq<string>, hits: set<string>)
    requires DistinctBy(ids, (x: string) => x) && Sorted(ids, TextLe)
    requires (forall x :: x in ids <==> x in hits) && |ids| == |hits|
    ensures Previews(hits, ids[..Min(5, |ids|)])
  {
    hide Less;
    var n := Min(5, |ids|);
    forall i, j | 0 <= i < j < |ids|
      ensures Less(ids[i], ids[j])
    {
      LessTotal(ids[i], ids[j]);
    }
    forall x, y | x in ids[..n] && y in hits && y !in ids[..n]
      ensures Less(x, y)
    {
      var i :| 0 <= i < n && ids[i] == x;
      var j :| 0 <= j < |ids| && ids[j] == y;
      assert forall k :: 0 <= k < n ==> ids[..n][k] == ids[k] && ids[k] in ids[..n];
    }
  }

  /** What an ambiguous prefix reports: how many messages it could mean, and the first five of their ids. */
  lemma AmbiguousMeans(id: string, rows: seq<Row>, found: Option<Row>)
    requires DistinctIds(rows) && ResolveEmailId(id, rows, found).Err?
    ensures var e, hits := ResolveEmailId(id, rows, found).error, Hits(rows, Trim(id));
            e.Ambiguous? && e.count == |hits| && Previews(hits, e.preview)
  {
    hide Trim, Sort, Previews, Less;
    MatchedIds(rows, Trim(id));
    FirstFive(Sort(Ids(PrefixMatches(rows, Trim(id))), TextLe), Hits(rows, Trim(id)));
  }

  /** A blank id names nothing; a full one names the message that the store holds under it, if it was sent. */
  lemma FullIdMeans(id: string, rows: seq<Row>, found: Option<Row>)
    requires Trim(id) == "" || |Trim(id)| >= 36
    ensures ResolveEmailId(id, rows, found).Ok?
    ensures forall x :: ResolveEmailId(id, rows, found).value == Some(x) <==>
                        Trim(id) != "" && exists row :: found == Some(row) && Outbound(row) && row.id == x
  {}
}
