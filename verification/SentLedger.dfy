/** The sent ledger's reads (src/db/emails.ts): filter the enumerated stream, order it, take the
    caller's window, and only then map the rows the caller will see. */
module SentLedger {
  import opened Wrappers
  import opened Text
  import opened EmailAddress
  import opened Sorting

  /** A message as the store's list projection carries it. */
  datatype Row = Row(
    id: string,
    direction: string,
    from: string,
    recipients: seq<string>,
    subject: Option<string>,
    status: string,
    receivedAt: Option<string>,
    createdAt: Option<string>,
    updatedAt: Option<string>,
    attachmentCount: nat
  )

  datatype Email = Email(
    id: string,
    from: string,
    recipients: seq<string>,
    subject: string,
    status: string,
    sentAt: string,
    createdAt: string,
    updatedAt: string,
    attachmentCount: nat
  )

  datatype Fault =
    | ProviderFilterUnavailable
    | Undated(id: string)
    | MissingTimestamp(id: string)
    | UnreadableStatus(id: string)
    | Ambiguous(count: nat, preview: seq<string>)

  /** A JavaScript number as the pagination helpers tell them apart. */
  datatype Number = Finite(value: real) | NotFinite

  datatype Filter = Filter(
    provider: Option<string>,
    statuses: Option<seq<string>>,
    from: Option<string>,
    since: Option<string>,
    until: Option<string>,
    limit: Option<Number>,
    offset: Option<Number>
  )

  const FULL_ID_LENGTH := 36
  const DEFAULT_LIMIT := 50
  const PREVIEW := 5
  const READABLE_STATUSES := ["sent", "delivered", "bounced", "complained", "failed", "queued", "blocked", "uncertain"]

  // ---------------------------------------------------------------- pagination arguments

  function OptionalLimit(v: Option<Number>): (r: Option<nat>)
    ensures r.Some? ==> r.value >= 1
  {
    match v
    case None => None
    case Some(NotFinite) => Some(DEFAULT_LIMIT)
    case Some(Finite(x)) => Some(if Truncated(x) < 1 then 1 else Truncated(x))
  }

  function Offset(v: Option<Number>): nat {
    match v
    case Some(Finite(x)) => if Truncated(x) < 0 then 0 else Truncated(x)
    case _ => 0
  }

  // ---------------------------------------------------------------- one row

  predicate IsOutbound(direction: string) {
    Lower(Trim(direction)) == "outbound"
  }

  /** The ledger's send time, or the row's creation time; an empty text is no time. */
  function RawSentAt(row: Row): (r: Option<string>) {
    var value := if row.receivedAt.Some? then row.receivedAt else row.createdAt;
    if value == Some("") then None else value
  }

  function SortKey(row: Row): string {
    match RawSentAt(row) case Some(t) => t case None => ""
  }

  /** Newest first, the larger id first among equal times: `a` may stand before `b`. */
  predicate NewestFirst(a: Row, b: Row) {
    Less(SortKey(b), SortKey(a)) || (SortKey(a) == SortKey(b) && !Less(a.id, b.id))
  }

  lemma NewestFirstIsTotal()
    ensures TotalPreorder(NewestFirst)
  {
    forall a, b
      ensures NewestFirst(a, b) || NewestFirst(b, a)
    {
      LessTotal(SortKey(a), SortKey(b));
      LessTotal(a.id, b.id);
    }
    forall a, b, c | NewestFirst(a, b) && NewestFirst(b, c)
      ensures NewestFirst(a, c)
    {
      if Less(SortKey(b), SortKey(a)) && Less(SortKey(c), SortKey(b)) {
        LessTransitive(SortKey(c), SortKey(b), SortKey(a));
      } else if SortKey(a) == SortKey(b) == SortKey(c) {
        LessTotal(b.id, c.id);
        LessTotal(a.id, b.id);
        if Less(a.id, c.id) && b.id != c.id {
          LessTransitive(a.id, c.id, b.id);
        }
      }
    }
  }

  // ---------------------------------------------------------------- judging raw rows

  datatype Verdict = Keep | Drop | CannotDate

  function NormalizedSender(value: Option<string>): (r: Option<string>) {
    match value
    case None => None
    case Some(v) => if CanonicalOf(v) == "" then None else Some(CanonicalOf(v))
  }

  predicate Given(text: Option<string>) {
    text.Some? && text.value != ""
  }

  function Judge(row: Row, filter: Filter): Verdict {
    if filter.statuses.Some? && row.status !in filter.statuses.value then Drop
    else if NormalizedSender(filter.from).Some? && CanonicalOf(row.from) != NormalizedSender(filter.from).value then
      Drop
    else if filter.since.None? && filter.until.None? then Keep
    else
      match RawSentAt(row)
      case None => CannotDate
      case Some(dated) =>
        if Given(filter.since) && Less(dated, filter.since.value) then Drop
        else if Given(filter.until) && Less(filter.until.value, dated) then Drop
        else Keep
  }

  predicate Mentions(row: Row, needle: string) {
    || Includes(Lower(match row.subject case Some(s) => s case None => ""), needle)
    || Includes(Lower(row.from), needle)
    || exists i :: 0 <= i < |row.recipients| && Includes(Lower(row.recipients[i]), needle)
  }

  function JudgeSearch(row: Row, query: string, since: Option<string>): Verdict {
    if since.Some? && RawSentAt(row).None? then CannotDate
    else if since.Some? && Less(RawSentAt(row).value, since.value) then Drop
    else if Mentions(row, Lower(query)) then Keep
    else Drop
  }

  /** The outbound rows a predicate keeps, in stream order; the first row it cannot judge faults. */
  function Select(rows: seq<Row>, judge: Row -> Verdict): (r: Result<seq<Row>, Fault>) {
    if rows == [] then Ok([])
    else if !IsOutbound(rows[0].direction) then Select(rows[1..], judge)
    else
      match judge(rows[0])
      case CannotDate => Err(Undated(rows[0].id))
      case Drop => Select(rows[1..], judge)
      case Keep =>
        match Select(rows[1..], judge)
        case Err(e) => Err(e)
        case Ok(rest) => Ok([rows[0]] + rest)
  }

  // ---------------------------------------------------------------- presenting the window

  function Present(row: Row): (r: Result<Email, Fault>) {
    if !Given(row.createdAt) then Err(MissingTimestamp(row.id))
    else if row.status !in READABLE_STATUSES then Err(UnreadableStatus(row.id))
    else if !Given(row.updatedAt) then Err(MissingTimestamp(row.id))
    else
      var sentAt := if row.receivedAt.Some? then row.receivedAt.value else row.createdAt.value;
      var subject := if row.subject.Some? then row.subject.value else "";
      Ok(Email(row.id, row.from, row.recipients, subject, row.status, sentAt,
               row.createdAt.value, row.updatedAt.value, row.attachmentCount))
  }

  function PresentAll(rows: seq<Row>): (r: Result<seq<Email>, Fault>) {
    if rows == [] then Ok([])
    else
      match Present(rows[0])
      case Err(e) => Err(e)
      case Ok(first) =>
        match PresentAll(rows[1..])
        case Err(e) => Err(e)
        case Ok(rest) => Ok([first] + rest)
  }

  /** The rows one call presents: select, order, window. */
  function Listing(rows: seq<Row>, judge: Row -> Verdict, limit: Option<Number>, offset: Option<Number>)
    : (r: Result<seq<Row>, Fault>)
  {
    match Select(rows, judge)
    case Err(e) => Err(e)
    case Ok(kept) => Ok(Windowed(Sort(kept, NewestFirst), OptionalLimit(limit), Offset(offset)))
  }

  function Answer(listing: Result<seq<Row>, Fault>): Result<seq<Email>, Fault> {
    match listing
    case Err(e) => Err(e)
    case Ok(window) => PresentAll(window)
  }

  /** `rows` is what a finished enumeration returned: every stored message once, in some order. */
  function ListEmails(rows: seq<Row>, filter: Filter): (r: Result<seq<Email>, Fault>) {
    if filter.provider.Some? && Trim(filter.provider.value) != "" then Err(ProviderFilterUnavailable)
    else Answer(Listing(rows, row => Judge(row, filter), filter.limit, filter.offset))
  }

  function SearchEmails(rows: seq<Row>, query: string, since: Option<string>, limit: Option<Number>,
                        offset: Option<Number>): (r: Result<seq<Email>, Fault>)
  {
    Answer(Listing(rows, row => JudgeSearch(row, query, since), limit, offset))
  }

  // ---------------------------------------------------------------- order independence

  ghost predicate DistinctIds(rows: seq<Row>) {
    DistinctBy(rows, (r: Row) => r.id)
  }

  /** What `Select` answers, without the order: it faults exactly when an outbound row cannot be
      judged, and otherwise keeps each kept row as often as it was stored. */
  lemma {:induction false} SelectMeans(rows: seq<Row>, judge: Row -> Verdict)
    ensures Select(rows, judge).Err? <==>
            exists row :: row in rows && IsOutbound(row.direction) && judge(row) == CannotDate
    ensures Select(rows, judge).Ok? ==>
              forall row :: multiset(Select(rows, judge).value)[row] ==
                            if IsOutbound(row.direction) && judge(row) == Keep then multiset(rows)[row] else 0
  {
    if rows == [] {
    } else {
      assert rows == [rows[0]] + rows[1..];
      SelectMeans(rows[1..], judge);
    }
  }

  lemma SelectForgetsOrder(a: seq<Row>, b: seq<Row>, judge: Row -> Verdict)
    requires multiset(a) == multiset(b)
    ensures Select(a, judge).Ok? <==> Select(b, judge).Ok?
    ensures Select(a, judge).Ok? ==> multiset(Select(a, judge).value) == multiset(Select(b, judge).value)
  {
    SelectMeans(a, judge);
    SelectMeans(b, judge);
    forall row
      ensures row in a <==> row in b
    {
      SameMembers(a, b, row);
    }
  }

  lemma KeptHaveNoTies(rows: seq<Row>, judge: Row -> Verdict)
    requires DistinctIds(rows) && Select(rows, judge).Ok?
    ensures NoTies(Select(rows, judge).value, NewestFirst)
  {
    var kept := Select(rows, judge).value;
    SelectMeans(rows, judge);
    forall a, b | a in kept && b in kept && NewestFirst(a, b) && NewestFirst(b, a)
      ensures a == b
    {
      assert multiset(kept)[a] > 0 && multiset(kept)[b] > 0;
      assert a in rows && b in rows;
      LessTotal(SortKey(a), SortKey(b));
      LessTotal(a.id, b.id);
    }
  }

  lemma ListingForgetsOrder(a: seq<Row>, b: seq<Row>, judge: Row -> Verdict, limit: Option<Number>,
                            offset: Option<Number>)
    requires multiset(a) == multiset(b) && DistinctIds(a)
    ensures Listing(a, judge, limit, offset).Ok? <==> Listing(b, judge, limit, offset).Ok?
    ensures Listing(a, judge, limit, offset).Ok? ==>
              Listing(a, judge, limit, offset) == Listing(b, judge, limit, offset)
  {
    SelectForgetsOrder(a, b, judge);
    if Select(a, judge).Ok? {
      KeptHaveNoTies(a, judge);
      NewestFirstIsTotal();
      SortForgetsOrder(Select(a, judge).value, Select(b, judge).value, NewestFirst);
    }
  }

  lemma {:induction false} OnlyUndated(rows: seq<Row>, judge: Row -> Verdict)
    ensures Select(rows, judge).Err? ==> Select(rows, judge).error.Undated?
  {
    if rows == [] {
    } else {
      OnlyUndated(rows[1..], judge);
    }
  }

  /** Two stores holding the same messages in different orders list the same ledger; when a row
      cannot be dated, both refuse, though the one named may differ. */
  lemma ListEmailsForgetsOrder(a: seq<Row>, b: seq<Row>, filter: Filter)
    requires multiset(a) == multiset(b) && DistinctIds(a)
    ensures ListEmails(a, filter).Ok? <==> ListEmails(b, filter).Ok?
    ensures ListEmails(a, filter) == ListEmails(b, filter)
            || (ListEmails(a, filter).Err? && ListEmails(a, filter).error.Undated?)
  {
    var judge := row => Judge(row, filter);
    ListingForgetsOrder(a, b, judge, filter.limit, filter.offset);
    OnlyUndated(a, judge);
  }

  lemma SearchEmailsForgetsOrder(a: seq<Row>, b: seq<Row>, query: string, since: Option<string>,
                                 limit: Option<Number>, offset: Option<Number>)
    requires multiset(a) == multiset(b) && DistinctIds(a)
    ensures SearchEmails(a, query, since, limit, offset).Ok? <==> SearchEmails(b, query, since, limit, offset).Ok?
    ensures SearchEmails(a, query, since, limit, offset) == SearchEmails(b, query, since, limit, offset)
            || (SearchEmails(a, query, since, limit, offset).Err?
              && SearchEmails(a, query, since, limit, offset).error.Undated?)
  {
    var judge := row => JudgeSearch(row, query, since);
    ListingForgetsOrder(a, b, judge, limit, offset);
    OnlyUndated(a, judge);
  }

  // ---------------------------------------------------------------- what a listing shows

  lemma {:induction false} SelectDistinct(rows: seq<Row>, judge: Row -> Verdict)
    requires DistinctIds(rows) && Select(rows, judge).Ok?
    ensures DistinctIds(Select(rows, judge).value)
    ensures forall row :: row in Select(rows, judge).value ==> row in rows
  {
    if rows == [] {
    } else {
      assert Select(rows[1..], judge).Ok?;
      SelectDistinct(rows[1..], judge);
      assert rows == [rows[0]] + rows[1..];
      var rest := Select(rows[1..], judge).value;
      forall j | 0 <= j < |rest|
        ensures rest[j].id != rows[0].id
      {
        assert rest[j] in rest && rest[j] in rows[1..];
      }
    }
  }

  /** The rows a call may present are exactly the outbound rows the filter keeps, newest first. */
  lemma ListingMeans(rows: seq<Row>, judge: Row -> Verdict)
    requires DistinctIds(rows) && Listing(rows, judge, None, None).Ok?
    ensures Sorted(Listing(rows, judge, None, None).value, NewestFirst)
    ensures DistinctIds(Listing(rows, judge, None, None).value)
    ensures forall row :: row in Listing(rows, judge, None, None).value <==>
                          row in rows && IsOutbound(row.direction) && judge(row) == Keep
  {
    var kept := Select(rows, judge).value;
    var shown := Sort(kept, NewestFirst);
    SelectMeans(rows, judge);
    NewestFirstIsTotal();
    SortSorted(kept, NewestFirst);
    forall row
      ensures row in shown <==> row in rows && IsOutbound(row.direction) && judge(row) == Keep
    {
      assert row in shown <==> multiset(shown)[row] > 0;
      assert row in rows <==> multiset(rows)[row] > 0;
    }
    SelectDistinct(rows, judge);
    RearrangedDistinct(kept, shown, (row: Row) => row.id);
  }

  // ---------------------------------------------------------------- walking the windows

  /** A call with a whole-number limit and offset presents that window of the listing. */
  lemma CallWindow(rows: seq<Row>, judge: Row -> Verdict, size: nat, offset: nat)
    requires size >= 1
    ensures Listing(rows, judge, Some(Finite(size as real)), Some(Finite(offset as real))) ==
              match Listing(rows, judge, None, None)
              case Err(e) => Err(e)
              case Ok(listed) => Ok(Windowed(listed, Some(size), offset))
  {}

  /** What a caller has after asking for `count` pages one after another, stopping at the first fault. */
  function Walk(page: nat -> Result<seq<Email>, Fault>, count: nat): (r: Result<seq<Email>, Fault>) {
    if count == 0 then Ok([])
    else
      match Walk(page, count - 1)
      case Err(e) => Err(e)
      case Ok(before) =>
        match page(count - 1)
        case Err(e) => Err(e)
        case Ok(emails) => Ok(before + emails)
  }

  lemma {:induction false} PresentAppended(a: seq<Row>, b: seq<Row>)
    ensures PresentAll(a + b) ==
              match PresentAll(a)
              case Err(e) => Err(e)
              case Ok(first) =>
                match PresentAll(b)
                case Err(e) => Err(e)
                case Ok(rest) => Ok(first + rest)
  {
    hide Present;
    if a == [] {
      assert a + b == b;
      assert PresentAll(b).Ok? ==> [] + PresentAll(b).value == PresentAll(b).value;
    } else {
      assert (a + b)[0] == a[0] && (a + b)[1..] == a[1..] + b;
      PresentAppended(a[1..], b);
      if Present(a[0]).Ok? && PresentAll(a[1..]).Ok? && PresentAll(b).Ok? {
        var first, more, rest := [Present(a[0]).value], PresentAll(a[1..]).value, PresentAll(b).value;
        assert first + (more + rest) == (first + more) + rest;
      }
    }
  }

  /** Presenting rows fails exactly at the first that cannot be presented. */
  lemma {:induction false} PresentAllFaults(rows: seq<Row>)
    ensures PresentAll(rows).Err? <==> exists k :: 0 <= k < |rows| && Present(rows[k]).Err?
    ensures forall k :: 0 <= k < |rows| && Present(rows[k]).Err?
                        && (forall j :: 0 <= j < k ==> Present(rows[j]).Ok?) ==>
              PresentAll(rows) == Err(Present(rows[k]).error)
  {
    hide Present;
    if rows == [] {
    } else {
      PresentAllFaults(rows[1..]);
      assert forall k :: 0 < k < |rows| ==> rows[k] == rows[1..][k - 1];
    }
  }

  /** The pages of `Answer`, as a caller that walks the offsets 0, k, 2k, ... asks for them. */
  function PageOf(rows: seq<Row>, judge: Row -> Verdict, size: nat): nat -> Result<seq<Email>, Fault> {
    (i: nat) => Answer(Listing(rows, judge, Some(Finite(size as real)), Some(Finite((i * size) as real))))
  }

  lemma NothingToPresent()
    ensures PresentAll([]) == Ok([])
  {}

  lemma {:induction false} WalkPresents(rows: seq<Row>, judge: Row -> Verdict, size: nat, count: nat)
    requires size >= 1 && Listing(rows, judge, None, None).Ok?
    ensures Walk(PageOf(rows, judge, size), count)
              == PresentAll(Pages(Listing(rows, judge, None, None).value, size, count))
  {
    hide Listing, PresentAll, Windowed;
    if count == 0 {
      assert PresentAll([]) == Ok([]) by { NothingToPresent(); }
    } else {
      var listed := Listing(rows, judge, None, None).value;
      WalkPresents(rows, judge, size, count - 1);
      CallWindow(rows, judge, size, (count - 1) * size);
      PresentAppended(Pages(listed, size, count - 1), Windowed(listed, Some(size), (count - 1) * size));
    }
  }

  /** Enough pages to reach the end of the listing, and one at least. */
  predicate Enough(rows: seq<Row>, judge: Row -> Verdict, size: nat, count: nat) {
    size >= 1 && count >= 1
    && (Listing(rows, judge, None, None).Ok? ==> count * size >= |Listing(rows, judge, None, None).value|)
  }

  lemma {:induction false} AllPagesFault(rows: seq<Row>, judge: Row -> Verdict, size: nat, count: nat, e: Fault)
    requires size >= 1 && count >= 1 && Listing(rows, judge, None, None) == Err(e)
    ensures Walk(PageOf(rows, judge, size), count) == Err(e)
  {
    hide Listing;
    CallWindow(rows, judge, size, (count - 1) * size);
    if count == 1 {
      assert Walk(PageOf(rows, judge, size), 0) == Ok([]);
    } else {
      AllPagesFault(rows, judge, size, count - 1, e);
    }
  }

  lemma WalkIsWhole(rows: seq<Row>, judge: Row -> Verdict, size: nat, count: nat)
    requires Enough(rows, judge, size, count)
    ensures Walk(PageOf(rows, judge, size), count) == Answer(Listing(rows, judge, None, None))
  {
    hide Listing, PresentAll;
    match Listing(rows, judge, None, None)
    case Ok(listed) =>
      WalkPresents(rows, judge, size, count);
      PagesArePrefix(listed, size, count);
      assert listed[..|listed|] == listed;
    case Err(e) =>
      AllPagesFault(rows, judge, size, count, e);
  }

  lemma {:induction false} SameWalk(p: nat -> Result<seq<Email>, Fault>, q: nat -> Result<seq<Email>, Fault>,
                                    count: nat)
    requires forall i: nat :: i < count ==> p(i) == q(i)
    ensures Walk(p, count) == Walk(q, count)
  {
    if count == 0 {
    } else {
      SameWalk(p, q, count - 1);
    }
  }

  function JudgedBy(filter: Filter): Row -> Verdict {
    row => Judge(row, filter)
  }

  function SoughtBy(query: string, since: Option<string>): Row -> Verdict {
    row => JudgeSearch(row, query, since)
  }

  function ListPage(rows: seq<Row>, filter: Filter, size: nat): nat -> Result<seq<Email>, Fault> {
    (i: nat) => ListEmails(rows,
      filter.(limit := Some(Finite(size as real)), offset := Some(Finite((i * size) as real))))
  }

  function SearchPage(rows: seq<Row>, query: string, since: Option<string>,
                      size: nat): nat -> Result<seq<Email>, Fault> {
    (i: nat) => SearchEmails(rows, query, since, Some(Finite(size as real)), Some(Finite((i * size) as real)))
  }

  lemma {:induction false} ProviderFaults(rows: seq<Row>, filter: Filter, size: nat, count: nat)
    requires filter.provider.Some? && Trim(filter.provider.value) != "" && count >= 1
    ensures Walk(ListPage(rows, filter, size), count) == Err(ProviderFilterUnavailable)
  {
    hide Listing, Trim;
    if count == 1 {
      assert Walk(ListPage(rows, filter, size), 0) == Ok([]);
    } else {
      ProviderFaults(rows, filter, size, count - 1);
    }
  }

  lemma JudgeIgnoresWindow(row: Row, filter: Filter, limit: Option<Number>, offset: Option<Number>)
    ensures Judge(row, filter.(limit := limit, offset := offset)) == Judge(row, filter)
  {}

  lemma {:induction false} JudgedAlike(rows: seq<Row>, f: Row -> Verdict, g: Row -> Verdict)
    requires forall row :: f(row) == g(row)
    ensures Select(rows, f) == Select(rows, g)
  {
    if rows == [] {
    } else {
      JudgedAlike(rows[1..], f, g);
    }
  }

  lemma ListIsAnswer(rows: seq<Row>, filter: Filter, limit: Option<Number>, offset: Option<Number>)
    requires filter.provider.None? || Trim(filter.provider.value) == ""
    ensures ListEmails(rows, filter.(limit := limit, offset := offset))
              == Answer(Listing(rows, JudgedBy(filter), limit, offset))
  {
    hide Sort, PresentAll, Judge;
    forall row
      ensures Judge(row, filter.(limit := limit, offset := offset)) == Judge(row, filter)
    {
      JudgeIgnoresWindow(row, filter, limit, offset);
    }
    JudgedAlike(rows, JudgedBy(filter.(limit := limit, offset := offset)), JudgedBy(filter));
  }

  /** Asking `listEmails` for the offsets 0, k, 2k, ... with one limit k, and stopping at the first fault,
      ends with what one call without a limit answers: the same emails, none skipped and none twice, or
      the same fault. */
  lemma ListWalkIsWhole(rows: seq<Row>, filter: Filter, size: nat, count: nat)
    requires Enough(rows, JudgedBy(filter), size, count)
    ensures Walk(ListPage(rows, filter, size), count) == ListEmails(rows, filter.(limit := None, offset := None))
  {
    hide Listing, Judge;
    if filter.provider.Some? && Trim(filter.provider.value) != "" {
      ProviderFaults(rows, filter, size, count);
    } else {
      forall limit, offset
        ensures ListEmails(rows, filter.(limit := limit, offset := offset))
                  == Answer(Listing(rows, JudgedBy(filter), limit, offset))
      {
        ListIsAnswer(rows, filter, limit, offset);
      }
      SameWalk(ListPage(rows, filter, size), PageOf(rows, JudgedBy(filter), size), count);
      WalkIsWhole(rows, JudgedBy(filter), size, count);
    }
  }

  lemma SearchIsAnswer(rows: seq<Row>, query: string, since: Option<string>, limit: Option<Number>,
                       offset: Option<Number>)
    ensures SearchEmails(rows, query, since, limit, offset)
              == Answer(Listing(rows, SoughtBy(query, since), limit, offset))
  {
    hide Sort, PresentAll, JudgeSearch;
  }

  /** The same of `searchEmails`. */
  lemma SearchWalkIsWhole(rows: seq<Row>, query: string, since: Option<string>, size: nat, count: nat)
    requires Enough(rows, SoughtBy(query, since), size, count)
    ensures Walk(SearchPage(rows, query, since, size), count) == SearchEmails(rows, query, since, None, None)
  {
    hide Listing, JudgeSearch;
    forall limit, offset
      ensures SearchEmails(rows, query, since, limit, offset)
                == Answer(Listing(rows, SoughtBy(query, since), limit, offset))
    {
      SearchIsAnswer(rows, query, since, limit, offset);
    }
    SameWalk(SearchPage(rows, query, since, size), PageOf(rows, SoughtBy(query, since), size), count);
    WalkIsWhole(rows, SoughtBy(query, since), size, count);
  }

  /** Some row from `from` up to `to` cannot be presented. */
  predicate Unpresentable(listed: seq<Row>, from: nat, to: nat) {
    exists k :: from <= k < to && k < |listed| && Present(listed[k]).Err?
  }

  /** Presenting a window fails exactly when it holds a row that cannot be presented. */
  lemma WindowFaults(listed: seq<Row>, size: nat, from: nat)
    ensures PresentAll(Windowed(listed, Some(size), from)).Err? <==> Unpresentable(listed, from, from + size)
  {
    hide PresentAll, Present;
    var window := Windowed(listed, Some(size), from);
    PresentAllFaults(window);
    assert forall j :: 0 <= j < |window| ==> window[j] == listed[from + j];
    if k :| from <= k < from + size && k < |listed| && Present(listed[k]).Err? {
      assert Present(window[k - from]).Err?;
    }
  }

  /** Which call faults: where the listing itself stands, a call with a whole-number limit and offset is
      answered exactly when every row of its window can be presented. */
  lemma PageFaults(rows: seq<Row>, judge: Row -> Verdict, size: nat, from: nat)
    requires size >= 1 && Listing(rows, judge, None, None).Ok?
    ensures Answer(Listing(rows, judge, Some(Finite(size as real)), Some(Finite(from as real)))).Err? <==>
              Unpresentable(Listing(rows, judge, None, None).value, from, from + size)
  {
    hide Listing, PresentAll, Windowed, Unpresentable;
    CallWindow(rows, judge, size, from);
    WindowFaults(Listing(rows, judge, None, None).value, size, from);
  }

  /** A page of `listEmails` faults exactly where its window holds a row that cannot be presented, once
      the listing itself stands. */
  lemma ListPageFaults(rows: seq<Row>, filter: Filter, size: nat, i: nat)
    requires size >= 1 && (filter.provider.None? || Trim(filter.provider.value) == "")
    requires Listing(rows, JudgedBy(filter), None, None).Ok?
    ensures ListPage(rows, filter, size)(i).Err? <==>
              Unpresentable(Listing(rows, JudgedBy(filter), None, None).value, i * size, i * size + size)
  {
    hide Listing, Judge, Unpresentable;
    ListIsAnswer(rows, filter, Some(Finite(size as real)), Some(Finite((i * size) as real)));
    PageFaults(rows, JudgedBy(filter), size, i * size);
  }

  // ---------------------------------------------------------------- resolving a short id

  predicate TextLe(a: string, b: string) {
    !Less(b, a)
  }

  function Ids(rows: seq<Row>): (r: seq<string>)
    ensures |r| == |rows|
  {
    seq(|rows|, i requires 0 <= i < |rows| => rows[i].id)
  }

  predicate Matches(row: Row, prefix: string) {
    IsOutbound(row.direction) && StartsWith(row.id, prefix)
  }

  function PrefixMatches(rows: seq<Row>, prefix: string): (r: seq<Row>)
    ensures forall row :: row in r <==> row in rows && Matches(row, prefix)
  {
    if rows == [] then []
    else
      var rest := PrefixMatches(rows[1..], prefix);
      assert rows == [rows[0]] + rows[1..];
      if Matches(rows[0], prefix) then [rows[0]] + rest else rest
  }

  lemma {:induction false} PrefixMatchesDistinct(rows: seq<Row>, prefix: string)
    requires DistinctIds(rows)
    ensures DistinctIds(PrefixMatches(rows, prefix))
  {
    if rows == [] {
    } else {
      PrefixMatchesDistinct(rows[1..], prefix);
      var rest := PrefixMatches(rows[1..], prefix);
      forall i | 0 <= i < |rest|
        ensures rest[i].id != rows[0].id
      {
        assert rest[i] in rows[1..];
      }
    }
  }

  /** `found` is what the store's exact lookup of the trimmed id answered. */
  function ResolveEmailId(id: string, rows: seq<Row>, found: Option<Row>): (r: Result<Option<string>, Fault>) {
    var trimmed := Trim(id);
    if trimmed == "" then Ok(None)
    else if |trimmed| >= FULL_ID_LENGTH then
      if found.Some? && IsOutbound(found.value.direction) then Ok(Some(found.value.id)) else Ok(None)
    else
      var matches := Sort(Ids(PrefixMatches(rows, trimmed)), TextLe);
      if |matches| == 0 then Ok(None)
      else if |matches| == 1 then Ok(Some(matches[0]))
      else Err(Ambiguous(|matches|, matches[..Min(PREVIEW, |matches|)]))
  }

  /** `id` names a stored outbound message and begins with `prefix`. */
  ghost predicate Hit(rows: seq<Row>, prefix: string, id: string) {
    exists row :: row in rows && row.id == id && IsOutbound(row.direction) && StartsWith(id, prefix)
  }

  lemma HitsAreMatches(rows: seq<Row>, prefix: string, id: string)
    ensures Hit(rows, prefix, id) <==> id in Ids(PrefixMatches(rows, prefix))
  {
    var hits := PrefixMatches(rows, prefix);
    if Hit(rows, prefix, id) {
      var row :| row in rows && row.id == id && IsOutbound(row.direction) && StartsWith(id, prefix);
      assert row in hits;
      var i :| 0 <= i < |hits| && hits[i] == row;
      assert Ids(hits)[i] == id;
    }
    if id in Ids(hits) {
      var i :| 0 <= i < |hits| && Ids(hits)[i] == id;
      assert hits[i] in hits;
    }
  }

  /** A short prefix resolves to an id exactly when it is the one outbound id with that prefix,
      answers nothing exactly when there is none, and otherwise refuses. */
  lemma ResolvePrefix(id: string, rows: seq<Row>, found: Option<Row>)
    requires DistinctIds(rows) && 0 < |Trim(id)| < FULL_ID_LENGTH
    ensures forall x :: ResolveEmailId(id, rows, found) == Ok(Some(x)) <==>
                        Hit(rows, Trim(id), x) && forall y :: Hit(rows, Trim(id), y) ==> y == x
    ensures ResolveEmailId(id, rows, found) == Ok(None) <==> !(exists x :: Hit(rows, Trim(id), x))
    ensures ResolveEmailId(id, rows, found).Err? <==>
            exists x, y :: x != y && Hit(rows, Trim(id), x) && Hit(rows, Trim(id), y)
  {
    PrefixMatchesDistinct(rows, Trim(id));
    var ids := Ids(PrefixMatches(rows, Trim(id)));
    var sorted := Sort(ids, TextLe);
    forall x
      ensures Hit(rows, Trim(id), x) <==> x in ids
    {
      HitsAreMatches(rows, Trim(id), x);
    }
    if |ids| == 1 {
      SameMembers(sorted, ids, sorted[0]);
      assert sorted[0] in sorted;
    } else if |ids| >= 2 {
      assert ids[0] != ids[1];
      assert ids[0] in ids && ids[1] in ids;
    }
  }

  lemma TakeOut<T>(s: seq<T>, k: nat)
    requires k < |s|
    ensures s == s[..k] + [s[k]] + s[k + 1..]
    ensures multiset(s[..k] + s[k + 1..]) == multiset(s) - multiset{s[k]}
  {
    assert s == s[..k] + [s[k]] + s[k + 1..];
  }

  lemma PrefixMatchesCons(x: Row, rest: seq<Row>, prefix: string)
    ensures multiset(Ids(PrefixMatches([x] + rest, prefix))) ==
            multiset(Ids(PrefixMatches(rest, prefix))) + (if Matches(x, prefix) then multiset{x.id} else multiset{})
  {
    hide Matches;
    assert ([x] + rest)[1..] == rest;
    if Matches(x, prefix) {
      assert Ids([x] + PrefixMatches(rest, prefix)) == [x.id] + Ids(PrefixMatches(rest, prefix));
    }
  }

  lemma {:induction false} PrefixMatchesSplit(a: seq<Row>, b: seq<Row>, x: Row, prefix: string)
    ensures multiset(Ids(PrefixMatches(a + [x] + b, prefix))) ==
            multiset(Ids(PrefixMatches(a + b, prefix))) + (if Matches(x, prefix) then multiset{x.id} else multiset{})
  {
    hide Matches, Ids;
    if a == [] {
      assert a + [x] + b == [x] + b && a + b == b;
      PrefixMatchesCons(x, b, prefix);
    } else {
      assert a + [x] + b == [a[0]] + (a[1..] + [x] + b) && a + b == [a[0]] + (a[1..] + b);
      PrefixMatchesSplit(a[1..], b, x, prefix);
      PrefixMatchesCons(a[0], a[1..] + [x] + b, prefix);
      PrefixMatchesCons(a[0], a[1..] + b, prefix);
    }
  }

  lemma {:induction false} PrefixMatchesForgetOrder(a: seq<Row>, b: seq<Row>, prefix: string)
    requires multiset(a) == multiset(b)
    ensures multiset(Ids(PrefixMatches(a, prefix))) == multiset(Ids(PrefixMatches(b, prefix)))
  {
    if a != [] {
      SameMembers(a, b, a[0]);
      var k :| 0 <= k < |b| && b[k] == a[0];
      TakeOut(a, 0);
      TakeOut(b, k);
      assert a[..0] + a[1..] == a[1..];
      PrefixMatchesForgetOrder(a[1..], b[..k] + b[k + 1..], prefix);
      PrefixMatchesSplit(b[..k], b[k + 1..], b[k], prefix);
      PrefixMatchesSplit(a[..0], a[1..], a[0], prefix);
    } else {
      assert |multiset(b)| == 0;
    }
  }

  lemma TextLeIsTotal()
    ensures TotalPreorder(TextLe)
  {
    forall a, b
      ensures TextLe(a, b) || TextLe(b, a)
    {
      LessTotal(a, b);
    }
    forall a, b, c | TextLe(a, b) && TextLe(b, c)
      ensures TextLe(a, c)
    {
      LessTotal(b, c);
      LessTotal(a, b);
      if Less(c, a) && b != c && a != b {
        LessTransitive(a, b, c);
        LessTotal(a, c);
      }
    }
  }

  /** The answer, including the ids an ambiguous prefix previews, does not depend on store order. */
  lemma ResolveForgetsOrder(id: string, a: seq<Row>, b: seq<Row>, found: Option<Row>)
    requires multiset(a) == multiset(b)
    ensures ResolveEmailId(id, a, found) == ResolveEmailId(id, b, found)
  {
    var x, y := Ids(PrefixMatches(a, Trim(id))), Ids(PrefixMatches(b, Trim(id)));
    PrefixMatchesForgetOrder(a, b, Trim(id));
    hide PrefixMatches, Ids, Trim, Sort;
    TextLeIsTotal();
    forall s, t | s in x && t in x && TextLe(s, t) && TextLe(t, s)
      ensures s == t
    {
      LessTotal(s, t);
    }
    SortForgetsOrder(x, y, TextLe);
  }
}
