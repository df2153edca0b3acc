/** The idempotent event upsert (src/db/events.ts) as a protocol: any number of clients interleave
    find, create and re-find steps over one shared table, beside writers of their own. */
module Events {
  import opened Wrappers
  import opened Text
  import opened Sorting

  datatype Row = Row(id: string, provider: string, eventId: Option<string>, occurredAt: string, body: string)

  datatype Input = Input(provider: string, eventId: Option<string>, occurredAt: string, body: string)

  datatype Failure =
    | StoreRefused           // any refusal but a conflict, and any read that could not be finished
    | ConflictWithoutWinner  // the fall-through: refused as a duplicate, and no row to show for it

  datatype Phase =
    | Start
    | Missing   // the first find saw no row; the create comes next
    | Conflicted  // the create was refused as a duplicate; the re-find comes next
    | Done(row: Row, created: bool)
    | Failed(why: Failure)

  datatype Client = Client(input: Input, phase: Phase)

  /** Who stored a row: it was there at the start, someone outside the protocol, or client `n`. */
  datatype Writer = Initially | Elsewhere | ByClient(n: nat)

  /** `writers` is the history of the table; no step reads it. */
  datatype State = State(unique: bool, table: seq<Row>, writers: map<string, Writer>, clients: seq<Client>)

  // ---------------------------------------------------------------- the key and the find

  /** An empty provider event id is no identity: `input.provider_event_id || null`. */
  predicate Keyed(input: Input) {
    input.eventId.Some? && input.eventId.value != ""
  }

  predicate HasKey(row: Row, input: Input) {
    row.provider == input.provider && row.eventId == input.eventId
  }

  /** Newest first, the smaller id first among equal times. */
  predicate MostRecent(a: Row, b: Row) {
    Less(b.occurredAt, a.occurredAt) || (a.occurredAt == b.occurredAt && !Less(b.id, a.id))
  }

  function Matches(table: seq<Row>, input: Input): (r: seq<Row>)
    ensures forall row :: row in r <==> row in table && HasKey(row, input)
  {
    if table == [] then []
    else
      assert table == [table[0]] + table[1..];
      var rest := Matches(table[1..], input);
      if HasKey(table[0], input) then [table[0]] + rest else rest
  }

  function FindProviderEvent(table: seq<Row>, input: Input): (r: Option<Row>)
    ensures r.Some? ==> r.value in table && HasKey(r.value, input)
    ensures r.None? ==> forall row :: row in table ==> !HasKey(row, input)
  {
    var matches := Sort(Matches(table, input), MostRecent);
    if matches == [] then
      assert Matches(table, input) == [];
      None
    else
      SameMembers(matches, Matches(table, input), matches[0]);
      Some(matches[0])
  }

  // ---------------------------------------------------------------- steps

  ghost predicate IdFree(s: State, id: string) {
    forall row :: row in s.table ==> row.id != id
  }

  /** The store's partial unique index refuses a second row with a key. */
  ghost predicate Refuses(s: State, provider: string, eventId: Option<string>) {
    s.unique && eventId.Some? && exists row :: row in s.table && row.provider == provider && row.eventId == eventId
  }

  ghost predicate Stored(s: State, t: State, row: Row, writer: Writer) {
    && IdFree(s, row.id)
    && !Refuses(s, row.provider, row.eventId)
    && t.table == s.table + [row]
    && t.writers == s.writers[row.id := writer]
    && t.unique == s.unique
  }

  ghost predicate Moves(s: State, t: State, n: nat, phase: Phase) {
    n < |s.clients| && t.clients == s.clients[n := s.clients[n].(phase := phase)]
  }

  ghost predicate TableKept(s: State, t: State) {
    t.table == s.table && t.writers == s.writers && t.unique == s.unique
  }

  function Fresh(input: Input, id: string): Row {
    Row(id, input.provider, if Keyed(input) then input.eventId else None, input.occurredAt, input.body)
  }

  ghost predicate FindStep(s: State, t: State, n: nat) {
    && n < |s.clients|
    && s.clients[n].phase == Start
    && Keyed(s.clients[n].input)
    && TableKept(s, t)
    && var found := FindProviderEvent(s.table, s.clients[n].input);
       Moves(s, t, n, if found.Some? then Done(found.value, false) else Missing)
  }

  /** The create of a client that found nothing, or the plain create of an input with no identity. */
  ghost predicate CreateStep(s: State, t: State, n: nat, id: string) {
    && n < |s.clients|
    && var client := s.clients[n];
    && (client.phase == Missing || (client.phase == Start && !Keyed(client.input)))
    && var row := Fresh(client.input, id);
    && Stored(s, t, row, ByClient(n))
    && Moves(s, t, n, Done(row, true))
  }

  ghost predicate ConflictStep(s: State, t: State, n: nat) {
    && n < |s.clients|
    && s.clients[n].phase == Missing
    && Refuses(s, s.clients[n].input.provider, s.clients[n].input.eventId)
    && TableKept(s, t)
    && Moves(s, t, n, Conflicted)
  }

  ghost predicate RefindStep(s: State, t: State, n: nat) {
    && n < |s.clients|
    && s.clients[n].phase == Conflicted
    && TableKept(s, t)
    && var winner := FindProviderEvent(s.table, s.clients[n].input);
       Moves(s, t, n, if winner.Some? then Done(winner.value, false) else Failed(ConflictWithoutWinner))
  }

  ghost predicate FaultStep(s: State, t: State, n: nat) {
    && n < |s.clients|
    && (s.clients[n].phase.Start? || s.clients[n].phase.Missing? || s.clients[n].phase.Conflicted?)
    && TableKept(s, t)
    && Moves(s, t, n, Failed(StoreRefused))
  }

  /** A writer outside the protocol stores a row; nobody deletes. */
  ghost predicate OtherStep(s: State, t: State, row: Row) {
    Stored(s, t, row, Elsewhere) && t.clients == s.clients
  }

  ghost predicate ClientStep(s: State, t: State, n: nat) {
    || FindStep(s, t, n)
    || (exists id :: CreateStep(s, t, n, id))
    || ConflictStep(s, t, n)
    || RefindStep(s, t, n)
    || FaultStep(s, t, n)
  }

  ghost predicate Next(s: State, t: State) {
    (exists n :: ClientStep(s, t, n)) || (exists row :: OtherStep(s, t, row))
  }

  ghost predicate DistinctIds(table: seq<Row>) {
    DistinctBy(table, (r: Row) => r.id)
  }

  /** The unique index over (provider, provider event id), which ignores rows without one. */
  ghost predicate OneRowPerKey(table: seq<Row>) {
    forall i, j :: 0 <= i < j < |table| && table[i].eventId.Some? ==>
                     !(table[i].provider == table[j].provider && table[i].eventId == table[j].eventId)
  }

  ghost predicate Init(s: State) {
    && DistinctIds(s.table)
    && (s.unique ==> OneRowPerKey(s.table))
    && (forall row :: row in s.table ==> row.id in s.writers && s.writers[row.id] == Initially)
    && (forall id :: id in s.writers ==> s.writers[id] == Initially)
    && (forall c :: c in s.clients ==> c.phase == Start)
  }

  ghost predicate IsRun(run: seq<State>) {
    && run != []
    && Init(run[0])
    && forall i :: 0 <= i < |run| - 1 ==> Next(run[i], run[i + 1])
  }

  // ---------------------------------------------------------------- what every step keeps

  /** The row says what the input said; an empty event id is none. */
  ghost predicate Records(row: Row, input: Input) {
    && row.provider == input.provider && row.occurredAt == input.occurredAt && row.body == input.body
    && (input.eventId == None || input.eventId == Some("") ==> row.eventId == None)
    && (input.eventId != None && input.eventId != Some("") ==> row.eventId == input.eventId)
  }

  ghost predicate Honest(s: State, n: nat)
    requires n < |s.clients|
  {
    var c := s.clients[n];
    match c.phase
    case Start => true
    case Missing => Keyed(c.input)
    case Conflicted => Keyed(c.input) && exists row :: row in s.table && HasKey(row, c.input)
    case Done(row, created) =>
      && row in s.table
      && row.id in s.writers
      && (created <==> s.writers[row.id] == ByClient(n))
      && (Keyed(c.input) ==> HasKey(row, c.input))
      && (!Keyed(c.input) ==> created)
      && (created ==> Records(row, c.input))
    case Failed(why) => why == StoreRefused
  }

  ghost predicate Invariant(s: State) {
    && s.unique
    && DistinctIds(s.table)
    && OneRowPerKey(s.table)
    && (forall row :: row in s.table ==> row.id in s.writers)
    && (forall n :: 0 <= n < |s.clients| ==> Honest(s, n))
    && (forall row :: row in s.table && s.writers[row.id].ByClient? ==>
          s.writers[row.id].n < |s.clients| && s.clients[s.writers[row.id].n].phase == Done(row, true))
  }

  lemma SameKeySameRow(s: State, a: Row, b: Row)
    requires OneRowPerKey(s.table) && a in s.table && b in s.table
    requires a.eventId.Some? && a.provider == b.provider && a.eventId == b.eventId
    ensures a == b
  {
    var i :| 0 <= i < |s.table| && s.table[i] == a;
    var j :| 0 <= j < |s.table| && s.table[j] == b;
  }

  lemma SameIdSameRow(table: seq<Row>, a: Row, b: Row)
    requires DistinctIds(table) && a in table && b in table && a.id == b.id
    ensures a == b
  {
    var i :| 0 <= i < |table| && table[i] == a;
    var j :| 0 <= j < |table| && table[j] == b;
  }

  lemma StoredKeepsKeys(s: State, t: State, row: Row, writer: Writer)
    requires Invariant(s) && Stored(s, t, row, writer)
    ensures DistinctIds(t.table) && OneRowPerKey(t.table)
    ensures forall r :: r in t.table <==> r in s.table || r == row
    ensures forall r :: r in s.table ==> r.id != row.id && t.writers[r.id] == s.writers[r.id]
  {
    forall i | 0 <= i < |s.table|
      ensures s.table[i].id != row.id
    {
      assert s.table[i] in s.table;
    }
    forall r | r in s.table
      ensures r in t.table
    {
      var i :| 0 <= i < |s.table| && s.table[i] == r;
      assert t.table[i] == r;
    }
    assert t.table[|s.table|] == row;
  }

  /** A client's step leaves every other client as honest as it was. */
  lemma OthersStayHonest(s: State, t: State, n: nat, phase: Phase)
    requires Invariant(s) && Moves(s, t, n, phase)
    requires forall r :: r in s.table ==> r in t.table && r.id in t.writers && t.writers[r.id] == s.writers[r.id]
    ensures forall m :: 0 <= m < |t.clients| && m != n ==> Honest(t, m)
  {
    forall m | 0 <= m < |t.clients| && m != n
      ensures Honest(t, m)
    {
      assert Honest(s, m) && t.clients[m] == s.clients[m];
    }
  }

  lemma CreateKeepsInvariant(s: State, t: State, n: nat, id: string)
    requires Invariant(s) && CreateStep(s, t, n, id)
    ensures Invariant(t)
  {
    var row := Fresh(s.clients[n].input, id);
    StoredKeepsKeys(s, t, row, ByClient(n));
    OthersStayHonest(s, t, n, Done(row, true));
    assert Honest(s, n);
    assert Honest(t, n);
  }

  lemma OtherKeepsInvariant(s: State, t: State, row: Row)
    requires Invariant(s) && OtherStep(s, t, row)
    ensures Invariant(t)
  {
    StoredKeepsKeys(s, t, row, Elsewhere);
    forall n | 0 <= n < |t.clients|
      ensures Honest(t, n)
    {
      assert Honest(s, n);
    }
  }

  /** The found row was stored by someone else: this client has not answered yet. */
  lemma ReaderIsHonest(s: State, t: State, n: nat)
    requires Invariant(s) && (FindStep(s, t, n) || ConflictStep(s, t, n) || RefindStep(s, t, n) || FaultStep(s, t, n))
    ensures Honest(t, n)
  {
    assert Honest(s, n);
    if t.clients[n].phase.Done? {
      assert s.writers[t.clients[n].phase.row.id] != ByClient(n);
    }
  }

  lemma ReadKeepsInvariant(s: State, t: State, n: nat)
    requires Invariant(s) && (FindStep(s, t, n) || ConflictStep(s, t, n) || RefindStep(s, t, n) || FaultStep(s, t, n))
    ensures Invariant(t)
  {
    var phase := t.clients[n].phase;
    OthersStayHonest(s, t, n, phase);
    assert Honest(s, n);
    ReaderIsHonest(s, t, n);
  }

  lemma StepKeepsInvariant(s: State, t: State)
    requires Invariant(s) && Next(s, t)
    ensures Invariant(t)
  {
    if n :| ClientStep(s, t, n) {
      if id :| CreateStep(s, t, n, id) {
        CreateKeepsInvariant(s, t, n, id);
      } else {
        ReadKeepsInvariant(s, t, n);
      }
    } else {
      var row :| OtherStep(s, t, row);
      OtherKeepsInvariant(s, t, row);
    }
  }

  lemma {:induction false} RunKeepsInvariant(run: seq<State>, k: nat)
    requires IsRun(run) && run[0].unique && k < |run|
    ensures Invariant(run[k])
  {
    if k == 0 {
      forall n | 0 <= n < |run[0].clients|
        ensures Honest(run[0], n)
      {
        assert run[0].clients[n] in run[0].clients;
      }
    } else {
      RunKeepsInvariant(run, k - 1);
      StepKeepsInvariant(run[k - 1], run[k]);
    }
  }

  // ---------------------------------------------------------------- safety over every interleaving

  ghost predicate SameKey(a: Input, b: Input) {
    Keyed(a) && Keyed(b) && a.provider == b.provider && a.eventId == b.eventId
  }

  /** In every reachable state of a store with the unique key there is one row per key, any two
      finished clients of one delivery hold the same stored row, and at most one of them was told
      it created it. */
  lemma UpsertIsIdempotent(run: seq<State>, k: nat, m: nat, n: nat)
    requires IsRun(run) && run[0].unique && k < |run|
    requires m < |run[k].clients| && n < |run[k].clients|
    requires SameKey(run[k].clients[m].input, run[k].clients[n].input)
    requires run[k].clients[m].phase.Done? && run[k].clients[n].phase.Done?
    ensures OneRowPerKey(run[k].table)
    ensures run[k].clients[m].phase.row == run[k].clients[n].phase.row
    ensures run[k].clients[m].phase.created && run[k].clients[n].phase.created ==> m == n
  {
    RunKeepsInvariant(run, k);
    assert Honest(run[k], m) && Honest(run[k], n);
    SameKeySameRow(run[k], run[k].clients[m].phase.row, run[k].clients[n].phase.row);
  }

  /** Every answer is a stored row carrying the client's own key; `created` is said by exactly the
      client that stored it, and a row stored by some client has that client saying so. */
  lemma AnswersAreTrue(run: seq<State>, k: nat, n: nat)
    requires IsRun(run) && run[0].unique && k < |run|
    requires n < |run[k].clients| && run[k].clients[n].phase.Done?
    ensures var Done(row, created) := run[k].clients[n].phase;
            && row in run[k].table
            && row.id in run[k].writers
            && (Keyed(run[k].clients[n].input) ==> HasKey(row, run[k].clients[n].input))
            && (created ==> Records(row, run[k].clients[n].input))
            && (created <==> run[k].writers[row.id] == ByClient(n))
            && (run[k].writers[row.id].ByClient? ==>
                  var author := run[k].writers[row.id].n;
                  author < |run[k].clients| && run[k].clients[author].phase == Done(row, true))
  {
    RunKeepsInvariant(run, k);
    assert Honest(run[k], n);
  }

  /** A conflict always has a winner to show: the fall-through throw is never reached. */
  lemma ConflictHasAWinner(run: seq<State>, k: nat, n: nat)
    requires IsRun(run) && run[0].unique && k < |run| && n < |run[k].clients|
    ensures run[k].clients[n].phase != Failed(ConflictWithoutWinner)
    ensures run[k].clients[n].phase == Conflicted ==> FindProviderEvent(run[k].table, run[k].clients[n].input).Some?
  {
    RunKeepsInvariant(run, k);
    assert Honest(run[k], n);
  }

  lemma DoneStays(s: State, t: State, n: nat)
    requires Next(s, t) && n < |s.clients| && s.clients[n].phase.Done?
    ensures n < |t.clients| && t.clients[n] == s.clients[n]
  {
    hide Stored, FindProviderEvent, Fresh, Refuses;
  }

  lemma DoneIsStored(s: State, n: nat)
    requires Invariant(s) && n < |s.clients| && s.clients[n].phase.Done?
    ensures s.clients[n].phase.row in s.table
  {
    assert Honest(s, n);
  }

  /** Answers are final: once a client is done, every later state still stores the row it returned. */
  lemma {:induction false} AnswersStayStored(run: seq<State>, j: nat, k: nat, n: nat)
    requires IsRun(run) && run[0].unique && j <= k < |run|
    requires n < |run[j].clients| && run[j].clients[n].phase.Done?
    ensures n < |run[k].clients| && run[k].clients[n] == run[j].clients[n]
    ensures run[j].clients[n].phase.row in run[k].table
  {
    hide Next, Invariant;
    RunKeepsInvariant(run, k);
    if j < k {
      AnswersStayStored(run, j, k - 1, n);
      assert Next(run[k - 1], run[k]);
      DoneStays(run[k - 1], run[k], n);
    }
    DoneIsStored(run[k], n);
  }

  // ---------------------------------------------------------------- duplicates, where the key is missing

  lemma MostRecentIsTotal()
    ensures TotalPreorder(MostRecent)
  {
    forall a, b
      ensures MostRecent(a, b) || MostRecent(b, a)
    {
      LessTotal(a.occurredAt, b.occurredAt);
      LessTotal(a.id, b.id);
    }
    forall a, b, c | MostRecent(a, b) && MostRecent(b, c)
      ensures MostRecent(a, c)
    {
      if Less(b.occurredAt, a.occurredAt) && Less(c.occurredAt, b.occurredAt) {
        LessTransitive(c.occurredAt, b.occurredAt, a.occurredAt);
      } else if a.occurredAt == b.occurredAt == c.occurredAt {
        LessTotal(a.id, b.id);
        LessTotal(b.id, c.id);
        if Less(c.id, a.id) && a.id != b.id {
          LessTransitive(c.id, a.id, b.id);
        }
      }
    }
  }

  /** Among duplicates the winner is the newest, then the smallest id: the row that stands before
      every other match, whatever order the store listed them in. */
  lemma WinnerIsFirst(table: seq<Row>, input: Input, row: Row)
    requires DistinctIds(table) && row in table && HasKey(row, input)
    ensures FindProviderEvent(table, input).Some?
    ensures row == FindProviderEvent(table, input).value || !MostRecent(row, FindProviderEvent(table, input).value)
    ensures var winner := FindProviderEvent(table, input).value;
            && winner in table && winner.provider == input.provider && winner.eventId == input.eventId
            && (row == winner
                || Less(row.occurredAt, winner.occurredAt)
                || (row.occurredAt == winner.occurredAt && Less(winner.id, row.id)))
  {
    var matches := Matches(table, input);
    var sorted := Sort(matches, MostRecent);
    MostRecentIsTotal();
    SortSorted(matches, MostRecent);
    SameMembers(sorted, matches, row);
    var i :| 0 <= i < |sorted| && sorted[i] == row;
    var winner := sorted[0];
    assert MostRecent(winner, row);
    LessTotal(winner.id, row.id);
    if MostRecent(row, winner) {
      LessTotal(row.occurredAt, winner.occurredAt);
      LessTotal(row.id, winner.id);
      SameMembers(sorted, matches, winner);
      SameIdSameRow(table, row, winner);
    }
  }

  const DELIVERY := Input("ses", Some("evt"), "t", "")
  const ROW_A := Row("a", "ses", Some("evt"), "t", "")
  const ROW_B := Row("b", "ses", Some("evt"), "t", "")

  function Racing(table: seq<Row>, writers: map<string, Writer>, first: Phase, second: Phase): State {
    State(false, table, writers, [Client(DELIVERY, first), Client(DELIVERY, second)])
  }

  lemma BothLook()
    ensures Next(Racing([], map[], Start, Start), Racing([], map[], Missing, Start))
    ensures Next(Racing([], map[], Missing, Start), Racing([], map[], Missing, Missing))
  {
    var s0, s1 := Racing([], map[], Start, Start), Racing([], map[], Missing, Start);
    var s2 := Racing([], map[], Missing, Missing);
    assert FindProviderEvent([], DELIVERY) == None;
    assert s1.clients == s0.clients[0 := s0.clients[0].(phase := Missing)];
    assert s2.clients == s1.clients[1 := s1.clients[1].(phase := Missing)];
    assert FindStep(s0, s1, 0) && FindStep(s1, s2, 1);
    assert ClientStep(s0, s1, 0) && ClientStep(s1, s2, 1);
  }

  lemma FirstStores()
    ensures Next(Racing([], map[], Missing, Missing),
                 Racing([ROW_A], map["a" := ByClient(0)], Done(ROW_A, true), Missing))
  {
    var s := Racing([], map[], Missing, Missing);
    var t := Racing([ROW_A], map["a" := ByClient(0)], Done(ROW_A, true), Missing);
    assert Fresh(DELIVERY, "a") == ROW_A;
    assert t.clients == s.clients[0 := s.clients[0].(phase := Done(ROW_A, true))];
    assert CreateStep(s, t, 0, "a");
    assert ClientStep(s, t, 0);
  }

  lemma SecondStores()
    ensures Next(Racing([ROW_A], map["a" := ByClient(0)], Done(ROW_A, true), Missing),
                 Racing([ROW_A, ROW_B], map["a" := ByClient(0), "b" := ByClient(1)],
                        Done(ROW_A, true), Done(ROW_B, true)))
  {
    var s := Racing([ROW_A], map["a" := ByClient(0)], Done(ROW_A, true), Missing);
    var t := Racing([ROW_A, ROW_B], map["a" := ByClient(0), "b" := ByClient(1)], Done(ROW_A, true), Done(ROW_B, true));
    assert Fresh(DELIVERY, "b") == ROW_B;
    assert t.clients == s.clients[1 := s.clients[1].(phase := Done(ROW_B, true))];
    assert IdFree(s, "b") by { assert "a" != "b"; }
    assert CreateStep(s, t, 1, "b");
    assert ClientStep(s, t, 1);
  }

  /** Without the unique key two clients that both look before either stores leave two rows for one
      delivery, and both are told they created it. */
  lemma WithoutTheKeyTwoRows() returns (run: seq<State>)
    ensures IsRun(run) && !run[0].unique
    ensures var s := run[|run| - 1];
            && |s.clients| == 2
            && SameKey(s.clients[0].input, s.clients[1].input)
            && s.clients[0].phase.Done? && s.clients[0].phase.created
            && s.clients[1].phase.Done? && s.clients[1].phase.created
            && s.clients[0].phase.row != s.clients[1].phase.row
            && !OneRowPerKey(s.table)
  {
    hide Next;
    BothLook();
    FirstStores();
    SecondStores();
    var last := Racing([ROW_A, ROW_B], map["a" := ByClient(0), "b" := ByClient(1)],
                       Done(ROW_A, true), Done(ROW_B, true));
    run := [Racing([], map[], Start, Start), Racing([], map[], Missing, Start), Racing([], map[], Missing, Missing),
            Racing([ROW_A], map["a" := ByClient(0)], Done(ROW_A, true), Missing), last];
    assert ROW_A != ROW_B by { assert "a" != "b"; }
    assert !OneRowPerKey(last.table) by {
      assert last.table[0].eventId == last.table[1].eventId;
    }
  }
}
