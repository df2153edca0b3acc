/** Runs of the writes of src/db/contacts.ts, blank addresses and refused writes included. */
module ContactRuns {
  import opened Wrappers
  import opened Text
  import opened EmailAddress
  import opened OrderedMap
  import opened CounterSteps
  import opened ContactLedger
  import opened Suppression

  datatype Op =
    | Upsert(email: string)
    | SetFlag(email: string, flag: bool)
    | Increment(batch: seq<string>, column: Column)

  ghost predicate OpNoBlanks(op: Op) {
    match op
    case Upsert(email) => !IsBlank(email)
    case SetFlag(email, _) => !IsBlank(email)
    case Increment(batch, _) => NoBlanks(batch)
  }

  function Perform(l: Ledger, op: Op): (r: Option<Ledger>) {
    match op
    case Upsert(email) => UpsertContact(l, email)
    case SetFlag(email, flag) => SetSuppressed(l, email, flag)
    case Increment(batch, column) => Incremented(l, batch, column)
  }

  /** What an operation leaves behind: a refused creation nothing new, a batch that meets one the writes
      before it. */
  function After(l: Ledger, op: Op): (r: Ledger) {
    match op
    case Upsert(email) => UpsertContact(l, email).GetOr(l)
    case SetFlag(email, flag) => SetSuppressed(l, email, flag).GetOr(l)
    case Increment(batch, column) => WriteSome(l, Finder(l.rows), Groups(l.rows, batch), column, l.clock)
  }

  function Run(l: Ledger, ops: seq<Op>): (r: Ledger) {
    if ops == [] then l else After(Run(l, ops[..|ops| - 1]), ops[|ops| - 1])
  }

  lemma AfterPerformed(l: Ledger, op: Op)
    requires Perform(l, op).Some?
    ensures After(l, op) == Perform(l, op).value
  {
    hide UpsertContact, SetSuppressed, WriteEach;
  }

  lemma CreateKeepsOnePer(l: Ledger, email: string, c: Contact, canon: Canon)
    requires Valid(l) && OnePer(l.rows, canon) && Finds(l.rows, email, None, canon)
    requires c.id == l.nextId && c.email == email
    ensures CanCreate(l, email) && Valid(Create(l, c)) && OnePer(Create(l, c).rows, canon)
  {
    var r := Create(l, c);
    forall i | 0 <= i < |l.rows|
      ensures r.rows[i] == l.rows[i] && l.rows[i].id < l.nextId
    {
      assert l.rows[i] in l.rows;
    }
  }

  lemma SuppressKeepsOnePer(l: Ledger, c: Contact, flag: bool, canon: Canon)
    requires Valid(l) && OnePer(l.rows, canon) && c in l.rows
    ensures Valid(Update(l, c.id, Suppress(flag))) && OnePer(Update(l, c.id, Suppress(flag)).rows, canon)
  {
    var k :| 0 <= k < |l.rows| && l.rows[k] == c;
    UpdateAt(l, k, Suppress(flag));
    ReplacedRow(l, Update(l, c.id, Suppress(flag)), k, Suppress(flag)(c).(updatedAt := l.clock), canon);
  }

  lemma PerformKeepsOnePer(l: Ledger, op: Op)
    requires Valid(l) && OnePer(l.rows, CanonicalOf) && OpNoBlanks(op)
    ensures Perform(l, op).Some? && Valid(Perform(l, op).value) && OnePer(Perform(l, op).value.rows, CanonicalOf)
  {
    match op
    case Increment(batch, column) =>
      BatchIsSteps(l, batch, column);
    case Upsert(email) =>
      FindContactFinds(l.rows, email);
      if FindContact(l.rows, email).None? {
        CreateKeepsOnePer(l, email, Blank(l, email), CanonicalOf);
      }
    case SetFlag(email, flag) =>
      FindContactFinds(l.rows, email);
      match FindContact(l.rows, email) {
        case None => CreateKeepsOnePer(l, email, Blank(l, email).(suppressed := flag), CanonicalOf);
        case Some(c) => SuppressKeepsOnePer(l, c, flag, CanonicalOf);
      }
  }

  /** Every run of the family's writes on non-blank addresses keeps at most one row per canonical
      form, and no operation is refused on the way. */
  lemma {:induction false} RunKeepsOnePerAddress(l: Ledger, ops: seq<Op>)
    requires Valid(l) && OnePer(l.rows, CanonicalOf) && forall op :: op in ops ==> OpNoBlanks(op)
    ensures Valid(Run(l, ops)) && OnePer(Run(l, ops).rows, CanonicalOf)
    ensures forall k :: 0 <= k < |ops| ==> Perform(Run(l, ops[..k]), ops[k]).Some?
  {
    hide CanonicalOf, OnePer, Valid, OpNoBlanks, Perform, After;
    if ops == [] {
    } else {
      var n := |ops| - 1;
      assert forall op :: op in ops[..n] ==> op in ops;
      RunKeepsOnePerAddress(l, ops[..n]);
      PerformKeepsOnePer(Run(l, ops[..n]), ops[n]);
      AfterPerformed(Run(l, ops[..n]), ops[n]);
      forall k | 0 <= k < |ops|
        ensures Perform(Run(l, ops[..k]), ops[k]).Some?
      {
        if k < n {
          assert ops[..n][..k] == ops[..k] && ops[..n][k] == ops[k];
        }
      }
    }
  }

  // ---------------------------------------------------------------- runs with blank addresses

  /** What tells two rows apart: the canonical form, and the spelling itself of a blank one. */
  function Form(email: string): (r: string) {
    if IsBlank(email) then email else CanonicalOf(email)
  }

  lemma FormsApart(a: string, b: string)
    ensures Form(a) == Form(b) ==> (IsBlank(a) <==> IsBlank(b))
    ensures !IsBlank(a) && !IsBlank(b) ==> (Form(a) == Form(b) <==> CanonicalOf(a) == CanonicalOf(b))
    ensures CanonicalOf(a) == CanonicalOf(b) ==> (IsBlank(a) <==> IsBlank(b))
  {
    hide CanonicalOf, Trim;
    BlankIsEmptyAddress(a);
    BlankIsEmptyAddress(b);
    BlankIsEmptyAddress(CanonicalOf(a));
    BlankIsEmptyAddress(CanonicalOf(b));
    CanonicalOfIdempotent(a);
    CanonicalOfIdempotent(b);
  }

  lemma FormOfBlank(email: string)
    ensures IsBlank(email) ==> Form(email) == email
  {}

  lemma BlankFindsNothing(rows: seq<Contact>, email: string)
    ensures IsBlank(email) ==> FindContact(rows, email).None?
  {}

  /** An address finds the row of its form, if there is one; a blank one finds nothing, and so may be
      created only where its spelling is new. */
  lemma FormFinds(l: Ledger, email: string)
    requires IsBlank(email) ==> CanCreate(l, email)
    ensures Finds(l.rows, email, FindContact(l.rows, email), Form)
  {
    hide CanonicalOf, IsBlank, Form;
    FindContactMeans(l.rows, email);
    var found := FindContact(l.rows, email);
    BlankFindsNothing(l.rows, email);
    if found.Some? {
      FormsApart(found.value.email, email);
    } else {
      forall i | 0 <= i < |l.rows|
        ensures Form(l.rows[i].email) != Form(email)
      {
        assert l.rows[i] in l.rows;
        FormsApart(l.rows[i].email, email);
        FormOfBlank(email);
        FormOfBlank(l.rows[i].email);
      }
    }
  }

  lemma NewTextIsForm(email: string)
    ensures NewText(email) == Form(email)
  {
    CanonicalOfTrim(email);
  }

  /** The key of a blank address is its spelling, and no other address has that key. */
  lemma BlankKey(rows: seq<Contact>, email: string)
    ensures IsBlank(email) ==> Resolver(rows)(email) == NewKey(Form(email))
    ensures Resolver(rows)(email).NewKey? ==> Resolver(rows)(email) == NewKey(Form(email))
  {
    hide CanonicalOf, FindContact, IsBlank, Form, NewText;
    BlankFindsNothing(rows, email);
    NewTextIsForm(email);
    ResolverMeans(rows, email);
  }

  lemma BothFound(rows: seq<Contact>, a: string, b: string)
    requires OnePer(rows, Form) && DistinctIds(rows) && !IsBlank(a) && !IsBlank(b)
    ensures KeyFor(FindContact(rows, a), NewText(a)) == KeyFor(FindContact(rows, b), NewText(b)) <==> Form(a) == Form(b)
  {
    hide CanonicalOf, FindContact, IsBlank, OnePer, DistinctIds, KeyFor, Form, NewText;
    FormFinds(Ledger(rows, 0, 0), a);
    FormFinds(Ledger(rows, 0, 0), b);
    NewTextIsForm(a);
    NewTextIsForm(b);
    KeysTellApart(rows, FindContact(rows, a), NewText(a), a, FindContact(rows, b), NewText(b), b, Form);
  }

  lemma FormsResolveApart(rows: seq<Contact>, a: string, b: string)
    requires OnePer(rows, Form) && DistinctIds(rows)
    ensures Resolver(rows)(a) == Resolver(rows)(b) <==> Form(a) == Form(b)
  {
    hide CanonicalOf, FindContact, IsBlank, OnePer, DistinctIds, Form, NewText, Resolver;
    FormsApart(a, b);
    if !IsBlank(a) && !IsBlank(b) {
      ResolverMeans(rows, a);
      ResolverMeans(rows, b);
      BothFound(rows, a, b);
    } else {
      BlankKey(rows, a);
      BlankKey(rows, b);
    }
  }

  lemma GroupsByForm(rows: seq<Contact>, batch: seq<string>)
    requires OnePer(rows, Form) && DistinctIds(rows)
    ensures SameGroupsAs(Groups(rows, batch), Grouped(batch, Form)) && ApartBy(Groups(rows, batch), Form)
  {
    hide CanonicalOf, FindContact, Resolver, Grouped, Merge, Tally, ApartBy, SameGroupsAs, Form;
    MergeTally(batch, Resolver(rows));
    forall a, b | a in batch && b in batch
      ensures Resolver(rows)(a) == Resolver(rows)(b) <==> Form(a) == Form(b)
    {
      FormsResolveApart(rows, a, b);
    }
    GroupsApart(batch, Resolver(rows), Form);
  }

  lemma ValidIsDistinct(l: Ledger)
    ensures Valid(l) ==> DistinctIds(l.rows)
  {}

  /** A batch keeps one row per form, whether it is written to the end or stopped by a refusal. */
  lemma BatchKeepsOnePerForm(l: Ledger, batch: seq<string>, column: Column)
    requires Valid(l) && OnePer(l.rows, Form)
    ensures var r := After(l, Increment(batch, column)); Valid(r) && OnePer(r.rows, Form)
  {
    hide CanonicalOf, FindContact, Groups, WriteEach, WriteSome, Valid, OnePer, Form, IsBlank, CanCreate;
    var groups, find := Groups(l.rows, batch), Finder(l.rows);
    assert DistinctIds(l.rows) by { ValidIsDistinct(l); }
    GroupsByForm(l.rows, batch);
    var k := WriteSomeIsPrefix(l, find, groups, column, l.clock);
    var written := groups[..k];
    WriteEachCreates(l, find, written, column, l.clock);
    forall i | 0 <= i < k
      ensures Finds(l.rows, written[i].email, find(written[i].email), Form)
    {
      BlankFindsNothing(l.rows, written[i].email);
      FormFinds(l, written[i].email);
    }
    WriteEachIsSteps(l, find, written, column, l.clock, Form);
  }

  lemma StepKeepsOnePerForm(l: Ledger, op: Op)
    requires Valid(l) && OnePer(l.rows, Form)
    ensures Valid(After(l, op)) && OnePer(After(l, op).rows, Form)
  {
    hide CanonicalOf, FindContact, OnePer, Valid, Form, IsBlank;
    match op
    case Increment(batch, column) =>
      BatchKeepsOnePerForm(l, batch, column);
    case Upsert(email) =>
      BlankFindsNothing(l.rows, email);
      if FindContact(l.rows, email).None? && CanCreate(l, email) {
        FormFinds(l, email);
        CreateKeepsOnePer(l, email, Blank(l, email), Form);
      }
    case SetFlag(email, flag) =>
      BlankFindsNothing(l.rows, email);
      FindContactMeans(l.rows, email);
      match FindContact(l.rows, email) {
        case None =>
          if CanCreate(l, email) {
            FormFinds(l, email);
            CreateKeepsOnePer(l, email, Blank(l, email).(suppressed := flag), Form);
          }
        case Some(c) => SuppressKeepsOnePer(l, c, flag, Form);
      }
  }

  /** Every run, with blank addresses, refusals and batches cut short, keeps at most one row per
      canonical form of a non-blank address, and one per blank spelling. */
  lemma {:induction false} RunKeepsOnePerForm(l: Ledger, ops: seq<Op>)
    requires Valid(l) && OnePer(l.rows, Form)
    ensures Valid(Run(l, ops)) && OnePer(Run(l, ops).rows, Form)
  {
    hide OnePer, Valid, After;
    if ops == [] {
    } else {
      RunKeepsOnePerForm(l, ops[..|ops| - 1]);
      StepKeepsOnePerForm(Run(l, ops[..|ops| - 1]), ops[|ops| - 1]);
    }
  }

  /** With one row per form, the two suppression questions agree on every sender. */
  lemma OneRowAgrees(rows: seq<Contact>, email: string)
    requires OnePer(rows, Form) && CanonicalSender(email).Some?
    ensures QuestionsAgreeOn(rows, email)
  {
    hide CanonicalSender, CanonicalOf, FindContact, Reported, Answers, Form;
    forall c, d | c in rows && d in rows && SameSender(c, d)
      ensures c == d
    {
      SenderIsNotBlank(c.email);
      FormsApart(c.email, d.email);
      var i :| 0 <= i < |rows| && rows[i] == c;
      var j :| 0 <= j < |rows| && rows[j] == d;
      assert Form(rows[i].email) == Form(rows[j].email);
    }
    FlagsSettle(rows, email);
  }

  /** So in every ledger that a run reaches from the empty one they do. */
  lemma ReachableQuestionsAgree(ops: seq<Op>, email: string)
    requires CanonicalSender(email).Some?
    ensures QuestionsAgreeOn(Run(Ledger([], 0, 0), ops).rows, email)
  {
    hide Run, CanonicalSender, QuestionsAgreeOn, Form;
    RunKeepsOnePerForm(Ledger([], 0, 0), ops);
    OneRowAgrees(Run(Ledger([], 0, 0), ops).rows, email);
  }
}
