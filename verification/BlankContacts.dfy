/** Blank addresses in the writes of src/db/contacts.ts: which blank rows an operation adds, exactly when
    two rows come to compare equal, and exactly when a batch does what its increments do one by one. */
module BlankContacts {
  import opened Wrappers
  import opened Text
  import opened EmailAddress
  import opened OrderedMap
  import opened CounterSteps
  import opened ContactLedger
  import opened Suppression
  import opened ContactRuns

  // ---------------------------------------------------------------- the blank spellings of a ledger

  function OnlyBlank(texts: seq<string>): (r: seq<string>)
    ensures forall t :: t in r <==> t in texts && IsBlank(t)
  {
    if texts == [] then []
    else
      var n := |texts| - 1;
      assert texts == texts[..n] + [texts[n]];
      if IsBlank(texts[n]) then OnlyBlank(texts[..n]) + [texts[n]] else OnlyBlank(texts[..n])
  }

  function Spellings(rows: seq<Contact>): (r: seq<string>)
    ensures |r| == |rows| && forall i :: 0 <= i < |rows| ==> r[i] == rows[i].email
  {
    seq(|rows|, i requires 0 <= i < |rows| => rows[i].email)
  }

  function Emails<K>(entries: seq<Entry<K>>): (r: seq<string>)
    ensures |r| == |entries| && forall i :: 0 <= i < |entries| ==> r[i] == entries[i].email
  {
    seq(|entries|, i requires 0 <= i < |entries| => entries[i].email)
  }

  /** The spellings of the blank rows, oldest row first. */
  function Blanks(rows: seq<Contact>): seq<string> {
    OnlyBlank(Spellings(rows))
  }

  /** The blank spellings of a batch, each once, where it first stands. */
  function BlankSpellings(batch: seq<string>): (r: seq<string>)
    ensures forall t :: t in r <==> t in batch && IsBlank(t)
  {
    if batch == [] then []
    else
      var n := |batch| - 1;
      assert batch == batch[..n] + [batch[n]];
      var before := BlankSpellings(batch[..n]);
      if IsBlank(batch[n]) && batch[n] !in before then before + [batch[n]] else before
  }

  /** The spellings before the first that some row has. */
  function BeforeStored(l: Ledger, spellings: seq<string>): (r: seq<string>) {
    if spellings == [] || !CanCreate(l, spellings[0]) then []
    else [spellings[0]] + BeforeStored(l, spellings[1..])
  }

  function Addresses(op: Op): seq<string> {
    match op
    case Upsert(email) => [email]
    case SetFlag(email, _) => [email]
    case Increment(batch, _) => batch
  }

  /** The distinct blank spellings of an operation before the first that is already stored. */
  function NewBlanks(l: Ledger, op: Op): seq<string> {
    BeforeStored(l, BlankSpellings(Addresses(op)))
  }

  lemma {:induction false} OnlyBlankAppended(a: seq<string>, b: seq<string>)
    ensures OnlyBlank(a + b) == OnlyBlank(a) + OnlyBlank(b)
  {
    hide IsBlank;
    if b == [] {
      assert a + b == a;
    } else {
      var n := |b| - 1;
      assert (a + b)[..|a| + n] == a + b[..n];
      OnlyBlankAppended(a, b[..n]);
    }
  }

  lemma OnlyBlankOne(t: string)
    ensures OnlyBlank([t]) == if IsBlank(t) then [t] else []
  {
    hide IsBlank;
    assert [t][..0] == [];
  }

  // ---------------------------------------------------------------- what one write adds

  lemma CreateBlanks(l: Ledger, c: Contact)
    ensures Blanks(Create(l, c).rows) == Blanks(l.rows) + OnlyBlank([c.email])
  {
    hide OnlyBlank;
    assert Spellings(Create(l, c).rows) == Spellings(l.rows) + [c.email];
    OnlyBlankAppended(Spellings(l.rows), [c.email]);
  }

  lemma UpdateBlanks(l: Ledger, id: nat, patch: Contact -> Contact)
    requires forall c :: patch(c).email == c.email
    ensures Blanks(Update(l, id, patch).rows) == Blanks(l.rows)
  {
    assert Spellings(Update(l, id, patch).rows) == Spellings(l.rows);
  }

  lemma PatchKeepsEmail(column: Column, next: int, stamp: nat)
    ensures forall c :: PatchTo(column, next, stamp)(c).email == c.email
  {}

  lemma PatchedEmail(c: Contact, column: Column, next: int, stamp: nat)
    ensures Patch(c, column, next, stamp).email == c.email
  {}

  lemma WriteBlanks(l: Ledger, held: Option<Contact>, email: string, n: nat, column: Column, stamp: nat)
    requires WriteFor(l, held, email, n, column, stamp).Some? && (IsBlank(email) ==> held.None?)
    ensures Blanks(WriteFor(l, held, email, n, column, stamp).value.rows) == Blanks(l.rows) + OnlyBlank([email])
  {
    hide Patch, PatchTo, Update, Create, IsBlank, Blanks;
    OnlyBlankOne(email);
    match held
    case None =>
      var c := Patch(Blank(l, email), column, n, stamp);
      PatchedEmail(Blank(l, email), column, n, stamp);
      CreateBlanks(l, c);
    case Some(c) =>
      if IsBlank(email) {
        assert false;
      }
      PatchKeepsEmail(column, c.Count(column) + n, stamp);
      UpdateBlanks(l, c.id, PatchTo(column, c.Count(column) + n, stamp));
  }

  lemma EmailsAppended<K>(entries: seq<Entry<K>>)
    requires entries != []
    ensures var n := |entries| - 1;
            OnlyBlank(Emails(entries)) == OnlyBlank(Emails(entries[..n])) + OnlyBlank([entries[n].email])
  {
    hide OnlyBlank;
    var n := |entries| - 1;
    assert Emails(entries) == Emails(entries[..n]) + [entries[n].email];
    OnlyBlankAppended(Emails(entries[..n]), [entries[n].email]);
  }

  lemma NoTexts()
    ensures OnlyBlank([]) == []
  {}

  lemma {:induction false} WriteEachBlanks<K>(
      l: Ledger, read: seq<Contact>, entries: seq<Entry<K>>, column: Column, stamp: nat)
    requires WriteEach(l, Finder(read), entries, column, stamp).Some?
    ensures Blanks(WriteEach(l, Finder(read), entries, column, stamp).value.rows)
              == Blanks(l.rows) + OnlyBlank(Emails(entries))
  {
    hide IsBlank, WriteFor, FindContact, Blanks, OnlyBlank;
    if entries == [] {
      NoTexts();
      assert Emails(entries) == [];
    } else {
      var n := |entries| - 1;
      var e, before := entries[n], entries[..n];
      WriteEachBlanks(l, read, before, column, stamp);
      BlankFindsNothing(read, e.email);
      var m := WriteEach(l, Finder(read), before, column, stamp).value;
      WriteBlanks(m, Finder(read)(e.email), e.email, e.count, column, stamp);
      EmailsAppended(entries);
      assert (Blanks(l.rows) + OnlyBlank(Emails(before))) + OnlyBlank([e.email])
             == Blanks(l.rows) + (OnlyBlank(Emails(before)) + OnlyBlank([e.email]));
    }
  }

  // ---------------------------------------------------------------- what a batch adds

  lemma SameFormAsBlank(a: string, b: string)
    requires Form(a) == Form(b)
    ensures IsBlank(b) ==> a == b
  {
    hide IsBlank, CanonicalOf, Form;
    FormsApart(a, b);
    FormOfBlank(a);
    FormOfBlank(b);
  }

  lemma NotYetSeen(before: seq<Entry<string>>, email: string)
    requires !HasEntry(before, Form(email))
    requires forall i :: 0 <= i < |before| ==> before[i].key == Form(before[i].email)
    ensures email !in Emails(before)
  {}

  /** The groups' blank addresses are the blank spellings of the batch. */
  lemma {:induction false} GroupedBlanks(batch: seq<string>)
    ensures OnlyBlank(Emails(Grouped(batch, Form))) == BlankSpellings(batch)
  {
    hide IsBlank, Form;
    if batch == [] {
    } else {
      var n := |batch| - 1;
      var before, email := Grouped(batch[..n], Form), batch[n];
      GroupedBlanks(batch[..n]);
      GroupedMeans(batch[..n], Form);
      var after := Grouped(batch, Form);
      if HasEntry(before, Form(email)) {
        assert Emails(after) == Emails(before);
        var i :| 0 <= i < |before| && before[i].key == Form(email);
        SameFormAsBlank(before[i].email, email);
        assert Emails(before)[i] == before[i].email;
      } else {
        assert Emails(after) == Emails(before) + [email];
        OnlyBlankAppended(Emails(before), [email]);
        OnlyBlankOne(email);
        NotYetSeen(before, email);
      }
    }
  }

  lemma SameEmails<J, K>(a: seq<Entry<J>>, b: seq<Entry<K>>)
    requires SameGroupsAs(a, b)
    ensures Emails(a) == Emails(b)
  {}

  lemma GroupsBlanks(rows: seq<Contact>, batch: seq<string>)
    requires OnePer(rows, Form) && DistinctIds(rows)
    ensures OnlyBlank(Emails(Groups(rows, batch))) == BlankSpellings(batch)
  {
    hide CanonicalOf, FindContact, Resolver, Grouped, Form, OnePer, DistinctIds, Emails;
    GroupsByForm(rows, batch);
    SameEmails(Groups(rows, batch), Grouped(batch, Form));
    GroupedBlanks(batch);
  }

  lemma {:induction false} BeforeStoredIs(l: Ledger, a: seq<string>, b: seq<string>)
    requires (forall t :: t in a ==> CanCreate(l, t)) && (b != [] ==> !CanCreate(l, b[0]))
    ensures BeforeStored(l, a + b) == a
  {
    hide CanCreate;
    if a == [] {
      assert a + b == b;
    } else {
      assert (a + b)[1..] == a[1..] + b;
      BeforeStoredIs(l, a[1..], b);
    }
  }

  /** The write of a group is refused only if its address is a blank one that some row already has. */
  lemma RefusedIsStored(l: Ledger, batch: seq<string>, column: Column, k: nat)
    requires Valid(l) && OnePer(l.rows, Form) && k < |Groups(l.rows, batch)|
    requires WriteEach(l, Finder(l.rows), Groups(l.rows, batch)[..k], column, l.clock).Some?
    requires WriteEach(l, Finder(l.rows), Groups(l.rows, batch)[..k + 1], column, l.clock).None?
    ensures IsBlank(Groups(l.rows, batch)[k].email) && !CanCreate(l, Groups(l.rows, batch)[k].email)
  {
    hide CanonicalOf, FindContact, Groups, WriteEach, Valid, OnePer, Form, IsBlank, CanCreate;
    var groups, find := Groups(l.rows, batch), Finder(l.rows);
    var written := groups[..k + 1];
    ValidIsDistinct(l);
    GroupsByForm(l.rows, batch);
    WriteEachCreates(l, find, groups[..k], column, l.clock);
    if !IsBlank(groups[k].email) || CanCreate(l, groups[k].email) {
      forall i | 0 <= i <= k
        ensures Finds(l.rows, written[i].email, find(written[i].email), Form)
      {
        BlankFindsNothing(l.rows, written[i].email);
        assert i < k ==> groups[..k][i] == written[i];
        FormFinds(l, written[i].email);
      }
      WriteEachIsSteps(l, find, written, column, l.clock, Form);
    }
  }

  lemma BlankCreated<K>(l: Ledger, entries: seq<Entry<K>>, t: string)
    requires t in OnlyBlank(Emails(entries))
    requires forall i :: 0 <= i < |entries| && Finder(l.rows)(entries[i].email).None? ==> CanCreate(l, entries[i].email)
    ensures CanCreate(l, t)
  {
    hide FindContact, IsBlank, CanCreate;
    var i :| 0 <= i < |entries| && Emails(entries)[i] == t;
    BlankFindsNothing(l.rows, t);
  }

  /** The writes of a batch stop before the first group whose blank address some row already has. */
  lemma StopsBeforeStored(l: Ledger, batch: seq<string>, column: Column, k: nat)
    requires Valid(l) && OnePer(l.rows, Form) && k <= |Groups(l.rows, batch)|
    requires WriteEach(l, Finder(l.rows), Groups(l.rows, batch)[..k], column, l.clock).Some?
    requires k < |Groups(l.rows, batch)| ==>
               WriteEach(l, Finder(l.rows), Groups(l.rows, batch)[..k + 1], column, l.clock).None?
    ensures BeforeStored(l, OnlyBlank(Emails(Groups(l.rows, batch)))) == OnlyBlank(Emails(Groups(l.rows, batch)[..k]))
  {
    hide Finder, Groups, WriteEach, Valid, OnePer, Form, IsBlank, CanCreate, OnlyBlank, BeforeStored;
    var groups := Groups(l.rows, batch);
    WriteEachCreates(l, Finder(l.rows), groups[..k], column, l.clock);
    var a, b := Emails(groups[..k]), Emails(groups[k..]);
    assert a + b == Emails(groups);
    OnlyBlankAppended(a, b);
    forall t | t in OnlyBlank(a)
      ensures CanCreate(l, t)
    {
      BlankCreated(l, groups[..k], t);
    }
    if k < |groups| {
      RefusedIsStored(l, batch, column, k);
      assert b == [groups[k].email] + b[1..];
      OnlyBlankAppended([groups[k].email], b[1..]);
      OnlyBlankOne(groups[k].email);
    } else {
      assert b == [];
      NoTexts();
    }
    BeforeStoredIs(l, OnlyBlank(a), OnlyBlank(b));
  }

  lemma BatchBlanks(l: Ledger, batch: seq<string>, column: Column)
    requires Valid(l) && OnePer(l.rows, Form)
    ensures Blanks(After(l, Increment(batch, column)).rows) == Blanks(l.rows) + BeforeStored(l, BlankSpellings(batch))
  {
    hide Finder, Groups, WriteEach, WriteSome, Valid, OnePer, CanCreate, Blanks, OnlyBlank, BeforeStored, Emails,
         BlankSpellings;
    var groups := Groups(l.rows, batch);
    ValidIsDistinct(l);
    GroupsBlanks(l.rows, batch);
    var k := WriteSomeIsPrefix(l, Finder(l.rows), groups, column, l.clock);
    WriteEachBlanks(l, l.rows, groups[..k], column, l.clock);
    StopsBeforeStored(l, batch, column, k);
  }

  lemma LoneSpelling(email: string)
    ensures BlankSpellings([email]) == if IsBlank(email) then [email] else []
  {
    hide IsBlank;
    assert [email][..0] == [];
  }

  lemma NothingStored(l: Ledger)
    ensures BeforeStored(l, []) == []
  {}

  lemma LoneBeforeStored(l: Ledger, email: string)
    ensures BeforeStored(l, [email]) == if CanCreate(l, email) then [email] else []
  {
    hide CanCreate;
    assert [email][1..] == [];
  }

  /** Where an address that is not blank finds nothing, its spelling is new. */
  lemma NonBlankCreates(l: Ledger, email: string)
    ensures !IsBlank(email) && FindContact(l.rows, email).None? ==> CanCreate(l, email)
  {
    hide CanonicalOf, FindContact, IsBlank;
    FindContactMeans(l.rows, email);
    if !IsBlank(email) && FindContact(l.rows, email).None? {
      forall i | 0 <= i < |l.rows|
        ensures l.rows[i].email != email
      {
        assert l.rows[i] in l.rows;
      }
    }
  }

  /** A found row is not blank, and one that is created has the address asked for. */
  lemma OneBlanks(l: Ledger, op: Op)
    requires !op.Increment?
    ensures Blanks(After(l, op).rows) == Blanks(l.rows) + BeforeStored(l, BlankSpellings(Addresses(op)))
  {
    hide CanonicalOf, FindContact, IsBlank, CanCreate, Blanks, OnlyBlank, BeforeStored, BlankSpellings, Create, Update;
    var email := Addresses(op)[0];
    LoneSpelling(email);
    LoneBeforeStored(l, email);
    NothingStored(l);
    BlankFindsNothing(l.rows, email);
    NonBlankCreates(l, email);
    OnlyBlankOne(email);
    var c := if op.Upsert? then Blank(l, email) else Blank(l, email).(suppressed := op.flag);
    CreateBlanks(l, c);
    if op.SetFlag? {
      match FindContact(l.rows, email)
      case None =>
      case Some(d) => UpdateBlanks(l, d.id, Suppress(op.flag));
    }
  }

  /** An operation adds exactly the blank rows of its distinct blank spellings before the first that is
      already stored, in their order. */
  lemma OperationAddsBlanks(l: Ledger, op: Op)
    requires Valid(l) && OnePer(l.rows, Form)
    ensures Blanks(After(l, op).rows) == Blanks(l.rows) + NewBlanks(l, op)
  {
    hide Valid, OnePer, Form, After, Blanks, BeforeStored, BlankSpellings;
    match op
    case Increment(batch, column) => BatchBlanks(l, batch, column);
    case Upsert(_) => OneBlanks(l, op);
    case SetFlag(_, _) => OneBlanks(l, op);
  }

  // ---------------------------------------------------------------- exactly when two rows compare equal

  lemma {:induction false} TwoBlanks(texts: seq<string>) returns (i: nat, j: nat)
    requires |OnlyBlank(texts)| > 1
    ensures i < j < |texts| && IsBlank(texts[i]) && IsBlank(texts[j])
  {
    hide IsBlank;
    var n := |texts| - 1;
    if |OnlyBlank(texts[..n])| > 1 {
      i, j := TwoBlanks(texts[..n]);
    } else {
      var before := OnlyBlank(texts[..n]);
      assert before[0] in before;
      i :| 0 <= i < n && texts[..n][i] == before[0];
      j := n;
    }
  }

  lemma {:induction false} BothCount(texts: seq<string>, i: nat, j: nat)
    requires i < j < |texts| && IsBlank(texts[i]) && IsBlank(texts[j])
    ensures |OnlyBlank(texts)| > 1
  {
    hide IsBlank;
    var a, b := texts[..j], texts[j..];
    assert texts == a + b && a[i] == texts[i] && b[0] == texts[j];
    OnlyBlankAppended(a, b);
    assert texts[i] in OnlyBlank(a) && texts[j] in OnlyBlank(b);
  }

  /** Rows that are told apart by their form compare equal exactly where two of them are blank. */
  lemma OneBlankAtMost(rows: seq<Contact>)
    requires OnePer(rows, Form)
    ensures OnePer(rows, CanonicalOf) <==> |Blanks(rows)| <= 1
  {
    hide CanonicalOf, IsBlank, Form, OnlyBlank;
    if |Blanks(rows)| > 1 {
      var i, j := TwoBlanks(Spellings(rows));
      BlankIsEmptyAddress(rows[i].email);
      BlankIsEmptyAddress(rows[j].email);
    } else {
      forall i, j | 0 <= i < j < |rows|
        ensures CanonicalOf(rows[i].email) != CanonicalOf(rows[j].email)
      {
        FormsApart(rows[i].email, rows[j].email);
        if CanonicalOf(rows[i].email) == CanonicalOf(rows[j].email) {
          BothCount(Spellings(rows), i, j);
        }
      }
    }
  }

  lemma AddressesGiveForms(rows: seq<Contact>)
    requires OnePer(rows, CanonicalOf)
    ensures OnePer(rows, Form)
  {
    hide CanonicalOf, IsBlank, Form;
    forall i, j | 0 <= i < j < |rows|
      ensures Form(rows[i].email) != Form(rows[j].email)
    {
      FormsApart(rows[i].email, rows[j].email);
      FormOfBlank(rows[i].email);
      FormOfBlank(rows[j].email);
    }
  }

  /** On a ledger with one row per canonical form, an operation keeps that so if and only if the blank
      rows there are and the blank spellings it creates are at most one together. */
  lemma StepKeepsOnePerAddress(l: Ledger, op: Op)
    requires Valid(l) && OnePer(l.rows, CanonicalOf)
    ensures OnePer(After(l, op).rows, CanonicalOf) <==> |Blanks(l.rows)| + |NewBlanks(l, op)| <= 1
  {
    hide CanonicalOf, Form, Valid, OnePer, After, Blanks, NewBlanks;
    AddressesGiveForms(l.rows);
    StepKeepsOnePerForm(l, op);
    OperationAddsBlanks(l, op);
    OneBlankAtMost(After(l, op).rows);
  }

  lemma BlankTexts()
    ensures IsBlank("") && IsBlank(" ")
  {
    TrimUnique(" ", "", "", IsSpace);
    assert " " + "" + "" == " ";
  }

  lemma BothBlank(l: Ledger)
    requires CanCreate(l, "") && CanCreate(l, " ")
    ensures IsBlank("") && IsBlank(" ") && BeforeStored(l, BlankSpellings(["", " "])) == ["", " "]
  {
    hide IsBlank, CanCreate;
    BlankTexts();
    LoneSpelling("");
    assert ["", " "][..1] == [""];
    assert BlankSpellings(["", " "]) == [""] + [" "];
    LoneBeforeStored(l, " ");
    assert ["", " "][1..] == [" "];
  }

  lemma EmptyLedger()
    ensures var l := Ledger([], 0, 0);
            Valid(l) && OnePer(l.rows, CanonicalOf) && OnePer(l.rows, Form) && Blanks(l.rows) == []
            && CanCreate(l, "") && CanCreate(l, " ")
  {}

  lemma FirstBlank()
    ensures var one := After(Ledger([], 0, 0), Upsert(""));
            Valid(one) && CanCreate(one, " ")
  {
    hide CanonicalOf, IsBlank, FindContact;
    BlankTexts();
    BlankFindsNothing([], "");
    var l := Ledger([], 0, 0);
    assert Create(l, Blank(l, "")).rows == [Blank(l, "")];
  }

  /** Two blank spellings leave two rows that compare equal, whether one operation brings them or two. */
  lemma BlanksBreakUniqueness(column: Column)
    ensures !OnePer(After(Ledger([], 0, 0), Increment(["", " "], column)).rows, CanonicalOf)
    ensures !OnePer(Run(Ledger([], 0, 0), [Upsert(""), Upsert(" ")]).rows, CanonicalOf)
  {
    hide CanonicalOf, IsBlank, After, OnePer, CanCreate, Valid, BeforeStored, BlankSpellings, Blanks;
    var l, ops := Ledger([], 0, 0), [Upsert(""), Upsert(" ")];
    var one := After(l, Upsert(""));
    EmptyLedger();
    BothBlank(l);
    StepKeepsOnePerAddress(l, Increment(["", " "], column));
    StepKeepsOnePerAddress(l, Upsert(""));
    OperationAddsBlanks(l, Upsert(""));
    FirstBlank();
    LoneSpelling("");
    LoneSpelling(" ");
    LoneBeforeStored(l, "");
    LoneBeforeStored(one, " ");
    StepKeepsOnePerAddress(one, Upsert(" "));
    assert ops[..1] == [Upsert("")] && [Upsert("")][..0] == [];
    assert Run(l, [Upsert("")]) == one;
    assert Run(l, ops) == After(one, Upsert(" "));
  }

  // ---------------------------------------------------------------- a batch and its increments

  /** Some blank address of the batch is already stored as it is spelled. */
  predicate BlankStored(l: Ledger, batch: seq<string>) {
    exists i :: 0 <= i < |batch| && IsBlank(batch[i]) && !CanCreate(l, batch[i])
  }

  /** No blank spelling stands twice in the batch. */
  predicate BlanksOnce(batch: seq<string>) {
    forall i, j :: 0 <= i < j < |batch| && IsBlank(batch[j]) ==> batch[i] != batch[j]
  }

  /** Both are refused, or both leave the same ledger but for its timestamps. */
  predicate SameOutcome(a: Option<Ledger>, b: Option<Ledger>) {
    (a.Some? <==> b.Some?) && (a.Some? && b.Some? ==> EraseAll(a.value) == EraseAll(b.value))
  }

  lemma GroupsInBatch(rows: seq<Contact>, batch: seq<string>, i: nat)
    requires i < |Groups(rows, batch)|
    ensures Groups(rows, batch)[i].email in batch
  {
    hide Resolver, Merge, Tally, Grouped;
    MergeTally(batch, Resolver(rows));
    GroupedMeans(batch, Resolver(rows));
  }

  lemma StoredStopsBatch(l: Ledger, batch: seq<string>, column: Column)
    requires Valid(l) && OnePer(l.rows, Form) && BlankStored(l, batch)
    ensures Incremented(l, batch, column).None?
  {
    hide Finder, Groups, WriteEach, Valid, OnePer, Form, IsBlank, CanCreate, Emails;
    var groups := Groups(l.rows, batch);
    var i :| 0 <= i < |batch| && IsBlank(batch[i]) && !CanCreate(l, batch[i]);
    ValidIsDistinct(l);
    GroupsBlanks(l.rows, batch);
    if Incremented(l, batch, column).Some? {
      WriteEachCreates(l, Finder(l.rows), groups, column, l.clock);
      assert batch[i] in BlankSpellings(batch);
      BlankCreated(l, groups, batch[i]);
    }
  }

  /** A batch is refused exactly when it holds a blank address that is stored. */
  lemma BatchExactly(l: Ledger, batch: seq<string>, column: Column)
    requires Valid(l) && OnePer(l.rows, Form)
    ensures Incremented(l, batch, column).Some? <==> !BlankStored(l, batch)
    ensures Incremented(l, batch, column).Some? ==>
              EraseAll(Incremented(l, batch, column).value) == SingleSteps(EraseAll(l), batch, column, Form)
  {
    hide CanonicalOf, FindContact, Groups, WriteEach, Valid, OnePer, Form, IsBlank, CanCreate, Grouped;
    var groups, find := Groups(l.rows, batch), Finder(l.rows);
    ValidIsDistinct(l);
    GroupsByForm(l.rows, batch);
    if BlankStored(l, batch) {
      StoredStopsBatch(l, batch, column);
    } else {
      forall i | 0 <= i < |groups|
        ensures Finds(l.rows, groups[i].email, find(groups[i].email), Form)
      {
        GroupsInBatch(l.rows, batch, i);
        FormFinds(l, groups[i].email);
      }
      WriteEachIsSteps(l, find, groups, column, l.clock, Form);
      SameSteps(EraseAll(l), groups, Grouped(batch, Form), column, Form);
      GroupsAreSingles(EraseAll(l), batch, column, Form);
    }
  }

  /** After a write a blank spelling is free if it was and is not the one that was written. */
  lemma WriteLeavesFree(l: Ledger, held: Option<Contact>, email: string, column: Column, t: string)
    requires WriteFor(l, held, email, 1, column, l.clock).Some? && IsBlank(t) && (held.Some? ==> !IsBlank(email))
    ensures CanCreate(WriteFor(l, held, email, 1, column, l.clock).value, t) <==> CanCreate(l, t) && t != email
  {
    hide IsBlank, Patch;
    var r := WriteFor(l, held, email, 1, column, l.clock).value;
    match held
    case None =>
      PatchedEmail(Blank(l, email), column, 1, l.clock);
      assert r.rows[|l.rows|].email == email && forall i :: 0 <= i < |l.rows| ==> r.rows[i] == l.rows[i];
    case Some(c) =>
      forall i | 0 <= i < |l.rows|
        ensures r.rows[i].email == l.rows[i].email
      {
        PatchedEmail(l.rows[i], column, c.Count(column) + 1, l.clock);
      }
  }

  /** One increment is refused exactly when its address is blank and stored. */
  lemma OneExactly(l: Ledger, email: string, column: Column)
    requires Valid(l) && OnePer(l.rows, Form)
    ensures IncrementOne(l, email, column).Some? <==> (IsBlank(email) ==> CanCreate(l, email))
    ensures var r := IncrementOne(l, email, column);
            r.Some? ==>
              && Valid(r.value) && OnePer(r.value.rows, Form)
              && EraseAll(r.value) == Step(EraseAll(l), email, 1, column, Form)
  {
    hide CanonicalOf, FindContact, Valid, OnePer, Form, IsBlank, CanCreate, Step, Update;
    BlankFindsNothing(l.rows, email);
    var held := FindContact(l.rows, email);
    if IsBlank(email) ==> CanCreate(l, email) {
      FormFinds(l, email);
      match held
      case Some(c) => WriteUpdates(l, c, email, 1, column, l.clock, Form);
      case None => WriteCreates(l, email, 1, column, l.clock, Form);
    }
  }

  lemma EmptyBatch(l: Ledger)
    ensures !BlankStored(l, []) && BlanksOnce([])
  {}

  lemma OneMoreAddress(l: Ledger, before: seq<string>, email: string)
    ensures BlankStored(l, before + [email]) <==> BlankStored(l, before) || (IsBlank(email) && !CanCreate(l, email))
    ensures BlanksOnce(before + [email]) <==> BlanksOnce(before) && (IsBlank(email) ==> email !in before)
  {
    hide IsBlank, CanCreate;
    var batch := before + [email];
    assert batch[|before|] == email && forall i :: 0 <= i < |before| ==> batch[i] == before[i];
  }

  lemma IncrementLeavesFree(l: Ledger, email: string, column: Column, t: string)
    requires IncrementOne(l, email, column).Some? && IsBlank(t)
    ensures CanCreate(IncrementOne(l, email, column).value, t) <==> CanCreate(l, t) && t != email
  {
    hide FindContact, IsBlank, CanCreate, WriteFor;
    BlankFindsNothing(l.rows, email);
    WriteLeavesFree(l, FindContact(l.rows, email), email, column, t);
  }

  /** One by one, a batch is refused exactly when it holds a blank address that is stored or stands twice. */
  lemma {:induction false} OneByOneExactly(l: Ledger, batch: seq<string>, column: Column)
    requires Valid(l) && OnePer(l.rows, Form)
    ensures OneByOne(l, batch, column).Some? <==> !BlankStored(l, batch) && BlanksOnce(batch)
    ensures var r := OneByOne(l, batch, column);
            r.Some? ==>
              && Valid(r.value) && OnePer(r.value.rows, Form)
              && EraseAll(r.value) == SingleSteps(EraseAll(l), batch, column, Form)
              && forall t :: IsBlank(t) ==> (CanCreate(r.value, t) <==> CanCreate(l, t) && t !in batch)
  {
    hide Valid, OnePer, Form, IsBlank, CanCreate, Step, IncrementOne, BlankStored, BlanksOnce;
    if batch == [] {
      EmptyBatch(l);
    } else {
      var n := |batch| - 1;
      var before, email := batch[..n], batch[n];
      OneByOneExactly(l, before, column);
      OneMoreAddress(l, before, email);
      assert before + [email] == batch;
      if OneByOne(l, before, column).Some? {
        var m := OneByOne(l, before, column).value;
        OneExactly(m, email, column);
        if IncrementOne(m, email, column).Some? {
          forall t | IsBlank(t)
            ensures CanCreate(IncrementOne(m, email, column).value, t) <==> CanCreate(l, t) && t !in batch
          {
            IncrementLeavesFree(m, email, column, t);
          }
        }
      }
    }
  }

  /** On every ledger with one row per form, a batch does what its increments do one by one if and only
      if it holds a blank address that is stored, so that both are refused, or none that stands twice. */
  lemma BatchIsOneByOneExactly(l: Ledger, batch: seq<string>, column: Column)
    requires Valid(l) && OnePer(l.rows, Form)
    ensures SameOutcome(Incremented(l, batch, column), OneByOne(l, batch, column)) <==>
              BlankStored(l, batch) || BlanksOnce(batch)
  {
    hide Valid, OnePer, Form, BlankStored, BlanksOnce, Incremented, OneByOne, SingleSteps, EraseAll;
    BatchExactly(l, batch, column);
    OneByOneExactly(l, batch, column);
  }
}
