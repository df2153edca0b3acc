/** What counter writes, find-or-create and suppression do to the columns of the contacts table
    (src/db/contacts.ts), said of the rows themselves. */
module CounterMeaning {
  import opened Wrappers
  import Text
  import opened EmailAddress
  import opened OrderedMap
  import opened CounterSteps
  import opened ContactLedger
  import opened Suppression
  import opened ContactRuns
  import Sorting

  // ---------------------------------------------------------------- one counted row

  /** `n` more in one column. Only a bounce can suppress, and does from the third on; only a send is
      stamped as sent to. The update is as late as the stamp at least. */
  ghost predicate Counted(before: Contact, after: Contact, column: Column, n: nat, stamp: nat) {
    && after.id == before.id && after.email == before.email
    && after.sends == before.sends + (if column == Sends then n else 0)
    && after.bounces == before.bounces + (if column == Bounces then n else 0)
    && after.complaints == before.complaints + (if column == Complaints then n else 0)
    && (column == Bounces ==> (after.suppressed <==> before.suppressed || after.bounces >= 3))
    && (column != Bounces ==> after.suppressed == before.suppressed)
    && (column == Sends ==> after.lastSentAt == Some(stamp))
    && (column != Sends ==> after.lastSentAt == before.lastSentAt)
    && after.updatedAt >= stamp
  }

  /** The same from nothing: all counters zero, not suppressed, never sent to. */
  ghost predicate NewlyCounted(after: Contact, email: string, column: Column, n: nat, stamp: nat) {
    Counted(Contact(after.id, email, 0, 0, 0, None, false, 0), after, column, n, stamp)
  }

  lemma PatchIsCounted(c: Contact, column: Column, n: nat, stamp: nat, at: nat)
    requires at >= stamp
    ensures Counted(c, Patch(c, column, c.Count(column) + n, stamp).(updatedAt := at), column, n, stamp)
  {}

  lemma NewPatchIsCounted(l: Ledger, email: string, column: Column, n: nat, stamp: nat)
    requires l.clock >= stamp
    ensures NewlyCounted(Patch(Blank(l, email), column, n, stamp), email, column, n, stamp)
  {}

  // ---------------------------------------------------------------- how often an address stands in a batch

  function Number(batch: seq<string>, p: string -> bool): (n: nat) {
    if batch == [] then 0
    else Number(batch[..|batch| - 1], p) + if p(batch[|batch| - 1]) then 1 else 0
  }

  lemma {:induction false} NumberAgrees(batch: seq<string>, p: string -> bool, q: string -> bool)
    requires forall e :: e in batch ==> p(e) == q(e)
    ensures Number(batch, p) == Number(batch, q)
  {
    if batch == [] {
    } else {
      NumberAgrees(batch[..|batch| - 1], p, q);
    }
  }

  lemma {:induction false} NumberPositive(batch: seq<string>, p: string -> bool)
    ensures Number(batch, p) > 0 <==> exists e :: e in batch && p(e)
  {
    if batch == [] {
    } else {
      var n := |batch| - 1;
      assert batch == batch[..n] + [batch[n]];
      NumberPositive(batch[..n], p);
    }
  }

  function Keyed<K(==)>(keyOf: string -> K, key: K): string -> bool {
    (e: string) => keyOf(e) == key
  }

  /** Counting once more leaves the other entries, and every key there is. */
  lemma AddedCounts<K>(m: seq<Entry<K>>, key: K, email: string)
    ensures forall k :: HasEntry(Add(m, key, email, 1), k) <==> HasEntry(m, k) || k == key
    ensures var r := Add(m, key, email, 1);
            forall i :: 0 <= i < |r| ==>
              if i < |m| then r[i].key == m[i].key && r[i].count == m[i].count + (if m[i].key == key then 1 else 0)
              else r[i].key == key && r[i].count == 1 && !HasEntry(m, key)
  {
    var r := Add(m, key, email, 1);
    forall k
      ensures HasEntry(r, k) <==> HasEntry(m, k) || k == key
    {
      if HasEntry(m, k) {
        var i :| 0 <= i < |m| && m[i].key == k;
        assert r[i].key == k;
      }
      if k == key && !HasEntry(m, key) {
        assert r[|m|].key == k;
      }
    }
  }

  /** The count of a group is how many addresses of the batch have its key. */
  lemma {:induction false} GroupedCounts<K>(batch: seq<string>, keyOf: string -> K)
    ensures forall i :: 0 <= i < |Grouped(batch, keyOf)| ==>
              Grouped(batch, keyOf)[i].count == Number(batch, Keyed(keyOf, Grouped(batch, keyOf)[i].key))
    ensures forall e :: e in batch ==> HasEntry(Grouped(batch, keyOf), keyOf(e))
    ensures forall key :: !HasEntry(Grouped(batch, keyOf), key) ==> Number(batch, Keyed(keyOf, key)) == 0
  {
    if batch == [] {
    } else {
      var n := |batch| - 1;
      var before, email := Grouped(batch[..n], keyOf), batch[n];
      GroupedCounts(batch[..n], keyOf);
      var after := Add(before, keyOf(email), email, 1);
      assert after == Grouped(batch, keyOf);
      AddedCounts(before, keyOf(email), email);
      hide Add, HasEntry;
      forall e | e in batch
        ensures HasEntry(after, keyOf(e))
      {
        assert e in batch[..n] || e == email;
      }
      forall key
        ensures Number(batch, Keyed(keyOf, key))
             == Number(batch[..n], Keyed(keyOf, key)) + if keyOf(email) == key then 1 else 0
      {}
    }
  }

  // ---------------------------------------------------------------- the writes of a batch

  /** Every group is of the row it found, or of an address that found none. */
  ghost predicate Planned(l: Ledger, find: Find, entries: seq<Entry<Key>>) {
    && DistinctEntries(entries)
    && forall j :: 0 <= j < |entries| ==>
         match find(entries[j].email)
         case Some(c) => c in l.rows && entries[j].key == RowKey(c.id)
         case None => entries[j].key.NewKey?
  }

  ghost predicate OldCounted(l: Ledger, r: Ledger, find: Find, entries: seq<Entry<Key>>, column: Column, stamp: nat) {
    && |r.rows| >= |l.rows|
    && (forall i, j :: 0 <= i < |l.rows| && 0 <= j < |entries| && find(entries[j].email) == Some(l.rows[i]) ==>
          Counted(l.rows[i], r.rows[i], column, entries[j].count, stamp))
    && (forall i ::
      0 <= i < |l.rows| && (forall j :: 0 <= j < |entries| ==> find(entries[j].email) != Some(l.rows[i])) ==>
          r.rows[i] == l.rows[i])
  }

  /** `c` is the new row of group `e`. */
  ghost predicate NewRowOf(c: Contact, e: Entry<Key>, find: Find, column: Column, stamp: nat) {
    find(e.email).None? && NewlyCounted(c, e.email, column, e.count, stamp)
  }

  ghost predicate NewCounted(l: Ledger, r: Ledger, find: Find, entries: seq<Entry<Key>>, column: Column, stamp: nat) {
    && |r.rows| >= |l.rows|
    && (forall i :: |l.rows| <= i < |r.rows| ==>
          exists j :: 0 <= j < |entries| && NewRowOf(r.rows[i], entries[j], find, column, stamp))
    && (forall j :: 0 <= j < |entries| && find(entries[j].email).None? ==>
          exists i :: |l.rows| <= i < |r.rows| && NewRowOf(r.rows[i], entries[j], find, column, stamp))
  }

  lemma DifferentRows(l: Ledger, i: nat, k: nat)
    requires Valid(l) && i < |l.rows| && k < |l.rows| && i != k
    ensures l.rows[i] != l.rows[k]
  {
    assert l.rows[i].id != l.rows[k].id;
  }

  /** A group that found a row is the only one of that row. */
  lemma OneGroupPerRow(l: Ledger, find: Find, entries: seq<Entry<Key>>, j: nat, c: Contact)
    requires Planned(l, find, entries) && j < |entries| - 1 && find(entries[|entries| - 1].email) == Some(c)
    ensures find(entries[j].email) != Some(c)
  {
    assert entries[j].key != entries[|entries| - 1].key;
  }

  lemma UpdateTicks(m: Ledger, id: nat, patch: Contact -> Contact)
    ensures Update(m, id, patch).clock > m.clock
  {}

  /** The row that a write in place leaves. */
  lemma RowWritten(m: Ledger, k: nat, email: string, column: Column, n: nat, stamp: nat) returns (next: Contact)
    requires Valid(m) && k < |m.rows| && m.clock >= stamp
    ensures var r := WriteFor(m, Some(m.rows[k]), email, n, column, stamp).value;
            && Valid(r) && r.rows == m.rows[k := next] && Counted(m.rows[k], next, column, n, stamp)
            && r.clock > m.clock
  {
    hide Counted, Patch, Valid, Update;
    var c := m.rows[k];
    next := PatchTo(column, c.Count(column) + n, stamp)(c).(updatedAt := m.clock);
    UpdateAt(m, k, PatchTo(column, c.Count(column) + n, stamp));
    UpdateTicks(m, c.id, PatchTo(column, c.Count(column) + n, stamp));
    PatchIsCounted(c, column, n, stamp, m.clock);
    WriteAddsToTotal(m, Some(c), email, n, column, stamp);
  }

  /** Writing one row in place counts it and leaves the others. */
  lemma OldStep(l: Ledger, m: Ledger, r: Ledger, find: Find, entries: seq<Entry<Key>>, column: Column, stamp: nat,
                k: nat)
    requires Valid(l) && entries != [] && Planned(l, find, entries) && k < |l.rows|
    requires find(entries[|entries| - 1].email) == Some(l.rows[k])
    requires OldCounted(l, m, find, entries[..|entries| - 1], column, stamp)
    requires |r.rows| == |m.rows| && forall i :: 0 <= i < |l.rows| && i != k ==> r.rows[i] == m.rows[i]
    requires Counted(l.rows[k], r.rows[k], column, entries[|entries| - 1].count, stamp)
    ensures OldCounted(l, r, find, entries, column, stamp)
  {
    hide Counted, Valid, Planned;
    var n := |entries| - 1;
    var before := entries[..n];
    assert forall j :: 0 <= j < n ==> before[j] == entries[j];
    forall i | 0 <= i < |l.rows| && i != k
      ensures l.rows[i] != l.rows[k]
    {
      DifferentRows(l, i, k);
    }
    forall j | 0 <= j < n
      ensures find(entries[j].email) != Some(l.rows[k])
    {
      OneGroupPerRow(l, find, entries, j, l.rows[k]);
    }
  }

  lemma NotYetWritten(l: Ledger, m: Ledger, find: Find, entries: seq<Entry<Key>>, column: Column, stamp: nat, k: nat)
    requires entries != [] && Planned(l, find, entries) && k < |l.rows|
    requires find(entries[|entries| - 1].email) == Some(l.rows[k])
    requires OldCounted(l, m, find, entries[..|entries| - 1], column, stamp)
    ensures m.rows[k] == l.rows[k]
  {
    hide Counted, Planned;
    var before := entries[..|entries| - 1];
    forall j | 0 <= j < |before|
      ensures find(before[j].email) != Some(l.rows[k])
    {
      OneGroupPerRow(l, find, entries, j, l.rows[k]);
    }
  }

  lemma NewKept(l: Ledger, m: Ledger, r: Ledger, find: Find, entries: seq<Entry<Key>>, column: Column, stamp: nat)
    requires entries != [] && find(entries[|entries| - 1].email).Some?
    requires NewCounted(l, m, find, entries[..|entries| - 1], column, stamp)
    requires |r.rows| == |m.rows| && forall i :: |l.rows| <= i < |m.rows| ==> r.rows[i] == m.rows[i]
    ensures NewCounted(l, r, find, entries, column, stamp)
  {
    hide NewRowOf;
    var n := |entries| - 1;
    var before := entries[..n];
    forall i | |l.rows| <= i < |r.rows|
      ensures exists j :: 0 <= j < |entries| && NewRowOf(r.rows[i], entries[j], find, column, stamp)
    {
      var j :| 0 <= j < n && NewRowOf(m.rows[i], before[j], find, column, stamp);
      assert NewRowOf(r.rows[i], entries[j], find, column, stamp);
    }
    forall j | 0 <= j < |entries| && find(entries[j].email).None?
      ensures exists i :: |l.rows| <= i < |r.rows| && NewRowOf(r.rows[i], entries[j], find, column, stamp)
    {
      assert before[j] == entries[j];
      var i :| |l.rows| <= i < |m.rows| && NewRowOf(m.rows[i], before[j], find, column, stamp);
      assert NewRowOf(r.rows[i], entries[j], find, column, stamp);
    }
  }

  /** Adding one row leaves the others. */
  lemma OldKept(l: Ledger, m: Ledger, r: Ledger, find: Find, entries: seq<Entry<Key>>, column: Column, stamp: nat)
    requires entries != [] && find(entries[|entries| - 1].email).None?
    requires OldCounted(l, m, find, entries[..|entries| - 1], column, stamp)
    requires |r.rows| >= |m.rows| && forall i :: 0 <= i < |l.rows| ==> r.rows[i] == m.rows[i]
    ensures OldCounted(l, r, find, entries, column, stamp)
  {
    hide Counted;
    var before := entries[..|entries| - 1];
    assert forall j :: 0 <= j < |before| ==> before[j] == entries[j];
  }

  lemma NewStep(l: Ledger, m: Ledger, r: Ledger, find: Find, entries: seq<Entry<Key>>, column: Column, stamp: nat)
    requires entries != [] && NewCounted(l, m, find, entries[..|entries| - 1], column, stamp)
    requires |r.rows| == |m.rows| + 1 && forall i :: 0 <= i < |m.rows| ==> r.rows[i] == m.rows[i]
    requires NewRowOf(r.rows[|m.rows|], entries[|entries| - 1], find, column, stamp)
    ensures NewCounted(l, r, find, entries, column, stamp)
  {
    hide NewRowOf;
    var n := |entries| - 1;
    var before := entries[..n];
    forall i | |l.rows| <= i < |r.rows|
      ensures exists j :: 0 <= j < |entries| && NewRowOf(r.rows[i], entries[j], find, column, stamp)
    {
      if i < |m.rows| {
        var j :| 0 <= j < n && NewRowOf(m.rows[i], before[j], find, column, stamp);
        assert NewRowOf(r.rows[i], entries[j], find, column, stamp);
      }
    }
    forall j | 0 <= j < |entries| && find(entries[j].email).None?
      ensures exists i :: |l.rows| <= i < |r.rows| && NewRowOf(r.rows[i], entries[j], find, column, stamp)
    {
      if j < n {
        assert before[j] == entries[j];
        var i :| |l.rows| <= i < |m.rows| && NewRowOf(m.rows[i], before[j], find, column, stamp);
        assert NewRowOf(r.rows[i], entries[j], find, column, stamp);
      }
    }
  }

  lemma RowAdded(m: Ledger, email: string, column: Column, n: nat, stamp: nat) returns (c: Contact)
    requires Valid(m) && CanCreate(m, email) && m.clock >= stamp
    ensures var r := WriteFor(m, None, email, n, column, stamp).value;
            Valid(r) && r.rows == m.rows + [c] && NewlyCounted(c, email, column, n, stamp) && r.clock > m.clock
  {
    hide Counted, Patch, Valid, CanCreate;
    c := Patch(Blank(m, email), column, n, stamp);
    NewPatchIsCounted(m, email, column, n, stamp);
    WriteAddsToTotal(m, None, email, n, column, stamp);
  }

  lemma NewRowIs(c: Contact, e: Entry<Key>, find: Find, column: Column, stamp: nat)
    requires find(e.email).None? && NewlyCounted(c, e.email, column, e.count, stamp)
    ensures NewRowOf(c, e, find, column, stamp)
  {}

  lemma NothingWritten(l: Ledger, find: Find, column: Column, stamp: nat)
    ensures OldCounted(l, l, find, [], column, stamp) && NewCounted(l, l, find, [], column, stamp)
  {}

  lemma PlannedBefore(l: Ledger, find: Find, entries: seq<Entry<Key>>)
    requires entries != [] && Planned(l, find, entries)
    ensures Planned(l, find, entries[..|entries| - 1])
    ensures var c := find(entries[|entries| - 1].email); c.Some? ==> c.value in l.rows
  {}

  lemma {:induction false} GroupsCounted(l: Ledger, find: Find, entries: seq<Entry<Key>>, column: Column, stamp: nat)
    requires Valid(l) && Planned(l, find, entries) && WriteEach(l, find, entries, column, stamp).Some?
    requires l.clock >= stamp
    ensures var r := WriteEach(l, find, entries, column, stamp).value;
            |r.rows| >= |l.rows| && Valid(r) && r.clock >= stamp
            && OldCounted(l, r, find, entries, column, stamp)
            && NewCounted(l, r, find, entries, column, stamp)
  {
    hide Valid, Counted, NewRowOf, NewlyCounted, Planned, OldCounted, NewCounted, Update, Create, CanCreate;
    if entries == [] {
      NothingWritten(l, find, column, stamp);
    } else {
      var n := |entries| - 1;
      var e := entries[n];
      PlannedBefore(l, find, entries);
      GroupsCounted(l, find, entries[..n], column, stamp);
      var m := WriteEach(l, find, entries[..n], column, stamp).value;
      var r := WriteEach(l, find, entries, column, stamp).value;
      match find(e.email)
      case Some(c) =>
        var k :| 0 <= k < |l.rows| && l.rows[k] == c;
        NotYetWritten(l, m, find, entries, column, stamp, k);
        var next := RowWritten(m, k, e.email, column, e.count, stamp);
        OldStep(l, m, r, find, entries, column, stamp, k);
        NewKept(l, m, r, find, entries, column, stamp);
      case None =>
        var c := RowAdded(m, e.email, column, e.count, stamp);
        OldKept(l, m, r, find, entries, column, stamp);
        NewRowIs(c, e, find, column, stamp);
        NewStep(l, m, r, find, entries, column, stamp);
    }
  }

  // ---------------------------------------------------------------- what a batch does to every row

  /** The address resolves to row `c`. */
  function Resolving(rows: seq<Contact>, c: Contact): string -> bool {
    (e: string) => FindContact(rows, e) == Some(c)
  }

  /** The address resolves to no row and is of this form. */
  function Unfound(rows: seq<Contact>, form: string): string -> bool {
    (e: string) => FindContact(rows, e).None? && Form(e) == form
  }

  /** Row `before` after a batch: as it was if no address of the batch resolves to it, and else counted up by
      how many do. */
  ghost predicate OldRowMeans(rows: seq<Contact>, before: Contact, after: Contact, batch: seq<string>, column: Column,
                              stamp: nat) {
    var n := Number(batch, Resolving(rows, before));
    if n == 0 then after == before else Counted(before, after, column, n, stamp)
  }

  /** A row that the batch added: of an address that found none, counted by how many share its form. */
  ghost predicate NewRowMeans(rows: seq<Contact>, after: Contact, batch: seq<string>, column: Column, stamp: nat) {
    && after.email in batch && FindContact(rows, after.email).None?
    && NewlyCounted(after, after.email, column, Number(batch, Unfound(rows, Form(after.email))), stamp)
  }

  lemma ResolverTells(l: Ledger, e: string, key: Key)
    requires Valid(l) && Resolver(l.rows)(e) == key
    ensures key.RowKey? ==> exists c :: c in l.rows && FindContact(l.rows, e) == Some(c) && key == RowKey(c.id)
    ensures key.NewKey? ==> FindContact(l.rows, e).None? && key == NewKey(Form(e))
  {
    hide FindContact, Form, CanonicalOf, NewText;
    ResolverMeans(l.rows, e);
    FindContactMeans(l.rows, e);
    NewTextIsForm(e);
  }

  lemma KeyOfRow(l: Ledger, e: string, c: Contact)
    requires Valid(l) && c in l.rows
    ensures Keyed(Resolver(l.rows), RowKey(c.id))(e) == Resolving(l.rows, c)(e)
  {
    hide FindContact, Form, CanonicalOf, NewText, Resolver;
    ResolverMeans(l.rows, e);
    FindContactMeans(l.rows, e);
    var found := FindContact(l.rows, e);
    if found.Some? && found.value.id == c.id {
      SameIdSameRow(l.rows, found.value, c);
    }
  }

  lemma KeyOfForm(l: Ledger, e: string, form: string)
    ensures Keyed(Resolver(l.rows), NewKey(form))(e) == Unfound(l.rows, form)(e)
  {
    hide FindContact, Form, CanonicalOf, NewText, Resolver;
    ResolverMeans(l.rows, e);
    NewTextIsForm(e);
  }

  lemma RowNumber(l: Ledger, batch: seq<string>, c: Contact)
    requires Valid(l) && c in l.rows
    ensures Number(batch, Keyed(Resolver(l.rows), RowKey(c.id))) == Number(batch, Resolving(l.rows, c))
  {
    hide Number, Resolver, FindContact, Valid, Keyed, Resolving;
    forall e | e in batch {
      KeyOfRow(l, e, c);
    }
    NumberAgrees(batch, Keyed(Resolver(l.rows), RowKey(c.id)), Resolving(l.rows, c));
  }

  lemma FormNumber(l: Ledger, batch: seq<string>, form: string)
    ensures Number(batch, Keyed(Resolver(l.rows), NewKey(form))) == Number(batch, Unfound(l.rows, form))
  {
    hide Number, Resolver, FindContact, Form, Keyed, Unfound;
    forall e | e in batch {
      KeyOfForm(l, e, form);
    }
    NumberAgrees(batch, Keyed(Resolver(l.rows), NewKey(form)), Unfound(l.rows, form));
  }

  /** What the groups of a batch are. */
  lemma GroupsTell(l: Ledger, batch: seq<string>)
    requires Valid(l)
    ensures var groups := Groups(l.rows, batch);
            && Planned(l, Finder(l.rows), groups)
            && (forall j :: 0 <= j < |groups| ==>
                  && groups[j].email in batch && groups[j].key == Resolver(l.rows)(groups[j].email)
                  && groups[j].count == Number(batch, Keyed(Resolver(l.rows), groups[j].key)))
            && forall e :: e in batch ==> HasEntry(groups, Resolver(l.rows)(e))
  {
    hide Resolver, Grouped, Merge, Tally, Number, HasEntry, FindContact, Valid, Keyed;
    var groups := Groups(l.rows, batch);
    MergeTally(batch, Resolver(l.rows));
    GroupedMeans(batch, Resolver(l.rows));
    GroupedCounts(batch, Resolver(l.rows));
    SumGrouped(batch, Resolver(l.rows));
    forall j | 0 <= j < |groups|
      ensures match FindContact(l.rows, groups[j].email)
              case Some(c) => c in l.rows && groups[j].key == RowKey(c.id)
              case None => groups[j].key.NewKey?
    {
      FindContactMeans(l.rows, groups[j].email);
      ResolverMeans(l.rows, groups[j].email);
    }
  }

  lemma ResolvingIs(rows: seq<Contact>, e: string, c: Contact)
    ensures Resolving(rows, c)(e) <==> FindContact(rows, e) == Some(c)
  {
    hide FindContact;
  }

  lemma OldRow(l: Ledger, r: Ledger, batch: seq<string>, column: Column, i: nat)
    requires Valid(l) && i < |l.rows|
    requires OldCounted(l, r, Finder(l.rows), Groups(l.rows, batch), column, l.clock)
    ensures OldRowMeans(l.rows, l.rows[i], r.rows[i], batch, column, l.clock)
  {
    hide Resolver, Groups, Number, FindContact, Valid, Counted, Planned, Resolving;
    var groups, c := Groups(l.rows, batch), l.rows[i];
    GroupsTell(l, batch);
    RowNumber(l, batch, c);
    NumberPositive(batch, Resolving(l.rows, c));
    if j :| 0 <= j < |groups| && Finder(l.rows)(groups[j].email) == Some(c) {
      ResolverMeans(l.rows, groups[j].email);
      ResolvingIs(l.rows, groups[j].email, c);
    } else if e :| e in batch && Resolving(l.rows, c)(e) {
      ResolvingIs(l.rows, e, c);
      ResolverMeans(l.rows, e);
      var j :| 0 <= j < |groups| && groups[j].key == Resolver(l.rows)(e);
      KeyOfRow(l, groups[j].email, c);
      ResolvingIs(l.rows, groups[j].email, c);
      assert false;
    }
  }

  lemma NewRowOfGroup(l: Ledger, batch: seq<string>, column: Column, j: nat, c: Contact)
    requires Valid(l) && j < |Groups(l.rows, batch)|
    requires NewRowOf(c, Groups(l.rows, batch)[j], Finder(l.rows), column, l.clock)
    ensures NewRowMeans(l.rows, c, batch, column, l.clock)
  {
    hide Resolver, Groups, Number, FindContact, Valid, Planned, Unfound, Form, HasEntry, Keyed;
    var e := Groups(l.rows, batch)[j];
    GroupsTell(l, batch);
    ResolverTells(l, e.email, e.key);
    FormNumber(l, batch, Form(c.email));
    assert c.email == e.email;
  }

  lemma NewRow(l: Ledger, r: Ledger, batch: seq<string>, column: Column, i: nat)
    requires Valid(l) && |l.rows| <= i < |r.rows|
    requires NewCounted(l, r, Finder(l.rows), Groups(l.rows, batch), column, l.clock)
    ensures NewRowMeans(l.rows, r.rows[i], batch, column, l.clock)
  {
    hide Groups, NewRowOf, NewRowMeans, Valid;
    var groups, c := Groups(l.rows, batch), r.rows[i];
    var j :| 0 <= j < |groups| && NewRowOf(c, groups[j], Finder(l.rows), column, l.clock);
    NewRowOfGroup(l, batch, column, j, c);
  }

  lemma NewRowThere(l: Ledger, r: Ledger, batch: seq<string>, column: Column, e: string) returns (i: nat)
    requires Valid(l) && e in batch && FindContact(l.rows, e).None?
    requires NewCounted(l, r, Finder(l.rows), Groups(l.rows, batch), column, l.clock)
    ensures |l.rows| <= i < |r.rows| && Form(r.rows[i].email) == Form(e)
  {
    hide Resolver, Groups, Number, FindContact, Valid, Planned, Form;
    var groups := Groups(l.rows, batch);
    GroupsTell(l, batch);
    var j :| 0 <= j < |groups| && groups[j].key == Resolver(l.rows)(e);
    ResolverMeans(l.rows, e);
    ResolverTells(l, e, groups[j].key);
    ResolverTells(l, groups[j].email, groups[j].key);
    i :| |l.rows| <= i < |r.rows| && NewRowOf(r.rows[i], groups[j], Finder(l.rows), column, l.clock);
  }

  lemma BatchCounted(l: Ledger, batch: seq<string>, column: Column)
    requires Valid(l) && Incremented(l, batch, column).Some?
    ensures var r := Incremented(l, batch, column).value;
            |r.rows| >= |l.rows|
            && OldCounted(l, r, Finder(l.rows), Groups(l.rows, batch), column, l.clock)
            && NewCounted(l, r, Finder(l.rows), Groups(l.rows, batch), column, l.clock)
  {
    hide Groups, WriteEach, FindContact, Valid, Planned, OldCounted, NewCounted, HasEntry, Number, Resolver, Keyed;
    GroupsTell(l, batch);
    GroupsCounted(l, Finder(l.rows), Groups(l.rows, batch), column, l.clock);
  }

  /** A row that no address of the batch resolves to is untouched and every other is counted up by how many do;
      each form that found no row gets one, counted from nothing. */
  ghost predicate BatchCounts(before: seq<Contact>, after: seq<Contact>, batch: seq<string>, column: Column,
                              stamp: nat) {
    && |after| >= |before|
    && (forall i :: 0 <= i < |before| ==> OldRowMeans(before, before[i], after[i], batch, column, stamp))
    && (forall i :: |before| <= i < |after| ==> NewRowMeans(before, after[i], batch, column, stamp))
    && (forall e :: e in batch && FindContact(before, e).None? ==>
          exists i :: |before| <= i < |after| && Form(after[i].email) == Form(e))
  }

  /** A batch that is not refused, on any valid ledger. */
  lemma BatchMeans(l: Ledger, batch: seq<string>, column: Column)
    requires Valid(l) && Incremented(l, batch, column).Some?
    ensures BatchCounts(l.rows, Incremented(l, batch, column).value.rows, batch, column, l.clock)
  {
    hide Incremented, Groups, FindContact, Finder, Valid, Form, OldCounted, NewCounted, OldRowMeans, NewRowMeans;
    BatchCounted(l, batch, column);
    var r := Incremented(l, batch, column).value;
    forall i | 0 <= i < |l.rows|
      ensures OldRowMeans(l.rows, l.rows[i], r.rows[i], batch, column, l.clock)
    {
      OldRow(l, r, batch, column, i);
    }
    forall i | |l.rows| <= i < |r.rows|
      ensures NewRowMeans(l.rows, r.rows[i], batch, column, l.clock)
    {
      NewRow(l, r, batch, column, i);
    }
    forall e | e in batch && FindContact(l.rows, e).None?
      ensures exists i :: |l.rows| <= i < |r.rows| && Form(r.rows[i].email) == Form(e)
    {
      var i := NewRowThere(l, r, batch, column, e);
    }
  }

  /** One increment by itself. */
  lemma OneMeans(l: Ledger, email: string, column: Column)
    requires Valid(l) && IncrementOne(l, email, column).Some?
    ensures var r := IncrementOne(l, email, column).value;
            match FindContact(l.rows, email)
            case Some(c) =>
              |r.rows| == |l.rows| && forall i :: 0 <= i < |l.rows| ==>
                if l.rows[i] == c then Counted(c, r.rows[i], column, 1, l.clock) else r.rows[i] == l.rows[i]
            case None =>
              |r.rows| == |l.rows| + 1 && r.rows[..|l.rows|] == l.rows
              && NewlyCounted(r.rows[|l.rows|], email, column, 1, l.clock)
  {
    hide FindContact, Counted, Valid, Update, CanCreate;
    FindContactMeans(l.rows, email);
    match FindContact(l.rows, email)
    case Some(c) =>
      var k :| 0 <= k < |l.rows| && l.rows[k] == c;
      var next := RowWritten(l, k, email, column, 1, l.clock);
      forall i | 0 <= i < |l.rows| && i != k
        ensures l.rows[i] != c
      {
        DifferentRows(l, i, k);
      }
    case None =>
      var c := RowAdded(l, email, column, 1, l.clock);
  }

  // ---------------------------------------------------------------- find-or-create and suppression

  /** Only the flag of one row changes, and the instant of its update. */
  ghost predicate OnlyFlag(before: Contact, after: Contact, flag: bool, stamp: nat) {
    && after.id == before.id && after.email == before.email && after.suppressed == flag
    && after.sends == before.sends && after.bounces == before.bounces && after.complaints == before.complaints
    && after.lastSentAt == before.lastSentAt && after.updatedAt == stamp
  }

  /** A new row: all counters zero, never sent to. */
  ghost predicate NewRowIn(before: seq<Contact>, after: seq<Contact>, email: string, flag: bool, stamp: nat) {
    && |after| == |before| + 1 && after[..|before|] == before
    && var c := after[|before|];
    && c.email == email && c.suppressed == flag && c.updatedAt == stamp
    && c.sends == c.bounces == c.complaints == 0 && c.lastSentAt == None
  }

  /** Suppressing or unsuppressing sets the flag of the row the address resolves to and nothing else; an
      address that resolves to none gets a row in that state. */
  lemma SetSuppressedMeans(l: Ledger, email: string, flag: bool)
    requires Valid(l) && SetSuppressed(l, email, flag).Some?
    ensures var r := SetSuppressed(l, email, flag).value;
            match FindContact(l.rows, email)
            case Some(c) =>
              |r.rows| == |l.rows| && forall i :: 0 <= i < |l.rows| ==>
                if l.rows[i] == c then OnlyFlag(c, r.rows[i], flag, l.clock) else r.rows[i] == l.rows[i]
            case None => NewRowIn(l.rows, r.rows, email, flag, l.clock)
  {
    hide FindContact, CanCreate;
    FindContactMeans(l.rows, email);
    match FindContact(l.rows, email)
    case Some(c) =>
      var k :| 0 <= k < |l.rows| && l.rows[k] == c;
      UpdateAt(l, k, Suppress(flag));
      forall i | 0 <= i < |l.rows| && i != k
        ensures l.rows[i] != c
      {
        DifferentRows(l, i, k);
      }
    case None =>
  }

  /** Find-or-create never resets a row: it changes nothing where it finds one, and else adds one that is
      not suppressed. */
  lemma UpsertMeans(l: Ledger, email: string)
    requires UpsertContact(l, email).Some?
    ensures var r := UpsertContact(l, email).value;
            match FindContact(l.rows, email)
            case Some(_) => r == l
            case None => NewRowIn(l.rows, r.rows, email, false, l.clock)
  {
    hide FindContact, CanCreate;
  }

  ghost predicate AtLeastAsNew(c: Contact, d: Contact) {
    c.updatedAt > d.updatedAt || (c.updatedAt == d.updatedAt && c.id >= d.id)
  }

  /** The first of the sorted rows is the newest of them. */
  lemma FirstAsNew(rows: seq<Contact>, keep: Contact -> bool)
    ensures var r := First(Sorting.Sort(Select(rows, keep), NewestFirst));
            && (r.Some? ==> r.value in rows && keep(r.value) && forall d :: d in rows && keep(d) ==>
              AtLeastAsNew(r.value, d))
            && (r.None? ==> forall d :: d in rows ==> !keep(d))
  {
    hide Select, Sorting.Sort;
    FirstIsNewest(rows, keep);
  }

  ghost predicate PickedFrom(rows: seq<Contact>, email: string, c: Contact) {
    && c in rows
    && (forall d :: d in rows && d.email == Text.Trim(email) ==> c.email == d.email && AtLeastAsNew(c, d))
    && (c.email != Text.Trim(email) ==> CanonicalOf(c.email) == CanonicalOf(email))
    && (c.email != Text.Trim(email) ==>
          forall d :: d in rows && CanonicalOf(d.email) == CanonicalOf(email) ==> AtLeastAsNew(c, d))
  }

  lemma PickedSpelled(rows: seq<Contact>, email: string, c: Contact)
    requires First(Sorting.Sort(Select(rows, SpelledAs(Text.Trim(email))), NewestFirst)) == Some(c)
    ensures PickedFrom(rows, email, c)
  {
    hide CanonicalOf, Text.Trim, Select, Sorting.Sort, NewestFirst, First, AtLeastAsNew;
    FirstAsNew(rows, SpelledAs(Text.Trim(email)));
  }

  lemma PickedAddressed(rows: seq<Contact>, email: string, c: Contact)
    requires First(Sorting.Sort(Select(rows, SpelledAs(Text.Trim(email))), NewestFirst)).None?
    requires First(Sorting.Sort(Select(rows, AddressedAs(CanonicalOf(Text.Trim(email)))), NewestFirst)) == Some(c)
    ensures PickedFrom(rows, email, c)
  {
    hide CanonicalOf, Text.Trim, Select, Sorting.Sort, NewestFirst, First, AtLeastAsNew;
    hide CanonicalSender;
    var spelled, wanted := Text.Trim(email), CanonicalOf(Text.Trim(email));
    assert wanted == CanonicalOf(email) by { CanonicalOfTrim(email); }
    assert forall d :: d in rows ==> d.email != spelled by { FirstAsNew(rows, SpelledAs(spelled)); }
    FirstAsNew(rows, AddressedAs(wanted));
  }

  lemma NonePicked(rows: seq<Contact>, email: string)
    requires First(Sorting.Sort(Select(rows, SpelledAs(Text.Trim(email))), NewestFirst)).None?
    requires First(Sorting.Sort(Select(rows, AddressedAs(CanonicalOf(Text.Trim(email)))), NewestFirst)).None?
    ensures forall d :: d in rows ==> d.email != Text.Trim(email) && CanonicalOf(d.email) != CanonicalOf(email)
  {
    hide CanonicalOf, Text.Trim, Select, Sorting.Sort, NewestFirst, First, AtLeastAsNew;
    CanonicalOfTrim(email);
    FirstAsNew(rows, SpelledAs(Text.Trim(email)));
    FirstAsNew(rows, AddressedAs(CanonicalOf(Text.Trim(email))));
  }

  /** Which row an address resolves to: the newest that is spelled as it is, trimmed; else the newest of its
      canonical form; of rows updated at one instant the one with the larger id; a blank one to none. */
  lemma FindContactPicks(rows: seq<Contact>, email: string)
    ensures IsBlank(email) ==> FindContact(rows, email).None?
    ensures FindContact(rows, email).None? && !IsBlank(email) ==>
              forall d :: d in rows ==> d.email != Text.Trim(email) && CanonicalOf(d.email) != CanonicalOf(email)
    ensures FindContact(rows, email).Some? ==> PickedFrom(rows, email, FindContact(rows, email).value)
  {
    hide CanonicalOf, Text.Trim, Select, Sorting.Sort, NewestFirst, First, PickedFrom, SpelledAs, AddressedAs;
    var exact := First(Sorting.Sort(Select(rows, SpelledAs(Text.Trim(email))), NewestFirst));
    var other := First(Sorting.Sort(Select(rows, AddressedAs(CanonicalOf(Text.Trim(email)))), NewestFirst));
    if !IsBlank(email) {
      if exact.Some? {
        PickedSpelled(rows, email, exact.value);
      } else if other.Some? {
        PickedAddressed(rows, email, other.value);
      } else {
        NonePicked(rows, email);
      }
    }
  }
}
