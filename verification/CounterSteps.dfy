/** Counter increments on a contact ledger whose rows are known by the form two addresses are
    compared in, with the timestamps erased. `canon` maps an address to that form. */
module CounterSteps {
  import opened Wrappers
  import opened OrderedMap
  import opened Sorting

  datatype Column = Sends | Bounces | Complaints

  datatype Contact = Contact(
    id: nat,
    email: string,
    sends: int,
    bounces: int,
    complaints: int,
    lastSentAt: Option<nat>,
    suppressed: bool,
    updatedAt: nat
  ) {
    function Count(column: Column): int {
      match column case Sends => sends case Bounces => bounces case Complaints => complaints
    }

    function WithCount(column: Column, n: int): Contact {
      match column
      case Sends => this.(sends := n)
      case Bounces => this.(bounces := n)
      case Complaints => this.(complaints := n)
    }
  }

  const AUTO_SUPPRESS_BOUNCES := 3

  function Patch(c: Contact, column: Column, next: int, stamp: nat): Contact {
    var counted := c.WithCount(column, next);
    var stamped := if column == Sends then counted.(lastSentAt := Some(stamp)) else counted;
    if column == Bounces && next >= AUTO_SUPPRESS_BOUNCES then stamped.(suppressed := true) else stamped
  }

  /** The rows, the next id the store mints and the next instant it stamps. */
  datatype Ledger = Ledger(rows: seq<Contact>, nextId: nat, clock: nat)

  ghost predicate DistinctIds(rows: seq<Contact>) {
    DistinctBy(rows, (r: Contact) => r.id)
  }

  ghost predicate Valid(l: Ledger) {
    DistinctIds(l.rows) && forall c :: c in l.rows ==> c.id < l.nextId
  }

  lemma SameIdSameRow(rows: seq<Contact>, a: Contact, b: Contact)
    requires DistinctIds(rows) && a in rows && b in rows && a.id == b.id
    ensures a == b
  {
    var i :| 0 <= i < |rows| && rows[i] == a;
    var j :| 0 <= j < |rows| && rows[j] == b;
  }

  predicate CanCreate(l: Ledger, email: string) {
    forall i :: 0 <= i < |l.rows| ==> l.rows[i].email != email
  }

  function Blank(l: Ledger, email: string): Contact {
    Contact(l.nextId, email, 0, 0, 0, None, false, l.clock)
  }

  /** The store's insert; its unique key on `email` is `CanCreate`. */
  function Create(l: Ledger, c: Contact): Ledger {
    Ledger(l.rows + [c], l.nextId + 1, l.clock + 1)
  }

  /** The store's update by id, which stamps `updatedAt` itself. */
  function Update(l: Ledger, id: nat, patch: Contact -> Contact): (r: Ledger)
    ensures |r.rows| == |l.rows|
  {
    Ledger(seq(|l.rows|, i requires 0 <= i < |l.rows| =>
             if l.rows[i].id == id then patch(l.rows[i]).(updatedAt := l.clock) else l.rows[i]),
           l.nextId, l.clock + 1)
  }

  function PatchTo(column: Column, next: int, stamp: nat): Contact -> Contact {
    (c: Contact) => Patch(c, column, next, stamp)
  }

  /** One counter write for an address whose row, if any, was `held` when it was read: the count is
      written as the base read there plus `n`; a missing row is created at zero first. */
  function WriteFor(l: Ledger, held: Option<Contact>, email: string, n: nat, column: Column, stamp: nat)
    : (r: Option<Ledger>)
  {
    match held
    case None =>
      if CanCreate(l, email) then Some(Create(l, Patch(Blank(l, email), column, n, stamp))) else None
    case Some(c) =>
      Some(Update(l, c.id, PatchTo(column, c.Count(column) + n, stamp)))
  }

  // ---------------------------------------------------------------- ledgers without timestamps

  function Erase(c: Contact): Contact {
    c.(updatedAt := 0, lastSentAt := if c.lastSentAt.Some? then Some(0) else None)
  }

  datatype Untimed = Untimed(rows: seq<Contact>, nextId: nat)

  /** The form two addresses are compared in. */
  type Canon = string -> string

  predicate HasAddress(rows: seq<Contact>, address: string, canon: Canon) {
    exists i :: 0 <= i < |rows| && canon(rows[i].email) == address
  }

  function Bump(c: Contact, n: nat, column: Column): (r: Contact)
    ensures r.email == c.email && r.id == c.id
  {
    Patch(c, column, c.Count(column) + n, 0)
  }

  function BumpAll(rows: seq<Contact>, address: string, n: nat, column: Column, canon: Canon): (r: seq<Contact>)
    ensures |r| == |rows|
    ensures forall i :: 0 <= i < |rows| ==>
              r[i] == if canon(rows[i].email) == address then Bump(rows[i], n, column) else rows[i]
  {
    seq(|rows|, i requires 0 <= i < |rows| =>
      if canon(rows[i].email) == address then Bump(rows[i], n, column) else rows[i])
  }

  function NewContact(id: nat, email: string, n: nat, column: Column): (r: Contact)
    ensures r.email == email && r.id == id
  {
    Bump(Contact(id, email, 0, 0, 0, None, false, 0), n, column)
  }

  /** `n` increments of one address, by canonical form. */
  function Step(u: Untimed, email: string, n: nat, column: Column, canon: Canon): (r: Untimed) {
    if HasAddress(u.rows, canon(email), canon) then
      Untimed(BumpAll(u.rows, canon(email), n, column, canon), u.nextId)
    else
      Untimed(u.rows + [NewContact(u.nextId, email, n, column)], u.nextId + 1)
  }

  function Steps<K>(u: Untimed, entries: seq<Entry<K>>, column: Column, canon: Canon): (r: Untimed) {
    if entries == [] then u
    else
      var n := |entries| - 1;
      Step(Steps(u, entries[..n], column, canon), entries[n].email, entries[n].count, column, canon)
  }

  function SingleSteps(u: Untimed, batch: seq<string>, column: Column, canon: Canon): (r: Untimed) {
    if batch == [] then u
    else
      var n := |batch| - 1;
      Step(SingleSteps(u, batch[..n], column, canon), batch[n], 1, column, canon)
  }

  lemma BumpTwice(c: Contact, n: nat, k: nat, column: Column)
    ensures Bump(Bump(c, n, column), k, column) == Bump(c, n + k, column)
  {}

  lemma BumpAllKeepsAddresses(rows: seq<Contact>, address: string, n: nat, column: Column, canon: Canon, a: string)
    ensures HasAddress(BumpAll(rows, address, n, column, canon), a, canon) <==> HasAddress(rows, a, canon)
  {
    var r := BumpAll(rows, address, n, column, canon);
    if HasAddress(rows, a, canon) {
      var i :| 0 <= i < |rows| && canon(rows[i].email) == a;
      assert r[i].email == rows[i].email;
    }
    if HasAddress(r, a, canon) {
      var i :| 0 <= i < |r| && canon(r[i].email) == a;
      assert r[i].email == rows[i].email;
    }
  }

  lemma AppendHasAddress(rows: seq<Contact>, c: Contact, a: string, canon: Canon)
    ensures HasAddress(rows + [c], a, canon) <==> HasAddress(rows, a, canon) || canon(c.email) == a
  {
    if HasAddress(rows, a, canon) {
      var i :| 0 <= i < |rows| && canon(rows[i].email) == a;
      assert (rows + [c])[i] == rows[i];
    }
    assert (rows + [c])[|rows|] == c;
  }

  lemma StepHasAddress(u: Untimed, email: string, n: nat, column: Column, canon: Canon, a: string)
    ensures HasAddress(Step(u, email, n, column, canon).rows, a, canon) <==>
              HasAddress(u.rows, a, canon) || a == canon(email)
  {
    BumpAllKeepsAddresses(u.rows, canon(email), n, column, canon, a);
    AppendHasAddress(u.rows, NewContact(u.nextId, email, n, column), a, canon);
  }

  lemma StepTwice(u: Untimed, email: string, n: nat, other: string, k: nat, column: Column, canon: Canon)
    requires canon(email) == canon(other)
    ensures Step(Step(u, email, n, column, canon), other, k, column, canon) == Step(u, email, n + k, column, canon)
  {
    StepHasAddress(u, email, n, column, canon, canon(email));
    var a, b := Step(Step(u, email, n, column, canon), other, k, column, canon), Step(u, email, n + k, column, canon);
    forall c: Contact
      ensures Bump(Bump(c, n, column), k, column) == Bump(c, n + k, column)
    {
      BumpTwice(c, n, k, column);
    }
    assert a.rows == b.rows;
  }

  lemma StepCommutes(u: Untimed, email: string, n: nat, other: string, k: nat, column: Column, canon: Canon)
    requires HasAddress(u.rows, canon(email), canon) && canon(email) != canon(other)
    ensures Step(Step(u, email, n, column, canon), other, k, column, canon)
            == Step(Step(u, other, k, column, canon), email, n, column, canon)
  {
    StepHasAddress(u, email, n, column, canon, canon(other));
    StepHasAddress(u, other, k, column, canon, canon(email));
    var a := Step(Step(u, email, n, column, canon), other, k, column, canon);
    var b := Step(Step(u, other, k, column, canon), email, n, column, canon);
    assert a.rows == b.rows;
  }

  ghost predicate KeyedByAddress(entries: seq<Entry<string>>, canon: Canon) {
    DistinctEntries(entries) && forall i :: 0 <= i < |entries| ==> entries[i].key == canon(entries[i].email)
  }

  lemma {:induction false} StepsHaveAddresses(u: Untimed, entries: seq<Entry<string>>, k: nat, column: Column,
                                              canon: Canon)
    requires k < |entries|
    ensures HasAddress(Steps(u, entries, column, canon).rows, canon(entries[k].email), canon)
  {
    var n := |entries| - 1;
    StepHasAddress(Steps(u, entries[..n], column, canon), entries[n].email, entries[n].count, column, canon,
                   canon(entries[k].email));
    if k < n {
      StepsHaveAddresses(u, entries[..n], k, column, canon);
    }
  }

  /** Counting once more under a key that is already there, seen from the last entry. */
  lemma AddSplits(entries: seq<Entry<string>>, key: string, email: string)
    requires DistinctEntries(entries) && HasEntry(entries, key)
    ensures var n := |entries| - 1;
            var before, last, more := entries[..n], entries[n], Add(entries, key, email, 1);
            && |more| == n + 1
            && (last.key == key ==> more[..n] == before && more[n] == last.(count := last.count + 1))
            && (last.key != key ==> HasEntry(before, key) && more[..n] == Add(before, key, email, 1) && more[n] == last)
  {
    var n := |entries| - 1;
    var i :| 0 <= i < |entries| && entries[i].key == key;
    if entries[n].key != key {
      assert entries[..n][i].key == key;
    }
  }

  /** Counting an address once more inside its group is one more increment after the whole group. */
  lemma {:induction false} StepsOneMore(u: Untimed, entries: seq<Entry<string>>, email: string, column: Column,
                                        canon: Canon)
    requires KeyedByAddress(entries, canon)
    ensures Steps(u, Add(entries, canon(email), email, 1), column, canon)
            == Step(Steps(u, entries, column, canon), email, 1, column, canon)
  {
    hide Step;
    var address := canon(email);
    var more := Add(entries, address, email, 1);
    if !HasEntry(entries, address) {
      assert more[..|entries|] == entries;
    } else {
      var n := |entries| - 1;
      var before, last := entries[..n], entries[n];
      AddSplits(entries, address, email);
      if last.key == address {
        StepTwice(Steps(u, before, column, canon), last.email, last.count, email, 1, column, canon);
      } else {
        StepsOneMore(u, before, email, column, canon);
        var i :| 0 <= i < |before| && before[i].key == address;
        StepsHaveAddresses(u, before, i, column, canon);
        StepCommutes(Steps(u, before, column, canon), email, 1, last.email, last.count, column, canon);
      }
    }
  }

  lemma {:induction false} GroupedKeyed(batch: seq<string>, canon: Canon)
    ensures KeyedByAddress(Grouped(batch, canon), canon)
  {
    if batch == [] {
    } else {
      var n := |batch| - 1;
      GroupedKeyed(batch[..n], canon);
      AddKeepsDistinct(Grouped(batch[..n], canon), canon(batch[n]), batch[n], 1);
    }
  }

  /** Without timestamps, writing each group once is writing each address once. */
  lemma {:induction false} GroupsAreSingles(u: Untimed, batch: seq<string>, column: Column, canon: Canon)
    ensures Steps(u, Grouped(batch, canon), column, canon) == SingleSteps(u, batch, column, canon)
  {
    if batch == [] {
    } else {
      var n := |batch| - 1;
      GroupsAreSingles(u, batch[..n], column, canon);
      GroupedKeyed(batch[..n], canon);
      StepsOneMore(u, Grouped(batch[..n], canon), batch[n], column, canon);
    }
  }

  // ---------------------------------------------------------------- a write is a step

  /** No two rows share a canonical form. */
  ghost predicate OnePer(rows: seq<Contact>, canon: Canon) {
    forall i, j :: 0 <= i < j < |rows| ==> canon(rows[i].email) != canon(rows[j].email)
  }

  function EraseAll(l: Ledger): (r: Untimed)
    ensures |r.rows| == |l.rows| && r.nextId == l.nextId
    ensures forall i :: 0 <= i < |l.rows| ==> r.rows[i] == Erase(l.rows[i])
  {
    Untimed(seq(|l.rows|, i requires 0 <= i < |l.rows| => Erase(l.rows[i])), l.nextId)
  }

  lemma EraseKeepsAddresses(l: Ledger, a: string, canon: Canon)
    ensures HasAddress(EraseAll(l).rows, a, canon) <==> HasAddress(l.rows, a, canon)
  {
    if HasAddress(l.rows, a, canon) {
      var i :| 0 <= i < |l.rows| && canon(l.rows[i].email) == a;
      assert EraseAll(l).rows[i].email == l.rows[i].email;
    }
  }

  /** `held` is what looking `email` up in the rows finds. */
  ghost predicate Finds(rows: seq<Contact>, email: string, held: Option<Contact>, canon: Canon) {
    match held
    case Some(c) => c in rows && canon(c.email) == canon(email)
    case None => !HasAddress(rows, canon(email), canon)
  }

  /** An update by id touches one place, keeps every identity and address, and no other row. */
  lemma UpdateAt(l: Ledger, k: nat, patch: Contact -> Contact)
    requires Valid(l) && k < |l.rows|
    ensures Update(l, l.rows[k].id, patch).rows == l.rows[k := patch(l.rows[k]).(updatedAt := l.clock)]
    ensures Update(l, l.rows[k].id, patch).nextId == l.nextId
  {}

  /** A ledger that differs in one row, not in its id or address. */
  lemma ReplacedRow(l: Ledger, r: Ledger, k: nat, c: Contact, canon: Canon)
    requires Valid(l) && OnePer(l.rows, canon) && k < |l.rows|
    requires c.id == l.rows[k].id && c.email == l.rows[k].email
    requires r.rows == l.rows[k := c] && r.nextId == l.nextId
    ensures Valid(r) && OnePer(r.rows, canon)
    ensures forall a :: HasAddress(r.rows, a, canon) <==> HasAddress(l.rows, a, canon)
    ensures forall d :: d in l.rows && d != l.rows[k] ==> d in r.rows
  {
    forall i | 0 <= i < |l.rows|
      ensures r.rows[i].email == l.rows[i].email && r.rows[i].id == l.rows[i].id && r.rows[i].id < r.nextId
    {
      assert l.rows[i] in l.rows;
    }
    forall a
      ensures HasAddress(r.rows, a, canon) <==> HasAddress(l.rows, a, canon)
    {
      if HasAddress(l.rows, a, canon) {
        var i :| 0 <= i < |l.rows| && canon(l.rows[i].email) == a;
        assert r.rows[i].email == l.rows[i].email;
      }
    }
    forall d | d in l.rows && d != l.rows[k]
      ensures d in r.rows
    {
      var i :| 0 <= i < |l.rows| && l.rows[i] == d;
      assert r.rows[i] == d;
    }
  }

  lemma ReplacedIsStep(l: Ledger, r: Ledger, k: nat, email: string, n: nat, column: Column, stamp: nat, canon: Canon)
    requires OnePer(l.rows, canon) && k < |l.rows| && canon(l.rows[k].email) == canon(email)
    requires var patch := PatchTo(column, l.rows[k].Count(column) + n, stamp);
             r.rows == l.rows[k := patch(l.rows[k]).(updatedAt := l.clock)]
    requires r.nextId == l.nextId
    ensures EraseAll(r) == Step(EraseAll(l), email, n, column, canon)
  {
    assert HasAddress(l.rows, canon(email), canon);
    EraseKeepsAddresses(l, canon(email), canon);
    var e, s := EraseAll(r).rows, Step(EraseAll(l), email, n, column, canon).rows;
    forall i | 0 <= i < |l.rows|
      ensures e[i] == s[i]
    {
      assert canon(l.rows[i].email) == canon(email) <==> i == k;
    }
    assert e == s;
  }

  lemma WriteUpdates(l: Ledger, c: Contact, email: string, n: nat, column: Column, stamp: nat, canon: Canon)
    requires Valid(l) && OnePer(l.rows, canon) && Finds(l.rows, email, Some(c), canon)
    ensures var r := WriteFor(l, Some(c), email, n, column, stamp).value;
            && Valid(r) && OnePer(r.rows, canon)
            && (forall a :: HasAddress(r.rows, a, canon) <==> HasAddress(l.rows, a, canon))
            && (forall d :: d in l.rows && d != c ==> d in r.rows)
            && EraseAll(r) == Step(EraseAll(l), email, n, column, canon)
  {
    var r := WriteFor(l, Some(c), email, n, column, stamp).value;
    var k :| 0 <= k < |l.rows| && l.rows[k] == c;
    var patch := PatchTo(column, c.Count(column) + n, stamp);
    assert patch(c).id == c.id && patch(c).email == c.email;
    hide PatchTo, Update, Step, OnePer, Valid, HasAddress;
    UpdateAt(l, k, patch);
    ReplacedRow(l, r, k, patch(c).(updatedAt := l.clock), canon);
    ReplacedIsStep(l, r, k, email, n, column, stamp, canon);
  }

  /** A ledger with one more row, whose address no row had. */
  lemma AppendedRow(l: Ledger, r: Ledger, c: Contact, canon: Canon)
    requires Valid(l) && OnePer(l.rows, canon) && !HasAddress(l.rows, canon(c.email), canon)
    requires c.id == l.nextId && r.rows == l.rows + [c] && r.nextId == l.nextId + 1
    ensures Valid(r) && OnePer(r.rows, canon)
    ensures forall a :: HasAddress(r.rows, a, canon) <==> HasAddress(l.rows, a, canon) || a == canon(c.email)
    ensures forall d :: d in l.rows ==> d in r.rows
  {
    forall i | 0 <= i < |l.rows|
      ensures r.rows[i] == l.rows[i] && l.rows[i].id < l.nextId && canon(l.rows[i].email) != canon(c.email)
    {
      assert l.rows[i] in l.rows;
    }
    forall a
      ensures HasAddress(r.rows, a, canon) <==> HasAddress(l.rows, a, canon) || a == canon(c.email)
    {
      AppendHasAddress(l.rows, c, a, canon);
    }
  }

  lemma AppendedIsStep(l: Ledger, r: Ledger, email: string, n: nat, column: Column, stamp: nat, canon: Canon)
    requires !HasAddress(l.rows, canon(email), canon)
    requires r.rows == l.rows + [Patch(Blank(l, email), column, n, stamp)] && r.nextId == l.nextId + 1
    ensures EraseAll(r) == Step(EraseAll(l), email, n, column, canon)
  {
    EraseKeepsAddresses(l, canon(email), canon);
    var e, s := EraseAll(r).rows, Step(EraseAll(l), email, n, column, canon).rows;
    assert e[|l.rows|] == s[|l.rows|];
    assert e == s;
  }

  lemma WriteCreates(l: Ledger, email: string, n: nat, column: Column, stamp: nat, canon: Canon)
    requires Valid(l) && OnePer(l.rows, canon) && Finds(l.rows, email, None, canon)
    ensures WriteFor(l, None, email, n, column, stamp).Some?
    ensures var r := WriteFor(l, None, email, n, column, stamp).value;
            && Valid(r) && OnePer(r.rows, canon)
            && (forall a :: HasAddress(r.rows, a, canon) <==> HasAddress(l.rows, a, canon) || a == canon(email))
            && (forall d :: d in l.rows ==> d in r.rows)
            && EraseAll(r) == Step(EraseAll(l), email, n, column, canon)
  {
    forall i | 0 <= i < |l.rows|
      ensures l.rows[i].email != email
    {
      assert canon(l.rows[i].email) != canon(email);
    }
    assert CanCreate(l, email);
    var r := WriteFor(l, None, email, n, column, stamp).value;
    AppendedRow(l, r, Patch(Blank(l, email), column, n, stamp), canon);
    AppendedIsStep(l, r, email, n, column, stamp, canon);
  }

  // ---------------------------------------------------------------- the writes of a batch

  /** What the one enumeration before the writes found for each address. */
  type Find = string -> Option<Contact>

  /** The writes of a merged batch one after another; nothing if one is refused. */
  function WriteEach<K>(l: Ledger, find: Find, entries: seq<Entry<K>>, column: Column,
                        stamp: nat): (r: Option<Ledger>) {
    if entries == [] then Some(l)
    else
      var e := entries[|entries| - 1];
      match WriteEach(l, find, entries[..|entries| - 1], column, stamp)
      case None => None
      case Some(m) => WriteFor(m, find(e.email), e.email, e.count, column, stamp)
  }

  /** What is stored when the writes stop: all of them, or those before the first that is refused. */
  function WriteSome<K>(l: Ledger, find: Find, entries: seq<Entry<K>>, column: Column, stamp: nat): (r: Ledger) {
    if WriteEach(l, find, entries, column, stamp).Some? then WriteEach(l, find, entries, column, stamp).value
    else if entries == [] then l
    else WriteSome(l, find, entries[..|entries| - 1], column, stamp)
  }

  lemma {:induction false} WriteSomeIsPrefix<K>(l: Ledger, find: Find, entries: seq<Entry<K>>, column: Column,
                                                stamp: nat)
    returns (k: nat)
    ensures k <= |entries|
              && WriteEach(l, find, entries[..k], column, stamp) == Some(WriteSome(l, find, entries, column, stamp))
    ensures k < |entries| ==> WriteEach(l, find, entries[..k + 1], column, stamp).None?
  {
    hide WriteFor;
    if WriteEach(l, find, entries, column, stamp).Some? {
      k := |entries|;
      assert entries[..k] == entries;
    } else {
      var n := |entries| - 1;
      k := WriteSomeIsPrefix(l, find, entries[..n], column, stamp);
      assert entries[..n][..k] == entries[..k];
      if k < n {
        assert entries[..n][..k + 1] == entries[..k + 1];
      } else {
        assert entries[..k + 1] == entries;
      }
    }
  }

  /** A refused write stops the batch. */
  lemma {:induction false} WriteEachStops<K>(l: Ledger, find: Find, entries: seq<Entry<K>>, k: nat, column: Column,
                                             stamp: nat)
    requires k <= |entries| && WriteEach(l, find, entries[..k], column, stamp).None?
    ensures WriteEach(l, find, entries, column, stamp).None?
  {
    if k < |entries| {
      var n := |entries| - 1;
      assert entries[..n][..k] == entries[..k];
      WriteEachStops(l, find, entries[..n], k, column, stamp);
    } else {
      assert entries[..k] == entries;
    }
  }

  lemma {:induction false} WriteSomeStops<K>(l: Ledger, find: Find, entries: seq<Entry<K>>, k: nat, column: Column,
                                             stamp: nat)
    requires k < |entries| && WriteEach(l, find, entries[..k], column, stamp).Some?
    requires WriteEach(l, find, entries[..k + 1], column, stamp).None?
    ensures WriteSome(l, find, entries, column, stamp) == WriteEach(l, find, entries[..k], column, stamp).value
  {
    hide WriteFor;
    var n := |entries| - 1;
    WriteEachStops(l, find, entries, k + 1, column, stamp);
    assert entries[..n][..k] == entries[..k];
    if k < n {
      assert entries[..n][..k + 1] == entries[..k + 1];
      WriteSomeStops(l, find, entries[..n], k, column, stamp);
    } else {
      assert entries[..n] == entries[..k];
    }
  }

  predicate HasSpelling(rows: seq<Contact>, email: string) {
    exists i :: 0 <= i < |rows| && rows[i].email == email
  }

  lemma WriteKeepsSpellings(l: Ledger, held: Option<Contact>, email: string, n: nat, column: Column, stamp: nat,
                            other: string)
    requires WriteFor(l, held, email, n, column, stamp).Some?
    ensures HasSpelling(l.rows, other) ==> HasSpelling(WriteFor(l, held, email, n, column, stamp).value.rows, other)
  {
    var r := WriteFor(l, held, email, n, column, stamp).value;
    if HasSpelling(l.rows, other) {
      var i :| 0 <= i < |l.rows| && l.rows[i].email == other;
      assert r.rows[i].email == other;
    }
  }

  lemma NewSpelling(l: Ledger, m: Ledger, email: string, n: nat, column: Column, stamp: nat)
    requires WriteFor(m, None, email, n, column, stamp).Some?
    requires HasSpelling(l.rows, email) ==> HasSpelling(m.rows, email)
    ensures CanCreate(l, email)
  {
    assert CanCreate(m, email);
    assert !HasSpelling(m.rows, email);
    if i :| 0 <= i < |l.rows| && l.rows[i].email == email {
      assert HasSpelling(l.rows, email);
    }
  }

  /** An address that was written as a new row was spelled by no row at the start. */
  lemma {:induction false} WriteEachCreates<K>(l: Ledger, find: Find, entries: seq<Entry<K>>, column: Column,
                                               stamp: nat)
    requires WriteEach(l, find, entries, column, stamp).Some?
    ensures forall i :: 0 <= i < |entries| && find(entries[i].email).None? ==> CanCreate(l, entries[i].email)
    ensures forall other :: HasSpelling(l.rows, other) ==>
              HasSpelling(WriteEach(l, find, entries, column, stamp).value.rows, other)
  {
    hide WriteFor, HasSpelling;
    if entries == [] {
    } else {
      var n := |entries| - 1;
      var e := entries[n];
      WriteEachCreates(l, find, entries[..n], column, stamp);
      var m := WriteEach(l, find, entries[..n], column, stamp).value;
      forall other
        ensures HasSpelling(m.rows, other) ==> HasSpelling(WriteEach(l, find, entries, column, stamp).value.rows, other)
      {
        WriteKeepsSpellings(m, find(e.email), e.email, e.count, column, stamp, other);
      }
      if find(e.email).None? {
        NewSpelling(l, m, e.email, e.count, column, stamp);
      }
      forall i | 0 <= i < |entries| && find(entries[i].email).None?
        ensures CanCreate(l, entries[i].email)
      {
        if i < n {
          assert entries[..n][i] == entries[i];
        }
      }
    }
  }

  ghost predicate ApartBy<K>(entries: seq<Entry<K>>, canon: Canon) {
    forall i, j :: 0 <= i < j < |entries| ==> canon(entries[i].email) != canon(entries[j].email)
  }

  predicate Touches<K>(entries: seq<Entry<K>>, address: string, canon: Canon) {
    exists i :: 0 <= i < |entries| && canon(entries[i].email) == address
  }

  lemma TouchesPrefix<K>(entries: seq<Entry<K>>, address: string, canon: Canon)
    requires entries != []
    ensures Touches(entries, address, canon) <==>
              Touches(entries[..|entries| - 1], address, canon) || canon(entries[|entries| - 1].email) == address
  {
    var before := entries[..|entries| - 1];
    if Touches(before, address, canon) {
      var i :| 0 <= i < |before| && canon(before[i].email) == address;
      assert entries[i] == before[i];
    }
    if Touches(entries, address, canon) {
      var i :| 0 <= i < |entries| && canon(entries[i].email) == address;
      assert i < |before| ==> before[i] == entries[i];
    }
  }

  lemma FoundHasAddress(rows: seq<Contact>, email: string, c: Contact, canon: Canon)
    requires Finds(rows, email, Some(c), canon)
    ensures HasAddress(rows, canon(email), canon)
  {
    var i :| 0 <= i < |rows| && rows[i] == c;
    assert canon(rows[i].email) == canon(email);
  }

  lemma NothingTouched<K>(entries: seq<Entry<K>>, canon: Canon)
    requires entries == []
    ensures forall a :: !Touches(entries, a, canon)
  {}

  lemma LastIsNew<K>(entries: seq<Entry<K>>, canon: Canon)
    requires entries != [] && ApartBy(entries, canon)
    ensures !Touches(entries[..|entries| - 1], canon(entries[|entries| - 1].email), canon)
  {}

  /** When every address of the batch was looked up in a ledger with one row per address, no write is
      refused and the writes count by canonical form. */
  lemma {:induction false} WriteEachIsSteps<K>(l: Ledger, find: Find, entries: seq<Entry<K>>, column: Column,
                                               stamp: nat, canon: Canon)
    requires Valid(l) && OnePer(l.rows, canon) && ApartBy(entries, canon)
    requires forall i :: 0 <= i < |entries| ==> Finds(l.rows, entries[i].email, find(entries[i].email), canon)
    ensures WriteEach(l, find, entries, column, stamp).Some?
    ensures var r := WriteEach(l, find, entries, column, stamp).value;
            && Valid(r) && OnePer(r.rows, canon)
            && EraseAll(r) == Steps(EraseAll(l), entries, column, canon)
            && (forall a ::
                  HasAddress(r.rows, a, canon) <==> HasAddress(l.rows, a, canon) || Touches(entries, a, canon))
            && (forall d :: d in l.rows && !Touches(entries, canon(d.email), canon) ==> d in r.rows)
  {
    hide Valid, OnePer, Step, Touches, HasAddress, CanCreate, Update, Create;
    if entries == [] {
      NothingTouched(entries, canon);
    } else {
      var n := |entries| - 1;
      var e, before := entries[n], entries[..n];
      var held := find(e.email);
      WriteEachIsSteps(l, find, before, column, stamp, canon);
      forall a
        ensures Touches(entries, a, canon) <==> Touches(before, a, canon) || canon(e.email) == a
      {
        TouchesPrefix(entries, a, canon);
      }
      LastIsNew(entries, canon);
      var m := WriteEach(l, find, before, column, stamp).value;
      match held
      case Some(c) =>
        assert Finds(m.rows, e.email, Some(c), canon);
        FoundHasAddress(l.rows, e.email, c, canon);
        WriteUpdates(m, c, e.email, e.count, column, stamp, canon);
      case None =>
        assert Finds(m.rows, e.email, None, canon);
        WriteCreates(m, e.email, e.count, column, stamp, canon);
    }
  }

  // ---------------------------------------------------------------- the column total

  function Total(rows: seq<Contact>, column: Column): int {
    if rows == [] then 0 else Total(rows[..|rows| - 1], column) + rows[|rows| - 1].Count(column)
  }

  lemma {:induction false} TotalReplace(rows: seq<Contact>, k: nat, c: Contact, column: Column)
    requires k < |rows|
    ensures Total(rows[k := c], column) == Total(rows, column) - rows[k].Count(column) + c.Count(column)
  {
    var n := |rows| - 1;
    if k == n {
      assert rows[k := c][..n] == rows[..n];
    } else {
      assert rows[k := c][..n] == rows[..n][k := c];
      TotalReplace(rows[..n], k, c, column);
    }
  }

  lemma PatchCounts(c: Contact, column: Column, next: int, stamp: nat)
    ensures PatchTo(column, next, stamp)(c).Count(column) == next && PatchTo(column, next, stamp)(c).id == c.id
  {}

  lemma ReplacedValid(l: Ledger, r: Ledger, k: nat, c: Contact)
    requires Valid(l) && k < |l.rows| && c.id == l.rows[k].id && r.rows == l.rows[k := c] && r.nextId == l.nextId
    ensures Valid(r)
    ensures forall d :: d in l.rows && d.id != c.id ==> d in r.rows
  {
    forall i | 0 <= i < |l.rows|
      ensures r.rows[i].id == l.rows[i].id && r.rows[i].id < r.nextId
    {
      assert l.rows[i] in l.rows;
    }
    forall d | d in l.rows && d.id != c.id
      ensures d in r.rows
    {
      var i :| 0 <= i < |l.rows| && l.rows[i] == d;
      assert r.rows[i] == d;
    }
  }

  lemma ReplacedTotal(l: Ledger, r: Ledger, k: nat, c: Contact, column: Column)
    requires Valid(l) && k < |l.rows| && c.id == l.rows[k].id && r.rows == l.rows[k := c] && r.nextId == l.nextId
    ensures Valid(r) && Total(r.rows, column) == Total(l.rows, column) - l.rows[k].Count(column) + c.Count(column)
    ensures forall d :: d in l.rows && d.id != c.id ==> d in r.rows
  {
    hide Total, Valid;
    TotalReplace(l.rows, k, c, column);
    ReplacedValid(l, r, k, c);
  }

  lemma UpdateAddsToTotal(l: Ledger, c: Contact, email: string, n: nat, column: Column, stamp: nat)
    requires Valid(l) && c in l.rows
    ensures var r := WriteFor(l, Some(c), email, n, column, stamp).value;
            && Valid(r)
            && Total(r.rows, column) == Total(l.rows, column) + n
            && forall d :: d in l.rows && d.id != c.id ==> d in r.rows
  {
    var r := WriteFor(l, Some(c), email, n, column, stamp).value;
    var k :| 0 <= k < |l.rows| && l.rows[k] == c;
    var patch := PatchTo(column, c.Count(column) + n, stamp);
    PatchCounts(c, column, c.Count(column) + n, stamp);
    hide Total, PatchTo, Valid, Update;
    UpdateAt(l, k, patch);
    ReplacedTotal(l, r, k, patch(c).(updatedAt := l.clock), column);
  }

  lemma CreateAddsToTotal(l: Ledger, email: string, n: nat, column: Column, stamp: nat)
    requires Valid(l) && CanCreate(l, email)
    ensures var r := WriteFor(l, None, email, n, column, stamp).value;
            && Valid(r)
            && Total(r.rows, column) == Total(l.rows, column) + n
            && forall d :: d in l.rows ==> d in r.rows
  {
    var r := WriteFor(l, None, email, n, column, stamp).value;
    assert r.rows[..|l.rows|] == l.rows;
    forall i | 0 <= i < |l.rows|
      ensures r.rows[i] == l.rows[i] && l.rows[i].id < l.nextId
    {
      assert l.rows[i] in l.rows;
    }
  }

  /** A write that still finds the row it read adds exactly `n` to the column. */
  lemma WriteAddsToTotal(l: Ledger, held: Option<Contact>, email: string, n: nat, column: Column, stamp: nat)
    requires Valid(l) && (held.Some? ==> held.value in l.rows)
    requires WriteFor(l, held, email, n, column, stamp).Some?
    ensures var r := WriteFor(l, held, email, n, column, stamp).value;
            && Valid(r)
            && Total(r.rows, column) == Total(l.rows, column) + n
            && forall d :: d in l.rows && (held.None? || d.id != held.value.id) ==> d in r.rows
  {
    match held
    case Some(c) => UpdateAddsToTotal(l, c, email, n, column, stamp);
    case None => CreateAddsToTotal(l, email, n, column, stamp);
  }

  ghost predicate HeldApart<K>(entries: seq<Entry<K>>, find: Find) {
    forall i, j :: 0 <= i < j < |entries| && find(entries[i].email).Some? && find(entries[j].email).Some? ==>
                     find(entries[i].email).value.id != find(entries[j].email).value.id
  }

  predicate Holds<K>(entries: seq<Entry<K>>, find: Find, id: nat) {
    exists i :: 0 <= i < |entries| && find(entries[i].email).Some? && find(entries[i].email).value.id == id
  }

  lemma HoldsPrefix<K>(entries: seq<Entry<K>>, n: nat, find: Find, id: nat)
    requires n <= |entries|
    ensures Holds(entries[..n], find, id) ==> Holds(entries, find, id)
  {
    var before := entries[..n];
    if Holds(before, find, id) {
      var i :| 0 <= i < n && find(before[i].email).Some? && find(before[i].email).value.id == id;
      assert entries[i] == before[i];
    }
  }

  /** Writing groups that resolved to different rows raises the column by the sum of the counts. */
  lemma {:induction false} WriteEachAddsUp<K>(l: Ledger, find: Find, entries: seq<Entry<K>>, column: Column, stamp: nat)
    requires Valid(l) && HeldApart(entries, find)
    requires forall i :: 0 <= i < |entries| && find(entries[i].email).Some? ==> find(entries[i].email).value in l.rows
    requires WriteEach(l, find, entries, column, stamp).Some?
    ensures var r := WriteEach(l, find, entries, column, stamp).value;
            && Valid(r)
            && Total(r.rows, column) == Total(l.rows, column) + Sum(entries)
            && forall d :: d in l.rows && !Holds(entries, find, d.id) ==> d in r.rows
  {
    if entries == [] {
    } else {
      var n := |entries| - 1;
      var held := find(entries[n].email);
      WriteEachAddsUp(l, find, entries[..n], column, stamp);
      var m := WriteEach(l, find, entries[..n], column, stamp).value;
      if held.Some? {
        assert !Holds(entries[..n], find, held.value.id);
        assert held.value in m.rows;
      }
      WriteAddsToTotal(m, held, entries[n].email, entries[n].count, column, stamp);
      forall d | d in l.rows && !Holds(entries, find, d.id)
        ensures d in WriteEach(l, find, entries, column, stamp).value.rows
      {
        HoldsPrefix(entries, n, find, d.id);
        assert held.Some? ==> held.value.id != d.id;
      }
    }
  }

  /** `row:<id>` of the row an address resolves to, or `new:` with the form a new row is known by. */
  datatype Key = RowKey(id: nat) | NewKey(text: string)

  /** The groups of a batch that resolved through `find`, keyed so that a found row is its own key. */
  lemma GroupedAddsUp(l: Ledger, find: Find, keyOf: string -> Key, batch: seq<string>, column: Column, stamp: nat)
    requires Valid(l)
    requires forall email :: find(email).Some? ==>
              find(email).value in l.rows && keyOf(email) == RowKey(find(email).value.id)
    requires WriteEach(l, find, Grouped(batch, keyOf), column, stamp).Some?
    ensures Total(WriteEach(l, find, Grouped(batch, keyOf), column, stamp).value.rows, column)
            == Total(l.rows, column) + |batch|
  {
    SumGrouped(batch, keyOf);
    GroupedMeans(batch, keyOf);
    WriteEachAddsUp(l, find, Grouped(batch, keyOf), column, stamp);
  }

  // ---------------------------------------------------------------- keys and addresses

  function KeyFor(held: Option<Contact>, text: string): (r: Key) {
    match held
    case Some(c) => RowKey(c.id)
    case None => NewKey(text)
  }

  /** Where one row holds each address, keys tell two addresses apart exactly when their canonical
      forms differ. */
  lemma KeysTellApart(rows: seq<Contact>, heldA: Option<Contact>, textA: string, a: string,
                      heldB: Option<Contact>, textB: string, b: string, canon: Canon)
    requires OnePer(rows, canon) && DistinctIds(rows)
    requires Finds(rows, a, heldA, canon) && Finds(rows, b, heldB, canon)
    requires textA == canon(a) && textB == canon(b)
    ensures KeyFor(heldA, textA) == KeyFor(heldB, textB) <==> canon(a) == canon(b)
  {
    if heldA.Some? && heldB.Some? {
      var i :| 0 <= i < |rows| && rows[i] == heldA.value;
      var j :| 0 <= j < |rows| && rows[j] == heldB.value;
      assert rows[i].id == rows[j].id <==> i == j;
      assert canon(rows[i].email) == canon(rows[j].email) <==> i == j;
    }
  }

  ghost predicate SameGroupsAs<J, K>(a: seq<Entry<J>>, b: seq<Entry<K>>) {
    && |a| == |b|
    && forall i :: 0 <= i < |a| ==> a[i].email == b[i].email && a[i].count == b[i].count
  }

  lemma GroupsApart<K>(batch: seq<string>, keyOf: string -> K, canon: Canon)
    requires forall a, b :: a in batch && b in batch ==> (keyOf(a) == keyOf(b) <==> canon(a) == canon(b))
    ensures SameGroupsAs(Grouped(batch, keyOf), Grouped(batch, canon))
    ensures ApartBy(Grouped(batch, keyOf), canon)
    ensures forall i :: 0 <= i < |Grouped(batch, keyOf)| ==> Grouped(batch, keyOf)[i].email in batch
  {
    SameGroups(batch, keyOf, canon);
    GroupedMeans(batch, keyOf);
    GroupedMeans(batch, canon);
    GroupedKeyed(batch, canon);
  }

  lemma {:induction false} SameSteps<J, K>(u: Untimed, a: seq<Entry<J>>, b: seq<Entry<K>>, column: Column, canon: Canon)
    requires SameGroupsAs(a, b)
    ensures Steps(u, a, column, canon) == Steps(u, b, column, canon)
  {
    if a == [] {
    } else {
      SameSteps(u, a[..|a| - 1], b[..|b| - 1], column, canon);
    }
  }
}
