/** The contact ledger of src/db/contacts.ts as a value: how an address finds its row, what one
    counter write does, and how a batch of them is merged. */
module ContactLedger {
  import opened Wrappers
  import opened Text
  import opened EmailAddress
  import opened Sorting
  import opened OrderedMap
  import opened CounterSteps

  predicate IsBlank(email: string) {
    Trim(email) == ""
  }

  // ---------------------------------------------------------------- finding a row

  /** Most recently updated first, the larger id first among equal instants. */
  predicate NewestFirst(a: Contact, b: Contact) {
    a.updatedAt > b.updatedAt || (a.updatedAt == b.updatedAt && a.id >= b.id)
  }

  function Select(rows: seq<Contact>, keep: Contact -> bool): (r: seq<Contact>)
    ensures forall c :: c in r <==> c in rows && keep(c)
  {
    if rows == [] then []
    else
      assert rows == [rows[0]] + rows[1..];
      var rest := Select(rows[1..], keep);
      if keep(rows[0]) then [rows[0]] + rest else rest
  }

  function First(rows: seq<Contact>): (r: Option<Contact>) {
    if rows == [] then None else Some(rows[0])
  }

  function SpelledAs(text: string): Contact -> bool {
    (c: Contact) => c.email == text
  }

  function AddressedAs(address: string): Contact -> bool {
    (c: Contact) => CanonicalOf(c.email) == address
  }

  /** The exact spelling first, then the newest row that shares the canonical form. */
  function FindContact(rows: seq<Contact>, email: string): (r: Option<Contact>) {
    var spelled := Trim(email);
    if spelled == "" then None
    else
      var exact := First(Sort(Select(rows, SpelledAs(spelled)), NewestFirst));
      if exact.Some? then exact
      else
        var wanted := CanonicalOf(spelled);
        First(Sort(Select(rows, AddressedAs(wanted)), NewestFirst))
  }

  /** `c` is the newest of the rows that `keep` admits. */
  ghost predicate IsNewest(rows: seq<Contact>, keep: Contact -> bool, c: Contact) {
    c in rows && keep(c) && forall d :: d in rows && keep(d) ==> NewestFirst(c, d)
  }

  lemma FirstIsNewest(rows: seq<Contact>, keep: Contact -> bool)
    ensures var r := First(Sort(Select(rows, keep), NewestFirst));
            && (r.Some? ==> IsNewest(rows, keep, r.value))
            && (r.None? ==> forall d :: d in rows ==> !keep(d))
  {
    var kept := Select(rows, keep);
    var sorted := Sort(kept, NewestFirst);
    SortSorted(kept, NewestFirst);
    forall d
      ensures d in sorted <==> d in kept
    {
      SameMembers(sorted, kept, d);
    }
    if sorted == [] {
      assert kept == [];
    } else {
      assert sorted[0] in sorted;
      forall d | d in rows && keep(d)
        ensures NewestFirst(sorted[0], d)
      {
        assert d in sorted;
      }
    }
  }

  lemma NewestIsUnique(rows: seq<Contact>, keep: Contact -> bool, a: Contact, b: Contact)
    requires DistinctIds(rows) && IsNewest(rows, keep, a) && IsNewest(rows, keep, b)
    ensures a == b
  {
    SameIdSameRow(rows, a, b);
  }

  /** A found row shares the canonical form of the address; nothing found means no row does. */
  lemma FindContactMeans(rows: seq<Contact>, email: string)
    ensures FindContact(rows, email).Some? ==>
              FindContact(rows, email).value in rows
              && CanonicalOf(FindContact(rows, email).value.email) == CanonicalOf(email)
    ensures FindContact(rows, email).None? && !IsBlank(email) ==>
              forall c :: c in rows ==> CanonicalOf(c.email) != CanonicalOf(email)
  {
    CanonicalOfTrim(email);
    var spelled := Trim(email);
    var wanted := CanonicalOf(spelled);
    FirstIsNewest(rows, SpelledAs(spelled));
    FirstIsNewest(rows, AddressedAs(wanted));
  }

  lemma SameAddressSameRow(rows: seq<Contact>, a: Contact, b: Contact)
    requires OnePer(rows, CanonicalOf) && a in rows && b in rows && CanonicalOf(a.email) == CanonicalOf(b.email)
    ensures a == b
  {
    var i :| 0 <= i < |rows| && rows[i] == a;
    var j :| 0 <= j < |rows| && rows[j] == b;
  }

  lemma FindContactFinds(rows: seq<Contact>, email: string)
    requires !IsBlank(email)
    ensures Finds(rows, email, FindContact(rows, email), CanonicalOf)
  {
    FindContactMeans(rows, email);
    forall i | 0 <= i < |rows|
      ensures rows[i] in rows
    {}
  }

  // ---------------------------------------------------------------- a batch of writes

  /** What a new row is known by while a batch is merged. */
  function NewText(email: string): string {
    if IsBlank(email) then email else CanonicalOf(Trim(email))
  }

  function Finder(read: seq<Contact>): Find {
    (email: string) => FindContact(read, email)
  }

  function Resolver(read: seq<Contact>): string -> Key {
    (email: string) => KeyFor(FindContact(read, email), NewText(email))
  }

  /** The batch counted by spelling and then merged by the identity each spelling resolves to. */
  function Groups(read: seq<Contact>, batch: seq<string>): (r: seq<Entry<Key>>) {
    Merge(Tally(batch), Resolver(read))
  }

  /** What `incrementCounts` leaves behind, unless a write is refused. */
  function Incremented(l: Ledger, batch: seq<string>, column: Column): (r: Option<Ledger>) {
    WriteEach(l, Finder(l.rows), Groups(l.rows, batch), column, l.clock)
  }

  /** One increment, as `incrementSendCount` and its siblings make it: find, then write. */
  function IncrementOne(l: Ledger, email: string, column: Column): (r: Option<Ledger>) {
    WriteFor(l, FindContact(l.rows, email), email, 1, column, l.clock)
  }

  /** The simple form of a batch: one increment per address, each looking its row up afresh. */
  function OneByOne(l: Ledger, batch: seq<string>, column: Column): (r: Option<Ledger>) {
    if batch == [] then Some(l)
    else
      var n := |batch| - 1;
      match OneByOne(l, batch[..n], column)
      case None => None
      case Some(m) => IncrementOne(m, batch[n], column)
  }

  ghost predicate NoBlanks(batch: seq<string>) {
    forall email :: email in batch ==> !IsBlank(email)
  }

  lemma NewTextMeans(email: string)
    requires !IsBlank(email)
    ensures NewText(email) == CanonicalOf(email)
  {
    hide CanonicalOf;
    CanonicalOfTrim(email);
  }

  lemma ResolverMeans(rows: seq<Contact>, email: string)
    ensures Resolver(rows)(email) == KeyFor(FindContact(rows, email), NewText(email))
  {
    hide FindContact, NewText, KeyFor;
  }

  lemma ResolverTellsApart(rows: seq<Contact>, a: string, b: string)
    requires OnePer(rows, CanonicalOf) && DistinctIds(rows) && !IsBlank(a) && !IsBlank(b)
    ensures Resolver(rows)(a) == Resolver(rows)(b) <==> CanonicalOf(a) == CanonicalOf(b)
  {
    hide *;
    FindContactFinds(rows, a);
    FindContactFinds(rows, b);
    NewTextMeans(a);
    NewTextMeans(b);
    KeysTellApart(rows, FindContact(rows, a), NewText(a), a, FindContact(rows, b), NewText(b), b, CanonicalOf);
    ResolverMeans(rows, a);
    ResolverMeans(rows, b);
  }

  lemma GroupsByAddress(rows: seq<Contact>, batch: seq<string>)
    requires OnePer(rows, CanonicalOf) && DistinctIds(rows) && NoBlanks(batch)
    ensures SameGroupsAs(Groups(rows, batch), Grouped(batch, CanonicalOf))
    ensures ApartBy(Groups(rows, batch), CanonicalOf)
    ensures forall i :: 0 <= i < |Groups(rows, batch)| ==> Groups(rows, batch)[i].email in batch
  {
    hide CanonicalOf, FindContact, Resolver, Grouped, Merge, Tally, ApartBy, SameGroupsAs, IsBlank;
    MergeTally(batch, Resolver(rows));
    forall a, b | a in batch && b in batch
      ensures Resolver(rows)(a) == Resolver(rows)(b) <==> CanonicalOf(a) == CanonicalOf(b)
    {
      ResolverTellsApart(rows, a, b);
    }
    GroupsApart(batch, Resolver(rows), CanonicalOf);
  }

  lemma IncrementOneIsStep(l: Ledger, email: string, column: Column)
    requires Valid(l) && OnePer(l.rows, CanonicalOf) && !IsBlank(email)
    ensures IncrementOne(l, email, column).Some?
    ensures var r := IncrementOne(l, email, column).value;
            && Valid(r)
            && OnePer(r.rows, CanonicalOf)
            && EraseAll(r) == Step(EraseAll(l), email, 1, column, CanonicalOf)
  {
    var held := FindContact(l.rows, email);
    FindContactFinds(l.rows, email);
    match held
    case Some(c) => WriteUpdates(l, c, email, 1, column, l.clock, CanonicalOf);
    case None => WriteCreates(l, email, 1, column, l.clock, CanonicalOf);
  }

  lemma {:induction false} OneByOneIsSteps(l: Ledger, batch: seq<string>, column: Column)
    requires Valid(l) && OnePer(l.rows, CanonicalOf) && NoBlanks(batch)
    ensures OneByOne(l, batch, column).Some?
    ensures var r := OneByOne(l, batch, column).value;
            && Valid(r)
            && OnePer(r.rows, CanonicalOf)
            && EraseAll(r) == SingleSteps(EraseAll(l), batch, column, CanonicalOf)
  {
    if batch == [] {
    } else {
      var n := |batch| - 1;
      assert forall email :: email in batch[..n] ==> email in batch;
      OneByOneIsSteps(l, batch[..n], column);
      IncrementOneIsStep(OneByOne(l, batch[..n], column).value, batch[n], column);
    }
  }

  lemma BatchIsSteps(l: Ledger, batch: seq<string>, column: Column)
    requires Valid(l) && OnePer(l.rows, CanonicalOf) && NoBlanks(batch)
    ensures Incremented(l, batch, column).Some?
    ensures var r := Incremented(l, batch, column).value;
            && Valid(r)
            && OnePer(r.rows, CanonicalOf)
            && EraseAll(r) == SingleSteps(EraseAll(l), batch, column, CanonicalOf)
  {
    var groups := Groups(l.rows, batch);
    GroupsByAddress(l.rows, batch);
    forall i | 0 <= i < |groups|
      ensures Finds(l.rows, groups[i].email, Finder(l.rows)(groups[i].email), CanonicalOf)
    {
      assert groups[i].email in batch;
      FindContactFinds(l.rows, groups[i].email);
    }
    WriteEachIsSteps(l, Finder(l.rows), groups, column, l.clock, CanonicalOf);
    SameSteps(EraseAll(l), groups, Grouped(batch, CanonicalOf), column, CanonicalOf);
    GroupsAreSingles(EraseAll(l), batch, column, CanonicalOf);
  }

  /** The batch counter refines the simple one: with no blank address, on a ledger with one row per
      address, neither is refused and both leave the same ledger but for its timestamps: the same
      counts, the same auto-suppressions, and new rows under the same ids and spellings. */
  lemma BatchIsOneByOne(l: Ledger, batch: seq<string>, column: Column)
    requires Valid(l) && OnePer(l.rows, CanonicalOf) && NoBlanks(batch)
    ensures Incremented(l, batch, column).Some? && OneByOne(l, batch, column).Some?
    ensures EraseAll(Incremented(l, batch, column).value) == EraseAll(OneByOne(l, batch, column).value)
  {
    BatchIsSteps(l, batch, column);
    OneByOneIsSteps(l, batch, column);
  }

  /** On any ledger, duplicates and blank addresses included: when no write is refused, the column
      total rises by exactly the length of the batch. */
  lemma BatchAddsItsLength(l: Ledger, batch: seq<string>, column: Column)
    requires Valid(l) && Incremented(l, batch, column).Some?
    ensures Total(Incremented(l, batch, column).value.rows, column) == Total(l.rows, column) + |batch|
  {
    hide CanonicalOf, FindContact, Grouped, Merge, Tally, WriteEach, Total, NewText;
    MergeTally(batch, Resolver(l.rows));
    forall email
      ensures Finder(l.rows)(email).Some? ==>
                && Finder(l.rows)(email).value in l.rows
                && Resolver(l.rows)(email) == RowKey(Finder(l.rows)(email).value.id)
    {
      FindContactMeans(l.rows, email);
    }
    GroupedAddsUp(l, Finder(l.rows), Resolver(l.rows), batch, column, l.clock);
  }

  // ---------------------------------------------------------------- find-or-create and suppression

  function UpsertContact(l: Ledger, email: string): (r: Option<Ledger>) {
    match FindContact(l.rows, email)
    case Some(_) => Some(l)
    case None => if CanCreate(l, email) then Some(Create(l, Blank(l, email))) else None
  }

  function Suppress(flag: bool): Contact -> Contact {
    (c: Contact) => c.(suppressed := flag)
  }

  /** Suppressing or unsuppressing an address that has no row creates it in the named state. */
  function SetSuppressed(l: Ledger, email: string, flag: bool): (r: Option<Ledger>) {
    match FindContact(l.rows, email)
    case Some(c) => Some(Update(l, c.id, Suppress(flag)))
    case None => if CanCreate(l, email) then Some(Create(l, Blank(l, email).(suppressed := flag))) else None
  }
}
