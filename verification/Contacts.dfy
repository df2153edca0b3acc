/** The contacts family of src/db/contacts.ts over a mutable ledger: every method reads the whole
    table through an enumeration that may list it in any order or fail, and writes row by row. */
module Contacts {
  import opened Wrappers
  import opened Text
  import opened EmailAddress
  import opened OrderedMap
  import opened CounterSteps
  import opened ContactLedger
  import opened ContactRuns
  import opened Suppression

  datatype Fault =
    | Unfinished   // the enumeration was refused, faulted or ran out of budget
    | Refused      // the store refused a write: its unique key on the email column
    | Disappeared  // the row looked up is not there to update

  method TallyEmails(emails: seq<string>) returns (counts: seq<Entry<string>>)
    ensures counts == Tally(emails)
  {
    counts := [];
    for i := 0 to |emails|
      invariant counts == Tally(emails[..i])
    {
      assert emails[..i + 1][..i] == emails[..i];
      counts := Add(counts, emails[i], emails[i], 1);
    }
    assert emails[..|emails|] == emails;
  }

  // ---------------------------------------------------------------- indexing one enumeration

  predicate HasId(rows: seq<Contact>, id: nat) {
    exists k :: 0 <= k < |rows| && rows[k].id == id
  }

  lemma HasIdOf(rows: seq<Contact>, c: Contact)
    requires c in rows
    ensures HasId(rows, c.id)
  {
    var k :| 0 <= k < |rows| && rows[k] == c;
  }

  lemma IdsStay(l: Ledger, r: Ledger, g: Entry<Key>, held: Option<Contact>, column: Column, stamp: nat,
                read: seq<Contact>)
    requires WriteFor(l, held, g.email, g.count, column, stamp) == Some(r)
    requires forall c :: c in read ==> HasId(l.rows, c.id)
    ensures forall c :: c in read ==> HasId(r.rows, c.id)
  {
    forall k | 0 <= k < |l.rows|
      ensures r.rows[k].id == l.rows[k].id
    {}
    forall c | c in read
      ensures HasId(r.rows, c.id)
    {
      var k :| 0 <= k < |l.rows| && l.rows[k].id == c.id;
      assert r.rows[k].id == c.id;
    }
  }

  /** `index` maps every key of `listed` to the newest row that carries it. */
  ghost predicate Indexes(listed: seq<Contact>, index: map<string, Contact>, keep: string -> Contact -> bool) {
    && (forall c, k :: c in listed && keep(k)(c) ==> k in index)
    && (forall k :: k in index ==> IsNewest(listed, keep(k), index[k]))
  }

  function BySpelling(): string -> Contact -> bool {
    (k: string) => SpelledAs(k)
  }

  function ByAddress(): string -> Contact -> bool {
    (k: string) => AddressedAs(k)
  }

  function Newer(index: map<string, Contact>, key: string, c: Contact): Contact {
    if key !in index || (NewestFirst(c, index[key]) && c != index[key]) then c else index[key]
  }

  lemma NewestFirstIsTotal()
    ensures Sorting.TotalPreorder(NewestFirst)
  {}

  lemma NewestOfOneMore(less: seq<Contact>, more: seq<Contact>, c: Contact, keep: Contact -> bool, held: Contact)
    requires forall d :: d in more <==> d in less || d == c
    requires IsNewest(less, keep, held)
    ensures keep(c) && (!NewestFirst(c, held) || c == held) ==> IsNewest(more, keep, held)
    ensures keep(c) && NewestFirst(c, held) ==> IsNewest(more, keep, c)
    ensures !keep(c) ==> IsNewest(more, keep, held)
  {
    NewestFirstIsTotal();
  }

  lemma FirstOfItsKind(less: seq<Contact>, more: seq<Contact>, c: Contact, keep: Contact -> bool)
    requires forall d :: d in more <==> d in less || d == c
    requires keep(c) && forall d :: d in less ==> !keep(d)
    ensures IsNewest(more, keep, c)
  {}

  /** Taking one more row into an index. */
  lemma IndexGrows(listed: seq<Contact>, i: nat, index: map<string, Contact>, key: string,
                   keep: string -> Contact -> bool)
    requires i < |listed| && Indexes(listed[..i], index, keep)
    requires forall k :: keep(k)(listed[i]) <==> k == key
    ensures Indexes(listed[..i + 1], index[key := Newer(index, key, listed[i])], keep)
  {
    hide IsNewest, NewestFirst;
    var c := listed[i];
    var less, more := listed[..i], listed[..i + 1];
    var grown := index[key := Newer(index, key, c)];
    assert more == less + [c];
    assert forall d :: d in more <==> d in less || d == c;
    forall k | k in grown
      ensures IsNewest(more, keep(k), grown[k])
    {
      if k in index {
        NewestOfOneMore(less, more, c, keep(k), index[k]);
      } else {
        FirstOfItsKind(less, more, c, keep(k));
      }
    }
  }

  method IndexRows(listed: seq<Contact>) returns (byExact: map<string, Contact>, byCanonical: map<string, Contact>)
    ensures Indexes(listed, byExact, BySpelling())
    ensures Indexes(listed, byCanonical, ByAddress())
  {
    byExact, byCanonical := map[], map[];
    for i := 0 to |listed|
      invariant Indexes(listed[..i], byExact, BySpelling())
      invariant Indexes(listed[..i], byCanonical, ByAddress())
    {
      var c := listed[i];
      var canonical := CanonicalOf(c.email);
      IndexGrows(listed, i, byExact, c.email, BySpelling());
      IndexGrows(listed, i, byCanonical, canonical, ByAddress());
      byExact := byExact[c.email := Newer(byExact, c.email, c)];
      byCanonical := byCanonical[canonical := Newer(byCanonical, canonical, c)];
    }
    assert listed[..|listed|] == listed;
  }

  function Lookup(index: map<string, Contact>, key: string): Option<Contact> {
    if key in index then Some(index[key]) else None
  }

  /** An index over the enumerated rows answers what sorting the matching stored rows does. */
  lemma LookupIsFirst(rows: seq<Contact>, listed: seq<Contact>, index: map<string, Contact>,
                      keep: string -> Contact -> bool, key: string)
    requires DistinctIds(rows) && multiset(rows) == multiset(listed) && Indexes(listed, index, keep)
    ensures Lookup(index, key) == First(Sorting.Sort(Select(rows, keep(key)), NewestFirst))
  {
    FirstIsNewest(rows, keep(key));
    forall c
      ensures c in rows <==> c in listed
    {
      Sorting.SameMembers(rows, listed, c);
    }
    var first := First(Sorting.Sort(Select(rows, keep(key)), NewestFirst));
    if key in index {
      assert IsNewest(listed, keep(key), index[key]);
      assert IsNewest(rows, keep(key), index[key]);
      NewestIsUnique(rows, keep(key), index[key], first.value);
    }
  }

  lemma FirstForgetsOrder(rows: seq<Contact>, listed: seq<Contact>, keep: Contact -> bool)
    requires DistinctIds(rows) && multiset(rows) == multiset(listed)
    ensures First(Sorting.Sort(Select(listed, keep), NewestFirst))
              == First(Sorting.Sort(Select(rows, keep), NewestFirst))
  {
    FirstIsNewest(rows, keep);
    FirstIsNewest(listed, keep);
    forall c
      ensures c in rows <==> c in listed
    {
      Sorting.SameMembers(rows, listed, c);
    }
    var a := First(Sorting.Sort(Select(listed, keep), NewestFirst));
    var b := First(Sorting.Sort(Select(rows, keep), NewestFirst));
    if a.Some? && b.Some? {
      assert IsNewest(rows, keep, a.value);
      NewestIsUnique(rows, keep, a.value, b.value);
    }
  }

  /** What the two indexes answer for one address. */
  function Resolve(byExact: map<string, Contact>, byCanonical: map<string, Contact>, email: string): Option<Contact> {
    var spelled := Trim(email);
    if spelled == "" then None
    else if spelled in byExact then Some(byExact[spelled])
    else Lookup(byCanonical, CanonicalOf(spelled))
  }

  lemma ResolveIsFind(rows: seq<Contact>, listed: seq<Contact>, byExact: map<string, Contact>,
                      byCanonical: map<string, Contact>, email: string)
    requires DistinctIds(rows) && multiset(rows) == multiset(listed)
    requires Indexes(listed, byExact, BySpelling()) && Indexes(listed, byCanonical, ByAddress())
    ensures Resolve(byExact, byCanonical, email) == FindContact(rows, email)
  {
    hide CanonicalOf;
    LookupIsFirst(rows, listed, byExact, BySpelling(), Trim(email));
    LookupIsFirst(rows, listed, byCanonical, ByAddress(), CanonicalOf(Trim(email)));
  }

  // ---------------------------------------------------------------- merging by resolved identity

  ghost predicate HeldAre(groups: seq<Entry<Key>>, held: seq<Option<Contact>>, rows: seq<Contact>) {
    && |held| == |groups|
    && forall i :: 0 <= i < |groups| ==>
         && held[i] == FindContact(rows, groups[i].email)
         && (held[i].Some? ==> held[i].value in rows)
  }

  /** Two spellings of one address become one group; the group keeps the row its first spelling found. */
  method MergeByIdentity(ghost rows: seq<Contact>, listed: seq<Contact>, byExact: map<string, Contact>,
                         byCanonical: map<string, Contact>, counts: seq<Entry<string>>)
    returns (groups: seq<Entry<Key>>, held: seq<Option<Contact>>)
    requires DistinctIds(rows) && multiset(rows) == multiset(listed)
    requires Indexes(listed, byExact, BySpelling()) && Indexes(listed, byCanonical, ByAddress())
    ensures groups == Merge(counts, Resolver(rows)) && HeldAre(groups, held, rows)
  {
    hide CanonicalOf, FindContact, Resolver, Resolve, KeyFor, NewText, Indexes;
    groups, held := [], [];
    for i := 0 to |counts|
      invariant groups == Merge(counts[..i], Resolver(rows)) && HeldAre(groups, held, rows)
    {
      assert counts[..i + 1][..i] == counts[..i];
      var email := counts[i].email;
      var existing := Resolve(byExact, byCanonical, email);
      ResolveIsFind(rows, listed, byExact, byCanonical, email);
      FindContactMeans(rows, email);
      var key := KeyFor(existing, NewText(email));
      ResolverMeans(rows, email);
      if !HasEntry(groups, key) {
        held := held + [existing];
      }
      groups := Add(groups, key, email, counts[i].count);
    }
    assert counts[..|counts|] == counts;
  }

  lemma EmptyBatch(l: Ledger, batch: seq<string>, column: Column)
    requires Tally(batch) == []
    ensures Incremented(l, batch, column) == Some(l)
  {}

  lemma PatchKeepsEmail(c: Contact, column: Column, next: int, stamp: nat)
    ensures Patch(c, column, next, stamp).email == c.email
  {}

  // ---------------------------------------------------------------- the suppression sets

  function ReportedAmong(rows: seq<Contact>, recipients: seq<string>): (r: seq<string>) {
    if recipients == [] then []
    else
      var n := |recipients| - 1;
      ReportedAmong(rows, recipients[..n]) + (if Reported(rows, recipients[n]) then [recipients[n]] else [])
  }

  lemma WantedGrows(emails: seq<string>, i: nat, before: set<string>, after: set<string>)
    requires i < |emails| && Wanted(emails[..i], before)
    requires forall a :: a in after <==> a in before || Asks(emails[i], a)
    ensures Wanted(emails[..i + 1], after)
  {
    hide Asks;
    var less, more := emails[..i], emails[..i + 1];
    forall a
      ensures a in after <==> exists k :: 0 <= k < |more| && Asks(more[k], a)
    {
      if a in before {
        var k :| 0 <= k < |less| && Asks(less[k], a);
        assert more[k] == less[k];
      }
      if a in after && a !in before {
        assert more[i] == emails[i];
      }
      if k :| 0 <= k < |more| && Asks(more[k], a) {
        if k < i {
          assert less[k] == more[k];
        }
      }
    }
  }

  method WantedAddresses(emails: seq<string>) returns (wanted: set<string>)
    ensures Wanted(emails, wanted)
  {
    wanted := {};
    for i := 0 to |emails|
      invariant Wanted(emails[..i], wanted)
    {
      var trimmed := Trim(emails[i]);
      ghost var before := wanted;
      if trimmed != "" {
        wanted := wanted + {CanonicalOf(trimmed)};
      }
      WantedGrows(emails, i, before, wanted);
    }
    assert emails[..|emails|] == emails;
  }

  lemma SuppressedSetGrows(rows: seq<Contact>, i: nat, wanted: set<string>, text: string)
    requires i < |rows|
    ensures InSuppressedSet(rows[..i + 1], wanted, text) <==>
            || InSuppressedSet(rows[..i], wanted, text)
            || (rows[i].suppressed && CanonicalOf(rows[i].email) in wanted
                && (text == rows[i].email || text == CanonicalOf(rows[i].email)))
  {
    hide CanonicalOf;
    var less, more := rows[..i], rows[..i + 1];
    assert more[i] == rows[i];
    if InSuppressedSet(less, wanted, text) {
      var k :| 0 <= k < |less| && less[k].suppressed && CanonicalOf(less[k].email) in wanted
               && (text == less[k].email || text == CanonicalOf(less[k].email));
      assert more[k] == less[k];
    }
    if InSuppressedSet(more, wanted, text) {
      var k :| 0 <= k < |more| && more[k].suppressed && CanonicalOf(more[k].email) in wanted
               && (text == more[k].email || text == CanonicalOf(more[k].email));
      if k < i {
        assert less[k] == more[k];
      }
    }
  }

  method SuppressedTexts(rows: seq<Contact>, wanted: set<string>) returns (suppressed: set<string>)
    ensures forall text :: text in suppressed <==> InSuppressedSet(rows, wanted, text)
  {
    hide CanonicalOf;
    suppressed := {};
    for i := 0 to |rows|
      invariant forall text :: text in suppressed <==> InSuppressedSet(rows[..i], wanted, text)
    {
      ghost var before := suppressed;
      if rows[i].suppressed && CanonicalOf(rows[i].email) in wanted {
        suppressed := suppressed + {rows[i].email, CanonicalOf(rows[i].email)};
      }
      forall text
        ensures text in suppressed <==> InSuppressedSet(rows[..i + 1], wanted, text)
      {
        hide InSuppressedSet;
        SuppressedSetGrows(rows, i, wanted, text);
      }
    }
    assert rows[..|rows|] == rows;
  }

  lemma NobodyAsks(emails: seq<string>, wanted: set<string>, i: nat, a: string)
    requires Wanted(emails, wanted) && wanted == {} && i < |emails|
    ensures !Asks(emails[i], a)
  {
    hide Asks;
    assert a !in wanted;
  }

  lemma {:induction false} AllBlank(rows: seq<Contact>, recipients: seq<string>)
    requires forall i :: 0 <= i < |recipients| ==> IsBlank(recipients[i])
    ensures ReportedAmong(rows, recipients) == []
  {
    hide IsBlank, CanonicalOf, CanonicalSender;
    if recipients == [] {
    } else {
      AllBlank(rows, recipients[..|recipients| - 1]);
    }
  }

  /** Nothing wanted means nobody was asked about, so nobody is named. */
  lemma NothingWanted(rows: seq<Contact>, recipients: seq<string>, wanted: set<string>)
    requires Wanted(recipients, wanted) && wanted == {}
    ensures ReportedAmong(rows, recipients) == []
  {
    hide Wanted;
    forall i | 0 <= i < |recipients|
      ensures IsBlank(recipients[i])
    {
      NobodyAsks(recipients, wanted, i, CanonicalOf(Trim(recipients[i])));
    }
    AllBlank(rows, recipients);
  }

  lemma ReportedForgetsOrder(a: seq<Contact>, b: seq<Contact>, email: string)
    requires multiset(a) == multiset(b)
    ensures Reported(a, email) <==> Reported(b, email)
  {
    if Reported(a, email) {
      var i :| 0 <= i < |a| && Catches(a[i], email);
      Sorting.SameMembers(a, b, a[i]);
    }
    if Reported(b, email) {
      var i :| 0 <= i < |b| && Catches(b[i], email);
      Sorting.SameMembers(a, b, b[i]);
    }
  }

  class ContactStore {
    var ledger: Ledger
    /** Whether an enumeration may fail at all. */
    const flaky: bool

    constructor (flaky: bool)
      ensures ledger == Ledger([], 0, 0) && Valid(ledger) && this.flaky == flaky
    {
      ledger := Ledger([], 0, 0);
      this.flaky := flaky;
    }

    /** Every row once, in whatever order the store lists them, or a failure. */
    method ReadAll() returns (r: Result<seq<Contact>, Fault>)
      ensures r.Ok? ==> multiset(r.value) == multiset(ledger.rows)
      ensures r.Err? ==> flaky && r.error == Unfinished
    {
      var failed: bool := *;
      if flaky && failed {
        r := Err(Unfinished);
      } else {
        var listed :| multiset(listed) == multiset(ledger.rows);
        r := Ok(listed);
      }
    }

    method CreateRow(c: Contact) returns (ok: bool)
      modifies this
      ensures ok <==> CanCreate(old(ledger), c.email)
      ensures ledger == if ok then Create(old(ledger), c) else old(ledger)
    {
      ok := CanCreate(ledger, c.email);
      if ok {
        ledger := Create(ledger, c);
      }
    }

    /** The store's update answers null for a row that is not there. */
    method UpdateRow(id: nat, patch: Contact -> Contact) returns (found: bool)
      modifies this
      ensures found <==> HasId(old(ledger.rows), id)
      ensures ledger == if found then Update(old(ledger), id, patch) else old(ledger)
    {
      found := HasId(ledger.rows, id);
      if found {
        ledger := Update(ledger, id, patch);
      }
    }

    // -------------------------------------------------------------- counters

    /** One enumeration resolves the whole batch; the writes that follow are one per touched contact. */
    method IncrementCounts(emails: seq<string>, column: Column) returns (r: Result<(), Fault>)
      requires Valid(ledger)
      modifies this
      ensures r.Ok? ==> Incremented(old(ledger), emails, column) == Some(ledger)
      ensures r == Err(Refused) ==> Incremented(old(ledger), emails, column) == None
      ensures r == Err(Unfinished) ==> flaky && ledger == old(ledger)
      ensures r != Err(Disappeared)
      ensures r != Err(Unfinished) ==> ledger == After(old(ledger), Increment(emails, column))
    {
      var counts := TallyEmails(emails);
      hide CanonicalOf, FindContact, WriteEach, Merge, Tally, Add, Resolver;
      if counts == [] {
        EmptyBatch(ledger, emails, column);
        return Ok(());
      }
      var listing := ReadAll();
      if listing.Err? {
        return Err(Unfinished);
      }
      var byExact, byCanonical := IndexRows(listing.value);
      var groups, held := MergeByIdentity(ledger.rows, listing.value, byExact, byCanonical, counts);
      assert groups == Groups(ledger.rows, emails);
      r := WriteGroups(groups, held, column);
    }

    /** One write: the row that was held gets the base read there plus the group's count; a missing
        row is created. */
    method WriteGroup(g: Entry<Key>, held: Option<Contact>, column: Column, stamp: nat) returns (r: Result<(), Fault>)
      modifies this
      ensures r.Ok? ==> WriteFor(old(ledger), held, g.email, g.count, column, stamp) == Some(ledger)
      ensures r == Err(Refused) ==> WriteFor(old(ledger), held, g.email, g.count, column, stamp) == None
      ensures r == Err(Disappeared) ==> held.Some? && !HasId(old(ledger.rows), held.value.id)
      ensures r.Err? ==> ledger == old(ledger) && r.error != Unfinished
    {
      hide CanCreate, Update;
      match held {
        case None =>
          PatchKeepsEmail(Blank(ledger, g.email), column, g.count, stamp);
          var ok := CreateRow(Patch(Blank(ledger, g.email), column, g.count, stamp));
          r := if ok then Ok(()) else Err(Refused);
        case Some(c) =>
          var found := UpdateRow(c.id, PatchTo(column, c.Count(column) + g.count, stamp));
          r := if found then Ok(()) else Err(Disappeared);
      }
    }

    /** The write loop: each group is written from the base that the one enumeration read. */
    method WriteGroups(groups: seq<Entry<Key>>, held: seq<Option<Contact>>, column: Column)
      returns (r: Result<(), Fault>)
      requires Valid(ledger) && HeldAre(groups, held, ledger.rows)
      modifies this
      ensures r.Ok? ==>
                WriteEach(old(ledger), Finder(old(ledger.rows)), groups, column, old(ledger.clock)) == Some(ledger)
      ensures r.Err? ==> r.error == Refused
      ensures r.Err? ==> WriteEach(old(ledger), Finder(old(ledger.rows)), groups, column, old(ledger.clock)) == None
      ensures ledger == WriteSome(old(ledger), Finder(old(ledger.rows)), groups, column, old(ledger.clock))
    {
      hide FindContact, WriteFor, HasId;
      var stamp := ledger.clock;
      ghost var read := ledger.rows;
      forall c | c in read
        ensures HasId(read, c.id)
      {
        HasIdOf(read, c);
      }
      for i := 0 to |groups|
        invariant WriteEach(old(ledger), Finder(read), groups[..i], column, stamp) == Some(ledger)
        invariant forall c :: c in read ==> HasId(ledger.rows, c.id)
      {
        assert groups[..i + 1][..i] == groups[..i];
        ghost var before := ledger;
        var written := WriteGroup(groups[i], held[i], column, stamp);
        if written.Err? {
          assert held[i].Some? ==> held[i].value in read;
          assert written.error == Refused;
          assert Finder(read)(groups[i].email) == held[i];
          assert groups[..i + 1][i] == groups[i];
          WriteEachStops(old(ledger), Finder(read), groups, i + 1, column, stamp);
          WriteSomeStops(old(ledger), Finder(read), groups, i, column, stamp);
          return written;
        }
        IdsStay(before, ledger, groups[i], held[i], column, stamp, read);
      }
      assert groups[..|groups|] == groups;
      r := Ok(());
    }

    // -------------------------------------------------------------- suppression

    method SetSuppressed(email: string, flag: bool) returns (r: Result<(), Fault>)
      requires Valid(ledger)
      modifies this
      ensures r.Ok? ==> ContactLedger.SetSuppressed(old(ledger), email, flag) == Some(ledger)
      ensures r == Err(Refused) ==> ContactLedger.SetSuppressed(old(ledger), email, flag) == None
      ensures r.Err? ==> ledger == old(ledger) && (r.error == Refused || (flaky && r.error == Unfinished))
    {
      var existing := Find(email);
      if existing.Err? {
        return Err(Unfinished);
      }
      match existing.value {
        case None =>
          var ok := CreateRow(Blank(ledger, email).(suppressed := flag));
          r := if ok then Ok(()) else Err(Refused);
        case Some(c) =>
          FindContactMeans(ledger.rows, email);
          var found := UpdateRow(c.id, Suppress(flag));
          r := if found then Ok(()) else Err(Disappeared);
      }
    }

    method UpsertContact(email: string) returns (r: Result<(), Fault>)
      requires Valid(ledger)
      modifies this
      ensures r.Ok? ==> ContactLedger.UpsertContact(old(ledger), email) == Some(ledger)
      ensures r == Err(Refused) ==> ContactLedger.UpsertContact(old(ledger), email) == None
      ensures r.Err? ==> ledger == old(ledger) && (r.error == Refused || (flaky && r.error == Unfinished))
    {
      var existing := Find(email);
      if existing.Err? {
        return Err(Unfinished);
      }
      if existing.value.Some? {
        return Ok(());
      }
      var ok := CreateRow(Blank(ledger, email));
      r := if ok then Ok(()) else Err(Refused);
    }

    /** Two reads: the exact spelling pushed down as a filter, then the whole table. */
    method Find(email: string) returns (r: Result<Option<Contact>, Fault>)
      requires Valid(ledger)
      ensures r.Ok? ==> r.value == FindContact(ledger.rows, email)
      ensures r.Err? ==> flaky
    {
      if Trim(email) == "" {
        return Ok(None);
      }
      var probed := ReadAll();
      if probed.Err? {
        return Err(Unfinished);
      }
      var listed := ReadAll();
      if listed.Err? {
        return Err(Unfinished);
      }
      var exact := First(Sorting.Sort(Select(probed.value, SpelledAs(Trim(email))), NewestFirst));
      var close := First(Sorting.Sort(Select(listed.value, AddressedAs(CanonicalOf(Trim(email)))), NewestFirst));
      FirstForgetsOrder(ledger.rows, probed.value, SpelledAs(Trim(email)));
      FirstForgetsOrder(ledger.rows, listed.value, AddressedAs(CanonicalOf(Trim(email))));
      r := Ok(if exact.Some? then exact else close);
    }

    /** Names, in the caller's spelling and order, exactly the recipients some suppressed row catches. */
    method SuppressedRecipientsAmong(recipients: seq<string>) returns (r: Result<seq<string>, Fault>)
      ensures r.Ok? ==> r.value == ReportedAmong(ledger.rows, recipients)
      ensures r.Err? ==> flaky
    {
      hide CanonicalOf, CanonicalSender, Reported, InSuppressedSet, Wanted;
      var wanted := WantedAddresses(recipients);
      if wanted == {} {
        NothingWanted(ledger.rows, recipients, wanted);
        return Ok([]);
      }
      var listing := ReadAll();
      if listing.Err? {
        return Err(Unfinished);
      }
      var suppressed := SuppressedTexts(listing.value, wanted);
      var named: seq<string> := [];
      for i := 0 to |recipients|
        invariant named == ReportedAmong(ledger.rows, recipients[..i])
      {
        assert recipients[..i + 1][..i] == recipients[..i];
        var e := recipients[i];
        var sender := CanonicalSender(e);
        SetTestIsReported(listing.value, recipients, wanted, i);
        ReportedForgetsOrder(listing.value, ledger.rows, e);
        if e in suppressed || Trim(e) in suppressed || (sender.Some? && sender.value in suppressed) {
          named := named + [e];
        }
      }
      assert recipients[..|recipients|] == recipients;
      r := Ok(named);
    }
  }
}
