/** The send gate of src/db/address-lifecycle.ts: whether an address may send now, answered from
    bounded enumerations of a store that serves pages of whatever size it likes. */
module QuotaGate {
  import opened Wrappers
  import opened Text
  import opened EmailAddress
  import opened Sorting

  const PAGE_SIZE := 500
  const MAX_ADDRESS_PAGES := 20
  const MAX_MESSAGE_PAGES := 40
  const DAY := 86400000

  datatype Address = Address(email: string, status: Option<string>, dailyQuota: Option<int>, createdAt: string)

  /** `stamp` is the instant of `received_at ?? created_at` in milliseconds, absent when it does not
      parse. */
  datatype Message = Message(outbound: bool, from: string, stamp: Option<nat>)

  datatype Fault = Refused | RegistrationUnknown | QuotaUnknown

  // ---------------------------------------------------------------- the store

  /** The rows that the pushed-down filters leave: outbound, "From" contains the text, not before `since`. */
  predicate Pushed(m: Message, from: string, since: nat) {
    m.outbound && Includes(Lower(m.from), from) && m.stamp.Some? && m.stamp.value >= since
  }

  function Answer(messages: seq<Message>, from: string, since: nat): (r: seq<Message>) {
    if messages == [] then []
    else
      var n := |messages| - 1;
      Answer(messages[..n], from, since) + if Pushed(messages[n], from, since) then [messages[n]] else []
  }

  datatype Page = Page(items: seq<Message>, nextCursor: Option<nat>)

  /** A store as a caller sees it: it may refuse any request and serve any part of what was asked for. */
  class Store {
    const addresses: seq<Address>
    const messages: seq<Message>
    /** Whether a request may be refused at all. */
    const refuses: bool

    constructor (addresses: seq<Address>, messages: seq<Message>, refuses: bool)
      ensures this.addresses == addresses && this.messages == messages && this.refuses == refuses
    {
      this.addresses := addresses;
      this.messages := messages;
      this.refuses := refuses;
    }

    /** Some rows from `offset` on; none only when there are none left. */
    method ListAddresses(limit: nat, offset: nat) returns (r: Result<seq<Address>, Fault>)
      requires limit > 0
      ensures r.Ok? && offset < |addresses| ==>
                r.value != [] && offset + |r.value| <= |addresses| && r.value == addresses[offset..offset + |r.value|]
      ensures r.Ok? && offset >= |addresses| ==> r.value == []
      ensures r.Err? ==> refuses && r.error == Refused
    {
      var refused: bool := *;
      if refuses && refused {
        return Err(Refused);
      }
      if offset >= |addresses| {
        return Ok([]);
      }
      var n :| 1 <= n <= limit && offset + n <= |addresses|;
      r := Ok(addresses[offset..offset + n]);
    }

    /** Some rows of the filtered stream after the cursor, none only when there are none left; the cursor
        of the page is null exactly when it is the last. */
    method ListMessages(from: string, since: nat, limit: nat, cursor: Option<nat>) returns (r: Result<Page, Fault>)
      requires limit > 0 && (cursor.Some? ==> cursor.value <= |Answer(messages, from, since)|)
      ensures r.Ok? ==>
                var answer, start := Answer(messages, from, since), cursor.GetOr(0);
                var end := start + |r.value.items|;
                && end <= |answer| && r.value.items == answer[start..end]
                && (start < |answer| ==> r.value.items != [])
                && r.value.nextCursor == (if end == |answer| then None else Some(end))
      ensures r.Err? ==> refuses && r.error == Refused
    {
      var refused: bool := *;
      if refuses && refused {
        return Err(Refused);
      }
      var answer, start := Answer(messages, from, since), cursor.GetOr(0);
      var n :| 0 <= n <= limit && start + n <= |answer| && (n == 0 ==> start == |answer|);
      r := Ok(Page(answer[start..start + n], if start + n == |answer| then None else Some(start + n)));
    }
  }

  // ---------------------------------------------------------------- the registered rows

  datatype Enumerated = Enumerated(rows: seq<Address>, complete: bool)

  /** What was seen is a first part of the table, and all of it when the scan says so. */
  ghost predicate IsScan(seen: Enumerated, table: seq<Address>) {
    && |seen.rows| <= |table| && seen.rows == table[..|seen.rows|]
    && (seen.complete ==> seen.rows == table)
  }

  method EnumerateAddresses(store: Store) returns (r: Result<Enumerated, Fault>)
    ensures r.Ok? ==> IsScan(r.value, store.addresses) && (|store.addresses| < MAX_ADDRESS_PAGES ==> r.value.complete)
    ensures r.Err? ==> store.refuses && r.error == Refused
  {
    var rows: seq<Address> := [];
    var page := 0;
    while page < MAX_ADDRESS_PAGES
      invariant page <= MAX_ADDRESS_PAGES && page <= |rows| <= |store.addresses|
      invariant rows == store.addresses[..|rows|]
    {
      var listed := store.ListAddresses(PAGE_SIZE, |rows|);
      if listed.Err? {
        return Err(listed.error);
      }
      if listed.value == [] {
        return Ok(Enumerated(rows, true));
      }
      rows := rows + listed.value;
      page := page + 1;
    }
    r := Ok(Enumerated(rows, false));
  }

  predicate Suspended(a: Address) {
    a.status == Some("suspended")
  }

  /** Suspended rows first, then the newest. */
  predicate Precedes(a: Address, b: Address) {
    if Suspended(a) != Suspended(b) then Suspended(a) else !Less(a.createdAt, b.createdAt)
  }

  lemma PrecedesIsTotal()
    ensures TotalPreorder(Precedes)
  {
    forall a, b
      ensures Precedes(a, b) || Precedes(b, a)
    {
      LessTotal(a.createdAt, b.createdAt);
    }
    forall a, b, c | Precedes(a, b) && Precedes(b, c)
      ensures Precedes(a, c)
    {
      var x, y, z := a.createdAt, b.createdAt, c.createdAt;
      if Suspended(a) == Suspended(b) == Suspended(c) && Less(x, z) {
        LessTotal(y, z);
        LessTotal(x, y);
        if Less(z, y) {
          LessTransitive(x, z, y);
        }
      }
    }
  }

  function Matching(rows: seq<Address>, target: string): (r: seq<Address>)
    ensures forall a :: a in r <==> a in rows && CanonicalOf(a.email) == target
  {
    if rows == [] then []
    else
      var rest := Matching(rows[1..], target);
      assert rows == [rows[0]] + rows[1..];
      if CanonicalOf(rows[0].email) == target then [rows[0]] + rest else rest
  }

  predicate Registered(rows: seq<Address>, target: string) {
    exists a :: a in rows && CanonicalOf(a.email) == target
  }

  /** `a` is registered for the target, and no other row for it comes before `a`. */
  ghost predicate Governs(a: Address, rows: seq<Address>, target: string) {
    && a in rows && CanonicalOf(a.email) == target
    && forall b :: b in rows && CanonicalOf(b.email) == target ==> Precedes(a, b)
  }

  /** The governing row is one of the target's: a suspended one if there is any, and of those as suspended
      as itself the last created. */
  lemma GovernsMeans(a: Address, rows: seq<Address>, target: string)
    ensures Governs(a, rows, target) <==>
              && a in rows && CanonicalOf(a.email) == target
              && forall b :: b in rows && CanonicalOf(b.email) == target ==>
                   && (b.status == Some("suspended") ==> a.status == Some("suspended"))
                   && ((b.status == Some("suspended") <==> a.status == Some("suspended")) ==>
                         a.createdAt == b.createdAt || Less(b.createdAt, a.createdAt))
  {
    hide CanonicalOf, Less;
    forall b: Address
      ensures !Less(a.createdAt, b.createdAt) <==> a.createdAt == b.createdAt || Less(b.createdAt, a.createdAt)
    {
      LessTotal(a.createdAt, b.createdAt);
    }
  }

  lemma FirstMatchGoverns(rows: seq<Address>, target: string)
    requires Matching(rows, target) != []
    ensures Governs(Sort(Matching(rows, target), Precedes)[0], rows, target)
  {
    hide CanonicalOf, Precedes;
    var matches := Matching(rows, target);
    var sorted := Sort(matches, Precedes);
    PrecedesIsTotal();
    SortSorted(matches, Precedes);
    SameMembers(sorted, matches, sorted[0]);
    forall b | b in matches
      ensures Precedes(sorted[0], b)
    {
      SameMembers(sorted, matches, b);
      assert Precedes(b, b);
    }
  }

  method MatchingAddresses(store: Store, target: string)
    returns (r: Result<seq<Address>, Fault>, ghost seen: Enumerated)
    ensures IsScan(seen, store.addresses)
    ensures r.Ok? && |store.addresses| < MAX_ADDRESS_PAGES ==> seen.complete
    ensures r.Ok? && r.value != [] ==> Governs(r.value[0], seen.rows, target)
    ensures r.Ok? && r.value == [] ==> seen.complete && !Registered(store.addresses, target)
    ensures r.Err? ==> (store.refuses && r.error == Refused) || r.error == RegistrationUnknown
    ensures r == Err(RegistrationUnknown) ==>
              !seen.complete && !Registered(seen.rows, target) && |store.addresses| >= MAX_ADDRESS_PAGES
  {
    hide CanonicalOf, Precedes, Governs;
    seen := Enumerated([], false);
    var listed := EnumerateAddresses(store);
    if listed.Err? {
      return Err(listed.error), seen;
    }
    seen := listed.value;
    var matches := Matching(listed.value.rows, target);
    if !listed.value.complete && matches == [] {
      return Err(RegistrationUnknown), seen;
    }
    if matches != [] {
      FirstMatchGoverns(listed.value.rows, target);
    }
    r := Ok(Sort(matches, Precedes));
  }

  // ---------------------------------------------------------------- counting one day's sends

  /** A row that the count is about: the client's own exact checks. */
  predicate Counts(m: Message, target: string, day: nat) {
    CanonicalOf(m.from) == target && m.stamp.Some? && m.stamp.value / DAY == day
  }

  function CountIn(rows: seq<Message>, target: string, day: nat): (n: nat) {
    if rows == [] then 0
    else CountIn(rows[..|rows| - 1], target, day) + if Counts(rows[|rows| - 1], target, day) then 1 else 0
  }

  /** The truth: how many messages this sender sent on that day. */
  function TrueSends(messages: seq<Message>, target: string, day: nat): (n: nat) {
    if messages == [] then 0
    else
      var m := messages[|messages| - 1];
      TrueSends(messages[..|messages| - 1], target, day) + if m.outbound && Counts(m, target, day) then 1 else 0
  }

  /** The places of the messages that the sender sent between that day's midnight and the next. */
  ghost function SentOn(messages: seq<Message>, target: string, day: nat): set<nat> {
    set i: nat | i < |messages| && messages[i].outbound && CanonicalOf(messages[i].from) == target
                 && messages[i].stamp.Some? && day * 86400000 <= messages[i].stamp.value < (day + 1) * 86400000
  }

  lemma DayMeans(stamp: nat, day: nat)
    ensures stamp / DAY == day <==> day * 86400000 <= stamp < (day + 1) * 86400000
  {}

  lemma SentOnMore(messages: seq<Message>, target: string, day: nat)
    requires messages != []
    ensures var n := |messages| - 1;
            var before, m := SentOn(messages[..n], target, day), messages[n];
            var counted := m.outbound && CanonicalOf(m.from) == target
                           && m.stamp.Some? && day * 86400000 <= m.stamp.value < (day + 1) * 86400000;
            SentOn(messages, target, day) == (if counted then before + {n} else before) && n !in before
  {
    hide CanonicalOf;
    var n := |messages| - 1;
    assert forall i :: 0 <= i < n ==> messages[..n][i] == messages[i];
  }

  lemma {:induction false} SendsMean(messages: seq<Message>, target: string, day: nat)
    ensures TrueSends(messages, target, day) == |SentOn(messages, target, day)|
  {
    hide CanonicalOf;
    if messages == [] {
      assert SentOn(messages, target, day) == {};
    } else {
      var n := |messages| - 1;
      SendsMean(messages[..n], target, day);
      if messages[n].stamp.Some? {
        DayMeans(messages[n].stamp.value, day);
      }
      SentOnMore(messages, target, day);
    }
  }

  /** Narrowing the scan in the store loses no row that counts, although the store matches "From" as a
      substring and knows nothing of canonical addresses. */
  lemma {:induction false} PushdownLosesNothing(messages: seq<Message>, target: string, day: nat)
    ensures CountIn(Answer(messages, target, day * DAY), target, day) == TrueSends(messages, target, day)
  {
    hide CanonicalOf, Includes;
    if messages == [] {
    } else {
      var n := |messages| - 1;
      var m, before := messages[n], Answer(messages[..n], target, day * DAY);
      PushdownLosesNothing(messages[..n], target, day);
      CanonicalOfIncluded(m.from);
      assert Counts(m, target, day) ==> m.stamp.value >= day * DAY;
      if Pushed(m, target, day * DAY) {
        assert (before + [m])[..|before|] == before;
      } else {
        assert before + [] == before;
      }
    }
  }

  lemma {:induction false} CountPrefix(rows: seq<Message>, k: nat, target: string, day: nat)
    requires k <= |rows|
    ensures CountIn(rows[..k], target, day) <= CountIn(rows, target, day)
    decreases |rows|
  {
    hide Counts;
    if k < |rows| {
      CountPrefix(rows[..|rows| - 1], k, target, day);
      assert rows[..|rows| - 1][..k] == rows[..k];
    } else {
      assert rows[..k] == rows;
    }
  }

  lemma CountStep(rows: seq<Message>, k: nat, target: string, day: nat)
    requires k < |rows|
    ensures CountIn(rows[..k + 1], target, day)
              == CountIn(rows[..k], target, day) + if Counts(rows[k], target, day) then 1 else 0
  {
    assert rows[..k + 1][..k] == rows[..k];
  }

  lemma CountNone(rows: seq<Message>, target: string, day: nat)
    ensures CountIn(rows[..0], target, day) == 0
  {}

  datatype SendCount = SendCount(count: nat, complete: bool)

  method CountSendsOnDay(store: Store, target: string, day: nat, stopAt: Option<int>)
    returns (r: Result<SendCount, Fault>)
    ensures r.Ok? ==>
              && r.value.count <= TrueSends(store.messages, target, day)
              && (r.value.complete ==> r.value.count == TrueSends(store.messages, target, day))
              && (!r.value.complete && (stopAt.Some? ==> r.value.count < stopAt.value) ==>
                    |Answer(store.messages, target, day * DAY)| > MAX_MESSAGE_PAGES)
    ensures r.Err? ==> store.refuses && r.error == Refused
  {
    hide Counts, Answer, TrueSends, CountIn;
    ghost var answer := Answer(store.messages, target, day * DAY);
    PushdownLosesNothing(store.messages, target, day);
    var count := 0;
    CountNone(answer, target, day);
    var cursor: Option<nat> := None;
    ghost var seen := 0;
    var page := 0;
    while page < MAX_MESSAGE_PAGES
      invariant page <= MAX_MESSAGE_PAGES
      invariant page <= seen == cursor.GetOr(0) <= |answer|
      invariant page > 0 ==> seen < |answer|
      invariant count == CountIn(answer[..seen], target, day)
    {
      var listed := store.ListMessages(target, day * DAY, PAGE_SIZE, cursor);
      if listed.Err? {
        return Err(listed.error);
      }
      var items := listed.value.items;
      for i := 0 to |items|
        invariant seen + |items| <= |answer| && items == answer[seen..seen + |items|]
        invariant count == CountIn(answer[..seen + i], target, day)
      {
        assert items[i] == answer[seen + i];
        CountStep(answer, seen + i, target, day);
        if Counts(items[i], target, day) {
          count := count + 1;
          if stopAt.Some? && count >= stopAt.value {
            CountPrefix(answer, seen + i + 1, target, day);
            return Ok(SendCount(count, false));
          }
        }
      }
      seen := seen + |items|;
      if listed.value.nextCursor.None? {
        assert answer[..seen] == answer;
        return Ok(SendCount(count, true));
      }
      cursor := listed.value.nextCursor;
      page := page + 1;
    }
    CountPrefix(answer, seen, target, day);
    r := Ok(SendCount(count, false));
  }

  // ---------------------------------------------------------------- the gate

  datatype Check = Registration | Suspension | Quota

  datatype Sendability = Sendability(
    sendable: bool, evaluated: seq<Check>, sentToday: Option<nat>, lowerBound: bool, dailyQuota: Option<int>)

  /** What the gate may answer when row `a` governs the address and it made `sends` sends today. */
  ghost predicate Warranted(s: Sendability, a: Address, sends: nat) {
    if Suspended(a) then
      s == Sendability(false, [Registration, Suspension], None, false, a.dailyQuota)
    else if a.dailyQuota.None? then
      s == Sendability(true, [Registration, Suspension], None, false, None)
    else
      && s.evaluated == [Registration, Suspension, Quota]
      && s.dailyQuota == a.dailyQuota
      && s.sentToday.Some? && s.sentToday.value <= sends
      && (s.sendable <==> sends < a.dailyQuota.value)
      && (s.sendable ==> !s.lowerBound)
      && (!s.lowerBound ==> s.sentToday.value == sends)
      && (!s.sendable ==> s.sentToday.value >= a.dailyQuota.value)
  }

  predicate SuspendedFor(rows: seq<Address>, target: string) {
    exists a :: a in rows && CanonicalOf(a.email) == target && Suspended(a)
  }

  lemma SuspendedIsRegistered(rows: seq<Address>, target: string)
    ensures SuspendedFor(rows, target) ==> Registered(rows, target)
  {
    hide CanonicalOf;
  }

  lemma ScanIsWhole(seen: Enumerated, table: seq<Address>)
    requires IsScan(seen, table)
    ensures seen.complete ==> seen.rows == table
  {}

  /** The gate. Whatever the store's page sizes, an answer is one of two: nobody is registered, and then
      the whole table was read; or some row seen governs the address, and the answer is the one it
      warrants, so that a denial means suspension or a quota that the true count has reached, and a
      permission means neither. A suspended row denies once the scan is complete, wherever it stands in
      the table. A fault says what could not be decided, and a store that refuses nothing always gets an
      answer while its tables fit the page budgets. */
  method GetAddressSendability(store: Store, email: string, today: nat)
    returns (r: Result<Sendability, Fault>, ghost seen: Enumerated, ghost floor: SendCount)
    ensures IsScan(seen, store.addresses)
    ensures r.Ok? && |store.addresses| < 20 ==> seen.complete
    ensures r.Ok? ==>
              || (r.value == Sendability(true, [Registration], None, false, None)
                  && seen.complete && !Registered(store.addresses, CanonicalOf(email)))
              || exists a :: Governs(a, seen.rows, CanonicalOf(email))
                             && Warranted(r.value, a, TrueSends(store.messages, CanonicalOf(email), today))
    ensures r.Ok? && seen.complete && SuspendedFor(store.addresses, CanonicalOf(email)) ==> !r.value.sendable
    ensures r == Err(RegistrationUnknown) ==> !seen.complete && !Registered(seen.rows, CanonicalOf(email))
    ensures r == Err(QuotaUnknown) ==>
              && !floor.complete && floor.count <= TrueSends(store.messages, CanonicalOf(email), today)
              && exists a :: Governs(a, seen.rows, CanonicalOf(email)) && !Suspended(a)
                             && a.dailyQuota.Some? && floor.count < a.dailyQuota.value
    ensures r == Err(Refused) ==> store.refuses
    ensures (&& !store.refuses && |store.addresses| < 20
             && |Answer(store.messages, CanonicalOf(email), today * DAY)| <= 40) ==> r.Ok?
  {
    hide CanonicalOf, TrueSends, Registered, Answer, IsScan;
    floor := SendCount(0, false);
    var target := CanonicalOf(email);
    var matched;
    matched, seen := MatchingAddresses(store, target);
    if matched.Err? {
      return Err(matched.error), seen, floor;
    }
    SuspendedIsRegistered(store.addresses, target);
    if matched.value == [] {
      return Ok(Sendability(true, [Registration], None, false, None)), seen, floor;
    }
    var record := matched.value[0];
    assert seen.complete ==> seen.rows == store.addresses by { ScanIsWhole(seen, store.addresses); }
    if record.status.GetOr("active") == "suspended" {
      return Ok(Sendability(false, [Registration, Suspension], None, false, record.dailyQuota)), seen, floor;
    }
    if record.dailyQuota.None? {
      return Ok(Sendability(true, [Registration, Suspension], None, false, None)), seen, floor;
    }
    var quota := record.dailyQuota.value;
    var counted := CountSendsOnDay(store, target, today, Some(quota));
    if counted.Err? {
      return Err(counted.error), seen, floor;
    }
    floor := counted.value;
    var used := Some(counted.value.count);
    if counted.value.count >= quota {
      r := Ok(Sendability(false, [Registration, Suspension, Quota], used, !counted.value.complete, Some(quota)));
      return;
    }
    if !counted.value.complete {
      return Err(QuotaUnknown), seen, floor;
    }
    r := Ok(Sendability(true, [Registration, Suspension, Quota], used, false, Some(quota)));
  }
}
