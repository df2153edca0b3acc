/** App-level forwarding: the rules and the delivery ledger (src/db/forwarding.ts) and the runs that scan
    for pending copies, send them and record what happened (src/lib/forwarding.ts). */
module Forwarding {
  import opened Wrappers
  import opened Text
  import opened Sorting

  const MAX_PENDING_LIMIT := 1000
  const APP_COPY := "app-copy"

  /** `createdAt` is the instant SQLite's `datetime` reads in the stored text. */
  datatype Rule = Rule(
    id: string, source: string, target: string, mode: string,
    providerId: Option<string>, from: Option<string>, enabled: bool, createdAt: int)

  datatype Recipient = Recipient(inboundId: string, address: string)

  /** `at` is the instant that `datetime` reads in `receivedAt`. */
  datatype Mail = Mail(isSent: bool, receivedAt: string, at: int)

  datatype Status = Sent | Failed

  /** A rule and an inbound message: the key of the delivery ledger. */
  datatype Pair = Pair(ruleId: string, inboundId: string)

  datatype Delivery = Delivery(id: string, pair: Pair, status: Status, error: Option<string>)

  datatype Pending = Pending(rule: Rule, inboundId: string)

  datatype Db = Db(rules: seq<Rule>, recipients: seq<Recipient>, mail: map<string, Mail>, deliveries: seq<Delivery>)

  function PairOf(p: Pending): Pair {
    Pair(p.rule.id, p.inboundId)
  }

  ghost predicate OnePerPair(deliveries: seq<Delivery>) {
    DistinctBy(deliveries, (d: Delivery) => d.pair) && DistinctBy(deliveries, (d: Delivery) => d.id)
  }

  /** The primary and unique keys of the tables. */
  ghost predicate Keyed(db: Db) {
    && DistinctBy(db.rules, (r: Rule) => r.id)
    && DistinctBy(db.recipients, (r: Recipient) => r)
    && OnePerPair(db.deliveries)
  }

  // ---------------------------------------------------------------- the pending join

  predicate SentAlready(deliveries: seq<Delivery>, pair: Pair) {
    exists d :: d in deliveries && d.pair == pair && d.status == Sent
  }

  /** The join's conditions on one rule and one recipient row. */
  predicate Due(db: Db, rule: Rule, r: Recipient, backfill: bool) {
    && r.address == rule.source
    && r.inboundId in db.mail
    && rule.enabled
    && rule.mode == APP_COPY
    && !db.mail[r.inboundId].isSent
    && (backfill || db.mail[r.inboundId].at >= rule.createdAt)
    && !SentAlready(db.deliveries, Pair(rule.id, r.inboundId))
  }

  function OfRule(db: Db, rule: Rule, recipients: seq<Recipient>, backfill: bool): (r: seq<Pending>)
    ensures forall p :: p in r <==> p.rule == rule && Recipient(p.inboundId, rule.source) in recipients
                                    && Due(db, rule, Recipient(p.inboundId, rule.source), backfill)
  {
    if recipients == [] then []
    else
      var rest := OfRule(db, rule, recipients[1..], backfill);
      assert recipients == [recipients[0]] + recipients[1..];
      if Due(db, rule, recipients[0], backfill) then [Pending(rule, recipients[0].inboundId)] + rest else rest
  }

  function OfRules(db: Db, rules: seq<Rule>, backfill: bool): (r: seq<Pending>)
    ensures forall p :: p in r <==> p.rule in rules && p in OfRule(db, p.rule, db.recipients, backfill)
  {
    if rules == [] then []
    else
      assert rules == [rules[0]] + rules[1..];
      OfRule(db, rules[0], db.recipients, backfill) + OfRules(db, rules[1..], backfill)
  }

  function Join(db: Db, backfill: bool): (r: seq<Pending>) {
    OfRules(db, db.rules, backfill)
  }

  lemma DueMatches(db: Db, rule: Rule, r: Recipient, backfill: bool)
    requires Due(db, rule, r, backfill)
    ensures r == Recipient(r.inboundId, rule.source)
  {}

  lemma {:induction false} OfRuleDistinct(db: Db, rule: Rule, recipients: seq<Recipient>, backfill: bool)
    requires DistinctBy(recipients, (r: Recipient) => r)
    ensures DistinctBy(OfRule(db, rule, recipients, backfill), PairOf)
  {
    hide Due;
    if recipients == [] {
    } else {
      OfRuleDistinct(db, rule, recipients[1..], backfill);
      var first, rest := recipients[0], OfRule(db, rule, recipients[1..], backfill);
      forall j | 0 <= j < |rest| && Due(db, rule, first, backfill)
        ensures rest[j].inboundId != first.inboundId
      {
        assert rest[j] in rest;
        DueMatches(db, rule, first, backfill);
      }
    }
  }

  lemma {:induction false} OfRulesDistinct(db: Db, rules: seq<Rule>, backfill: bool)
    requires DistinctBy(rules, (r: Rule) => r.id) && DistinctBy(db.recipients, (r: Recipient) => r)
    ensures DistinctBy(OfRules(db, rules, backfill), PairOf)
  {
    hide Due, OfRule;
    if rules == [] {
    } else {
      OfRulesDistinct(db, rules[1..], backfill);
      OfRuleDistinct(db, rules[0], db.recipients, backfill);
      var a, b := OfRule(db, rules[0], db.recipients, backfill), OfRules(db, rules[1..], backfill);
      forall i, j | 0 <= i < |a| && 0 <= j < |b|
        ensures PairOf(a[i]) != PairOf(b[j])
      {
        assert a[i] in a && b[j] in b;
      }
    }
  }

  function ReceivedAt(mail: map<string, Mail>, p: Pending): string {
    if p.inboundId in mail then mail[p.inboundId].receivedAt else ""
  }

  /** Oldest mail first, then by source. */
  function Older(mail: map<string, Mail>): (Pending, Pending) -> bool {
    (a: Pending, b: Pending) =>
      Less(ReceivedAt(mail, a), ReceivedAt(mail, b))
      || (ReceivedAt(mail, a) == ReceivedAt(mail, b) && !Less(b.rule.source, a.rule.source))
  }

  lemma OlderIsTotal(mail: map<string, Mail>)
    ensures TotalPreorder(Older(mail))
  {
    hide Less, ReceivedAt;
    var le := Older(mail);
    forall a, b
      ensures le(a, b) || le(b, a)
    {
      LessTotal(ReceivedAt(mail, a), ReceivedAt(mail, b));
      LessTotal(a.rule.source, b.rule.source);
    }
    forall a, b, c | le(a, b) && le(b, c)
      ensures le(a, c)
    {
      var x, y, z := ReceivedAt(mail, a), ReceivedAt(mail, b), ReceivedAt(mail, c);
      if x != y && y != z {
        LessTransitive(x, y, z);
      } else if x == y == z && Less(c.rule.source, a.rule.source) {
        LessTotal(b.rule.source, c.rule.source);
        LessTotal(a.rule.source, b.rule.source);
        if Less(b.rule.source, c.rule.source) {
          LessTransitive(b.rule.source, c.rule.source, a.rule.source);
        }
      }
    }
  }

  /** The nearest whole number towards zero, brought between one and the maximum. */
  function Clamp(limit: real): (n: nat)
    ensures 1 <= n <= MAX_PENDING_LIMIT
    ensures limit < 1.0 ==> n == 1
    ensures 1.0 <= limit < (MAX_PENDING_LIMIT + 1) as real ==> n as real <= limit < n as real + 1.0
    ensures limit >= MAX_PENDING_LIMIT as real ==> n == MAX_PENDING_LIMIT
  {
    var t := Truncated(limit);
    if t < 1 then 1 else if t > MAX_PENDING_LIMIT then MAX_PENDING_LIMIT else t
  }

  /** The scan; a limit that is not finite is refused. */
  function ListPending(db: Db, limit: Option<real>, backfill: bool): (r: Option<seq<Pending>>) {
    if limit.None? then None
    else
      var all := Sort(Join(db, backfill), Older(db.mail));
      Some(all[..Min(Clamp(limit.value), |all|)])
  }

  predicate Wants(db: Db, rule: Rule, pair: Pair, backfill: bool) {
    var r := Recipient(pair.inboundId, rule.source);
    rule in db.rules && rule.id == pair.ruleId && r in db.recipients && Due(db, rule, r, backfill)
  }

  /** Each pair is pending once, and exactly when an enabled rule is for one of the recipients of a
      received message and no delivery of the pair is 'sent'. */
  lemma PendingMeans(db: Db, backfill: bool, pair: Pair)
    requires Keyed(db)
    ensures DistinctBy(Join(db, backfill), PairOf)
    ensures (exists p :: p in Join(db, backfill) && PairOf(p) == pair) <==>
            (exists rule :: Wants(db, rule, pair, backfill))
  {
    hide Due;
    OfRulesDistinct(db, db.rules, backfill);
    if p :| p in Join(db, backfill) && PairOf(p) == pair {
      assert Wants(db, p.rule, pair, backfill);
    }
    if rule: Rule :| Wants(db, rule, pair, backfill) {
      assert Pending(rule, pair.inboundId) in Join(db, backfill);
    }
  }

  lemma NeverPendingWhenSent(db: Db, backfill: bool, p: Pending)
    requires p in Join(db, backfill)
    ensures !SentAlready(db.deliveries, PairOf(p))
  {}

  lemma JoinDistinct(db: Db, backfill: bool)
    requires Keyed(db)
    ensures DistinctBy(Join(db, backfill), PairOf)
  {
    hide OfRules;
    OfRulesDistinct(db, db.rules, backfill);
  }

  lemma LaterInOrder(all: seq<Pending>, n: nat, le: (Pending, Pending) -> bool, p: Pending, q: Pending)
    requires n <= |all| && Sorted(all, le) && p in all[..n] && q in all && q !in all[..n]
    ensures le(p, q)
  {
    var i :| 0 <= i < n && all[..n][i] == p;
    var j :| 0 <= j < |all| && all[j] == q;
    assert forall k :: 0 <= k < n ==> all[..n][k] == all[k];
  }

  /** What one scan lists: pending pairs, each once, as many as the limit allows, and none that is newer
      than one left out. */
  lemma ListedMeans(db: Db, limit: real, backfill: bool)
    requires Keyed(db)
    ensures var listed := ListPending(db, Some(limit), backfill).value;
            && DistinctBy(listed, PairOf)
            && (forall p :: p in listed ==> p in Join(db, backfill))
            && |listed| == Min(Clamp(limit), |Join(db, backfill)|)
            && (forall p, q :: p in listed && q in Join(db, backfill) && q !in listed ==> Older(db.mail)(p, q))
  {
    hide Due, OfRules, Older, Clamp, Keyed;
    var all := Sort(Join(db, backfill), Older(db.mail));
    assert DistinctBy(Join(db, backfill), PairOf) by { JoinDistinct(db, backfill); }
    RearrangedDistinct(Join(db, backfill), all, PairOf);
    OlderIsTotal(db.mail);
    SortSorted(Join(db, backfill), Older(db.mail));
    var listed := ListPending(db, Some(limit), backfill).value;
    forall p | p in listed
      ensures p in Join(db, backfill)
    {
      SameMembers(all, Join(db, backfill), p);
    }
    forall p, q | p in listed && q in Join(db, backfill) && q !in listed
      ensures Older(db.mail)(p, q)
    {
      SameMembers(all, Join(db, backfill), q);
      LaterInOrder(all, |listed|, Older(db.mail), p, q);
    }
  }

  // ---------------------------------------------------------------- the join, column by column

  /** A message is pending under a rule when the rule is on, copies, and is for one of its recipients, the
      message was received, not before the rule was made unless backfill is asked for, and no delivery of
      the two is recorded as sent. */
  lemma PendingColumns(db: Db, backfill: bool, rule: Rule, inboundId: string)
    ensures Pending(rule, inboundId) in Join(db, backfill) <==>
              && rule in db.rules && rule.enabled == true && rule.mode == "app-copy"
              && (exists r :: r in db.recipients && r.inboundId == inboundId && r.address == rule.source)
              && inboundId in db.mail && db.mail[inboundId].isSent == false
              && (db.mail[inboundId].at < rule.createdAt ==> backfill)
              && forall d :: d in db.deliveries && d.pair.ruleId == rule.id && d.pair.inboundId == inboundId ==>
                   d.status == Failed
  {
    var p := Pending(rule, inboundId);
    assert p in Join(db, backfill) <==> rule in db.rules && p in OfRule(db, rule, db.recipients, backfill);
    if r :| r in db.recipients && r.inboundId == inboundId && r.address == rule.source {
      assert r == Recipient(inboundId, rule.source);
    }
  }

  /** `p` is listed no later than `q`: its mail was received earlier, or at once and the rule's source is not
      the larger. */
  ghost predicate NoLater(mail: map<string, Mail>, p: Pending, q: Pending) {
    p.inboundId in mail && q.inboundId in mail ==>
      var a, b := mail[p.inboundId].receivedAt, mail[q.inboundId].receivedAt;
      Less(a, b) || (a == b && (p.rule.source == q.rule.source || Less(p.rule.source, q.rule.source)))
  }

  lemma OlderMeans(mail: map<string, Mail>, p: Pending, q: Pending)
    ensures Older(mail)(p, q) ==> NoLater(mail, p, q)
  {
    hide Less;
    LessTotal(p.rule.source, q.rule.source);
  }

  /** A scan lists the oldest first: as many as the whole part of the limit says, one at least and a
      thousand at most. */
  lemma ListedColumns(db: Db, limit: real, backfill: bool)
    requires Keyed(db)
    ensures var listed := ListPending(db, Some(limit), backfill).value;
            && (forall i, j :: 0 <= i < j < |listed| ==> NoLater(db.mail, listed[i], listed[j]))
            && (forall p, q :: p in listed && q in Join(db, backfill) && q !in listed ==> NoLater(db.mail, p, q))
            && (limit < 2.0 ==> |listed| <= 1) && |listed| <= 1000
            && (2.0 <= limit < 1001.0 ==> |listed| <= limit.Floor)
            && (|listed| < |Join(db, backfill)| ==>
                  |listed| == if limit < 2.0 then 1 else if limit >= 1001.0 then 1000 else limit.Floor)
  {
    hide Join, Older, Keyed;
    ListedMeans(db, limit, backfill);
    OlderIsTotal(db.mail);
    SortSorted(Join(db, backfill), Older(db.mail));
    var listed := ListPending(db, Some(limit), backfill).value;
    var all := Sort(Join(db, backfill), Older(db.mail));
    forall p, q | Older(db.mail)(p, q)
      ensures NoLater(db.mail, p, q)
    {
      OlderMeans(db.mail, p, q);
    }
    hide Sort, NoLater;
    forall i, j | 0 <= i < j < |listed|
      ensures NoLater(db.mail, listed[i], listed[j])
    {
      assert Older(db.mail)(all[i], all[j]);
    }
  }

  // ---------------------------------------------------------------- the delivery ledger

  /** What INSERT OR REPLACE removes: the rows that share either key with the new one. */
  function Others(deliveries: seq<Delivery>, id: string, pair: Pair): (r: seq<Delivery>)
    ensures forall d :: d in r <==> d in deliveries && d.id != id && d.pair != pair
  {
    if deliveries == [] then []
    else
      var rest := Others(deliveries[1..], id, pair);
      assert deliveries == [deliveries[0]] + deliveries[1..];
      if deliveries[0].id == id || deliveries[0].pair == pair then rest else [deliveries[0]] + rest
  }

  /** `COALESCE((SELECT id ... for the pair), fresh)`. */
  function KeptId(deliveries: seq<Delivery>, pair: Pair, fallback: string): (id: string) {
    if deliveries == [] then fallback
    else if deliveries[0].pair == pair then deliveries[0].id
    else KeptId(deliveries[1..], pair, fallback)
  }

  function Record(deliveries: seq<Delivery>, pair: Pair, status: Status, error: Option<string>,
                  newId: string): (r: seq<Delivery>) {
    var id := KeptId(deliveries, pair, newId);
    Others(deliveries, id, pair) + [Delivery(id, pair, status, error)]
  }

  lemma {:induction false} OthersDistinct(deliveries: seq<Delivery>, id: string, pair: Pair)
    requires OnePerPair(deliveries)
    ensures OnePerPair(Others(deliveries, id, pair))
  {
    if deliveries == [] {
    } else {
      var byPair, byId := (d: Delivery) => d.pair, (d: Delivery) => d.id;
      TailDistinct(deliveries, byPair);
      TailDistinct(deliveries, byId);
      OthersDistinct(deliveries[1..], id, pair);
      hide DistinctBy;
      ConsDistinct(deliveries[0], Others(deliveries[1..], id, pair), byPair);
      ConsDistinct(deliveries[0], Others(deliveries[1..], id, pair), byId);
    }
  }

  lemma {:induction false} KeptIdMeans(deliveries: seq<Delivery>, pair: Pair, fallback: string)
    requires OnePerPair(deliveries)
    ensures forall d :: d in deliveries && d.pair == pair ==> KeptId(deliveries, pair, fallback) == d.id
    ensures (forall d :: d in deliveries ==> d.pair != pair) ==> KeptId(deliveries, pair, fallback) == fallback
  {
    if deliveries == [] {
    } else {
      assert deliveries == [deliveries[0]] + deliveries[1..];
      KeptIdMeans(deliveries[1..], pair, fallback);
      assert forall d :: d in deliveries[1..] ==> d.pair != deliveries[0].pair;
    }
  }

  lemma IdsTell(deliveries: seq<Delivery>, d: Delivery, id: string, pair: Pair, newId: string)
    requires OnePerPair(deliveries) && d in deliveries && d.pair != pair && d.id != newId
    requires forall e :: e in deliveries && e.pair == pair ==> id == e.id
    requires (forall e :: e in deliveries ==> e.pair != pair) ==> id == newId
    ensures d.id != id
  {
    if e: Delivery :| e in deliveries && e.pair == pair {
      var i :| 0 <= i < |deliveries| && deliveries[i] == d;
      var j :| 0 <= j < |deliveries| && deliveries[j] == e;
    }
  }

  /** One row per pair: recording keeps the pair's id when it has one, replaces what it said, and leaves
      every other pair's row alone. */
  lemma RecordMeans(deliveries: seq<Delivery>, pair: Pair, status: Status, error: Option<string>, newId: string)
    requires OnePerPair(deliveries) && forall d :: d in deliveries ==> d.id != newId
    ensures var after := Record(deliveries, pair, status, error, newId);
            && OnePerPair(after)
            && (forall d :: d in after && d.pair == pair ==> d.status == status && d.error == error)
            && (exists d :: d in after && d.pair == pair)
            && (forall d, e :: d in deliveries && e in after && d.pair == e.pair == pair ==> d.id == e.id)
            && (forall d: Delivery :: d.pair != pair ==> (d in after <==> d in deliveries))
  {
    var id := KeptId(deliveries, pair, newId);
    var rest, after := Others(deliveries, id, pair), Record(deliveries, pair, status, error, newId);
    KeptIdMeans(deliveries, pair, newId);
    OthersDistinct(deliveries, id, pair);
    forall i | 0 <= i < |rest|
      ensures rest[i].id != id && rest[i].pair != pair
    {
      assert rest[i] in rest;
    }
    assert after[|rest|] in after;
    forall d | d in deliveries && d.pair != pair
      ensures d.id != id
    {
      IdsTell(deliveries, d, id, pair, newId);
    }
  }

  // ---------------------------------------------------------------- runs, one after another

  /** One attempt to send: a `Lost` one reached the provider and was then recorded as failed, because
      a ledger write threw. */
  datatype Attempt = Delivered | Lost | Refused

  /** An attempt, the error it recorded, and the id its ledger row would be given. */
  datatype Outcome = Outcome(attempt: Attempt, error: Option<string>, newId: string)

  datatype Entry = Entry(pair: Pair, attempt: Attempt)

  function StatusOf(a: Attempt): Status {
    if a == Delivered then Sent else Failed
  }

  /** The ledger, and everything that was ever attempted. */
  datatype State = State(db: Db, log: seq<Entry>)

  function Attempted(s: State, pair: Pair, o: Outcome): (r: State) {
    var deliveries := Record(s.db.deliveries, pair, StatusOf(o.attempt), o.error, o.newId);
    State(Db(s.db.rules, s.db.recipients, s.db.mail, deliveries), s.log + [Entry(pair, o.attempt)])
  }

  /** The history of a ledger under runs that do not overlap, `gone` being the rules and messages that
      have been deleted. Ids are generated, so a deleted one does not come back. */
  datatype Step =
    | Run(limit: real, backfill: bool, attempts: seq<Outcome>)
    | Change(db: Db, gone: set<string>)

  /** Process the pending pairs one by one. */
  function Process(s: State, pending: seq<Pending>, attempts: seq<Outcome>): (r: State)
    decreases |pending|
  {
    if pending == [] || attempts == [] then s
    else Process(Attempted(s, PairOf(pending[0]), attempts[0]), pending[1..], attempts[1..])
  }

  /** How many of the first `n` attempts were delivered and recorded so. */
  function DeliveredAmong(outcomes: seq<Outcome>, n: nat): (r: nat)
    requires n <= |outcomes|
  {
    if n == 0 then 0
    else DeliveredAmong(outcomes, n - 1) + if outcomes[n - 1].attempt == Delivered then 1 else 0
  }

  /** A change by anyone else: rules and mail come and go; a delivery goes only with its rule or message. */
  ghost predicate Changed(before: Db, after: Db, was: set<string>, gone: set<string>) {
    && Keyed(after)
    && was <= gone
    && (forall r :: r in after.rules ==> r.id !in gone)
    && (forall id :: id in after.mail ==> id !in gone)
    && (forall d :: d in before.deliveries ==>
          d in after.deliveries || d.pair.ruleId in gone || d.pair.inboundId in gone)
  }

  /** Once a pair is recorded as sent it is never attempted again: it is sent successfully at most once. */
  ghost predicate NeverAgain(log: seq<Entry>) {
    forall i, j :: 0 <= i < j < |log| && log[i].attempt == Delivered ==> log[i].pair != log[j].pair
  }

  /** What has been recorded as sent stays so while the pair exists. */
  ghost predicate Settled(s: State, gone: set<string>) {
    && Keyed(s.db)
    && (forall r :: r in s.db.rules ==> r.id !in gone)
    && (forall id :: id in s.db.mail ==> id !in gone)
    && (forall e :: e in s.log && e.attempt == Delivered ==>
          SentAlready(s.db.deliveries, e.pair) || e.pair.ruleId in gone || e.pair.inboundId in gone)
    && NeverAgain(s.log)
  }

  /** Fresh ids for the ledger rows of a run. */
  ghost predicate FreshIds(s: State, pending: seq<Pending>, attempts: seq<Outcome>)
    decreases |pending|
  {
    pending != [] && attempts != [] ==>
      && (forall d :: d in s.db.deliveries ==> d.id != attempts[0].newId)
      && FreshIds(Attempted(s, PairOf(pending[0]), attempts[0]), pending[1..], attempts[1..])
  }

  ghost predicate Open(s: State, pair: Pair, gone: set<string>) {
    !SentAlready(s.db.deliveries, pair) && pair.ruleId !in gone && pair.inboundId !in gone
  }

  /** The pair has never been recorded as sent. */
  ghost predicate NotDelivered(log: seq<Entry>, pair: Pair) {
    forall i :: 0 <= i < |log| && log[i].attempt == Delivered ==> log[i].pair != pair
  }

  lemma OpenIsNotDelivered(s: State, pair: Pair, gone: set<string>)
    requires Settled(s, gone) && Open(s, pair, gone)
    ensures NotDelivered(s.log, pair)
  {
    hide Keyed, NeverAgain;
    assert forall i :: 0 <= i < |s.log| ==> s.log[i] in s.log;
  }

  lemma NeverAgainGrows(log: seq<Entry>, pair: Pair, a: Attempt)
    requires NeverAgain(log)
    ensures NeverAgain(log + [Entry(pair, a)]) <==> NotDelivered(log, pair)
  {
    var more := log + [Entry(pair, a)];
    assert more[|log|] == Entry(pair, a) && forall i :: 0 <= i < |log| ==> more[i] == log[i];
    if !NotDelivered(log, pair) {
      var i :| 0 <= i < |log| && log[i].attempt == Delivered && log[i].pair == pair;
      assert more[i].pair == more[|log|].pair;
    }
  }

  lemma SentOthers(before: seq<Delivery>, after: seq<Delivery>, pair: Pair, other: Pair)
    requires other != pair && forall d: Delivery :: d.pair != pair ==> (d in after <==> d in before)
    ensures SentAlready(after, other) == SentAlready(before, other)
  {
    if d: Delivery :| d in before && d.pair == other && d.status == Sent {
      assert d in after;
    }
    if d: Delivery :| d in after && d.pair == other && d.status == Sent {
      assert d in before;
    }
  }

  /** Attempting a pair that was never recorded as sent keeps what has been recorded of the others. */
  lemma AttemptKeeps(s: State, pair: Pair, o: Outcome, gone: set<string>)
    requires Settled(s, gone) && NotDelivered(s.log, pair)
    requires forall d :: d in s.db.deliveries ==> d.id != o.newId
    ensures Settled(Attempted(s, pair, o), gone)
    ensures forall other :: other != pair ==>
              SentAlready(Attempted(s, pair, o).db.deliveries, other) == SentAlready(s.db.deliveries, other)
  {
    hide Record, OnePerPair, NeverAgain;
    RecordMeans(s.db.deliveries, pair, StatusOf(o.attempt), o.error, o.newId);
    var after := Attempted(s, pair, o);
    forall other | other != pair
      ensures SentAlready(after.db.deliveries, other) == SentAlready(s.db.deliveries, other)
    {
      SentOthers(s.db.deliveries, after.db.deliveries, pair, other);
    }
    NeverAgainGrows(s.log, pair, o.attempt);
    assert o.attempt == Delivered ==> SentAlready(after.db.deliveries, pair);
    forall e | e in s.log && e.attempt == Delivered
      ensures e.pair != pair
    {
      var i :| 0 <= i < |s.log| && s.log[i] == e;
    }
  }

  lemma AttemptSettles(s: State, pair: Pair, o: Outcome, gone: set<string>)
    requires Settled(s, gone) && Open(s, pair, gone)
    requires forall d :: d in s.db.deliveries ==> d.id != o.newId
    ensures Settled(Attempted(s, pair, o), gone)
    ensures forall other :: other != pair && Open(s, other, gone) ==> Open(Attempted(s, pair, o), other, gone)
  {
    hide Settled, Attempted, SentAlready;
    OpenIsNotDelivered(s, pair, gone);
    AttemptKeeps(s, pair, o, gone);
  }

  lemma {:induction false} ProcessSettles(s: State, pending: seq<Pending>, attempts: seq<Outcome>, gone: set<string>)
    requires Settled(s, gone) && DistinctBy(pending, PairOf) && FreshIds(s, pending, attempts)
    requires forall p :: p in pending ==> Open(s, PairOf(p), gone)
    ensures Settled(Process(s, pending, attempts), gone)
    decreases |pending|
  {
    hide Settled, Open, Attempted;
    if pending != [] && attempts != [] {
      var pair, t := PairOf(pending[0]), attempts[0];
      assert Open(s, pair, gone);
      AttemptSettles(s, pair, t, gone);
      forall p | p in pending[1..]
        ensures Open(Attempted(s, pair, t), PairOf(p), gone)
      {
        assert p in pending && PairOf(p) != pair;
      }
      ProcessSettles(Attempted(s, pair, t), pending[1..], attempts[1..], gone);
    }
  }

  /** A serial history: every run scans and records before anything else happens. */
  ghost predicate Serial(s: State, gone: set<string>, steps: seq<Step>, end: State)
    decreases |steps|
  {
    if steps == [] then end == s
    else
      match steps[0]
      case Run(limit, backfill, attempts) =>
        var pending := ListPending(s.db, Some(limit), backfill).value;
        FreshIds(s, pending, attempts) && Serial(Process(s, pending, attempts), gone, steps[1..], end)
      case Change(db, more) =>
        Changed(s.db, db, gone, more) && Serial(State(db, s.log), more, steps[1..], end)
  }

  lemma PendingIsOpen(s: State, gone: set<string>, backfill: bool, p: Pending)
    requires Settled(s, gone) && p in Join(s.db, backfill)
    ensures Open(s, PairOf(p), gone)
  {
    hide Keyed, NeverAgain;
    NeverPendingWhenSent(s.db, backfill, p);
  }

  lemma RunSettles(s: State, gone: set<string>, limit: real, backfill: bool, attempts: seq<Outcome>)
    requires Settled(s, gone) && FreshIds(s, ListPending(s.db, Some(limit), backfill).value, attempts)
    ensures Settled(Process(s, ListPending(s.db, Some(limit), backfill).value, attempts), gone)
  {
    hide Keyed, FreshIds, Process, OfRules, NeverAgain;
    var pending := ListPending(s.db, Some(limit), backfill).value;
    ListedMeans(s.db, limit, backfill);
    forall p | p in pending
      ensures Open(s, PairOf(p), gone)
    {
      PendingIsOpen(s, gone, backfill, p);
    }
    ProcessSettles(s, pending, attempts, gone);
  }

  lemma ChangeSettles(s: State, gone: set<string>, db: Db, more: set<string>)
    requires Settled(s, gone) && Changed(s.db, db, gone, more)
    ensures Settled(State(db, s.log), more)
  {
    hide Keyed, NeverAgain;
    forall e | e in s.log && e.attempt == Delivered
      ensures SentAlready(db.deliveries, e.pair) || e.pair.ruleId in more || e.pair.inboundId in more
    {
      if d: Delivery :| d in s.db.deliveries && d.pair == e.pair && d.status == Sent {
        assert d in db.deliveries || d.pair.ruleId in more || d.pair.inboundId in more;
      }
    }
  }

  /** In every serial history a pair that was recorded as sent is never attempted again, however the
      rules and the mail change between runs. */
  lemma {:induction false} SerialRunsSendOnce(s: State, gone: set<string>, steps: seq<Step>, end: State)
    requires Settled(s, gone) && Serial(s, gone, steps, end)
    ensures NeverAgain(end.log)
    decreases |steps|
  {
    hide Keyed, FreshIds, Process, Join, Clamp;
    if steps == [] {
    } else {
      match steps[0]
      case Run(limit, backfill, attempts) =>
        var pending := ListPending(s.db, Some(limit), backfill).value;
        RunSettles(s, gone, limit, backfill, attempts);
        SerialRunsSendOnce(Process(s, pending, attempts), gone, steps[1..], end);
      case Change(db, more) =>
        ChangeSettles(s, gone, db, more);
        SerialRunsSendOnce(State(db, s.log), more, steps[1..], end);
    }
  }

  // ---------------------------------------------------------------- what one run leaves behind

  /** The ledger says of the copy what became of it: 'sent' if it was delivered and 'failed' otherwise, with
      the error of the attempt. */
  ghost predicate Tells(deliveries: seq<Delivery>, p: Pending, o: Outcome) {
    exists d :: d in deliveries && d.pair == Pair(p.rule.id, p.inboundId)
                && (d.status == Sent <==> o.attempt == Delivered) && d.error == o.error
  }

  ghost predicate IdsStay(before: seq<Delivery>, after: seq<Delivery>) {
    forall d, e :: d in before && e in after && d.pair == e.pair ==> d.id == e.id
  }

  lemma AttemptTells(s: State, p: Pending, o: Outcome)
    requires OnePerPair(s.db.deliveries) && forall d :: d in s.db.deliveries ==> d.id != o.newId
    ensures var after := Attempted(s, PairOf(p), o).db.deliveries;
            && OnePerPair(after) && Tells(after, p, o) && IdsStay(s.db.deliveries, after)
            && forall d: Delivery :: d.pair != PairOf(p) ==> (d in after <==> d in s.db.deliveries)
  {
    hide Record;
    RecordMeans(s.db.deliveries, PairOf(p), StatusOf(o.attempt), o.error, o.newId);
    var after := Attempted(s, PairOf(p), o).db.deliveries;
    forall d, e | d in s.db.deliveries && e in after && d.pair == e.pair != PairOf(p)
      ensures d == e
    {
      var i :| 0 <= i < |s.db.deliveries| && s.db.deliveries[i] == d;
      var j :| 0 <= j < |s.db.deliveries| && s.db.deliveries[j] == e;
    }
  }

  lemma SameIds(deliveries: seq<Delivery>)
    requires OnePerPair(deliveries)
    ensures IdsStay(deliveries, deliveries)
  {
    forall d, e | d in deliveries && e in deliveries && d.pair == e.pair
      ensures d == e
    {
      var i :| 0 <= i < |deliveries| && deliveries[i] == d;
      var j :| 0 <= j < |deliveries| && deliveries[j] == e;
    }
  }

  lemma StillTells(before: seq<Delivery>, after: seq<Delivery>, p: Pending, o: Outcome)
    requires Tells(before, p, o) && forall d: Delivery :: d.pair == PairOf(p) && d in before ==> d in after
    ensures Tells(after, p, o)
  {}

  lemma IdsStayOn(a: seq<Delivery>, b: seq<Delivery>, c: seq<Delivery>)
    requires IdsStay(a, b) && IdsStay(b, c) && forall d :: d in a ==> exists e :: e in b && e.pair == d.pair
    ensures IdsStay(a, c)
  {}

  lemma PairsStay(s: State, p: Pending, o: Outcome)
    requires OnePerPair(s.db.deliveries) && forall d :: d in s.db.deliveries ==> d.id != o.newId
    ensures forall d :: d in s.db.deliveries ==>
              exists e :: e in Attempted(s, PairOf(p), o).db.deliveries && e.pair == d.pair
  {
    hide Attempted, OnePerPair;
    AttemptTells(s, p, o);
  }

  lemma {:induction false} ProcessLogs(s: State, pending: seq<Pending>, outcomes: seq<Outcome>)
    requires |pending| <= |outcomes|
    ensures var t := Process(s, pending, outcomes);
            && |t.log| == |s.log| + |pending| && t.log[..|s.log|] == s.log
            && (forall i :: 0 <= i < |pending| ==>
                  t.log[|s.log| + i] == Entry(Pair(pending[i].rule.id, pending[i].inboundId), outcomes[i].attempt))
            && t.db == s.db.(deliveries := t.db.deliveries)
    decreases |pending|
  {
    hide Record;
    if pending != [] {
      var m, t := Attempted(s, PairOf(pending[0]), outcomes[0]), Process(s, pending, outcomes);
      ProcessLogs(m, pending[1..], outcomes[1..]);
      forall i | 0 <= i < |pending|
        ensures t.log[|s.log| + i] == Entry(PairOf(pending[i]), outcomes[i].attempt)
      {
        if i > 0 {
          assert pending[i] == pending[1..][i - 1] && outcomes[i] == outcomes[1..][i - 1];
        } else {
          assert t.log[|s.log|] == t.log[..|m.log|][|s.log|];
        }
      }
    }
  }

  lemma {:induction false} ProcessRecords(s: State, pending: seq<Pending>, outcomes: seq<Outcome>)
    requires OnePerPair(s.db.deliveries) && DistinctBy(pending, PairOf) && FreshIds(s, pending, outcomes)
    requires |pending| <= |outcomes|
    ensures var after := Process(s, pending, outcomes).db.deliveries;
            && (forall i :: 0 <= i < |pending| ==> Tells(after, pending[i], outcomes[i]))
            && (forall d: Delivery :: (forall p :: p in pending ==> PairOf(p) != d.pair) ==>
                  (d in after <==> d in s.db.deliveries))
            && OnePerPair(after) && IdsStay(s.db.deliveries, after)
    decreases |pending|
  {
    hide OnePerPair, Tells, Attempted, IdsStay;
    if pending == [] {
      SameIds(s.db.deliveries);
    } else {
      var p, o, rest := pending[0], outcomes[0], pending[1..];
      var m := Attempted(s, PairOf(p), o);
      AttemptTells(s, p, o);
      PairsStay(s, p, o);
      assert DistinctBy(rest, PairOf) && forall q :: q in rest ==> PairOf(q) != PairOf(p);
      ProcessRecords(m, rest, outcomes[1..]);
      var after := Process(m, rest, outcomes[1..]).db.deliveries;
      StillTells(m.db.deliveries, after, p, o);
      IdsStayOn(s.db.deliveries, m.db.deliveries, after);
      forall i | 0 < i < |pending|
        ensures Tells(after, pending[i], outcomes[i])
      {
        assert pending[i] == rest[i - 1] && outcomes[i] == outcomes[1..][i - 1];
      }
    }
  }

  /** A run attempts its pairs once each and in order, and records of each what became of it; the other rows of
      the ledger stay, and so do rules, recipients and mail. */
  lemma ProcessMeans(s: State, pending: seq<Pending>, outcomes: seq<Outcome>)
    requires OnePerPair(s.db.deliveries) && DistinctBy(pending, PairOf) && FreshIds(s, pending, outcomes)
    requires |pending| <= |outcomes|
    ensures var t := Process(s, pending, outcomes);
            && |t.log| == |s.log| + |pending| && t.log[..|s.log|] == s.log
            && (forall i :: 0 <= i < |pending| ==>
                  t.log[|s.log| + i] == Entry(Pair(pending[i].rule.id, pending[i].inboundId), outcomes[i].attempt))
            && (forall i :: 0 <= i < |pending| ==> Tells(t.db.deliveries, pending[i], outcomes[i]))
            && (forall d: Delivery :: (forall p :: p in pending ==> PairOf(p) != d.pair) ==>
                  (d in t.db.deliveries <==> d in s.db.deliveries))
            && OnePerPair(t.db.deliveries) && IdsStay(s.db.deliveries, t.db.deliveries)
            && t.db == s.db.(deliveries := t.db.deliveries)
  {
    hide Process, FreshIds, OnePerPair, Tells, IdsStay, PairOf;
    ProcessLogs(s, pending, outcomes);
    ProcessRecords(s, pending, outcomes);
  }

  // ---------------------------------------------------------------- ids of ledger rows

  lemma {:induction false} KeptIdKnown(deliveries: seq<Delivery>, pair: Pair, fallback: string)
    ensures var id := KeptId(deliveries, pair, fallback);
            id == fallback || exists e :: e in deliveries && e.id == id
  {
    if deliveries != [] && deliveries[0].pair != pair {
      KeptIdKnown(deliveries[1..], pair, fallback);
    }
  }

  lemma {:induction false} RecordIds(deliveries: seq<Delivery>, pair: Pair, status: Status, error: Option<string>,
                                     newId: string, d: Delivery)
    requires d in Record(deliveries, pair, status, error, newId)
    ensures d.id == newId || exists e :: e in deliveries && e.id == d.id
  {
    KeptIdKnown(deliveries, pair, newId);
  }

  // ---------------------------------------------------------------- rules

  /** `^[^\s@]+@[^\s@]+\.[^\s@]+$`. */
  predicate LooksLikeAddress(s: string) {
    var at := IndexOf(s, '@');
    && 1 <= at < |s|
    && (forall i :: 0 <= i < |s| ==> !IsSpace(s[i]) && (s[i] == '@' ==> i == at))
    && exists dot :: at + 2 <= dot < |s| - 1 && s[dot] == '.'
  }

  function NormalizeEmail(value: string): (r: Option<string>) {
    var email := Lower(Trim(value));
    if LooksLikeAddress(email) then Some(email) else None
  }

  datatype Fault = InvalidAddress(value: string) | InvalidMode | InfiniteLimit

  datatype RuleInput = RuleInput(
    source: string, target: string, mode: Option<string>, providerId: Option<string>, from: Option<string>,
    enabled: Option<bool>)

  datatype RuleKey = RuleKey(source: string, target: string, mode: string)

  function KeyOf(r: Rule): RuleKey {
    RuleKey(r.source, r.target, r.mode)
  }

  /** The rule that an input describes, or the first of its faults in the order they are looked for. */
  function Validated(input: RuleInput): (r: Result<(RuleKey, Option<string>), Fault>) {
    var source := NormalizeEmail(input.source);
    if source.None? then Err(InvalidAddress(input.source))
    else
      var target := NormalizeEmail(input.target);
      if target.None? then Err(InvalidAddress(input.target))
      else
        var given := input.from.Some? && input.from.value != "";
        var from := if given then NormalizeEmail(input.from.value) else None;
        if given && from.None? then Err(InvalidAddress(input.from.value))
        else if input.mode.GetOr(APP_COPY) != APP_COPY then Err(InvalidMode)
        else Ok((RuleKey(source.value, target.value, APP_COPY), from))
  }

  ghost predicate RulesKeyed(rules: seq<Rule>) {
    DistinctBy(rules, KeyOf) && DistinctBy(rules, (r: Rule) => r.id)
  }

  lemma RuleReplaced(rules: seq<Rule>, i: nat, rule: Rule)
    requires RulesKeyed(rules) && i < |rules| && rule.id == rules[i].id && KeyOf(rule) == KeyOf(rules[i])
    ensures RulesKeyed(rules[i := rule])
    ensures forall r :: KeyOf(r) != KeyOf(rule) ==> (r in rules[i := rule] <==> r in rules)
    ensures forall r :: r in rules && KeyOf(r) == KeyOf(rule) ==> r == rules[i]
    ensures rule in rules[i := rule]
  {
    var after := rules[i := rule];
    assert after[i] == rule;
    forall r | r in rules && KeyOf(r) != KeyOf(rule)
      ensures r in after
    {
      var j :| 0 <= j < |rules| && rules[j] == r;
      assert after[j] == r;
    }
  }

  ghost predicate Solid(s: string) {
    s != "" && forall i :: 0 <= i < |s| ==> !IsSpace(s[i]) && s[i] != '@'
  }

  /** `local@domain`, the domain with a dot inside, and neither white space nor a second '@'. */
  ghost predicate MailForm(s: string) {
    exists a, b, c :: s == a + "@" + b + "." + c && Solid(a) && Solid(b) && Solid(c)
  }

  lemma FormIsLook(a: string, b: string, c: string)
    requires Solid(a) && Solid(b) && Solid(c)
    ensures LooksLikeAddress(a + "@" + b + "." + c)
  {
    var s := a + "@" + b + "." + c;
    var dot := |a| + 1 + |b|;
    forall i | 0 <= i < |s|
      ensures !IsSpace(s[i]) && (s[i] == '@' <==> i == |a|)
    {
      if i < |a| {
        assert s[i] == a[i];
      } else if |a| < i < dot {
        assert s[i] == b[i - |a| - 1];
      } else if i > dot {
        assert s[i] == c[i - dot - 1];
      }
    }
    IndexOfUnique(s, '@', |a|);
    assert s[dot] == '.';
  }

  lemma Pieces(s: string, at: nat, dot: nat)
    requires at < dot < |s| && s[at] == '@' && s[dot] == '.'
    ensures s == s[..at] + "@" + s[at + 1..dot] + "." + s[dot + 1..]
  {}

  lemma LookIsForm(s: string)
    requires LooksLikeAddress(s)
    ensures MailForm(s)
  {
    var at := IndexOf(s, '@');
    var dot :| at + 2 <= dot < |s| - 1 && s[dot] == '.';
    var a, b, c := s[..at], s[at + 1..dot], s[dot + 1..];
    hide IndexOf;
    assert s[at] == '@';
    Pieces(s, at, dot);
    assert Solid(a) && Solid(b) && Solid(c);
  }

  lemma FormMeans(s: string)
    ensures LooksLikeAddress(s) <==> MailForm(s)
  {
    hide Solid;
    if LooksLikeAddress(s) {
      LookIsForm(s);
    }
    if a, b, c :| s == a + "@" + b + "." + c && Solid(a) && Solid(b) && Solid(c) {
      FormIsLook(a, b, c);
    }
  }

  /** An input is good when source and target are addresses once trimmed and in lower case, the sender too
      where one is given, and the mode is `app-copy` or left out. */
  ghost predicate Good(input: RuleInput) {
    && MailForm(Lower(Trim(input.source)))
    && MailForm(Lower(Trim(input.target)))
    && (input.from.Some? && input.from.value != "" ==> MailForm(Lower(Trim(input.from.value))))
    && (input.mode.None? || input.mode.value == "app-copy")
  }

  /** The sender that an input names, if it names one. */
  ghost predicate SenderOf(input: RuleInput, from: Option<string>) {
    && (input.from.None? || input.from.value == "" ==> from == None)
    && (input.from.Some? && input.from.value != "" ==> from == Some(Lower(Trim(input.from.value))))
  }

  lemma ValidatedMeans(input: RuleInput)
    ensures Validated(input).Ok? <==> Good(input)
    ensures Validated(input).Ok? ==>
              && Validated(input).value.0 == RuleKey(Lower(Trim(input.source)), Lower(Trim(input.target)), "app-copy")
              && SenderOf(input, Validated(input).value.1)
    ensures Validated(input).Err? && !MailForm(Lower(Trim(input.source))) ==>
              Validated(input).error == InvalidAddress(input.source)
    ensures Validated(input).Err? && MailForm(Lower(Trim(input.source))) && !MailForm(Lower(Trim(input.target))) ==>
              Validated(input).error == InvalidAddress(input.target)
    ensures Validated(input).Err? && MailForm(Lower(Trim(input.source))) && MailForm(Lower(Trim(input.target))) ==>
              if input.from.Some? && input.from.value != "" && !MailForm(Lower(Trim(input.from.value))) then
                Validated(input).error == InvalidAddress(input.from.value)
              else Validated(input).error == InvalidMode
  {
    hide LooksLikeAddress, MailForm, Lower, Trim;
    FormMeans(Lower(Trim(input.source)));
    FormMeans(Lower(Trim(input.target)));
    if input.from.Some? {
      FormMeans(Lower(Trim(input.from.value)));
    }
  }

  class ForwardingLedger {
    var rules: seq<Rule>
    var recipients: seq<Recipient>
    var mail: map<string, Mail>
    var deliveries: seq<Delivery>
    /** Every attempt made so far. */
    ghost var log: seq<Entry>

    ghost predicate Valid()
      reads this
    {
      Keyed(Contents()) && RulesKeyed(rules)
    }

    function Contents(): Db
      reads this
    {
      Db(rules, recipients, mail, deliveries)
    }

    constructor ()
      ensures Valid() && Contents() == Db([], [], map[], [])
    {
      rules, recipients, mail, deliveries := [], [], map[], [];
      log := [];
    }

    /** Create the rule, or update the one that has its source, target and mode: then only the
        provider, the sender and the switch change, and neither the id nor the creation time. */
    method CreateForwardingRule(input: RuleInput, newId: string, now: int) returns (r: Result<Rule, Fault>)
      requires Valid() && forall rule :: rule in rules ==> rule.id != newId
      modifies `rules
      ensures Valid()
      ensures r.Err? <==> Validated(input).Err?
      ensures r.Err? ==> rules == old(rules) && r.error == Validated(input).error
      ensures r.Ok? ==>
                && KeyOf(r.value) == Validated(input).value.0 && r.value.from == Validated(input).value.1
                && r.value.providerId == input.providerId && r.value.enabled == (input.enabled != Some(false))
      ensures r.Ok? <==> Good(input)
      ensures r.Ok? ==>
                && r.value.source == Lower(Trim(input.source)) && r.value.target == Lower(Trim(input.target))
                && r.value.mode == "app-copy" && SenderOf(input, r.value.from)
      ensures r.Ok? ==> r.value in rules && forall rule :: KeyOf(rule) != KeyOf(r.value) ==>
                (rule in rules <==> rule in old(rules))
      ensures r.Ok? && (forall rule :: rule in old(rules) ==> KeyOf(rule) != KeyOf(r.value)) ==>
                rules == old(rules) + [r.value] && r.value.id == newId && r.value.createdAt == now
      ensures r.Ok? ==> forall rule :: rule in old(rules) && KeyOf(rule) == KeyOf(r.value) ==>
                          r.value.id == rule.id && r.value.createdAt == rule.createdAt && |rules| == |old(rules)|
    {
      hide Validated, Good, SenderOf, Lower, Trim;
      ValidatedMeans(input);
      var valid := Validated(input);
      if valid.Err? {
        return Err(valid.error);
      }
      var key, from := valid.value.0, valid.value.1;
      var enabled := input.enabled != Some(false);
      var i := 0;
      while i < |rules|
        invariant 0 <= i <= |rules| && rules == old(rules)
        invariant forall j :: 0 <= j < i ==> KeyOf(rules[j]) != key
      {
        if KeyOf(rules[i]) == key {
          var rule := rules[i].(providerId := input.providerId, from := from, enabled := enabled);
          RuleReplaced(rules, i, rule);
          rules := rules[i := rule];
          return Ok(rule);
        }
        i := i + 1;
      }
      var rule := Rule(newId, key.source, key.target, key.mode, input.providerId, from, enabled, now);
      rules := rules + [rule];
      r := Ok(rule);
    }

    method ListPendingForwarding(limit: Option<real>, backfill: bool) returns (r: Result<seq<Pending>, Fault>)
      requires Valid()
      ensures limit.None? ==> r == Err(InfiniteLimit)
      ensures limit.Some? ==> r.Ok? && r.value == ListPending(Contents(), limit, backfill).value
    {
      if limit.None? {
        return Err(InfiniteLimit);
      }
      r := Ok(ListPending(Contents(), limit, backfill).value);
    }

    method RecordForwardingDelivery(pair: Pair, status: Status, error: Option<string>, newId: string)
      requires Valid() && forall d :: d in deliveries ==> d.id != newId
      modifies `deliveries
      ensures Valid()
      ensures deliveries == Record(old(deliveries), pair, status, error, newId)
    {
      hide OnePerPair, RulesKeyed, KeptId, Others;
      RecordMeans(deliveries, pair, status, error, newId);
      var id := KeptId(deliveries, pair, newId);
      deliveries := Others(deliveries, id, pair) + [Delivery(id, pair, status, error)];
    }

    /** One run: scan, then send and record every listed pair in turn. What the provider and the sent-mail
        ledger do with each attempt comes from outside. */
    method ProcessForwardingRules(limit: Option<real>, backfill: bool,
                                  outcomes: seq<Outcome>) returns (r: Result<(nat, nat), Fault>)
      requires Valid()
      requires limit.Some? ==>
                 var pending := ListPending(Contents(), limit, backfill).value;
                 |pending| <= |outcomes| && FreshIds(State(Contents(), log), pending, outcomes)
      modifies `deliveries, `log
      ensures Valid()
      ensures limit.None? ==> r == Err(InfiniteLimit) && deliveries == old(deliveries) && log == old(log)
      ensures limit.Some? ==>
                var pending := ListPending(old(Contents()), limit, backfill).value;
                && r.Ok? && r.value.0 == DeliveredAmong(outcomes, |pending|) && r.value.0 + r.value.1 == |pending|
                && State(Contents(), log) == Process(State(old(Contents()), old(log)), pending, outcomes)
    {
      hide ListPending, Record, OnePerPair, RulesKeyed;
      var listed := ListPendingForwarding(limit, backfill);
      if listed.Err? {
        return Err(listed.error);
      }
      var pending, sent, failed := listed.value, 0, 0;
      var i := 0;
      while i < |pending|
        invariant 0 <= i <= |pending| && sent == DeliveredAmong(outcomes, i) && sent + failed == i
        invariant Valid()
        invariant FreshIds(State(Contents(), log), pending[i..], outcomes[i..])
        invariant Process(State(Contents(), log), pending[i..], outcomes[i..])
                    == Process(State(old(Contents()), old(log)), pending, outcomes)
      {
        var pair, o := PairOf(pending[i]), outcomes[i];
        assert pending[i..][1..] == pending[i + 1..] && outcomes[i..][1..] == outcomes[i + 1..];
        RecordForwardingDelivery(pair, StatusOf(o.attempt), o.error, o.newId);
        log := log + [Entry(pair, o.attempt)];
        if o.attempt == Delivered {
          sent := sent + 1;
        } else {
          failed := failed + 1;
        }
        i := i + 1;
      }
      r := Ok((sent, failed));
    }
  }
}
