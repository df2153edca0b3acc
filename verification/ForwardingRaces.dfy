/** Forwarding runs that overlap (src/lib/forwarding.ts over src/db/forwarding.ts). A run scans, then for
    each pair it saw calls the provider and only later, after other runs may have moved, records what came
    of the call. */
module ForwardingRaces {
  import opened Wrappers
  import opened Sorting
  import opened Forwarding

  /** A call to the provider for a pair, and a row written to the delivery ledger. */
  datatype Event = Called(pair: Pair) | Wrote(pair: Pair, status: Status)

  /** A run in progress: what it has still to take up, how much had happened when it scanned, and the pair
      it has called the provider for but not yet recorded. */
  datatype Reader = Reader(pending: seq<Pending>, since: nat, flight: Option<Pair>)

  datatype World = World(db: Db, gone: set<string>, log: seq<Event>, runs: map<nat, Reader>)

  /** `Send` takes up the next pair and calls the provider, `Write` records what came of it, `Refuse`
      records a failure without a call because there is no provider. */
  datatype Move =
    | Scan(run: nat, limit: real, backfill: bool)
    | Send(run: nat)
    | Write(run: nat, outcome: Outcome)
    | Refuse(run: nat, error: Option<string>, newId: string)
    | Alter(db: Db, gone: set<string>)

  /** What a scan with a finite limit lists. */
  function Listed(db: Db, limit: real, backfill: bool): seq<Pending> {
    ListPending(db, Some(limit), backfill).value
  }

  predicate RuleThere(rules: seq<Rule>, id: string) {
    exists r :: r in rules && r.id == id
  }

  /** What the foreign keys of the delivery ledger ask for. */
  predicate Recordable(db: Db, pair: Pair) {
    RuleThere(db.rules, pair.ruleId) && pair.inboundId in db.mail
  }

  predicate Idle(w: World, run: nat) {
    run in w.runs && w.runs[run].flight.None? && w.runs[run].pending != []
  }

  function NextPair(w: World, run: nat): Pair
    requires Idle(w, run)
  {
    PairOf(w.runs[run].pending[0])
  }

  /** The run's next pair names a message that is still there; one that is gone is skipped. */
  predicate Takes(w: World, run: nat) {
    Idle(w, run) && NextPair(w, run).inboundId in w.db.mail
  }

  predicate InFlight(w: World, run: nat) {
    run in w.runs && w.runs[run].flight.Some?
  }

  ghost predicate UnusedId(db: Db, id: string) {
    forall d :: d in db.deliveries ==> d.id != id
  }

  ghost predicate Legal(w: World, m: Move) {
    match m
    case Scan(run, _, _) => run !in w.runs
    case Send(run) => Idle(w, run)
    case Write(run, o) => InFlight(w, run) && UnusedId(w.db, o.newId)
    case Refuse(run, _, newId) => Takes(w, run) && UnusedId(w.db, newId)
    case Alter(db, gone) => Changed(w.db, db, w.gone, gone)
  }

  function WithRow(db: Db, pair: Pair, o: Outcome): (r: Db) {
    Db(db.rules, db.recipients, db.mail, Record(db.deliveries, pair, StatusOf(o.attempt), o.error, o.newId))
  }

  /** Record a pair and go on with `rest`. Where the rule or the message is gone the ledger refuses both
      the row and the row that would say so, which stops the run. */
  function Noted(w: World, run: nat, pair: Pair, o: Outcome, rest: seq<Pending>): (r: World)
    requires run in w.runs
  {
    var since := w.runs[run].since;
    if Recordable(w.db, pair) then
      World(WithRow(w.db, pair, o), w.gone, w.log + [Wrote(pair, StatusOf(o.attempt))],
            w.runs[run := Reader(rest, since, None)])
    else World(w.db, w.gone, w.log, w.runs[run := Reader([], since, None)])
  }

  function Sending(w: World, run: nat): (r: World)
    requires Idle(w, run)
  {
    var reader, pair := w.runs[run], NextPair(w, run);
    var rest := reader.pending[1..];
    if Takes(w, run) then
      World(w.db, w.gone, w.log + [Called(pair)], w.runs[run := Reader(rest, reader.since, Some(pair))])
    else World(w.db, w.gone, w.log, w.runs[run := Reader(rest, reader.since, None)])
  }

  function Next(w: World, m: Move): (r: World) {
    match m
    case Scan(run, limit, backfill) =>
      World(w.db, w.gone, w.log, w.runs[run := Reader(Listed(w.db, limit, backfill), |w.log|, None)])
    case Send(run) => if Idle(w, run) then Sending(w, run) else w
    case Write(run, o) =>
      if InFlight(w, run) then Noted(w, run, w.runs[run].flight.value, o, w.runs[run].pending) else w
    case Refuse(run, error, newId) =>
      if Takes(w, run) then
        Noted(w, run, NextPair(w, run), Outcome(Refused, error, newId), w.runs[run].pending[1..])
      else w
    case Alter(db, gone) => World(db, gone, w.log, w.runs)
  }

  ghost predicate Plays(w: World, moves: seq<Move>)
    decreases |moves|
  {
    moves != [] ==> Legal(w, moves[0]) && Plays(Next(w, moves[0]), moves[1..])
  }

  function Played(w: World, moves: seq<Move>): (r: World)
    decreases |moves|
  {
    if moves == [] then w else Played(Next(w, moves[0]), moves[1..])
  }

  /** Every move is good where it is made. */
  predicate Always(w: World, moves: seq<Move>, good: (World, Move) -> bool)
    decreases |moves|
  {
    moves != [] ==> good(w, moves[0]) && Always(Next(w, moves[0]), moves[1..], good)
  }

  /** Before any run has scanned. */
  function Start(db: Db): World {
    World(db, {}, [], map[])
  }

  /** The provider is never called for a pair after the pair was recorded as sent. */
  ghost predicate NotSentAgain(log: seq<Event>) {
    forall i, j :: 0 <= i < j < |log| && log[j].Called? ==> log[i] != Wrote(log[j].pair, Sent)
  }

  lemma NotSentAgainGrows(log: seq<Event>, e: Event)
    ensures NotSentAgain(log + [e]) <==> NotSentAgain(log) && (e.Called? ==> Wrote(e.pair, Sent) !in log)
  {
    var more := log + [e];
    assert more[|log|] == e && forall i :: 0 <= i < |log| ==> more[i] == log[i];
    if NotSentAgain(more) && e.Called? {
      assert forall i :: 0 <= i < |log| ==> more[i] != Wrote(e.pair, Sent);
    }
  }

  // ---------------------------------------------------------------- what every move keeps

  /** The pair was recorded as sent, and a failure was recorded over that. */
  predicate Reopened(log: seq<Event>, pair: Pair) {
    exists i, j :: 0 <= i < j < |log| && log[i] == Wrote(pair, Sent) && log[j] == Wrote(pair, Failed)
  }

  ghost predicate Gone(pair: Pair, gone: set<string>) {
    pair.ruleId in gone || pair.inboundId in gone
  }

  ghost predicate Standing(db: Db, gone: set<string>) {
    && Keyed(db)
    && (forall r :: r in db.rules ==> r.id !in gone)
    && (forall id :: id in db.mail ==> id !in gone)
  }

  /** A pair that was recorded as sent still says so, unless it was reopened or is gone. */
  ghost predicate Remembered(db: Db, gone: set<string>, log: seq<Event>) {
    forall pair :: Wrote(pair, Sent) in log ==>
      SentAlready(db.deliveries, pair) || Gone(pair, gone) || Reopened(log, pair)
  }

  /** Of the pairs that a run has in hand, only reopened ones were recorded as sent before it scanned. */
  ghost predicate InHand(log: seq<Event>, reader: Reader) {
    && reader.since <= |log|
    && forall q :: q in reader.pending && Wrote(PairOf(q), Sent) in log[..reader.since] ==>
         Reopened(log[..reader.since], PairOf(q))
  }

  ghost predicate Sound(w: World) {
    && Standing(w.db, w.gone)
    && Remembered(w.db, w.gone, w.log)
    && forall run :: run in w.runs ==> InHand(w.log, w.runs[run])
  }

  lemma ReopenedGrows(log: seq<Event>, more: seq<Event>, pair: Pair)
    requires Reopened(log, pair)
    ensures Reopened(log + more, pair)
  {
    var i, j :| 0 <= i < j < |log| && log[i] == Wrote(pair, Sent) && log[j] == Wrote(pair, Failed);
    assert (log + more)[i] == log[i] && (log + more)[j] == log[j];
  }

  lemma InHandGrows(log: seq<Event>, more: seq<Event>, reader: Reader, later: Reader)
    requires InHand(log, reader) && later.since == reader.since
    requires forall q :: q in later.pending ==> q in reader.pending
    ensures InHand(log + more, later)
  {
    hide Reopened;
    assert (log + more)[..reader.since] == log[..reader.since];
  }

  lemma PendingStands(db: Db, gone: set<string>, backfill: bool, q: Pending)
    requires Standing(db, gone) && q in Join(db, backfill)
    ensures !SentAlready(db.deliveries, PairOf(q)) && !Gone(PairOf(q), gone)
  {
    hide Keyed;
    NeverPendingWhenSent(db, backfill, q);
  }

  lemma ScanIsSound(w: World, run: nat, limit: real, backfill: bool)
    requires Sound(w)
    ensures Sound(Next(w, Scan(run, limit, backfill)))
  {
    hide Keyed, Join, Older, Clamp, Reopened, SentAlready;
    var listed := Listed(w.db, limit, backfill);
    ListedMeans(w.db, limit, backfill);
    assert w.log[..|w.log|] == w.log;
    forall q | q in listed
      ensures !SentAlready(w.db.deliveries, PairOf(q)) && !Gone(PairOf(q), w.gone)
    {
      PendingStands(w.db, w.gone, backfill, q);
    }
  }

  lemma RecordedIsSent(deliveries: seq<Delivery>, pair: Pair)
    requires exists d :: d in deliveries && d.pair == pair
    requires forall d :: d in deliveries && d.pair == pair ==> d.status == Sent
    ensures SentAlready(deliveries, pair)
  {}

  lemma FailureReopens(log: seq<Event>, pair: Pair)
    requires Wrote(pair, Sent) in log
    ensures Reopened(log + [Wrote(pair, Failed)], pair)
  {
    var i :| 0 <= i < |log| && log[i] == Wrote(pair, Sent);
    var more := log + [Wrote(pair, Failed)];
    assert more[i] == Wrote(pair, Sent) && more[|log|] == Wrote(pair, Failed);
  }

  lemma RowIsRemembered(db: Db, gone: set<string>, log: seq<Event>, pair: Pair, o: Outcome)
    requires Standing(db, gone) && Remembered(db, gone, log) && UnusedId(db, o.newId)
    ensures Standing(WithRow(db, pair, o), gone)
    ensures Remembered(WithRow(db, pair, o), gone, log + [Wrote(pair, StatusOf(o.attempt))])
  {
    hide Record, OnePerPair, Reopened, SentAlready;
    var status, after := StatusOf(o.attempt), WithRow(db, pair, o);
    var more := log + [Wrote(pair, status)];
    RecordMeans(db.deliveries, pair, status, o.error, o.newId);
    forall other | Wrote(other, Sent) in more
      ensures SentAlready(after.deliveries, other) || Gone(other, gone) || Reopened(more, other)
    {
      if other != pair {
        SentOthers(db.deliveries, after.deliveries, pair, other);
        if Reopened(log, other) {
          ReopenedGrows(log, [Wrote(pair, status)], other);
        }
      } else if status == Sent {
        RecordedIsSent(after.deliveries, pair);
      } else {
        FailureReopens(log, pair);
      }
    }
  }

  lemma NotedIsSound(w: World, run: nat, pair: Pair, o: Outcome, rest: seq<Pending>)
    requires Sound(w) && run in w.runs && UnusedId(w.db, o.newId)
    requires forall q :: q in rest ==> q in w.runs[run].pending
    ensures Sound(Noted(w, run, pair, o, rest))
  {
    hide WithRow, Standing, Remembered, InHand, Recordable;
    var after := Noted(w, run, pair, o, rest);
    ghost var more := if Recordable(w.db, pair) then [Wrote(pair, StatusOf(o.attempt))] else [];
    assert after.log == w.log + more;
    if Recordable(w.db, pair) {
      RowIsRemembered(w.db, w.gone, w.log, pair, o);
    }
    forall r | r in after.runs
      ensures InHand(after.log, after.runs[r])
    {
      InHandGrows(w.log, more, w.runs[r], after.runs[r]);
    }
  }

  lemma SendIsSound(w: World, run: nat)
    requires Sound(w) && Idle(w, run)
    ensures Sound(Sending(w, run))
  {
    hide Standing, InHand, SentAlready, Reopened;
    var after := Sending(w, run);
    ghost var more := if Takes(w, run) then [Called(NextPair(w, run))] else [];
    assert after.log == w.log + more;
    forall pair | Wrote(pair, Sent) in after.log && Reopened(w.log, pair)
      ensures Reopened(after.log, pair)
    {
      ReopenedGrows(w.log, more, pair);
    }
    forall r | r in after.runs
      ensures InHand(after.log, after.runs[r])
    {
      InHandGrows(w.log, more, w.runs[r], after.runs[r]);
    }
  }

  lemma ChangeRemembers(w: World, db: Db, gone: set<string>, pair: Pair)
    requires Changed(w.db, db, w.gone, gone) && SentAlready(w.db.deliveries, pair)
    ensures SentAlready(db.deliveries, pair) || Gone(pair, gone)
  {
    var d :| d in w.db.deliveries && d.pair == pair && d.status == Sent;
    assert d in db.deliveries || Gone(d.pair, gone);
  }

  lemma AlterIsSound(w: World, db: Db, gone: set<string>)
    requires Sound(w) && Changed(w.db, db, w.gone, gone)
    ensures Sound(Next(w, Alter(db, gone)))
  {
    hide Keyed, Reopened, InHand;
    forall pair | SentAlready(w.db.deliveries, pair)
      ensures SentAlready(db.deliveries, pair) || Gone(pair, gone)
    {
      ChangeRemembers(w, db, gone, pair);
    }
  }

  lemma MoveIsSound(w: World, m: Move)
    requires Sound(w) && Legal(w, m)
    ensures Sound(Next(w, m))
  {
    hide Sound, Sending, Noted, Changed, Listed;
    match m
    case Scan(run, limit, backfill) => ScanIsSound(w, run, limit, backfill);
    case Send(run) => SendIsSound(w, run);
    case Write(run, o) => NotedIsSound(w, run, w.runs[run].flight.value, o, w.runs[run].pending);
    case Refuse(run, error, newId) =>
      NotedIsSound(w, run, NextPair(w, run), Outcome(Refused, error, newId), w.runs[run].pending[1..]);
    case Alter(db, gone) => AlterIsSound(w, db, gone);
  }

  // ---------------------------------------------------------------- when a pair is sent again

  /** The run calls the provider for a pair that was recorded as sent since the run scanned. */
  predicate Stale(w: World, m: Move) {
    m.Send? && Takes(w, m.run) && w.runs[m.run].since <= |w.log|
    && Wrote(NextPair(w, m.run), Sent) in w.log[w.runs[m.run].since..]
  }

  /** The run calls the provider for a pair whose success a failure had replaced before the run scanned. */
  predicate Replaced(w: World, m: Move) {
    m.Send? && Takes(w, m.run) && w.runs[m.run].since <= |w.log|
    && Reopened(w.log[..w.runs[m.run].since], NextPair(w, m.run))
  }

  predicate NotResent(w: World, m: Move) {
    !Stale(w, m) && !Replaced(w, m)
  }

  /** What a move logs: at most one event. */
  lemma MoveLogs(w: World, m: Move)
    ensures var log := Next(w, m).log;
            || log == w.log
            || (m.Send? && Takes(w, m.run) && log == w.log + [Called(NextPair(w, m.run))])
            || (log != [] && log[|log| - 1].Wrote? && log == w.log + [log[|log| - 1]])
    ensures m.Send? && Takes(w, m.run) ==> Next(w, m).log == w.log + [Called(NextPair(w, m.run))]
  {
    hide Record, Listed, Recordable;
  }

  lemma ReopenedWasSent(log: seq<Event>, pair: Pair)
    requires Reopened(log, pair)
    ensures Wrote(pair, Sent) in log
  {}

  /** One move keeps the promise exactly when it is neither stale nor of a reopened pair. */
  lemma MoveKeepsExactly(w: World, m: Move)
    requires Sound(w)
    ensures NotSentAgain(Next(w, m).log) <==> NotSentAgain(w.log) && !Stale(w, m) && !Replaced(w, m)
  {
    hide Next, NotSentAgain, Standing, Remembered, Reopened;
    MoveLogs(w, m);
    var after := Next(w, m).log;
    if m.Send? && Takes(w, m.run) {
      var since, pair := w.runs[m.run].since, NextPair(w, m.run);
      assert InHand(w.log, w.runs[m.run]) && w.runs[m.run].pending[0] in w.runs[m.run].pending;
      assert w.log == w.log[..since] + w.log[since..];
      if Reopened(w.log[..since], pair) {
        ReopenedWasSent(w.log[..since], pair);
      }
      NotSentAgainGrows(w.log, Called(pair));
    } else if after != w.log {
      NotSentAgainGrows(w.log, after[|after| - 1]);
    }
  }

  lemma {:induction false} MovesKeepExactly(w: World, moves: seq<Move>)
    requires Sound(w) && Plays(w, moves)
    ensures NotSentAgain(Played(w, moves).log) <==> NotSentAgain(w.log) && Always(w, moves, NotResent)
    decreases |moves|
  {
    hide Next, Legal, Sound, Stale, Replaced, NotSentAgain;
    if moves == [] {
    } else {
      MoveIsSound(w, moves[0]);
      MoveKeepsExactly(w, moves[0]);
      MovesKeepExactly(Next(w, moves[0]), moves[1..]);
    }
  }

  /** Over every interleaving of scans, calls, records and changes: the provider is never called for a pair
      after the pair was recorded as sent, if and only if no run calls it for a pair that was recorded as
      sent since the run scanned, or whose success a failure had replaced before. */
  lemma InterleavedRunsExactly(db: Db, moves: seq<Move>)
    requires Keyed(db) && Plays(Start(db), moves)
    ensures NotSentAgain(Played(Start(db), moves).log) <==> Always(Start(db), moves, NotResent)
  {
    hide Keyed, Plays, Played, Always;
    MovesKeepExactly(Start(db), moves);
  }

  // ---------------------------------------------------------------- what would be enough

  /** Before it takes up a pair, the run reads again that the rule is there and the pair is not recorded
      as sent. */
  predicate Reread(w: World, m: Move) {
    (m.Send? || m.Refuse?) && Takes(w, m.run) ==>
      RuleThere(w.db.rules, NextPair(w, m.run).ruleId) && !SentAlready(w.db.deliveries, NextPair(w, m.run))
  }

  /** No run calls the provider for a pair that another has in flight. */
  predicate Claimed(w: World, m: Move) {
    m.Send? && Takes(w, m.run) ==> forall r :: r in w.runs ==> w.runs[r].flight != Some(NextPair(w, m.run))
  }

  predicate Careful(w: World, m: Move) {
    Reread(w, m) && Claimed(w, m)
  }

  /** What careful moves keep: what was recorded as sent says so, and what is in flight was not. */
  ghost predicate Guarded(w: World) {
    && Standing(w.db, w.gone)
    && (forall pair :: Wrote(pair, Sent) in w.log ==> SentAlready(w.db.deliveries, pair) || Gone(pair, w.gone))
    && (forall r :: InFlight(w, r) ==> Wrote(w.runs[r].flight.value, Sent) !in w.log)
    && (forall r, q :: InFlight(w, r) && InFlight(w, q) && w.runs[r].flight == w.runs[q].flight ==> r == q)
    && NotSentAgain(w.log)
  }

  lemma NotedIsGuarded(w: World, run: nat, pair: Pair, o: Outcome, rest: seq<Pending>)
    requires Guarded(w) && run in w.runs && UnusedId(w.db, o.newId) && Wrote(pair, Sent) !in w.log
    requires o.attempt == Delivered ==> forall r :: InFlight(w, r) && r != run ==> w.runs[r].flight != Some(pair)
    ensures Guarded(Noted(w, run, pair, o, rest))
  {
    hide Record, OnePerPair, SentAlready, NotSentAgain, Recordable;
    if Recordable(w.db, pair) {
      var status, after := StatusOf(o.attempt), WithRow(w.db, pair, o);
      RecordMeans(w.db.deliveries, pair, status, o.error, o.newId);
      NotSentAgainGrows(w.log, Wrote(pair, status));
      forall other | Wrote(other, Sent) in w.log + [Wrote(pair, status)]
        ensures SentAlready(after.deliveries, other) || Gone(other, w.gone)
      {
        if other == pair {
          RecordedIsSent(after.deliveries, pair);
        } else {
          SentOthers(w.db.deliveries, after.deliveries, pair, other);
        }
      }
    }
  }

  lemma UnsentIfOpen(w: World, pair: Pair)
    requires Guarded(w) && Recordable(w.db, pair) && !SentAlready(w.db.deliveries, pair)
    ensures Wrote(pair, Sent) !in w.log
  {
    hide Keyed, SentAlready, NotSentAgain;
  }

  lemma SendIsGuarded(w: World, run: nat)
    requires Guarded(w) && Idle(w, run) && Careful(w, Send(run))
    ensures Guarded(Sending(w, run))
  {
    hide Keyed, SentAlready, NotSentAgain;
    if Takes(w, run) {
      UnsentIfOpen(w, NextPair(w, run));
      NotSentAgainGrows(w.log, Called(NextPair(w, run)));
    }
  }

  lemma AlterIsGuarded(w: World, db: Db, gone: set<string>)
    requires Guarded(w) && Changed(w.db, db, w.gone, gone)
    ensures Guarded(Next(w, Alter(db, gone)))
  {
    hide Keyed, NotSentAgain;
    forall pair | SentAlready(w.db.deliveries, pair)
      ensures SentAlready(db.deliveries, pair) || Gone(pair, gone)
    {
      ChangeRemembers(w, db, gone, pair);
    }
  }

  lemma MoveIsGuarded(w: World, m: Move)
    requires Guarded(w) && Legal(w, m) && Careful(w, m)
    ensures Guarded(Next(w, m))
  {
    hide Keyed, SentAlready, NotSentAgain, Sending, Noted, Listed;
    match m
    case Scan(run, limit, backfill) =>
    case Send(run) => SendIsGuarded(w, run);
    case Write(run, o) => NotedIsGuarded(w, run, w.runs[run].flight.value, o, w.runs[run].pending);
    case Refuse(run, error, newId) =>
      UnsentIfOpen(w, NextPair(w, run));
      NotedIsGuarded(w, run, NextPair(w, run), Outcome(Refused, error, newId), w.runs[run].pending[1..]);
    case Alter(db, gone) => AlterIsGuarded(w, db, gone);
  }

  lemma {:induction false} CarefulMovesKeepGuard(w: World, moves: seq<Move>)
    requires Guarded(w) && Plays(w, moves) && Always(w, moves, Careful)
    ensures NotSentAgain(Played(w, moves).log)
    decreases |moves|
  {
    hide Next, Legal, Standing, NotSentAgain, Reread, Claimed;
    if moves == [] {
    } else {
      MoveIsGuarded(w, moves[0]);
      CarefulMovesKeepGuard(Next(w, moves[0]), moves[1..]);
    }
  }

  /** Where each run reads the ledger again before it takes up a pair, and no run calls the provider for a
      pair that another has in flight, no pair is sent after it was recorded as sent. */
  lemma CarefulRunsSendOnce(db: Db, moves: seq<Move>)
    requires Keyed(db) && Plays(Start(db), moves) && Always(Start(db), moves, Careful)
    ensures NotSentAgain(Played(Start(db), moves).log)
  {
    hide Keyed, Plays, Played, Always;
    CarefulMovesKeepGuard(Start(db), moves);
  }

  // ---------------------------------------------------------------- neither care is enough alone

  ghost predicate Leads(w: World, m: Move, next: World, good: (World, Move) -> bool) {
    Legal(w, m) && next == Next(w, m) && good(w, m)
  }

  /** A list of worlds is what a list of good legal moves goes through. */
  ghost predicate Trace(worlds: seq<World>, moves: seq<Move>, good: (World, Move) -> bool) {
    && |worlds| == |moves| + 1
    && forall i :: 0 <= i < |moves| ==> Leads(worlds[i], moves[i], worlds[i + 1], good)
  }

  lemma {:induction false} TracePlays(worlds: seq<World>, moves: seq<Move>, good: (World, Move) -> bool)
    requires Trace(worlds, moves, good)
    ensures Plays(worlds[0], moves) && Always(worlds[0], moves, good)
    ensures Played(worlds[0], moves) == worlds[|moves|]
    decreases |moves|
  {
    hide Next, Legal;
    if moves == [] {
    } else {
      assert forall i :: 0 <= i < |moves[1..]| ==> worlds[1..][i] == worlds[i + 1] && moves[1..][i] == moves[i + 1];
      TracePlays(worlds[1..], moves[1..], good);
    }
  }

  function Delivering(newId: string): Outcome {
    Outcome(Delivered, None, newId)
  }

  function Failing(newId: string): Outcome {
    Outcome(Lost, None, newId)
  }

  /** Two runs scan and both send; one records the success and the other a failure; a third run scans and
      sends. */
  function BothSend(limit: real, backfill: bool, first: string, second: string): seq<Move> {
    [Scan(0, limit, backfill), Scan(1, limit, backfill), Send(0), Send(1),
     Write(0, Delivering(first)), Write(1, Failing(second)), Scan(2, limit, backfill), Send(2)]
  }

  /** Two runs scan; one sends and records the success; the other sends. */
  function OneLags(limit: real, backfill: bool, first: string): seq<Move> {
    [Scan(0, limit, backfill), Scan(1, limit, backfill), Send(0), Write(0, Delivering(first)), Send(1)]
  }

  lemma StillThere(db: Db, backfill: bool, p: Pending)
    requires p in Join(db, backfill)
    ensures Recordable(db, PairOf(p)) && !SentAlready(db.deliveries, PairOf(p))
  {
    NeverPendingWhenSent(db, backfill, p);
  }

  /** The worlds of `OneLags`. */
  function LagWorlds(db: Db, pending: seq<Pending>, o: Outcome): (r: seq<World>)
    requires pending != []
  {
    var pair, rest := PairOf(pending[0]), pending[1..];
    var idle, after := Reader(pending, 0, None), Reader(rest, 0, None);
    var called := [Called(pair)];
    var flying := Reader(rest, 0, Some(pair));
    var kept := WithRow(db, pair, o);
    [World(db, {}, [], map[]),
     World(db, {}, [], map[0 := idle]),
     World(db, {}, [], map[0 := idle, 1 := idle]),
     World(db, {}, called, map[0 := flying, 1 := idle]),
     World(kept, {}, called + [Wrote(pair, Sent)], map[0 := after, 1 := idle]),
     World(kept, {}, called + [Wrote(pair, Sent)] + called, map[0 := after, 1 := flying])]
  }

  lemma LagTrace(db: Db, limit: real, backfill: bool, first: string)
    requires Listed(db, limit, backfill) != [] && UnusedId(db, first)
    requires Recordable(db, PairOf(Listed(db, limit, backfill)[0]))
    ensures var worlds := LagWorlds(db, Listed(db, limit, backfill), Delivering(first));
            Trace(worlds, OneLags(limit, backfill, first), Claimed)
  {
    hide Listed, Record, RuleThere;
  }

  lemma SentThenCalled(log: seq<Event>, i: nat, j: nat)
    requires i < j < |log| && log[j].Called? && log[i] == Wrote(log[j].pair, Sent)
    ensures !NotSentAgain(log)
  {}

  lemma FirstStillThere(db: Db, limit: real, backfill: bool)
    requires Keyed(db) && Listed(db, limit, backfill) != []
    ensures var pair := PairOf(Listed(db, limit, backfill)[0]);
            Recordable(db, pair) && !SentAlready(db.deliveries, pair)
  {
    hide Keyed, ListPending, Join, Recordable, SentAlready;
    var pending := Listed(db, limit, backfill);
    ListedMeans(db, limit, backfill);
    assert pending[0] in pending;
    StillThere(db, backfill, pending[0]);
  }

  /** Claiming a pair is not enough: a run that lags behind sends what another has recorded as sent. */
  lemma LaggingRunResends(db: Db, limit: real, backfill: bool, first: string)
    requires Keyed(db) && Listed(db, limit, backfill) != [] && UnusedId(db, first)
    ensures var moves := OneLags(limit, backfill, first);
            && Plays(Start(db), moves) && Always(Start(db), moves, Claimed)
            && !NotSentAgain(Played(Start(db), moves).log)
  {
    hide Keyed, Listed, Recordable, Trace, Plays, Played, Always, WithRow, NotSentAgain;
    FirstStillThere(db, limit, backfill);
    LagTrace(db, limit, backfill, first);
    var worlds := LagWorlds(db, Listed(db, limit, backfill), Delivering(first));
    TracePlays(worlds, OneLags(limit, backfill, first), Claimed);
    SentThenCalled(worlds[5].log, 1, 2);
  }

  lemma {:induction false} SameOfRule(a: Db, b: Db, rule: Rule, recipients: seq<Recipient>, backfill: bool)
    requires a.mail == b.mail
    requires forall pair :: SentAlready(a.deliveries, pair) == SentAlready(b.deliveries, pair)
    ensures OfRule(a, rule, recipients, backfill) == OfRule(b, rule, recipients, backfill)
  {
    hide SentAlready;
    if recipients == [] {
    } else {
      SameOfRule(a, b, rule, recipients[1..], backfill);
    }
  }

  lemma {:induction false} SameOfRules(a: Db, b: Db, rules: seq<Rule>, backfill: bool)
    requires a.recipients == b.recipients && a.mail == b.mail
    requires forall pair :: SentAlready(a.deliveries, pair) == SentAlready(b.deliveries, pair)
    ensures OfRules(a, rules, backfill) == OfRules(b, rules, backfill)
  {
    hide SentAlready, OfRule;
    if rules == [] {
    } else {
      SameOfRule(a, b, rules[0], a.recipients, backfill);
      SameOfRules(a, b, rules[1..], backfill);
    }
  }

  /** The scan sees no more of the delivery ledger than which pairs are recorded as sent. */
  lemma SameScan(a: Db, b: Db, limit: real, backfill: bool)
    requires a.rules == b.rules && a.recipients == b.recipients && a.mail == b.mail
    requires forall pair :: SentAlready(a.deliveries, pair) == SentAlready(b.deliveries, pair)
    ensures Listed(a, limit, backfill) == Listed(b, limit, backfill)
  {
    hide SentAlready, OfRules;
    SameOfRules(a, b, a.rules, backfill);
  }

  lemma RecordedIsNotSent(deliveries: seq<Delivery>, pair: Pair)
    requires forall d :: d in deliveries && d.pair == pair ==> d.status == Failed
    ensures !SentAlready(deliveries, pair)
  {}

  /** A failure recorded over a success hides it: pairs count as sent just as before both. */
  lemma FailureHidesSuccess(db: Db, pair: Pair, a: Outcome, b: Outcome)
    requires Keyed(db) && !SentAlready(db.deliveries, pair) && a.newId != b.newId && b.attempt != Delivered
    requires UnusedId(db, a.newId) && UnusedId(db, b.newId)
    ensures UnusedId(WithRow(db, pair, a), b.newId)
    ensures forall other :: SentAlready(WithRow(WithRow(db, pair, a), pair, b).deliveries, other)
                              == SentAlready(db.deliveries, other)
  {
    hide Record, OnePerPair, SentAlready;
    var one := WithRow(db, pair, a);
    forall d | d in one.deliveries
      ensures d.id != b.newId
    {
      RecordIds(db.deliveries, pair, StatusOf(a.attempt), a.error, a.newId, d);
    }
    var two := WithRow(one, pair, b);
    RecordMeans(db.deliveries, pair, StatusOf(a.attempt), a.error, a.newId);
    RecordMeans(one.deliveries, pair, StatusOf(b.attempt), b.error, b.newId);
    forall other
      ensures SentAlready(two.deliveries, other) == SentAlready(db.deliveries, other)
    {
      if other != pair {
        SentOthers(db.deliveries, one.deliveries, pair, other);
        SentOthers(one.deliveries, two.deliveries, pair, other);
      } else {
        RecordedIsNotSent(two.deliveries, pair);
      }
    }
  }

  /** The worlds of `BothSend`. */
  function BothWorlds(db: Db, pending: seq<Pending>, a: Outcome, b: Outcome): (r: seq<World>)
    requires pending != []
  {
    var pair, rest := PairOf(pending[0]), pending[1..];
    var idle, after := Reader(pending, 0, None), Reader(rest, 0, None);
    var flying := Reader(rest, 0, Some(pair));
    var called := [Called(pair), Called(pair)];
    var one := WithRow(db, pair, a);
    var two := WithRow(one, pair, b);
    var noted := called + [Wrote(pair, Sent)] + [Wrote(pair, Failed)];
    [World(db, {}, [], map[]),
     World(db, {}, [], map[0 := idle]),
     World(db, {}, [], map[0 := idle, 1 := idle]),
     World(db, {}, [Called(pair)], map[0 := flying, 1 := idle]),
     World(db, {}, called, map[0 := flying, 1 := flying]),
     World(one, {}, called + [Wrote(pair, Sent)], map[0 := after, 1 := flying]),
     World(two, {}, noted, map[0 := after, 1 := after]),
     World(two, {}, noted, map[0 := after, 1 := after, 2 := Reader(pending, 4, None)]),
     World(two, {}, noted + [Called(pair)], map[0 := after, 1 := after, 2 := Reader(rest, 4, Some(pair))])]
  }

  /** The tables before, between and after the two writes. */
  ghost predicate WritesHide(db: Db, limit: real, backfill: bool, first: string, second: string)
    requires Listed(db, limit, backfill) != []
  {
    var pair := PairOf(Listed(db, limit, backfill)[0]);
    var one := WithRow(db, pair, Delivering(first));
    var two := WithRow(one, pair, Failing(second));
    && Recordable(db, pair) && !SentAlready(db.deliveries, pair)
    && UnusedId(db, first) && UnusedId(one, second) && !SentAlready(two.deliveries, pair)
    && Listed(two, limit, backfill) == Listed(db, limit, backfill)
  }

  lemma BothScanAndSend(db: Db, limit: real, backfill: bool, first: string, second: string)
    requires Listed(db, limit, backfill) != [] && WritesHide(db, limit, backfill, first, second)
    ensures var moves := BothSend(limit, backfill, first, second);
            var worlds := BothWorlds(db, Listed(db, limit, backfill), Delivering(first), Failing(second));
            forall i :: 0 <= i < 4 ==> Leads(worlds[i], moves[i], worlds[i + 1], Reread)
  {
    hide Listed, WithRow, RuleThere, SentAlready;
  }

  lemma BothWriteThirdSends(db: Db, limit: real, backfill: bool, first: string, second: string)
    requires Listed(db, limit, backfill) != [] && WritesHide(db, limit, backfill, first, second)
    ensures var moves := BothSend(limit, backfill, first, second);
            var worlds := BothWorlds(db, Listed(db, limit, backfill), Delivering(first), Failing(second));
            forall i :: 4 <= i < 8 ==> Leads(worlds[i], moves[i], worlds[i + 1], Reread)
  {
    hide Listed, Record, RuleThere, SentAlready;
  }

  lemma RowsOnly(db: Db, pair: Pair, a: Outcome, b: Outcome)
    ensures var after := WithRow(WithRow(db, pair, a), pair, b);
            after.rules == db.rules && after.recipients == db.recipients && after.mail == db.mail
  {}

  /** Reading the ledger again is not enough: from any tables with something to forward, two runs that
      both send, a success, a failure recorded over it, and a third run call the provider again for a pair
      that was recorded as sent, though before each call the ledger did not say so. */
  lemma OverlappingRunsResend(db: Db, limit: real, backfill: bool, first: string, second: string)
    requires Keyed(db) && Listed(db, limit, backfill) != []
    requires first != second && UnusedId(db, first) && UnusedId(db, second)
    ensures var moves := BothSend(limit, backfill, first, second);
            && Plays(Start(db), moves) && Always(Start(db), moves, Reread)
            && !NotSentAgain(Played(Start(db), moves).log)
  {
    hide Keyed, Listed, Recordable, Leads, Plays, Played, Always, WithRow, SentAlready, NotSentAgain;
    var pending := Listed(db, limit, backfill);
    var pair, a, b := PairOf(pending[0]), Delivering(first), Failing(second);
    FirstStillThere(db, limit, backfill);
    FailureHidesSuccess(db, pair, a, b);
    RowsOnly(db, pair, a, b);
    SameScan(db, WithRow(WithRow(db, pair, a), pair, b), limit, backfill);
    BothScanAndSend(db, limit, backfill, first, second);
    BothWriteThirdSends(db, limit, backfill, first, second);
    var worlds, moves := BothWorlds(db, pending, a, b), BothSend(limit, backfill, first, second);
    assert Trace(worlds, moves, Reread);
    TracePlays(worlds, moves, Reread);
    SentThenCalled(worlds[8].log, 2, 4);
  }

  // ---------------------------------------------------------------- a run that nobody interrupts

  /** A run that has scanned takes up and records one pair after the other. */
  function WorkedOff(run: nat, pending: seq<Pending>, outcomes: seq<Outcome>): (r: seq<Move>)
    decreases |pending|
  {
    if pending == [] || outcomes == [] then []
    else [Send(run), Write(run, outcomes[0])] + WorkedOff(run, pending[1..], outcomes[1..])
  }

  /** Played without interruption it is the one run of the serial histories. */
  lemma {:induction false} UninterruptedIsProcess(w: World, run: nat, s: State, outcomes: seq<Outcome>)
    requires run in w.runs && w.runs[run].flight.None? && s.db == w.db
    requires forall p :: p in w.runs[run].pending ==> Recordable(w.db, PairOf(p))
    requires FreshIds(s, w.runs[run].pending, outcomes)
    ensures var moves := WorkedOff(run, w.runs[run].pending, outcomes);
            Plays(w, moves) && Played(w, moves).db == Process(s, w.runs[run].pending, outcomes).db
    decreases |w.runs[run].pending|
  {
    hide Record;
    var pending := w.runs[run].pending;
    if pending == [] || outcomes == [] {
    } else {
      var rest := WorkedOff(run, pending[1..], outcomes[1..]);
      var moves := WorkedOff(run, pending, outcomes);
      assert pending[0] in pending;
      var sent := Next(w, Send(run));
      var noted := Next(sent, Write(run, outcomes[0]));
      assert noted.runs[run] == Reader(pending[1..], w.runs[run].since, None);
      UninterruptedIsProcess(noted, run, Attempted(s, PairOf(pending[0]), outcomes[0]), outcomes[1..]);
      assert moves[0] == Send(run) && moves[1..] == [Write(run, outcomes[0])] + rest;
      assert moves[1..][0] == Write(run, outcomes[0]) && moves[1..][1..] == rest;
      assert Plays(sent, moves[1..]) && Played(sent, moves[1..]) == Played(noted, rest);
    }
  }
}
