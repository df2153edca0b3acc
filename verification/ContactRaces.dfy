/** Contact writes that overlap (src/db/contacts.ts): a client looks its addresses up, and writes later,
    when others may have written. */
module ContactRaces {
  import opened Wrappers
  import opened Text
  import opened EmailAddress
  import opened OrderedMap
  import opened CounterSteps
  import opened ContactLedger
  import opened Suppression
  import opened ContactRuns
  import opened BlankContacts

  datatype Task = Ensure | Flag(flag: bool) | Count(n: nat, column: Column, stamp: nat)

  /** One write that a client has still to make, with the row it found when it looked. */
  datatype Plan = Plan(email: string, held: Option<Contact>, task: Task)

  /** A client's writes, and how many rows there were when it looked. */
  datatype Client = Client(plans: seq<Plan>, seen: nat)

  datatype World = World(l: Ledger, clients: map<nat, Client>)

  datatype Move = Look(client: nat, plans: seq<Plan>) | Put(client: nat)

  /** What looking an address up can find: a row of its form, or nothing where no row has it. */
  ghost predicate Looked(rows: seq<Contact>, p: Plan) {
    match p.held
    case Some(c) => c in rows && Form(c.email) == Form(p.email)
    case None => IsBlank(p.email) || !HasAddress(rows, Form(p.email), Form)
  }

  function PlansFor(read: seq<Contact>, groups: seq<Entry<Key>>, column: Column, stamp: nat): (r: seq<Plan>)
    ensures |r| == |groups|
    ensures forall p :: p in r ==> p.held == FindContact(read, p.email)
  {
    if groups == [] then []
    else
      var e := groups[0];
      [Plan(e.email, FindContact(read, e.email), Count(e.count, column, stamp))]
        + PlansFor(read, groups[1..], column, stamp)
  }

  /** The writes of an operation. */
  function PlansOf(l: Ledger, op: Op): (r: seq<Plan>) {
    match op
    case Upsert(email) => [Plan(email, FindContact(l.rows, email), Ensure)]
    case SetFlag(email, flag) => [Plan(email, FindContact(l.rows, email), Flag(flag))]
    case Increment(batch, column) => PlansFor(l.rows, Groups(l.rows, batch), column, l.clock)
  }

  function Written(l: Ledger, p: Plan): (r: Option<Ledger>) {
    match p.task
    case Ensure =>
      if p.held.Some? then Some(l)
      else if CanCreate(l, p.email) then Some(Create(l, Blank(l, p.email))) else None
    case Flag(flag) =>
      if p.held.Some? then Some(Update(l, p.held.value.id, Suppress(flag)))
      else if CanCreate(l, p.email) then Some(Create(l, Blank(l, p.email).(suppressed := flag))) else None
    case Count(n, column, stamp) => WriteFor(l, p.held, p.email, n, column, stamp)
  }

  predicate Busy(w: World, client: nat) {
    client in w.clients && w.clients[client].plans != []
  }

  ghost predicate Legal(w: World, m: Move) {
    match m
    case Look(client, plans) => !Busy(w, client) && forall p :: p in plans ==> Looked(w.l.rows, p)
    case Put(client) => Busy(w, client)
  }

  /** A refused creation stops the client. */
  function Next(w: World, m: Move): (r: World) {
    match m
    case Look(client, plans) => World(w.l, w.clients[client := Client(plans, |w.l.rows|)])
    case Put(client) =>
      if !Busy(w, client) then w
      else
        var c := w.clients[client];
        match Written(w.l, c.plans[0])
        case Some(l) => World(l, w.clients[client := Client(c.plans[1..], c.seen)])
        case None => World(w.l, w.clients[client := Client([], c.seen)])
  }

  ghost predicate Plays(w: World, moves: seq<Move>)
    decreases |moves|
  {
    moves != [] ==> Legal(w, moves[0]) && Plays(Next(w, moves[0]), moves[1..])
  }

  function Played(w: World, moves: seq<Move>): (r: World)
    decreases |moves|
  {
    if moves == [] then w else Played(Next(w, moves[0]), moves[1..])
  }

  function Start(l: Ledger): World {
    World(l, map[])
  }

  /** A client creates a row for an address although a row of its form has been added since it looked. */
  predicate Late(w: World, m: Move) {
    && m.Put? && Busy(w, m.client)
    && var c := w.clients[m.client];
    && c.plans[0].held.None? && CanCreate(w.l, c.plans[0].email)
    && exists i :: c.seen <= i < |w.l.rows| && Form(w.l.rows[i].email) == Form(c.plans[0].email)
  }

  predicate NoneLate(w: World, moves: seq<Move>)
    decreases |moves|
  {
    moves != [] ==> !Late(w, moves[0]) && NoneLate(Next(w, moves[0]), moves[1..])
  }

  lemma LookupLooks(rows: seq<Contact>, p: Plan)
    requires p.held == FindContact(rows, p.email)
    ensures Looked(rows, p)
  {
    hide CanonicalOf, IsBlank, FindContact, Form;
    FindContactMeans(rows, p.email);
    BlankFindsNothing(rows, p.email);
    if !IsBlank(p.email) {
      FormFinds(Ledger(rows, 0, 0), p.email);
    }
  }

  /** The lookups of an operation are such lookups. */
  lemma OperationLooks(l: Ledger, op: Op)
    ensures forall p :: p in PlansOf(l, op) ==> Looked(l.rows, p)
  {
    hide CanonicalOf, IsBlank, FindContact, Form, Groups;
    forall p | p in PlansOf(l, op)
      ensures Looked(l.rows, p)
    {
      assert p.held == FindContact(l.rows, p.email);
      LookupLooks(l.rows, p);
    }
  }

  // ---------------------------------------------------------------- rows are added, never respelled

  /** A write adds at most one row, and one only for an address that found nothing. */
  lemma WriteAdds(l: Ledger, p: Plan)
    requires Written(l, p).Some?
    ensures var after := Written(l, p).value;
            Spellings(after.rows) ==
              if p.held.None? then Spellings(l.rows) + [p.email] else Spellings(l.rows)
    ensures p.held.None? ==> CanCreate(l, p.email)
  {
    hide CanCreate, Patch;
    match p.task
    case Ensure =>
    case Flag(_) =>
    case Count(n, column, stamp) =>
      match p.held {
        case None => PatchedEmail(Blank(l, p.email), column, n, stamp);
        case Some(c) => PatchKeepsEmail(column, c.Count(column) + n, stamp);
      }
  }

  /** Of what a client found missing, no row that was there when it looked has the form. */
  ghost predicate Carried(rows: seq<Contact>, c: Client) {
    && c.seen <= |rows|
    && forall p, i :: p in c.plans && p.held.None? && !IsBlank(p.email) && 0 <= i < c.seen ==>
         Form(Spellings(rows)[i]) != Form(p.email)
  }

  ghost predicate Sound(w: World) {
    forall client :: client in w.clients ==> Carried(w.l.rows, w.clients[client])
  }

  lemma CarriedOn(before: seq<Contact>, after: seq<Contact>, c: Client, plans: seq<Plan>)
    requires Carried(before, c) && Spellings(before) <= Spellings(after) && forall p :: p in plans ==> p in c.plans
    ensures Carried(after, Client(plans, c.seen))
  {
    hide Form, IsBlank;
  }

  lemma JustLooked(rows: seq<Contact>, plans: seq<Plan>)
    requires forall p :: p in plans ==> Looked(rows, p)
    ensures Carried(rows, Client(plans, |rows|))
  {
    hide Form, IsBlank;
  }

  lemma MoveIsSound(w: World, m: Move)
    requires Sound(w) && Legal(w, m)
    ensures Sound(Next(w, m)) && Spellings(w.l.rows) <= Spellings(Next(w, m).l.rows)
  {
    hide Form, IsBlank, Written, Carried, Spellings;
    match m
    case Look(client, plans) =>
      JustLooked(w.l.rows, plans);
    case Put(client) =>
      var c, after := w.clients[client], Next(w, m);
      if Written(w.l, c.plans[0]).Some? {
        WriteAdds(w.l, c.plans[0]);
      }
      forall k | k in after.clients
        ensures Carried(after.l.rows, after.clients[k])
      {
        CarriedOn(w.l.rows, after.l.rows, w.clients[k], after.clients[k].plans);
      }
  }

  // ---------------------------------------------------------------- exactly when a form gets two rows

  ghost predicate FormsApartIn(texts: seq<string>) {
    forall i, j :: 0 <= i < j < |texts| ==> Form(texts[i]) != Form(texts[j])
  }

  lemma OnePerIsApart(rows: seq<Contact>)
    ensures OnePer(rows, Form) <==> FormsApartIn(Spellings(rows))
  {
    hide Form;
  }

  lemma ApartAppended(texts: seq<string>, t: string)
    ensures FormsApartIn(texts + [t]) <==>
              FormsApartIn(texts) && forall i :: 0 <= i < |texts| ==> Form(texts[i]) != Form(t)
  {
    hide Form;
    var more := texts + [t];
    assert more[|texts|] == t && forall i :: 0 <= i < |texts| ==> more[i] == texts[i];
  }

  lemma RefusedOnlyIfStored(l: Ledger, p: Plan)
    requires Written(l, p).None?
    ensures !CanCreate(l, p.email)
  {
    hide CanCreate;
  }

  /** Where a creation can be made, a row of the form is one that was added since the client looked. */
  lemma LateMeans(w: World, client: nat)
    requires Sound(w) && Busy(w, client) && w.clients[client].plans[0].held.None?
    requires CanCreate(w.l, w.clients[client].plans[0].email)
    ensures Late(w, Put(client)) <==>
              exists i :: 0 <= i < |w.l.rows| && Form(Spellings(w.l.rows)[i]) == Form(w.clients[client].plans[0].email)
  {
    hide Form, IsBlank;
    var c := w.clients[client];
    var p := c.plans[0];
    assert Carried(w.l.rows, c) && p in c.plans;
    if i :| 0 <= i < |w.l.rows| && Form(Spellings(w.l.rows)[i]) == Form(p.email) {
      if i < c.seen {
        SameFormAsBlank(w.l.rows[i].email, p.email);
      }
    }
    if Late(w, Put(client)) {
      var i :| c.seen <= i < |w.l.rows| && Form(w.l.rows[i].email) == Form(p.email);
      assert Form(Spellings(w.l.rows)[i]) == Form(p.email);
    }
  }

  /** One move keeps one row per form exactly when it is not late. */
  lemma MoveKeepsExactly(w: World, m: Move)
    requires Sound(w) && Legal(w, m)
    ensures OnePer(Next(w, m).l.rows, Form) <==> OnePer(w.l.rows, Form) && !Late(w, m)
  {
    hide Form, IsBlank, Written, CanCreate, FormsApartIn, OnePer;
    OnePerIsApart(w.l.rows);
    OnePerIsApart(Next(w, m).l.rows);
    if m.Put? {
      var c := w.clients[m.client];
      var p := c.plans[0];
      if Written(w.l, p).Some? {
        WriteAdds(w.l, p);
        ApartAppended(Spellings(w.l.rows), p.email);
        if p.held.None? {
          LateMeans(w, m.client);
        }
      } else {
        RefusedOnlyIfStored(w.l, p);
      }
    }
  }

  lemma {:induction false} MovesKeepExactly(w: World, moves: seq<Move>)
    requires Sound(w) && Plays(w, moves)
    ensures OnePer(Played(w, moves).l.rows, Form) <==> OnePer(w.l.rows, Form) && NoneLate(w, moves)
    decreases |moves|
  {
    hide Next, Legal, Sound, Late, OnePer;
    if moves == [] {
    } else {
      MoveIsSound(w, moves[0]);
      MoveKeepsExactly(w, moves[0]);
      MovesKeepExactly(Next(w, moves[0]), moves[1..]);
    }
  }

  /** Over every interleaving of lookups and writes, the ledger keeps one row per form if and only if no
      client creates an address of whose form a row was added since the client looked. */
  lemma OverlappingWritesExactly(l: Ledger, moves: seq<Move>)
    requires OnePer(l.rows, Form) && Plays(Start(l), moves)
    ensures OnePer(Played(Start(l), moves).l.rows, Form) <==> NoneLate(Start(l), moves)
  {
    hide Plays, Played, NoneLate, OnePer;
    MovesKeepExactly(Start(l), moves);
  }

  /** Then the two suppression questions agree on every sender. */
  lemma OverlappingQuestionsAgree(l: Ledger, moves: seq<Move>, email: string)
    requires OnePer(l.rows, Form) && Plays(Start(l), moves) && NoneLate(Start(l), moves)
    requires CanonicalSender(email).Some?
    ensures QuestionsAgreeOn(Played(Start(l), moves).l.rows, email)
  {
    hide Plays, Played, NoneLate, CanonicalSender, QuestionsAgreeOn, OnePer;
    OverlappingWritesExactly(l, moves);
    OneRowAgrees(Played(Start(l), moves).l.rows, email);
  }

  // ---------------------------------------------------------------- an operation that nobody interrupts

  function Puts(client: nat, n: nat): (r: seq<Move>) {
    if n == 0 then [] else [Put(client)] + Puts(client, n - 1)
  }

  lemma {:induction false} NothingToPut(w: World, client: nat, n: nat)
    requires !Busy(w, client)
    ensures Played(w, Puts(client, n)) == w
  {
    if n == 0 {
    } else {
      NothingToPut(w, client, n - 1);
    }
  }

  /** Putting the groups of a batch one after another is writing them, up to the first refusal. */
  lemma {:induction false} PutsWriteGroups(w: World, client: nat, l: Ledger, groups: seq<Entry<Key>>, k: nat,
                                           column: Column, stamp: nat)
    requires k <= |groups| && client in w.clients
    requires WriteEach(l, Finder(l.rows), groups[..k], column, stamp) == Some(w.l)
    requires w.clients[client].plans == PlansFor(l.rows, groups[k..], column, stamp)
    ensures Played(w, Puts(client, |groups| - k)).l == WriteSome(l, Finder(l.rows), groups, column, stamp)
    decreases |groups| - k
  {
    hide WriteFor, FindContact;
    if k == |groups| {
      assert groups[..k] == groups;
    } else {
      assert groups[..k + 1][..k] == groups[..k] && groups[k..][1..] == groups[k + 1..];
      var next := Next(w, Put(client));
      if WriteEach(l, Finder(l.rows), groups[..k + 1], column, stamp).Some? {
        PutsWriteGroups(next, client, l, groups, k + 1, column, stamp);
      } else {
        NothingToPut(next, client, |groups| - k - 1);
        WriteSomeStops(l, Finder(l.rows), groups, k, column, stamp);
      }
    }
  }

  lemma OnePut(w: World, client: nat)
    ensures Played(w, Puts(client, 1)) == Next(w, Put(client))
  {
    hide Next;
    assert Puts(client, 0) == [];
    assert Puts(client, 1)[1..] == [];
  }

  /** Looking and then writing without interruption is the operation. */
  lemma UninterruptedIsAfter(l: Ledger, op: Op, client: nat)
    ensures var looked := Next(Start(l), Look(client, PlansOf(l, op)));
            Played(looked, Puts(client, |PlansOf(l, op)|)).l == After(l, op)
  {
    hide FindContact, Groups, WriteSome, CanCreate, Update, Create;
    var looked := Next(Start(l), Look(client, PlansOf(l, op)));
    match op
    case Increment(batch, column) =>
      var groups := Groups(l.rows, batch);
      assert groups[..0] == [] && groups[0..] == groups;
      PutsWriteGroups(looked, client, l, groups, 0, column, l.clock);
    case Upsert(_) => OnePut(looked, client);
    case SetFlag(_, _) => OnePut(looked, client);
  }

  // ---------------------------------------------------------------- an interleaving that doubles a row

  /** One client suppresses an address while another resolves it under a second spelling: both look before
      either writes. */
  function TwoSpellings(l: Ledger, a: string, b: string): seq<Move> {
    [Look(0, PlansOf(l, SetFlag(a, true))), Look(1, PlansOf(l, Upsert(b))), Put(0), Put(1)]
  }

  lemma PlayOne(w: World, m: Move, rest: seq<Move>)
    ensures Plays(w, [m] + rest) <==> Legal(w, m) && Plays(Next(w, m), rest)
    ensures Played(w, [m] + rest) == Played(Next(w, m), rest)
  {
    hide Legal, Next;
    assert ([m] + rest)[1..] == rest;
  }

  lemma FourMoves(w: World, moves: seq<Move>)
    requires |moves| == 4
    ensures var w1 := Next(w, moves[0]);
            var w2 := Next(w1, moves[1]);
            var w3 := Next(w2, moves[2]);
            && Played(w, moves) == Next(w3, moves[3])
            && (Plays(w, moves) <==>
                  Legal(w, moves[0]) && Legal(w1, moves[1]) && Legal(w2, moves[2]) && Legal(w3, moves[3]))
  {
    hide Next, Legal;
    assert moves == [moves[0]] + ([moves[1]] + ([moves[2]] + ([moves[3]] + [])));
    PlayOne(w, moves[0], moves[1..]);
    PlayOne(Next(w, moves[0]), moves[1], moves[2..]);
    PlayOne(Next(Next(w, moves[0]), moves[1]), moves[2], moves[3..]);
    PlayOne(Next(Next(Next(w, moves[0]), moves[1]), moves[2]), moves[3], []);
    assert [moves[0]] + moves[1..] == moves && [moves[1]] + moves[2..] == moves[1..];
    assert [moves[2]] + moves[3..] == moves[2..] && [moves[3]] + [] == moves[3..];
  }

  lemma TwoSpellingsLeave(l: Ledger, a: string, b: string)
    requires FindContact(l.rows, a).None? && FindContact(l.rows, b).None?
    requires a != b && CanCreate(l, a) && CanCreate(l, b)
    ensures Plays(Start(l), TwoSpellings(l, a, b))
    ensures var first := Create(l, Blank(l, a).(suppressed := true));
            Played(Start(l), TwoSpellings(l, a, b)).l == Create(first, Blank(first, b))
  {
    hide FindContact, Looked, IsBlank;
    OperationLooks(l, SetFlag(a, true));
    OperationLooks(l, Upsert(b));
    var first := Create(l, Blank(l, a).(suppressed := true));
    assert CanCreate(first, b);
    hide CanCreate, Create;
    var moves := TwoSpellings(l, a, b);
    var w0 := Start(l);
    var w1 := Next(w0, moves[0]);
    var w2 := Next(w1, moves[1]);
    var w3 := Next(w2, moves[2]);
    var w4 := Next(w3, moves[3]);
    FourMoves(w0, moves);
  }

  lemma NoneFound(l: Ledger, a: string, b: string)
    requires FindContact(l.rows, a).None? && !IsBlank(a) && CanonicalOf(a) == CanonicalOf(b)
    ensures FindContact(l.rows, b).None? && CanCreate(l, a) && CanCreate(l, b)
  {
    hide FindContact, CanonicalOf, IsBlank;
    FindContactMeans(l.rows, a);
    FindContactMeans(l.rows, b);
    forall i | 0 <= i < |l.rows|
      ensures l.rows[i].email != a && l.rows[i].email != b
    {
      assert l.rows[i] in l.rows;
    }
  }

  lemma OnlyRowSpelled(l: Ledger, c: Contact, d: Contact)
    requires Valid(l) && CanCreate(l, d.email) && c.email != d.email && c.id == l.nextId && d.id == l.nextId + 1
    ensures DistinctIds(l.rows + [c, d]) && IsNewest(l.rows + [c, d], SpelledAs(d.email), d)
  {
    var rows := l.rows + [c, d];
    assert rows[|l.rows| + 1] == d && rows[|l.rows|] == c;
    forall i | 0 <= i < |l.rows|
      ensures rows[i] == l.rows[i] && rows[i].id < l.nextId
    {
      assert l.rows[i] in l.rows;
    }
  }

  /** From any ledger without the address it leaves a suppressed row and another, and the two suppression
      questions part on the second spelling. */
  lemma OverlapPartsTheQuestions(l: Ledger, a: string, b: string)
    requires Valid(l) && FindContact(l.rows, a).None?
    requires CanonicalSender(a).Some? && CanonicalOf(a) == CanonicalOf(b) && a != b && Trim(b) == b
    ensures Plays(Start(l), TwoSpellings(l, a, b))
    ensures !QuestionsAgreeOn(Played(Start(l), TwoSpellings(l, a, b)).l.rows, b)
  {
    hide FindContact, CanonicalOf, CanonicalSender, Trim, IsNewest, DistinctIds, Plays, Played, Reported;
    SenderIsNotBlank(a);
    NoneFound(l, a, b);
    TwoSpellingsLeave(l, a, b);
    var first := Create(l, Blank(l, a).(suppressed := true));
    var c, d := Blank(l, a).(suppressed := true), Blank(first, b);
    var rows := Create(first, d).rows;
    assert rows == l.rows + [c, d] && rows[|l.rows|] == c && rows[|l.rows| + 1] == d;
    OnlyRowSpelled(l, c, d);
    DuplicatesPartTheQuestions(rows, c, d);
  }
}
