/** Alias routing (src/db/aliases.ts): the upserts and the guarded delete that write the alias table,
    and the chain of lookups that decides where a recipient's mail goes. */
module Aliases {
  import opened Wrappers
  import opened Text
  import opened Sorting

  const CATCH_ALL := "*"
  const ALL_DOMAINS := "*"

  datatype Key = Key(domain: string, localPart: string)

  const GLOBAL := Key(ALL_DOMAINS, CATCH_ALL)

  datatype Alias = Alias(id: string, key: Key, target: string, isProtected: bool)

  datatype Fault = InvalidAddress | BlankKey | ProtectedAlias | TwoAliasesForOneKey | Refused

  // ---------------------------------------------------------------- addresses

  /** One more than JavaScript's `lastIndexOf`: zero stands for "absent". */
  function AfterLast(s: string, c: char): (n: nat)
    ensures n <= |s|
    ensures n > 0 ==> s[n - 1] == c
    ensures forall i :: n <= i < |s| ==> s[i] != c
  {
    if s == "" then 0
    else if s[|s| - 1] == c then |s|
    else AfterLast(s[..|s| - 1], c)
  }

  function Split(address: string): (r: Option<Key>) {
    var n := AfterLast(address, '@');
    if n <= 1 || n == |address| then None
    else Some(Key(Lower(address[n..]), Lower(address[..n - 1])))
  }

  lemma AfterLastLower(s: string)
    ensures AfterLast(Lower(s), '@') == AfterLast(s, '@')
  {
    var l, n, m := Lower(s), AfterLast(s, '@'), AfterLast(Lower(s), '@');
    assert n > 0 ==> l[n - 1] == '@';
    assert m > 0 ==> s[m - 1] == '@';
  }

  lemma LowerSlice(s: string, i: nat, j: nat)
    requires i <= j <= |s|
    ensures Lower(Lower(s)[i..j]) == Lower(s[i..j])
  {}

  lemma SplitLower(a: string)
    ensures Split(Lower(a)) == Split(a)
  {
    hide Lower;
    AfterLastLower(a);
    var n := AfterLast(a, '@');
    LowerSlice(a, n, |a|);
    assert a[n..|a|] == a[n..] && Lower(a)[n..|a|] == Lower(a)[n..];
    if n > 0 {
      LowerSlice(a, 0, n - 1);
    }
  }

  /** An address is split the same way whatever the case of its letters. */
  lemma SplitIgnoresCase(a: string, b: string)
    requires SameLetters(a, b)
    ensures Split(a) == Split(b)
  {
    SplitLower(a);
    SplitLower(b);
  }

  lemma SplitMeans(address: string)
    ensures Split(address).Some? ==> Split(address).value.domain != "" && Split(address).value.localPart != ""
  {}

  // ---------------------------------------------------------------- the table

  ghost predicate OnePerKey(rows: seq<Alias>) {
    DistinctBy(rows, (a: Alias) => a.key) && DistinctBy(rows, (a: Alias) => a.id)
  }

  function Matches(rows: seq<Alias>, key: Key): (r: seq<Alias>)
    ensures forall a :: a in r <==> a in rows && a.key == key
  {
    if rows == [] then []
    else
      var rest := Matches(rows[1..], key);
      assert rows == [rows[0]] + rows[1..];
      if rows[0].key == key then [rows[0]] + rest else rest
  }

  lemma {:induction false} AtMostOneMatch(rows: seq<Alias>, key: Key)
    requires OnePerKey(rows)
    ensures |Matches(rows, key)| <= 1
  {
    if rows == [] {
    } else {
      AtMostOneMatch(rows[1..], key);
      var rest := Matches(rows[1..], key);
      assert rest != [] ==> rest[0] in rest && rest[0] in rows[1..];
    }
  }

  function At(rows: seq<Alias>, key: Key): (r: Option<Alias>)
    ensures r.Some? ==> r.value in rows && r.value.key == key
    ensures r.None? ==> forall a :: a in rows ==> a.key != key
  {
    var found := Matches(rows, key);
    if found == [] then None
    else
      assert found[0] in found;
      Some(found[0])
  }

  /** With one row per key, looking a key up finds the row that has it. */
  lemma AtMeans(rows: seq<Alias>, i: nat)
    requires OnePerKey(rows) && i < |rows|
    ensures At(rows, rows[i].key) == Some(rows[i])
  {
    AtMostOneMatch(rows, rows[i].key);
    assert rows[i] in Matches(rows, rows[i].key);
  }

  // ---------------------------------------------------------------- what the operations do to it

  datatype Op = Upsert(key: Key, target: string, isProtected: bool, newId: string) | Remove(id: string)

  function Retargeted(rows: seq<Alias>, key: Key, target: string): (r: seq<Alias>) {
    seq(|rows|, i requires 0 <= i < |rows| => if rows[i].key == key then rows[i].(target := target) else rows[i])
  }

  function WithoutId(rows: seq<Alias>, id: string): (r: seq<Alias>)
    ensures forall a :: a in r <==> a in rows && a.id != id
  {
    if rows == [] then []
    else
      var rest := WithoutId(rows[1..], id);
      assert rows == [rows[0]] + rows[1..];
      if rows[0].id == id then rest else [rows[0]] + rest
  }

  predicate Holds(rows: seq<Alias>, id: string) {
    exists a :: a in rows && a.id == id
  }

  predicate HoldsProtected(rows: seq<Alias>, id: string) {
    exists a :: a in rows && a.id == id && a.isProtected
  }

  /** A key that an upsert refuses to write. */
  predicate Blank(key: Key) {
    key.domain == "" || key.localPart == ""
  }

  function Next(rows: seq<Alias>, op: Op): (r: seq<Alias>) {
    match op
    case Upsert(key, target, isProtected, newId) =>
      if Blank(key) then rows
      else if At(rows, key).Some? then Retargeted(rows, key, target)
      else rows + [Alias(newId, key, target, isProtected)]
    case Remove(id) =>
      if HoldsProtected(rows, id) then rows else WithoutId(rows, id)
  }

  function Run(rows: seq<Alias>, ops: seq<Op>): (r: seq<Alias>)
    decreases |ops|
  {
    if ops == [] then rows else Run(Next(rows, ops[0]), ops[1..])
  }

  /** Ids are minted, so an upsert brings one that no row has. */
  ghost predicate Mints(rows: seq<Alias>, op: Op) {
    op.Upsert? ==> forall a :: a in rows ==> a.id != op.newId
  }

  /** A text longer than every id in the table. */
  function Longer(rows: seq<Alias>): (id: string)
    ensures forall a :: a in rows ==> |a.id| < |id|
  {
    if rows == [] then "x"
    else
      assert rows == [rows[0]] + rows[1..];
      rows[0].id + Longer(rows[1..])
  }

  /** The table after an upsert that went through, whatever id it minted. */
  ghost predicate Upserted(before: seq<Alias>, after: seq<Alias>, key: Key, target: string, isProtected: bool) {
    !Blank(key) && exists newId :: Mints(before, Upsert(key, target, isProtected, newId))
                                   && after == Next(before, Upsert(key, target, isProtected, newId))
  }

  ghost predicate AllMint(rows: seq<Alias>, ops: seq<Op>)
    decreases |ops|
  {
    ops != [] ==> Mints(rows, ops[0]) && AllMint(Next(rows, ops[0]), ops[1..])
  }

  lemma {:induction false} WithoutIdKeepsOnePerKey(rows: seq<Alias>, id: string)
    requires OnePerKey(rows)
    ensures OnePerKey(WithoutId(rows, id))
  {
    if rows == [] {
    } else {
      var byKey, byId := (a: Alias) => a.key, (a: Alias) => a.id;
      TailDistinct(rows, byKey);
      TailDistinct(rows, byId);
      WithoutIdKeepsOnePerKey(rows[1..], id);
      hide DistinctBy;
      ConsDistinct(rows[0], WithoutId(rows[1..], id), byKey);
      ConsDistinct(rows[0], WithoutId(rows[1..], id), byId);
    }
  }

  lemma StepKeepsOnePerKey(rows: seq<Alias>, op: Op)
    requires OnePerKey(rows) && Mints(rows, op)
    ensures OnePerKey(Next(rows, op))
  {
    hide Matches, WithoutId, HoldsProtected;
    if op.Remove? {
      WithoutIdKeepsOnePerKey(rows, op.id);
    } else if !Blank(op.key) && At(rows, op.key).None? {
      assert forall i :: 0 <= i < |rows| ==> rows[i] in rows;
    }
  }

  /** No operation turns a row's protection on or off, or moves it to another key, and only an
      unprotected row can go. */
  ghost predicate Protects(before: seq<Alias>, after: seq<Alias>) {
    && (forall a, b :: a in before && b in after && a.id == b.id ==> a.key == b.key && a.isProtected == b.isProtected)
    && (forall a :: a in before && a.isProtected ==> exists b :: b in after && b.id == a.id)
  }

  lemma IdsApart(rows: seq<Alias>)
    requires OnePerKey(rows)
    ensures forall a, b :: a in rows && b in rows && a.id == b.id ==> a == b
  {}

  lemma StepProtects(rows: seq<Alias>, op: Op)
    requires OnePerKey(rows) && Mints(rows, op)
    ensures Protects(rows, Next(rows, op))
  {
    var after := Next(rows, op);
    if op.Upsert? && !Blank(op.key) && At(rows, op.key).Some? {
      forall b | b in after
        ensures exists a :: a in rows && a.id == b.id && a.key == b.key && a.isProtected == b.isProtected
      {
        var i :| 0 <= i < |after| && after[i] == b;
        assert rows[i] in rows;
      }
      forall a | a in rows
        ensures exists b :: b in after && b.id == a.id
      {
        var i :| 0 <= i < |rows| && rows[i] == a;
        assert after[i] in after;
      }
    } else {
      assert forall a :: a in rows && a.isProtected ==> a in after;
    }
    IdsApart(rows);
  }

  /** A protected row is there after any run, under its own id and key, and still protected. */
  lemma {:induction false} RunKeepsProtected(rows: seq<Alias>, ops: seq<Op>, a: Alias)
    requires OnePerKey(rows) && AllMint(rows, ops)
    requires a in rows && a.isProtected
    ensures OnePerKey(Run(rows, ops))
    ensures exists b :: b in Run(rows, ops) && b.id == a.id && b.key == a.key && b.isProtected
    decreases |ops|
  {
    hide Next;
    if ops == [] {
    } else {
      StepKeepsOnePerKey(rows, ops[0]);
      StepProtects(rows, ops[0]);
      var b :| b in Next(rows, ops[0]) && b.id == a.id;
      RunKeepsProtected(Next(rows, ops[0]), ops[1..], b);
    }
  }

  /** The table that a new installation is given. */
  function Seeded(): seq<Alias> {
    [Alias("global-catch-all", GLOBAL, "", true)]
  }

  /** From the seeded table, every run keeps one alias per key and the protected global catch-all. */
  lemma SeededRuns(ops: seq<Op>)
    requires AllMint(Seeded(), ops)
    ensures OnePerKey(Run(Seeded(), ops))
    ensures At(Run(Seeded(), ops), GLOBAL).Some? && At(Run(Seeded(), ops), GLOBAL).value.isProtected
  {
    hide Run, AllMint;
    var rows := Run(Seeded(), ops);
    RunKeepsProtected(Seeded(), ops, Seeded()[0]);
    var b :| b in rows && b.key == GLOBAL && b.isProtected;
    var i :| 0 <= i < |rows| && rows[i] == b;
    AtMeans(rows, i);
  }

  lemma LoneRow(a: Alias)
    ensures At([a], a.key) == Some(a) && At([], a.key) == None
    ensures WithoutId([a], a.id) == [] && (!a.isProtected ==> !HoldsProtected([a], a.id))
  {
    AtMeans([a], 0);
    assert [a][1..] == [];
  }

  lemma RunOfOne(rows: seq<Alias>, op: Op)
    requires Mints(rows, op)
    ensures Run(rows, [op]) == Next(rows, op) && AllMint(rows, [op])
  {
    hide Next;
    assert [op][1..] == [];
  }

  /** Without the seed there is no such promise: a catch-all for the domain "*" takes the place of the
      global one, unprotected, and can be removed. */
  lemma UnseededRun(target: string, id: string)
    ensures var ops := [Upsert(GLOBAL, target, false, id)];
            AllMint([], ops) && At(Run([], ops), GLOBAL) == Some(Alias(id, GLOBAL, target, false))
              && Next(Run([], ops), Remove(id)) == []
  {
    hide Matches, At, WithoutId, Run, AllMint, HoldsProtected;
    var op, lone := Upsert(GLOBAL, target, false, id), Alias(id, GLOBAL, target, false);
    LoneRow(lone);
    assert Next([], op) == [lone] by {
      assert [] + [lone] == [lone];
    }
    RunOfOne([], op);
  }

  // ---------------------------------------------------------------- routing

  function TargetAt(rows: seq<Alias>, key: Key): (r: string) {
    match At(rows, key)
    case None => ""
    case Some(a) => a.target
  }

  /** The three keys a recipient is looked up under, in order. */
  function Keys(key: Key): seq<Key> {
    [key, Key(key.domain, CATCH_ALL), GLOBAL]
  }

  function FirstTarget(rows: seq<Alias>, keys: seq<Key>): (r: Option<string>) {
    if keys == [] then None
    else if TargetAt(rows, keys[0]) != "" then Some(TargetAt(rows, keys[0]))
    else FirstTarget(rows, keys[1..])
  }

  /** The plain chain: the first of the three aliases whose target is not empty. */
  function Route(rows: seq<Alias>, recipient: string): (r: Option<string>) {
    match Split(recipient)
    case None => None
    case Some(key) => FirstTarget(rows, Keys(key))
  }

  function MemoKey(key: Key): string {
    key.domain + " " + key.localPart
  }

  /** The memo's text keys are the same only for the same pair, whatever spaces the parts contain. */
  lemma MemoKeysApart(key: Key, a: Key, b: Key)
    requires !Blank(key) && a in Keys(key) && b in Keys(key)
    ensures MemoKey(a) == MemoKey(b) <==> a == b
  {
    assert MemoKey(a)[|a.domain| + 1..] == a.localPart && MemoKey(a)[..|a.domain|] == a.domain;
    assert MemoKey(b)[|b.domain| + 1..] == b.localPart && MemoKey(b)[..|b.domain|] == b.domain;
    if MemoKey(a) == MemoKey(b) {
      assert |a.domain| + |a.localPart| == |b.domain| + |b.localPart|;
      assert a.domain == b.domain || a == GLOBAL || b == GLOBAL;
      assert |a.domain| == |b.domain|;
    }
  }

  lemma {:induction false} RetargetedMatches(rows: seq<Alias>, key: Key, target: string, other: Key)
    ensures other != key ==> Matches(Retargeted(rows, key, target), other) == Matches(rows, other)
    ensures |Matches(Retargeted(rows, key, target), key)| == |Matches(rows, key)|
    ensures forall a :: a in Matches(Retargeted(rows, key, target), key) ==> a.target == target
  {
    var after := Retargeted(rows, key, target);
    if rows == [] {
    } else {
      assert after[1..] == Retargeted(rows[1..], key, target);
      RetargetedMatches(rows[1..], key, target, other);
    }
    forall a | a in Matches(after, key)
      ensures a.target == target
    {
      var i :| 0 <= i < |after| && after[i] == a;
    }
  }

  lemma {:induction false} AppendedMatches(rows: seq<Alias>, a: Alias, key: Key)
    ensures Matches(rows + [a], key) == Matches(rows, key) + if a.key == key then [a] else []
  {
    if rows == [] {
      assert rows + [a] == [a] && [a][1..] == [];
    } else {
      assert (rows + [a])[1..] == rows[1..] + [a];
      AppendedMatches(rows[1..], a, key);
    }
  }

  /** An upsert sets the target of its key and of no other. */
  lemma UpsertSetsTarget(rows: seq<Alias>, key: Key, target: string, isProtected: bool, newId: string, other: Key)
    requires !Blank(key)
    ensures TargetAt(Next(rows, Upsert(key, target, isProtected, newId)), other) ==
              if other == key then target else TargetAt(rows, other)
  {
    hide Matches, Retargeted;
    if At(rows, key).Some? {
      RetargetedMatches(rows, key, target, other);
    } else {
      AppendedMatches(rows, Alias(newId, key, target, isProtected), other);
    }
  }

  lemma {:induction false} SameTargetsSameRoute(rows: seq<Alias>, after: seq<Alias>, keys: seq<Key>)
    requires forall k :: k in keys ==> TargetAt(rows, k) == TargetAt(after, k)
    ensures FirstTarget(rows, keys) == FirstTarget(after, keys)
  {
    hide TargetAt;
    if keys == [] {
    } else {
      SameTargetsSameRoute(rows, after, keys[1..]);
    }
  }

  lemma FirstKeyWins(rows: seq<Alias>, key: Key)
    requires TargetAt(rows, key) != ""
    ensures FirstTarget(rows, Keys(key)) == Some(TargetAt(rows, key))
  {
    assert Keys(key)[0] == key;
  }

  // ---------------------------------------------------------------- routing, said of the rows

  /** The address is `local@domain` at its last '@', both in lower case. */
  ghost predicate Parts(address: string, local: string, domain: string) {
    exists l, d :: address == l + "@" + d && '@' !in d && l != "" && d != "" && local == Lower(l) && domain == Lower(d)
  }

  lemma AfterLastUnique(s: string, c: char, n: nat)
    requires 0 < n <= |s| && s[n - 1] == c && c !in s[n..]
    ensures AfterLast(s, c) == n
  {
    forall i | n <= i < |s|
      ensures s[i] != c
    {
      assert s[i] == s[n..][i - n];
    }
  }

  lemma LastAt(l: string, d: string)
    requires '@' !in d
    ensures AfterLast(l + "@" + d, '@') == |l| + 1
  {
    hide AfterLast;
    var s := l + "@" + d;
    assert s[|l|] == '@' && s[|l| + 1..] == d;
    AfterLastUnique(s, '@', |l| + 1);
  }

  lemma CutAt(s: string, n: nat)
    requires 0 < n <= |s| && s[n - 1] == '@'
    ensures s == s[..n - 1] + "@" + s[n..]
  {}

  lemma PartsMean(address: string, local: string, domain: string)
    ensures Split(address) == Some(Key(domain, local)) <==> Parts(address, local, domain)
  {
    hide Lower;
    var n := AfterLast(address, '@');
    if n > 0 {
      CutAt(address, n);
      assert '@' !in address[n..];
    }
    forall l, d | address == l + "@" + d && '@' !in d
      ensures n == |l| + 1 && address[..n - 1] == l && address[n..] == d
    {
      LastAt(l, d);
    }
  }

  /** An alias of the key sends mail to `to`. */
  ghost predicate Sends(rows: seq<Alias>, domain: string, local: string, to: string) {
    to != "" && exists a :: a in rows && a.key.domain == domain && a.key.localPart == local && a.target == to
  }

  /** No alias of the key sends mail anywhere. */
  ghost predicate SendsNone(rows: seq<Alias>, domain: string, local: string) {
    forall a :: a in rows && a.key.domain == domain && a.key.localPart == local ==> a.target == ""
  }

  lemma TargetMeans(rows: seq<Alias>, key: Key)
    requires OnePerKey(rows)
    ensures TargetAt(rows, key) == "" <==> SendsNone(rows, key.domain, key.localPart)
    ensures forall to :: Sends(rows, key.domain, key.localPart, to) <==> TargetAt(rows, key) == to != ""
  {
    hide At;
    forall a | a in rows && a.key.domain == key.domain && a.key.localPart == key.localPart
      ensures At(rows, key) == Some(a)
    {
      var i :| 0 <= i < |rows| && rows[i] == a;
      AtMeans(rows, i);
    }
  }

  lemma ThreeKeys(rows: seq<Alias>, key: Key)
    ensures var own, all := TargetAt(rows, key), TargetAt(rows, Key(key.domain, "*"));
            FirstTarget(rows, Keys(key)) ==
              if own != "" then Some(own)
              else if all != "" then Some(all)
              else if TargetAt(rows, Key("*", "*")) != "" then Some(TargetAt(rows, Key("*", "*")))
              else None
  {
    hide TargetAt;
    var keys := Keys(key);
    var last := [Key("*", "*")];
    var rest := [Key(key.domain, "*")] + last;
    assert keys[1..] == rest && rest[1..] == last && last[1..] == [];
    assert FirstTarget(rows, []) == None;
    assert FirstTarget(rows, last) == if TargetAt(rows, last[0]) != "" then Some(TargetAt(rows, last[0])) else None;
    assert FirstTarget(rows, rest) ==
           if TargetAt(rows, rest[0]) != "" then Some(TargetAt(rows, rest[0])) else FirstTarget(rows, last);
  }

  /** A recipient's mail goes where its own alias sends it; else where the catch-all of its domain does; else
      where the one of all domains does; an alias without a target is passed over. */
  lemma RouteMeans(rows: seq<Alias>, recipient: string, local: string, domain: string, to: string)
    requires OnePerKey(rows) && Parts(recipient, local, domain)
    ensures Route(rows, recipient) == Some(to) <==>
              || Sends(rows, domain, local, to)
              || (SendsNone(rows, domain, local) && Sends(rows, domain, "*", to))
              || (SendsNone(rows, domain, local) && SendsNone(rows, domain, "*") && Sends(rows, "*", "*", to))
    ensures Route(rows, recipient).None? <==>
              SendsNone(rows, domain, local) && SendsNone(rows, domain, "*") && SendsNone(rows, "*", "*")
  {
    hide OnePerKey, Parts, Split, TargetAt, Sends, SendsNone;
    PartsMean(recipient, local, domain);
    TargetMeans(rows, Key(domain, local));
    TargetMeans(rows, Key(domain, CATCH_ALL));
    TargetMeans(rows, GLOBAL);
    ThreeKeys(rows, Key(domain, local));
  }

  /** A text that is no address goes nowhere. */
  lemma RouteOfNone(rows: seq<Alias>, recipient: string)
    requires forall local, domain :: !Parts(recipient, local, domain)
    ensures Route(rows, recipient).None?
  {
    hide Parts;
    if Split(recipient).Some? {
      PartsMean(recipient, Split(recipient).value.localPart, Split(recipient).value.domain);
    }
  }

  lemma RetargetedFrom(rows: seq<Alias>, key: Key, target: string, b: Alias) returns (a: Alias)
    requires b in Retargeted(rows, key, target)
    ensures a in rows && a.key == b.key && a.id == b.id && a.isProtected == b.isProtected
    ensures (b.key != key ==> a == b) && (b.key == key ==> b.target == target)
  {
    var after := Retargeted(rows, key, target);
    var i :| 0 <= i < |rows| && after[i] == b;
    a := rows[i];
  }

  lemma RetargetedTo(rows: seq<Alias>, key: Key, target: string, a: Alias)
    requires a in rows
    ensures (if a.key == key then a.(target := target) else a) in Retargeted(rows, key, target)
  {
    var i :| 0 <= i < |rows| && rows[i] == a;
    assert Retargeted(rows, key, target)[i] in Retargeted(rows, key, target);
  }

  lemma KeysApart(rows: seq<Alias>, a: Alias, c: Alias)
    requires OnePerKey(rows) && a in rows && c in rows && a.key == c.key
    ensures a == c
  {
    var i :| 0 <= i < |rows| && rows[i] == a;
    var j :| 0 <= j < |rows| && rows[j] == c;
    AtMeans(rows, i);
    AtMeans(rows, j);
  }

  lemma RetargetedMeans(rows: seq<Alias>, key: Key, target: string)
    requires OnePerKey(rows)
    ensures var after := Retargeted(rows, key, target);
            && (forall a: Alias :: a.key != key ==> (a in rows <==> a in after))
            && (forall a :: a in rows && a.key == key ==> exists b :: b in after && b.key == key)
            && (forall b :: b in after && b.key == key ==> b.target == target)
            && (forall a, b :: a in rows && b in after && a.key == b.key == key ==>
                  b.id == a.id && b.isProtected == a.isProtected)
  {
    hide Retargeted, OnePerKey;
    var after := Retargeted(rows, key, target);
    forall a | a in rows
      ensures (if a.key == key then a.(target := target) else a) in after
    {
      RetargetedTo(rows, key, target, a);
    }
    forall b | b in after
      ensures (b.key != key ==> b in rows) && (b.key == key ==> b.target == target)
    {
      var a := RetargetedFrom(rows, key, target, b);
    }
    forall a, b | a in rows && b in after && a.key == b.key == key
      ensures b.id == a.id && b.isProtected == a.isProtected
    {
      var c := RetargetedFrom(rows, key, target, b);
      KeysApart(rows, a, c);
    }
  }

  /** An upsert that goes through leaves the aliases of other keys, and one of its key with the new target:
      the one there was, as protected as before, or a new one. */
  lemma UpsertedMeans(before: seq<Alias>, after: seq<Alias>, key: Key, target: string, isProtected: bool)
    requires OnePerKey(before) && Upserted(before, after, key, target, isProtected)
    ensures forall a: Alias :: a.key != key ==> (a in before <==> a in after)
    ensures exists b :: b in after && b.key == key
    ensures forall b :: b in after && b.key == key ==> b.target == target
    ensures forall a, b :: a in before && b in after && a.key == b.key == key ==>
              b.id == a.id && b.isProtected == a.isProtected && |after| == |before|
    ensures (forall a :: a in before ==> a.key != key) ==>
              |after| == |before| + 1 && forall b :: b in after && b.key == key ==> b.isProtected == isProtected
  {
    var newId :| after == Next(before, Upsert(key, target, isProtected, newId));
    if At(before, key).Some? {
      RetargetedMeans(before, key, target);
    } else {
      assert after[|before|] in after;
    }
  }

  /** A removal takes away the alias of the id, unless it is protected, and no other. */
  lemma RemovedMeans(rows: seq<Alias>, id: string, a: Alias)
    requires OnePerKey(rows)
    ensures a in Next(rows, Remove(id)) <==> a in rows && (a.id != id || a.isProtected)
  {
    IdsApart(rows);
  }

  /** After an alias is created with a target, every spelling of its address resolves to that target,
      and every recipient that is not looked up under the alias's key resolves as before. */
  lemma CreatedAliasRoutes(rows: seq<Alias>, address: string, target: string, newId: string, recipient: string)
    requires Split(address).Some? && target != ""
    ensures var after := Next(rows, Upsert(Split(address).value, Lower(target), false, newId));
            && (SameLetters(recipient, address) ==> Route(after, recipient) == Some(Lower(target)))
            && (Split(recipient).Some? && Split(address).value !in Keys(Split(recipient).value) ==>
                  Route(after, recipient) == Route(rows, recipient))
  {
    hide TargetAt, Next, Split, FirstTarget, SameLetters, Lower;
    var key := Split(address).value;
    var after := Next(rows, Upsert(key, Lower(target), false, newId));
    SplitMeans(address);
    if SameLetters(recipient, address) {
      SplitIgnoresCase(recipient, address);
      UpsertSetsTarget(rows, key, Lower(target), false, newId, key);
      FirstKeyWins(after, key);
    } else if Split(recipient).Some? && key !in Keys(Split(recipient).value) {
      var keys := Keys(Split(recipient).value);
      forall other | other in keys
        ensures TargetAt(after, other) == TargetAt(rows, other)
      {
        UpsertSetsTarget(rows, key, Lower(target), false, newId, other);
      }
      SameTargetsSameRoute(rows, after, keys);
    }
  }

  lemma ProtectsItself(rows: seq<Alias>)
    requires OnePerKey(rows)
    ensures Protects(rows, rows)
  {
    IdsApart(rows);
  }

  lemma RemoveMints(rows: seq<Alias>, id: string)
    ensures Mints(rows, Remove(id))
  {}

  lemma MintsFresh(rows: seq<Alias>, op: Op)
    requires op.Upsert? && forall a :: a in rows ==> a.id != op.newId
    ensures Mints(rows, op)
  {}

  /** The row that an upsert leaves under its key. */
  lemma UpsertedRow(rows: seq<Alias>, op: Op)
    requires OnePerKey(rows) && Mints(rows, op) && op.Upsert? && !Blank(op.key)
    ensures At(Next(rows, op), op.key) == Some(
              match At(rows, op.key)
              case None => Alias(op.newId, op.key, op.target, op.isProtected)
              case Some(a) => a.(target := op.target))
  {
    hide Matches, OnePerKey, Mints;
    var after := Next(rows, op);
    StepKeepsOnePerKey(rows, op);
    if At(rows, op.key).Some? {
      var a := At(rows, op.key).value;
      var i :| 0 <= i < |rows| && rows[i] == a;
      AtMeans(after, i);
    } else {
      AtMeans(after, |rows|);
    }
  }

  // ---------------------------------------------------------------- the operations

  class AliasStore {
    var rows: seq<Alias>
    /** Whether a read or a write may be refused. */
    const refuses: bool

    constructor (refuses: bool)
      ensures rows == Seeded() && OnePerKey(rows) && this.refuses == refuses
    {
      rows := Seeded();
      this.refuses := refuses;
    }

    /** A complete, filtered read: every row under the key, or a refusal. */
    method ReadOneAlias(key: Key) returns (r: Result<Option<Alias>, Fault>)
      requires OnePerKey(rows)
      ensures r.Ok? ==> r.value == At(rows, key)
      ensures r.Err? ==> refuses && r.error == Refused
    {
      hide Matches;
      var refused: bool := *;
      if refuses && refused {
        return Err(Refused);
      }
      var found := Matches(rows, key);
      AtMostOneMatch(rows, key);
      if |found| > 1 {
        return Err(TwoAliasesForOneKey);
      }
      r := Ok(if found == [] then None else Some(found[0]));
    }

    method UpsertAlias(key: Key, target: string, isProtected: bool) returns (r: Result<Alias, Fault>)
      requires OnePerKey(rows)
      modifies `rows
      ensures OnePerKey(rows) && Protects(old(rows), rows)
      ensures r.Err? ==>
                rows == old(rows) && (r.error == BlankKey <==> Blank(key))
                  && (r.error == BlankKey || (refuses && r.error == Refused))
      ensures r.Ok? ==> Upserted(old(rows), rows, key, target, isProtected)
      ensures r.Ok? ==>
                var was := At(old(rows), key);
                r.value == Alias(r.value.id, key, target, if was.Some? then was.value.isProtected else isProtected)
      ensures r.Ok? ==> At(rows, key) == Some(r.value)
    {
      hide Matches, At, OnePerKey, Protects, Retargeted, Mints;
      ProtectsItself(rows);
      if Blank(key) {
        return Err(BlankKey);
      }
      var existing := ReadOneAlias(key);
      if existing.Err? {
        return Err(existing.error);
      }
      var refused: bool := *;
      if refuses && refused {
        return Err(Refused);
      }
      var newId := MintId();
      ghost var op := Upsert(key, target, isProtected, newId);
      assert Mints(rows, op) by { MintsFresh(rows, op); }
      StepKeepsOnePerKey(rows, op);
      StepProtects(rows, op);
      UpsertedRow(rows, op);
      if existing.value.Some? {
        rows := Retargeted(rows, key, target);
        r := Ok(existing.value.value.(target := target));
      } else {
        r := Ok(Alias(newId, key, target, isProtected));
        rows := rows + [r.value];
      }
    }

    /** An id that no row has. */
    method MintId() returns (id: string)
      ensures forall a :: a in rows ==> a.id != id
    {
      id := *;
      if exists a :: a in rows && a.id == id {
        id := Longer(rows);
      }
    }

    method CreateAlias(address: string, target: string) returns (r: Result<Alias, Fault>)
      requires OnePerKey(rows)
      modifies `rows
      ensures OnePerKey(rows) && Protects(old(rows), rows)
      ensures Split(address).None? ==> r == Err(InvalidAddress)
      ensures r.Err? ==> rows == old(rows) && (Split(address).None? || (refuses && r.error == Refused))
      ensures r.Ok? ==> Split(address).Some? && Upserted(old(rows), rows, Split(address).value, Lower(target), false)
    {
      hide OnePerKey, Protects, Next, Split;
      ProtectsItself(rows);
      var key := Split(address);
      if key.None? {
        return Err(InvalidAddress);
      }
      SplitMeans(address);
      r := UpsertAlias(key.value, Lower(target), false);
    }

    method CreateCatchAll(domain: string, target: string) returns (r: Result<Alias, Fault>)
      requires OnePerKey(rows)
      modifies `rows
      ensures OnePerKey(rows) && Protects(old(rows), rows)
      ensures r.Err? ==>
                rows == old(rows) && (r.error == BlankKey <==> domain == "")
                  && (domain == "" || (refuses && r.error == Refused))
      ensures r.Ok? ==> Upserted(old(rows), rows, Key(Lower(domain), CATCH_ALL), Lower(target), false)
    {
      hide OnePerKey, Protects, Next;
      r := UpsertAlias(Key(Lower(domain), CATCH_ALL), Lower(target), false);
    }

    method SetGlobalCatchAll(target: string) returns (r: Result<Alias, Fault>)
      requires OnePerKey(rows)
      modifies `rows
      ensures OnePerKey(rows) && Protects(old(rows), rows)
      ensures r.Err? ==> rows == old(rows) && refuses && r.error == Refused
      ensures r.Ok? ==> Upserted(old(rows), rows, GLOBAL, Lower(target), true)
    {
      hide OnePerKey, Protects, Next;
      r := UpsertAlias(GLOBAL, Lower(target), true);
    }

    /** It ensures that the global catch-all exists, and nothing else. */
    method EnsureDefaultCatchAll() returns (r: Result<Alias, Fault>)
      requires OnePerKey(rows)
      modifies `rows
      ensures OnePerKey(rows) && Protects(old(rows), rows)
      ensures r.Err? ==> rows == old(rows) && refuses && r.error == Refused
      ensures r.Ok? ==> At(rows, GLOBAL) == Some(r.value)
      ensures r.Ok? && At(old(rows), GLOBAL).Some? ==> rows == old(rows)
      ensures r.Ok? && At(old(rows), GLOBAL).None? ==>
                r.value == Alias(r.value.id, GLOBAL, "", true) && rows == old(rows) + [r.value]
    {
      hide OnePerKey, Protects, At;
      ProtectsItself(rows);
      var existing := ReadOneAlias(GLOBAL);
      if existing.Err? {
        return Err(existing.error);
      }
      if existing.value.Some? {
        return Ok(existing.value.value);
      }
      r := UpsertAlias(GLOBAL, "", true);
    }

    method RemoveAlias(id: string) returns (r: Result<bool, Fault>)
      requires OnePerKey(rows)
      modifies `rows
      ensures OnePerKey(rows) && Protects(old(rows), rows)
      ensures r.Err? ==> rows == old(rows)
      ensures r.Err? ==>
                (r.error == ProtectedAlias && id != "" && HoldsProtected(rows, id)) || (r.error == Refused && refuses)
      ensures r == Ok(true) ==>
                Holds(old(rows), id) && !HoldsProtected(old(rows), id) && rows == Next(old(rows), Remove(id))
      ensures r == Ok(false) ==> rows == old(rows) && (id == "" || !Holds(rows, id))
    {
      hide Protects, WithoutId, OnePerKey, Holds, HoldsProtected, Mints;
      ProtectsItself(rows);
      if id == "" {
        return Ok(false);
      }
      var refused: bool := *;
      if refuses && refused {
        return Err(Refused);
      }
      if !Holds(rows, id) {
        return Ok(false);
      }
      if HoldsProtected(rows, id) {
        return Err(ProtectedAlias);
      }
      RemoveMints(rows, id);
      StepKeepsOnePerKey(rows, Remove(id));
      StepProtects(rows, Remove(id));
      rows := WithoutId(rows, id);
      r := Ok(true);
    }

    /** The lookup loop with its memo answers as the plain chain does. */
    method ResolveAlias(recipient: string) returns (r: Result<Option<string>, Fault>)
      requires OnePerKey(rows)
      ensures r.Ok? ==> r.value == Route(rows, recipient)
      ensures r.Err? ==> refuses && r.error == Refused
    {
      hide OnePerKey, At, Split, MemoKey;
      var split := Split(recipient);
      if split.None? {
        return Ok(None);
      }
      SplitMeans(recipient);
      var keys := Keys(split.value);
      var seen: map<string, Option<Alias>> := map[];
      var i := 0;
      while i < |keys|
        invariant 0 <= i <= |keys|
        invariant forall text :: text in seen ==> exists j :: 0 <= j < i && MemoKey(keys[j]) == text
        invariant forall j :: 0 <= j < i ==> MemoKey(keys[j]) in seen && seen[MemoKey(keys[j])] == At(rows, keys[j])
        invariant FirstTarget(rows, keys) == FirstTarget(rows, keys[i..])
      {
        forall j | 0 <= j < i
          ensures MemoKey(keys[j]) == MemoKey(keys[i]) <==> keys[j] == keys[i]
        {
          MemoKeysApart(split.value, keys[j], keys[i]);
        }
        if MemoKey(keys[i]) !in seen {
          var read := ReadOneAlias(keys[i]);
          if read.Err? {
            return Err(read.error);
          }
          seen := seen[MemoKey(keys[i]) := read.value];
        }
        var found := seen[MemoKey(keys[i])];
        assert found == At(rows, keys[i]);
        if found.Some? && found.value.target != "" {
          return Ok(Some(found.value.target));
        }
        assert keys[i..][1..] == keys[i + 1..];
        i := i + 1;
      }
      r := Ok(None);
    }
  }
}
