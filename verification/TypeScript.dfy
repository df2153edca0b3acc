/** The fragment of TypeScript's type syntax that the SDK generator emits: its tokens, the way
    TypeScript reads them (`&` binds tighter than `|`), and the JSON values a type admits. */
module TypeScript {
  import opened Wrappers

  datatype Json =
    | JNull
    | JBool(flag: bool)
    | JNum(number: real)
    | JStr(text: string)
    | JArr(items: seq<Json>)
    | JObj(fields: seq<Field>)

  datatype Field = Field(name: string, value: Json)

  function Lookup(fields: seq<Field>, name: string): (r: Option<Json>)
    ensures r.Some? ==> exists i :: 0 <= i < |fields| && fields[i] == Field(name, r.value)
    ensures r.None? ==> forall i :: 0 <= i < |fields| ==> fields[i].name != name
  {
    if fields == [] then None
    else if fields[0].name == name then Some(fields[0].value)
    else
      assert forall i :: 0 <= i < |fields[1..]| ==> fields[1..][i] == fields[i + 1];
      Lookup(fields[1..], name)
  }

  ghost predicate DistinctNames(fields: seq<Field>) {
    forall i, j :: 0 <= i < j < |fields| ==> fields[i].name != fields[j].name
  }

  /** No object inside `j` repeats a member name. */
  ghost predicate ProperJson(j: Json) {
    match j
    case JArr(items) => forall i :: 0 <= i < |items| ==> ProperJson(items[i])
    case JObj(fields) => DistinctNames(fields) && forall i :: 0 <= i < |fields| ==> ProperJson(fields[i].value)
    case _ => true
  }

  // ---------------------------------------------------------------- tokens

  datatype Token =
    | Word(name: string)
    | Lit(value: Json)
    | Key(name: string, optional: bool)
    | Bar | Amp | Comma | Semi
    | LParen | RParen | LBrace | RBrace | LAngle | RAngle

  // ---------------------------------------------------------------- types, in grammar order

  datatype Union = One(only: Inter) | Or(first: Inter, rest: Union)
  datatype Inter = Just(prim: Prim) | And(head: Prim, tail: Inter)
  datatype Prim =
    | Name(name: string)
    | Literal(value: Json)
    | Paren(inner: Union)
    | ArrayOf(element: Union)
    | RecordOf(values: Union)
    | Object(members: Members)
  datatype Members = Last(member: Member) | More(member: Member, others: Members)
  datatype Member = Member(name: string, optional: bool, typ: Union)

  /** Words that open a generic type when an angle bracket follows. */
  predicate IsGeneric(name: string) {
    name == "Array" || name == "Record"
  }

  // ---------------------------------------------------------------- printing

  function ShowUnion(u: Union): (r: seq<Token>) {
    match u
    case One(i) => ShowInter(i)
    case Or(i, rest) => ShowInter(i) + [Bar] + ShowUnion(rest)
  }

  function ShowInter(i: Inter): (r: seq<Token>) {
    match i
    case Just(p) => ShowPrim(p)
    case And(p, tail) => ShowPrim(p) + [Amp] + ShowInter(tail)
  }

  function ShowPrim(p: Prim): (r: seq<Token>) {
    match p
    case Name(n) => [Word(n)]
    case Literal(v) => [Lit(v)]
    case Paren(u) => [LParen] + ShowUnion(u) + [RParen]
    case ArrayOf(u) => [Word("Array"), LAngle] + ShowUnion(u) + [RAngle]
    case RecordOf(u) => [Word("Record"), LAngle, Word("string"), Comma] + ShowUnion(u) + [RAngle]
    case Object(ms) => [LBrace] + ShowMembers(ms) + [RBrace]
  }

  function ShowMembers(ms: Members): (r: seq<Token>) {
    match ms
    case Last(m) => [Key(m.name, m.optional)] + ShowUnion(m.typ)
    case More(m, others) => [Key(m.name, m.optional)] + ShowUnion(m.typ) + [Semi] + ShowMembers(others)
  }

  // ---------------------------------------------------------------- reading

  datatype Parsed<+T> = Stuck | Read(tree: T, rest: seq<Token>)

  function ParseUnion(ts: seq<Token>): (r: Parsed<Union>)
    ensures r.Read? ==> |r.rest| < |ts|
    decreases |ts|, 2
  {
    match ParseInter(ts)
    case Stuck => Stuck
    case Read(i, rest) =>
      if rest != [] && rest[0] == Bar then
        match ParseUnion(rest[1..])
        case Stuck => Stuck
        case Read(u, after) => Read(Or(i, u), after)
      else Read(One(i), rest)
  }

  function ParseInter(ts: seq<Token>): (r: Parsed<Inter>)
    ensures r.Read? ==> |r.rest| < |ts|
    decreases |ts|, 1
  {
    match ParsePrim(ts)
    case Stuck => Stuck
    case Read(p, rest) =>
      if rest != [] && rest[0] == Amp then
        match ParseInter(rest[1..])
        case Stuck => Stuck
        case Read(i, after) => Read(And(p, i), after)
      else Read(Just(p), rest)
  }

  /** A union and then the token that closes it. */
  function ParseClosed(ts: seq<Token>, close: Token): (r: Parsed<Union>)
    ensures r.Read? ==> |r.rest| < |ts|
    decreases |ts|, 3
  {
    match ParseUnion(ts)
    case Stuck => Stuck
    case Read(u, rest) => if rest != [] && rest[0] == close then Read(u, rest[1..]) else Stuck
  }

  function ParsePrim(ts: seq<Token>): (r: Parsed<Prim>)
    ensures r.Read? ==> |r.rest| < |ts|
    decreases |ts|, 0
  {
    if ts == [] then Stuck
    else
      match ts[0]
      case Lit(v) => Read(Literal(v), ts[1..])
      case LParen =>
        (match ParseClosed(ts[1..], RParen)
         case Stuck => Stuck
         case Read(u, rest) => Read(Paren(u), rest))
      case LBrace =>
        (match ParseMembers(ts[1..])
         case Stuck => Stuck
         case Read(ms, rest) => if rest != [] && rest[0] == RBrace then Read(Object(ms), rest[1..]) else Stuck)
      case Word(name) =>
        if name == "Array" && |ts| > 1 && ts[1] == LAngle then
          match ParseClosed(ts[2..], RAngle)
          case Stuck => Stuck
          case Read(u, rest) => Read(ArrayOf(u), rest)
        else if name == "Record" && |ts| > 3 && ts[1..4] == [LAngle, Word("string"), Comma] then
          match ParseClosed(ts[4..], RAngle)
          case Stuck => Stuck
          case Read(u, rest) => Read(RecordOf(u), rest)
        else Read(Name(name), ts[1..])
      case _ => Stuck
  }

  function ParseMembers(ts: seq<Token>): (r: Parsed<Members>)
    ensures r.Read? ==> |r.rest| < |ts|
    decreases |ts|, 0
  {
    if ts == [] || !ts[0].Key? then Stuck
    else
      match ParseUnion(ts[1..])
      case Stuck => Stuck
      case Read(u, rest) =>
        var m := Member(ts[0].name, ts[0].optional, u);
        if rest != [] && rest[0] == Semi then
          match ParseMembers(rest[1..])
          case Stuck => Stuck
          case Read(ms, after) => Read(More(m, ms), after)
        else Read(Last(m), rest)
  }

  /** The type a complete text denotes, if it is one. */
  function ReadType(ts: seq<Token>): (r: Option<Union>) {
    match ParseUnion(ts)
    case Read(u, rest) => if rest == [] then Some(u) else None
    case Stuck => None
  }

  // ---------------------------------------------------------------- reading inverts printing

  predicate CleanUnion(u: Union) {
    match u
    case One(i) => CleanInter(i)
    case Or(i, rest) => CleanInter(i) && CleanUnion(rest)
  }

  predicate CleanInter(i: Inter) {
    match i
    case Just(p) => CleanPrim(p)
    case And(p, tail) => CleanPrim(p) && CleanInter(tail)
  }

  /** No bare type name is one that opens a generic type. */
  predicate CleanPrim(p: Prim) {
    match p
    case Name(n) => !IsGeneric(n)
    case Literal(_) => true
    case Paren(u) => CleanUnion(u)
    case ArrayOf(u) => CleanUnion(u)
    case RecordOf(u) => CleanUnion(u)
    case Object(ms) => CleanMembers(ms)
  }

  predicate CleanMembers(ms: Members) {
    match ms
    case Last(m) => CleanUnion(m.typ)
    case More(m, others) => CleanUnion(m.typ) && CleanMembers(others)
  }

  predicate StartsWith(ts: seq<Token>, t: Token) {
    ts != [] && ts[0] == t
  }

  lemma {:induction false} ParseShowUnion(u: Union, rest: seq<Token>)
    requires CleanUnion(u) && !StartsWith(rest, Bar) && !StartsWith(rest, Amp)
    ensures ParseUnion(ShowUnion(u) + rest) == Read(u, rest)
    decreases u, 0
  {
    match u
    case One(i) =>
      ParseShowInter(i, rest);
    case Or(i, more) =>
      assert ShowUnion(u) + rest == ShowInter(i) + ([Bar] + (ShowUnion(more) + rest));
      ParseShowInter(i, [Bar] + (ShowUnion(more) + rest));
      assert ([Bar] + (ShowUnion(more) + rest))[1..] == ShowUnion(more) + rest;
      ParseShowUnion(more, rest);
  }

  lemma {:induction false} ParseShowInter(i: Inter, rest: seq<Token>)
    requires CleanInter(i) && !StartsWith(rest, Amp)
    ensures ParseInter(ShowInter(i) + rest) == Read(i, rest)
    decreases i, 0
  {
    match i
    case Just(p) =>
      ParseShowPrim(p, rest);
    case And(p, tail) =>
      assert ShowInter(i) + rest == ShowPrim(p) + ([Amp] + (ShowInter(tail) + rest));
      ParseShowPrim(p, [Amp] + (ShowInter(tail) + rest));
      assert ([Amp] + (ShowInter(tail) + rest))[1..] == ShowInter(tail) + rest;
      ParseShowInter(tail, rest);
  }

  lemma {:induction false} ParseShowClosed(u: Union, close: Token, rest: seq<Token>)
    requires CleanUnion(u) && close != Bar && close != Amp
    ensures ParseClosed(ShowUnion(u) + [close] + rest, close) == Read(u, rest)
    decreases u, 1
  {
    assert ShowUnion(u) + [close] + rest == ShowUnion(u) + ([close] + rest);
    ParseShowUnion(u, [close] + rest);
    assert ([close] + rest)[1..] == rest;
  }

  lemma {:induction false} ParseShowPrim(p: Prim, rest: seq<Token>)
    requires CleanPrim(p)
    ensures ParsePrim(ShowPrim(p) + rest) == Read(p, rest)
    decreases p, 0
  {
    hide ParseClosed, ParseMembers, ShowUnion, ShowMembers, CleanUnion, CleanMembers;
    var ts := ShowPrim(p) + rest;
    match p
    case Name(_) =>
      assert ts[1..] == rest;
    case Literal(_) =>
      assert ts[1..] == rest;
    case Paren(u) =>
      assert ts[1..] == ShowUnion(u) + [RParen] + rest;
      ParseShowClosed(u, RParen, rest);
    case ArrayOf(u) =>
      assert ts[2..] == ShowUnion(u) + [RAngle] + rest;
      ParseShowClosed(u, RAngle, rest);
    case RecordOf(u) =>
      assert ts[4..] == ShowUnion(u) + [RAngle] + rest;
      assert ts[1..4] == [LAngle, Word("string"), Comma];
      ParseShowClosed(u, RAngle, rest);
    case Object(ms) =>
      assert ts[1..] == ShowMembers(ms) + ([RBrace] + rest);
      ParseShowMembers(ms, [RBrace] + rest);
      assert ([RBrace] + rest)[1..] == rest;
  }

  lemma {:induction false} ParseShowMembers(ms: Members, rest: seq<Token>)
    requires CleanMembers(ms) && StartsWith(rest, RBrace)
    ensures ParseMembers(ShowMembers(ms) + rest) == Read(ms, rest)
    decreases ms, 0
  {
    var ts := ShowMembers(ms) + rest;
    match ms
    case Last(m) =>
      assert ts[1..] == ShowUnion(m.typ) + rest;
      ParseShowUnion(m.typ, rest);
    case More(m, others) =>
      var after := [Semi] + (ShowMembers(others) + rest);
      assert ts[1..] == ShowUnion(m.typ) + after;
      ParseShowUnion(m.typ, after);
      assert after[1..] == ShowMembers(others) + rest;
      ParseShowMembers(others, rest);
  }

  /** Reading what was printed gives the same type back. */
  lemma ReadShow(u: Union)
    requires CleanUnion(u)
    ensures ReadType(ShowUnion(u)) == Some(u)
  {
    assert ShowUnion(u) + [] == ShowUnion(u);
    ParseShowUnion(u, []);
  }

  // ---------------------------------------------------------------- what a type admits

  /** Which JSON values a named (declared or component) type admits. */
  type Env = (string, Json) -> bool

  predicate Admits(u: Union, v: Json, env: Env) {
    match u
    case One(i) => AdmitsInter(i, v, env)
    case Or(i, rest) => AdmitsInter(i, v, env) || Admits(rest, v, env)
  }

  predicate AdmitsInter(i: Inter, v: Json, env: Env) {
    match i
    case Just(p) => AdmitsPrim(p, v, env)
    case And(p, tail) => AdmitsPrim(p, v, env) && AdmitsInter(tail, v, env)
  }

  predicate AdmitsName(name: string, v: Json, env: Env) {
    if name == "string" then v.JStr?
    else if name == "number" then v.JNum?
    else if name == "boolean" then v.JBool?
    else if name == "null" then v.JNull?
    else if name == "unknown" then true
    else if name == "never" then false
    else env(name, v)
  }

  /** A literal type: a scalar admits itself, an array its tuple, an object the objects that carry
      its members. */
  predicate AdmitsLiteral(lit: Json, v: Json) {
    match lit
    case JArr(items) =>
      v.JArr? && |v.items| == |items| && forall i :: 0 <= i < |items| ==> AdmitsLiteral(items[i], v.items[i])
    case JObj(fields) =>
      v.JObj? && forall i :: 0 <= i < |fields| ==>
        Lookup(v.fields, fields[i].name).Some? && AdmitsLiteral(fields[i].value, Lookup(v.fields, fields[i].name).value)
    case _ => v == lit
  }

  predicate AdmitsPrim(p: Prim, v: Json, env: Env) {
    match p
    case Name(n) => AdmitsName(n, v, env)
    case Literal(lit) => AdmitsLiteral(lit, v)
    case Paren(u) => Admits(u, v, env)
    case ArrayOf(u) => v.JArr? && forall i :: 0 <= i < |v.items| ==> Admits(u, v.items[i], env)
    case RecordOf(u) => v.JObj? && forall i :: 0 <= i < |v.fields| ==> Admits(u, v.fields[i].value, env)
    case Object(ms) => v.JObj? && AdmitsMembers(ms, v.fields, env)
  }

  predicate AdmitsMember(m: Member, fields: seq<Field>, env: Env) {
    match Lookup(fields, m.name)
    case None => m.optional
    case Some(x) => Admits(m.typ, x, env)
  }

  predicate AdmitsMembers(ms: Members, fields: seq<Field>, env: Env) {
    match ms
    case Last(m) => AdmitsMember(m, fields, env)
    case More(m, others) => AdmitsMember(m, fields, env) && AdmitsMembers(others, fields, env)
  }

  lemma LiteralAdmitsItself(j: Json)
    requires ProperJson(j)
    ensures AdmitsLiteral(j, j)
  {
    match j
    case JArr(items) =>
      forall i | 0 <= i < |items|
        ensures AdmitsLiteral(items[i], items[i])
      {
        LiteralAdmitsItself(items[i]);
      }
    case JObj(fields) =>
      forall i | 0 <= i < |fields|
        ensures Lookup(fields, fields[i].name) == Some(fields[i].value)
        ensures AdmitsLiteral(fields[i].value, fields[i].value)
      {
        LiteralAdmitsItself(fields[i].value);
      }
    case _ =>
  }
}
