/** When the text printed for an `allOf` schema (scripts/generate-selfhost-sdk.ts) denotes exactly what its
    members denote together, although they are joined with `&` and no parentheses. */
module AllOfExactness {
  import opened Wrappers
  import opened TypeScript
  import opened SchemaTypes

  // ---------------------------------------------------------------- two members

  /** An alternative before the last one admits the value. */
  predicate AdmittedEarly(u: Union, v: Json, env: Env) {
    match u
    case One(_) => false
    case Or(i, rest) => AdmitsInter(i, v, env) || AdmittedEarly(rest, v, env)
  }

  /** An alternative after the first one admits the value. */
  predicate AdmittedLate(u: Union, v: Json, env: Env) {
    match u
    case One(_) => false
    case Or(_, rest) => Admits(rest, v, env)
  }

  function LastOf(u: Union): Inter {
    match u
    case One(i) => i
    case Or(_, rest) => LastOf(rest)
  }

  function FirstOf(u: Union): Inter {
    match u
    case One(i) => i
    case Or(i, _) => i
  }

  lemma {:induction false} AdmittedSomewhere(u: Union, v: Json, env: Env)
    requires CleanUnion(u)
    ensures Admits(u, v, env) <==> AdmittedEarly(u, v, env) || AdmitsInter(LastOf(u), v, env)
    ensures Admits(u, v, env) <==> AdmitsInter(FirstOf(u), v, env) || AdmittedLate(u, v, env)
    ensures CleanInter(LastOf(u)) && CleanInter(FirstOf(u))
  {
    hide AdmitsInter, CleanInter;
    match u
    case One(_) =>
    case Or(_, rest) => AdmittedSomewhere(rest, v, env);
  }

  /** `&` binds tighter: only the last alternative of the one side and the first of the other meet. */
  lemma {:induction false} AdmitsJoined(a: Union, b: Union, v: Json, env: Env)
    requires CleanUnion(a) && CleanUnion(b)
    ensures Admits(AndTypes(a, b), v, env) <==>
              || AdmittedEarly(a, v, env)
              || (AdmitsInter(LastOf(a), v, env) && AdmitsInter(FirstOf(b), v, env))
              || AdmittedLate(b, v, env)
  {
    hide AdmitsInter, CleanInter, AndParts;
    match a
    case Or(_, rest) => AdmitsJoined(rest, b, v, env);
    case One(i) => AndPartsMeans(i, FirstOf(b), v, env);
  }

  /** Two texts joined with `&` denote exactly what both denote if and only if the alternatives that the
      joint leaves alone, all but the last of the one and all but the first of the other, admit nothing
      that the other side does not. */
  lemma AndTypesExactly(a: Union, b: Union, v: Json, env: Env)
    requires CleanUnion(a) && CleanUnion(b)
    ensures (Admits(AndTypes(a, b), v, env) <==> Admits(a, v, env) && Admits(b, v, env)) <==>
              && (AdmittedEarly(a, v, env) ==> Admits(b, v, env))
              && (AdmittedLate(b, v, env) ==> Admits(a, v, env))
  {
    hide *;
    AdmitsJoined(a, b, v, env);
    AdmittedSomewhere(a, v, env);
    AdmittedSomewhere(b, v, env);
  }

  // ---------------------------------------------------------------- any number of members

  /** The members joined with `&`, as TypeScript reads the joined text. */
  function JoinTypes(types: seq<Union>): (r: Union)
    requires types != []
  {
    if |types| == 1 then types[0] else AndTypes(types[0], JoinTypes(types[1..]))
  }

  /** An alternative of the joined text, and the members `from`..`to` that have a part in it. */
  datatype Group = Group(inter: Inter, from: nat, to: nat)

  datatype Groups = Sole(group: Group) | Then(group: Group, rest: Groups)

  function AloneAll(u: Union): Groups {
    match u
    case One(i) => Sole(Group(i, 0, 0))
    case Or(i, rest) => Then(Group(i, 0, 0), AloneAll(rest))
  }

  function Shift(groups: Groups): Groups {
    var g := Group(groups.group.inter, groups.group.from + 1, groups.group.to + 1);
    match groups
    case Sole(_) => Sole(g)
    case Then(_, rest) => Then(g, Shift(rest))
  }

  /** One more member in front: its last alternative meets the first group. */
  function Glue(u: Union, groups: Groups): Groups {
    match u
    case Or(i, rest) => Then(Group(i, 0, 0), Glue(rest, groups))
    case One(i) =>
      var met := Group(AndParts(i, groups.group.inter), 0, groups.group.to + 1);
      match groups
      case Sole(_) => Sole(met)
      case Then(_, rest) => Then(met, Shift(rest))
  }

  function GroupsOf(types: seq<Union>): (r: Groups)
    requires types != []
  {
    if |types| == 1 then AloneAll(types[0]) else Glue(types[0], GroupsOf(types[1..]))
  }

  function Alternatives(groups: Groups): Union {
    match groups
    case Sole(g) => One(g.inter)
    case Then(g, rest) => Or(g.inter, Alternatives(rest))
  }

  lemma {:induction false} ShiftKeeps(groups: Groups)
    ensures Alternatives(Shift(groups)) == Alternatives(groups)
  {
    match groups
    case Sole(_) =>
    case Then(_, rest) => ShiftKeeps(rest);
  }

  lemma {:induction false} AloneKeeps(u: Union)
    ensures Alternatives(AloneAll(u)) == u
  {
    match u
    case One(_) =>
    case Or(_, rest) => AloneKeeps(rest);
  }

  lemma {:induction false} GlueJoins(u: Union, groups: Groups)
    ensures Alternatives(Glue(u, groups)) == AndTypes(u, Alternatives(groups))
  {
    match u
    case Or(_, rest) => GlueJoins(rest, groups);
    case One(_) =>
      match groups {
        case Sole(_) =>
        case Then(_, rest) => ShiftKeeps(rest);
      }
  }

  /** The groups are the alternatives of the joined text. */
  lemma {:induction false} GroupsAreJoined(types: seq<Union>)
    requires types != []
    ensures Alternatives(GroupsOf(types)) == JoinTypes(types)
  {
    if |types| == 1 {
      AloneKeeps(types[0]);
    } else {
      GroupsAreJoined(types[1..]);
      GlueJoins(types[0], GroupsOf(types[1..]));
    }
  }

  ghost predicate AllClean(types: seq<Union>) {
    forall i :: 0 <= i < |types| ==> CleanUnion(types[i])
  }

  /** The members of a group are members, and a value that the group admits each of them admits. */
  ghost predicate HasPart(types: seq<Union>, g: Group, v: Json, env: Env) {
    && g.from <= g.to < |types|
    && (AdmitsInter(g.inter, v, env) ==> forall i :: g.from <= i <= g.to ==> Admits(types[i], v, env))
  }

  ghost predicate AllHaveParts(types: seq<Union>, groups: Groups, v: Json, env: Env) {
    HasPart(types, groups.group, v, env) && (groups.Then? ==> AllHaveParts(types, groups.rest, v, env))
  }

  /** Alternatives of the first member stand alone. */
  lemma {:induction false} AloneHaveParts(types: seq<Union>, u: Union, v: Json, env: Env)
    requires types != [] && (Admits(u, v, env) ==> Admits(types[0], v, env))
    ensures AllHaveParts(types, AloneAll(u), v, env)
  {
    hide AdmitsInter;
    match u
    case One(_) =>
    case Or(_, rest) => AloneHaveParts(types, rest, v, env);
  }

  lemma ShiftedPart(types: seq<Union>, g: Group, v: Json, env: Env)
    requires types != [] && HasPart(types[1..], g, v, env)
    ensures HasPart(types, Group(g.inter, g.from + 1, g.to + 1), v, env)
  {
    hide AdmitsInter, Admits;
    assert forall i :: 0 < i < |types| ==> types[i] == types[1..][i - 1];
  }

  lemma {:induction false} ShiftHaveParts(types: seq<Union>, groups: Groups, v: Json, env: Env)
    requires types != [] && AllHaveParts(types[1..], groups, v, env)
    ensures AllHaveParts(types, Shift(groups), v, env)
  {
    hide HasPart;
    ShiftedPart(types, groups.group, v, env);
    if groups.Then? {
      ShiftHaveParts(types, groups.rest, v, env);
    }
  }

  lemma MetPart(types: seq<Union>, i: Inter, g: Group, v: Json, env: Env)
    requires types != [] && CleanInter(i) && CleanInter(g.inter) && g.from == 0 && HasPart(types[1..], g, v, env)
    requires AdmitsInter(i, v, env) ==> Admits(types[0], v, env)
    ensures HasPart(types, Group(AndParts(i, g.inter), 0, g.to + 1), v, env)
  {
    hide AdmitsInter, Admits, CleanInter, AndParts;
    AndPartsMeans(i, g.inter, v, env);
    assert forall k :: 0 < k < |types| ==> types[k] == types[1..][k - 1];
  }

  lemma LonePart(types: seq<Union>, i: Inter, v: Json, env: Env)
    requires types != [] && (AdmitsInter(i, v, env) ==> Admits(types[0], v, env))
    ensures HasPart(types, Group(i, 0, 0), v, env)
  {}

  lemma {:induction false} GlueHaveParts(types: seq<Union>, u: Union, groups: Groups, v: Json, env: Env)
    requires types != [] && CleanUnion(u) && (Admits(u, v, env) ==> Admits(types[0], v, env))
    requires AllHaveParts(types[1..], groups, v, env) && groups.group.from == 0 && CleanInter(groups.group.inter)
    ensures AllHaveParts(types, Glue(u, groups), v, env)
    ensures Glue(u, groups).group.from == 0 && CleanInter(Glue(u, groups).group.inter)
  {
    hide AdmitsInter, CleanInter, AndParts, HasPart;
    match u
    case Or(i, rest) =>
      GlueHaveParts(types, rest, groups, v, env);
      LonePart(types, i, v, env);
    case One(i) =>
      MetPart(types, i, groups.group, v, env);
      AndPartsMeans(i, groups.group.inter, v, env);
      if groups.Then? {
        ShiftHaveParts(types, groups.rest, v, env);
      }
  }

  /** Every group has its part of the members, and the first begins with the first of them. */
  lemma {:induction false} GroupsHaveParts(types: seq<Union>, v: Json, env: Env)
    requires types != [] && AllClean(types)
    ensures AllHaveParts(types, GroupsOf(types), v, env)
    ensures GroupsOf(types).group.from == 0 && CleanInter(GroupsOf(types).group.inter)
  {
    hide AllHaveParts, Admits, CleanInter;
    if |types| == 1 {
      AloneHaveParts(types, types[0], v, env);
      assert types[0].Or? ==> CleanInter(types[0].first);
    } else {
      GroupsHaveParts(types[1..], v, env);
      GlueHaveParts(types, types[0], GroupsOf(types[1..]), v, env);
    }
  }

  ghost predicate AllAdmit(types: seq<Union>, v: Json, env: Env) {
    forall i :: 0 <= i < |types| ==> Admits(types[i], v, env)
  }

  lemma {:induction false} JoinTypesMeans(types: seq<Union>, v: Json, env: Env)
    requires types != [] && AllClean(types)
    ensures CleanUnion(JoinTypes(types))
    ensures AllAdmit(types, v, env) ==> Admits(JoinTypes(types), v, env)
  {
    hide AndTypes, Admits, CleanUnion;
    if |types| == 1 {
    } else {
      JoinTypesMeans(types[1..], v, env);
      AndTypesMeans(types[0], JoinTypes(types[1..]), v, env);
      assert forall i :: 0 < i < |types| ==> types[i] == types[1..][i - 1];
    }
  }

  /** Whatever the group admits, the members that have no part in it admit too. */
  ghost predicate KeptIn(types: seq<Union>, g: Group, v: Json, env: Env) {
    AdmitsInter(g.inter, v, env) ==>
      forall i :: 0 <= i < |types| && !(g.from <= i <= g.to) ==> Admits(types[i], v, env)
  }

  ghost predicate AllKeptIn(types: seq<Union>, groups: Groups, v: Json, env: Env) {
    KeptIn(types, groups.group, v, env) && (groups.Then? ==> AllKeptIn(types, groups.rest, v, env))
  }

  ghost predicate NothingEscapes(types: seq<Union>, v: Json, env: Env) {
    types != [] ==> AllKeptIn(types, GroupsOf(types), v, env)
  }

  lemma OneExactly(types: seq<Union>, g: Group, v: Json, env: Env)
    requires HasPart(types, g, v, env)
    ensures (AdmitsInter(g.inter, v, env) ==> AllAdmit(types, v, env)) <==> KeptIn(types, g, v, env)
  {
    hide AdmitsInter, Admits;
  }

  lemma {:induction false} GroupsExactly(types: seq<Union>, groups: Groups, v: Json, env: Env)
    requires AllHaveParts(types, groups, v, env)
    ensures (Admits(Alternatives(groups), v, env) ==> AllAdmit(types, v, env)) <==> AllKeptIn(types, groups, v, env)
  {
    hide AdmitsInter, HasPart, KeptIn, AllAdmit;
    OneExactly(types, groups.group, v, env);
    if groups.Then? {
      GroupsExactly(types, groups.rest, v, env);
    }
  }

  lemma JoinedExactly(types: seq<Union>, v: Json, env: Env)
    requires types != [] && AllClean(types)
    ensures (Admits(JoinTypes(types), v, env) <==> AllAdmit(types, v, env)) <==> NothingEscapes(types, v, env)
  {
    hide JoinTypes, GroupsOf, Admits, AllHaveParts, AllKeptIn, CleanUnion;
    GroupsAreJoined(types);
    GroupsHaveParts(types, v, env);
    JoinTypesMeans(types, v, env);
    GroupsExactly(types, GroupsOf(types), v, env);
  }

  // ---------------------------------------------------------------- at the schema

  /** The types that TypeScript reads in texts that are types. */
  function TypesOf(texts: seq<seq<Token>>): (r: seq<Union>)
    requires forall i :: 0 <= i < |texts| ==> ReadType(texts[i]).Some?
    ensures |r| == |texts| && forall i :: 0 <= i < |texts| ==> r[i] == ReadType(texts[i]).value
  {
    seq(|texts|, i requires 0 <= i < |texts| => ReadType(texts[i]).value)
  }

  lemma ReadBack(text: seq<Token>)
    requires IsType(text)
    ensures ReadType(text).Some? && CleanUnion(ReadType(text).value) && ShowUnion(ReadType(text).value) == text
  {
    var u := TypeReads(text);
  }

  lemma {:induction false} JoinedTextReads(texts: seq<seq<Token>>)
    requires texts != [] && forall i :: 0 <= i < |texts| ==> ReadType(texts[i]).Some? && IsType(texts[i])
    ensures AllClean(TypesOf(texts)) && CleanUnion(JoinTypes(TypesOf(texts)))
    ensures ShowUnion(JoinTypes(TypesOf(texts))) == Join(texts, Amp)
  {
    hide ReadType, AndTypes, ShowUnion, CleanUnion, IsType;
    var types := TypesOf(texts);
    forall i | 0 <= i < |texts|
      ensures CleanUnion(types[i]) && ShowUnion(types[i]) == texts[i]
    {
      ReadBack(texts[i]);
    }
    if |texts| == 1 {
    } else {
      JoinedTextReads(texts[1..]);
      assert TypesOf(texts[1..]) == types[1..];
      AndTypesMeans(types[0], JoinTypes(types[1..]), JNull, (name, v) => false);
    }
  }

  /** Every member of a well-formed schema is printed as a type. */
  lemma MemberIsType(schema: Schema)
    requires WellFormed(schema)
    ensures IsType(Render(schema)) && ReadType(Render(schema)).Some?
  {
    hide WellFormed, IsType, Render;
    RenderIsType(schema);
    ReadBack(Render(schema));
  }

  /** A schema that the renderer treats as an `allOf`. */
  predicate IsAllOf(schema: Schema) {
    schema.component.None? && !schema.oneOf.Alternatives? && !schema.anyOf.Alternatives? && schema.allOf.Alternatives?
  }

  /** TypeScript reads every distinct text of the members. */
  ghost predicate MembersRead(schema: Schema)
    requires IsAllOf(schema)
  {
    var texts := Unique(RenderAll(schema.allOf.list));
    forall i :: 0 <= i < |texts| ==> ReadType(texts[i]).Some? && IsType(texts[i])
  }

  lemma MembersAreTypes(schema: Schema)
    requires WellFormed(schema) && IsAllOf(schema)
    ensures MembersRead(schema)
  {
    hide IsType, ReadType, Render;
    var list := schema.allOf.list;
    var texts := Unique(RenderAll(list));
    forall i | 0 <= i < |texts|
      ensures ReadType(texts[i]).Some? && IsType(texts[i])
    {
      assert texts[i] in texts;
      var k :| 0 <= k < |list| && RenderAll(list)[k] == texts[i];
      MemberIsType(list[k]);
    }
  }

  /** The distinct texts are those of the members. */
  lemma DistinctTexts(list: seq<Schema>, t: seq<Token>)
    ensures t in Unique(RenderAll(list)) <==> exists k :: 0 <= k < |list| && Render(list[k]) == t
  {
    hide Render, Unique;
    if t in RenderAll(list) {
      var k :| 0 <= k < |list| && RenderAll(list)[k] == t;
      assert Render(list[k]) == t;
    }
    if k :| 0 <= k < |list| && Render(list[k]) == t {
      assert RenderAll(list)[k] == t;
    }
  }

  ghost predicate AllDenote(list: seq<Schema>, v: Json, env: Env) {
    forall k :: 0 <= k < |list| ==> Denotes(Render(list[k]), v, env)
  }

  ghost predicate AllTextsDenote(texts: seq<seq<Token>>, v: Json, env: Env) {
    forall t :: t in texts ==> Denotes(t, v, env)
  }

  /** What all members' texts denote is what all distinct texts denote. */
  lemma AllMembers(list: seq<Schema>, v: Json, env: Env)
    ensures AllDenote(list, v, env) <==> AllTextsDenote(Unique(RenderAll(list)), v, env)
  {
    hide Denotes, Render, Unique, RenderAll;
    var texts := Unique(RenderAll(list));
    forall t
      ensures t in texts <==> exists k :: 0 <= k < |list| && Render(list[k]) == t
    {
      DistinctTexts(list, t);
    }
    assert forall k :: 0 <= k < |list| ==> Render(list[k]) in texts;
  }

  lemma TextsAdmit(texts: seq<seq<Token>>, v: Json, env: Env)
    requires forall i :: 0 <= i < |texts| ==> ReadType(texts[i]).Some?
    ensures AllTextsDenote(texts, v, env) <==> AllAdmit(TypesOf(texts), v, env)
  {
    hide ReadType, Admits;
    assert forall i :: 0 <= i < |texts| ==> texts[i] in texts;
    assert forall i :: 0 <= i < |texts| ==> (Denotes(texts[i], v, env) <==> Admits(TypesOf(texts)[i], v, env));
  }

  lemma NoMembers(schema: Schema, v: Json, env: Env)
    requires IsAllOf(schema) && Unique(RenderAll(schema.allOf.list)) == []
    ensures RenderBase(schema) == [Word("unknown")] && NothingEscapes([], v, env) && AdmitsName("unknown", v, env)
  {}

  lemma JoinedNotEmpty(texts: seq<seq<Token>>)
    requires texts != [] && forall i :: 0 <= i < |texts| ==> IsType(texts[i])
    ensures OrElse(Join(texts, Amp), "unknown") == Join(texts, Amp)
  {
    hide IsType, Join;
    assert forall t :: t in texts ==> IsType(t);
    DenotesJoinedAmp(texts, JNull, (name, v) => false);
    TypeNotEmpty(Join(texts, Amp));
  }

  lemma BaseExactly(schema: Schema, v: Json, env: Env)
    requires WellFormed(schema) && IsAllOf(schema)
    ensures MembersRead(schema) && IsType(RenderBase(schema))
    ensures (Denotes(RenderBase(schema), v, env) <==> AllDenote(schema.allOf.list, v, env)) <==>
              NothingEscapes(TypesOf(Unique(RenderAll(schema.allOf.list))), v, env)
  {
    hide WellFormed, IsType, ReadType, Render, NothingEscapes, Admits, JoinTypes, CleanUnion, ShowUnion, Join,
         RenderAll;
    var texts := Unique(RenderAll(schema.allOf.list));
    MembersAreTypes(schema);
    AllMembers(schema.allOf.list, v, env);
    var types := TypesOf(texts);
    assert AllTextsDenote(texts, v, env) <==> AllAdmit(types, v, env) by { TextsAdmit(texts, v, env); }
    if texts == [] {
      SoundWord("unknown", v, env);
      NoMembers(schema, v, env);
    } else {
      JoinedTextReads(texts);
      DenotesShown(JoinTypes(types), v, env);
      JoinedExactly(types, v, env);
      JoinedNotEmpty(texts);
    }
  }

  /** The printed text of an `allOf` schema denotes exactly what all its members' texts denote, and null
      where the schema is nullable, if and only if nothing escapes the regrouping: whatever an alternative
      of the joined text admits, the members that have no part in it admit too. */
  lemma AllOfExactly(schema: Schema, v: Json, env: Env)
    requires WellFormed(schema) && IsAllOf(schema)
    ensures MembersRead(schema)
    ensures var nothing := Nullable(schema) && v.JNull?;
            var members := AllDenote(schema.allOf.list, v, env) || nothing;
            (Denotes(Render(schema), v, env) <==> members) <==>
              nothing || NothingEscapes(TypesOf(Unique(RenderAll(schema.allOf.list))), v, env)
  {
    hide WellFormed, IsType, ReadType, NothingEscapes, RenderBase, Denotes, RenderAll;
    BaseExactly(schema, v, env);
    DenotesNullable(RenderBase(schema), v, env);
  }

  /** Members of which none is printed as a union are always exact. */
  lemma {:induction false} PlainMembersAreExact(types: seq<Union>, v: Json, env: Env)
    requires types != [] && AllClean(types) && forall i :: 0 <= i < |types| ==> types[i].One?
    ensures JoinTypes(types).One? && NothingEscapes(types, v, env)
  {
    hide CleanUnion, Admits, NothingEscapes;
    JoinTypesMeans(types, v, env);
    JoinedExactly(types, v, env);
    if |types| == 1 {
    } else {
      PlainMembersAreExact(types[1..], v, env);
      JoinTypesMeans(types[1..], v, env);
      JoinedExactly(types[1..], v, env);
      AndTypesMeans(types[0], JoinTypes(types[1..]), v, env);
      assert forall i :: 0 < i < |types| ==> types[i] == types[1..][i - 1];
    }
  }

  /** One member is always exact, whether it is printed as a union or not. */
  lemma OneMemberIsExact(member: Union, v: Json, env: Env)
    requires CleanUnion(member)
    ensures NothingEscapes([member], v, env)
  {
    JoinedExactly([member], v, env);
  }
}
