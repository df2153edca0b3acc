/** The interfaces of the generated client that scripts/generate-selfhost-sdk.ts declares anew from the
    component schemas, and which of them TypeScript can read. */
module ComponentInterfaces {
  import opened Wrappers
  import opened TypeScript
  import opened SchemaTypes
  import Text

  // ---------------------------------------------------------------- what an interface can be

  /** `export interface C` is followed by one object type and nothing else. */
  function ReadInterface(ts: seq<Token>): (r: Option<Members>) {
    match ParsePrim(ts)
    case Read(Object(ms), rest) => if rest == [] then Some(ms) else None
    case _ => None
  }

  predicate AllAlike(list: seq<Schema>) {
    list != [] && forall i :: 0 <= i < |list| ==> Render(list[i]) == Render(list[0])
  }

  /** The schema prints as an object type: it is not nullable, and has properties or alternatives that all
      print alike, as an object type. */
  predicate PrintsObject(schema: Schema) {
    if Nullable(schema) || schema.component.Some? then false
    else if schema.oneOf.Alternatives? then AllAlike(schema.oneOf.list) && PrintsObject(schema.oneOf.list[0])
    else if schema.anyOf.Alternatives? then AllAlike(schema.anyOf.list) && PrintsObject(schema.anyOf.list[0])
    else if schema.allOf.Alternatives? then AllAlike(schema.allOf.list) && PrintsObject(schema.allOf.list[0])
    else (schema.values == None || schema.values == Some([]))
         && schema.properties.Properties? && schema.properties.list != []
  }

  predicate IsObject(u: Union) {
    u.One? && u.only.Just? && u.only.prim.Object?
  }

  lemma InterfaceIsType(ts: seq<Token>)
    requires ReadInterface(ts).Some?
    ensures ReadType(ts) == Some(One(Just(Object(ReadInterface(ts).value))))
  {
    var p := Object(ReadInterface(ts).value);
    assert ParsePrim(ts) == Read(p, []);
    assert ParseInter(ts) == Read(Just(p), []);
    assert ParseUnion(ts) == Read(One(Just(p)), []);
  }

  /** Reading an interface is reading a type that is one object type. */
  lemma InterfaceReads(ts: seq<Token>, u: Union)
    requires CleanUnion(u) && ShowUnion(u) == ts
    ensures ReadInterface(ts).Some? <==> IsObject(u)
    ensures IsObject(u) ==> ReadInterface(ts) == Some(u.only.prim.members)
  {
    ReadShow(u);
    if IsObject(u) {
      assert ts == ShowPrim(u.only.prim) + [];
      ParseShowPrim(u.only.prim, []);
    }
    if ReadInterface(ts).Some? {
      InterfaceIsType(ts);
    }
  }

  lemma JoinedIsNoObject(a: Union, b: Union, separator: Token)
    requires CleanUnion(a) && CleanUnion(b) && (separator == Bar || separator == Amp)
    ensures ReadInterface(ShowUnion(a) + [separator] + ShowUnion(b)).None?
  {
    if separator == Bar {
      OrTypesMeans(a, b, JNull, (name, v) => false);
      InterfaceReads(ShowUnion(OrTypes(a, b)), OrTypes(a, b));
    } else {
      AndTypesMeans(a, b, JNull, (name, v) => false);
      InterfaceReads(ShowUnion(AndTypes(a, b)), AndTypes(a, b));
    }
  }

  lemma JoinedIsType(texts: seq<seq<Token>>, separator: Token)
    requires texts != [] && (separator == Bar || separator == Amp) && forall t :: t in texts ==> IsType(t)
    ensures IsType(Join(texts, separator))
  {
    if separator == Bar {
      DenotesJoinedBar(texts, JNull, (name, v) => false);
    } else {
      DenotesJoinedAmp(texts, JNull, (name, v) => false);
    }
  }

  lemma SeveralAreNoObject(texts: seq<seq<Token>>, separator: Token)
    requires |texts| > 1 && (separator == Bar || separator == Amp)
    requires forall t :: t in texts ==> IsType(t)
    ensures ReadInterface(Join(texts, separator)).None?
  {
    hide IsType, ReadInterface;
    assert IsType(Join(texts[1..], separator)) by {
      JoinedIsType(texts[1..], separator);
    }
    assert texts[0] in texts;
    var a := TypeReads(texts[0]);
    var b := TypeReads(Join(texts[1..], separator));
    JoinedIsNoObject(a, b, separator);
  }

  lemma NullableIsNoObject(base: seq<Token>)
    requires IsType(base)
    ensures ReadInterface(base + [Bar, Word("null")]).None?
    ensures ReadInterface([LParen] + base + [RParen, Bar, Word("null")]).None?
  {
    hide IsType, ReadInterface;
    var nothing := One(Just(Name("null")));
    var u := TypeReads(base);
    JoinedIsNoObject(u, nothing, Bar);
    assert base + [Bar, Word("null")] == base + [Bar] + ShowUnion(nothing);
    var wrapped := One(Just(Paren(u)));
    JoinedIsNoObject(wrapped, nothing, Bar);
    assert ShowUnion(wrapped) == [LParen] + base + [RParen] by {
      assert ShowUnion(wrapped) == ShowPrim(Paren(u));
    }
    assert [LParen] + base + [RParen, Bar, Word("null")] == ShowUnion(wrapped) + [Bar] + ShowUnion(nothing);
  }

  // ---------------------------------------------------------------- alternatives that print alike

  lemma {:induction false} UniqueOfAlike(texts: seq<seq<Token>>)
    requires texts != [] && forall i :: 0 <= i < |texts| ==> texts[i] == texts[0]
    ensures Unique(texts) == [texts[0]]
  {
    var n := |texts| - 1;
    if n == 0 {
      assert texts[..0] == [];
    } else {
      UniqueOfAlike(texts[..n]);
    }
  }

  lemma UniqueOfDifferent(texts: seq<seq<Token>>, i: nat)
    requires i < |texts| && texts[i] != texts[0]
    ensures |Unique(texts)| > 1
  {
    assert texts[0] in Unique(texts) && texts[i] in Unique(texts);
  }

  lemma WordIsNoObject(name: string)
    ensures ReadInterface([Word(name)]).None?
  {}

  /** A list of alternatives prints as an object type exactly when all print alike, as an object type. */
  lemma ListIsObject(list: seq<Schema>, separator: Token)
    requires (separator == Bar || separator == Amp) && forall i :: 0 <= i < |list| ==> IsType(Render(list[i]))
    ensures ReadInterface(OrElse(Join(Unique(RenderAll(list)), separator), "unknown")).Some? <==>
              AllAlike(list) && ReadInterface(Render(list[0])).Some?
  {
    hide Render, IsType, ReadInterface;
    var texts := RenderAll(list);
    if list == [] {
      WordIsNoObject("unknown");
    } else if AllAlike(list) {
      UniqueOfAlike(texts);
      TypeNotEmpty(Render(list[0]));
    } else {
      var i :| 0 <= i < |list| && Render(list[i]) != Render(list[0]);
      UniqueOfDifferent(texts, i);
      RenderedAreTypes(list);
      SeveralAreNoObject(Unique(texts), separator);
      JoinedIsType(Unique(texts), separator);
      TypeNotEmpty(Join(Unique(texts), separator));
    }
  }

  lemma LiteralIsNoObject(j: Json)
    ensures ReadInterface([Lit(j)]).None?
  {}

  lemma LiteralsAreNoObject(values: seq<Json>)
    requires forall j :: j in values ==> ProperJson(j)
    ensures ReadInterface(OrElse(Join(Unique(Literals(values)), Bar), "never")).None?
  {
    hide ReadInterface, ProperJson;
    var texts := Unique(Literals(values));
    forall t | t in texts
      ensures IsType(t) && ReadInterface(t).None?
    {
      var j :| j in values && j != JNull && t == [Lit(j)];
      DenotesPrim(Literal(j), JNull, (name, v) => false);
      LiteralIsNoObject(j);
    }
    if texts == [] {
      WordIsNoObject("never");
    } else {
      JoinedIsType(texts, Bar);
      TypeNotEmpty(Join(texts, Bar));
      if |texts| > 1 {
        SeveralAreNoObject(texts, Bar);
      } else {
        assert texts[0] in texts;
      }
    }
  }

  // ---------------------------------------------------------------- which schemas print as one

  lemma ObjectIsObject(schema: Schema)
    requires ObjectLike(schema)
    requires schema.properties.Properties? ==>
               forall i :: 0 <= i < |schema.properties.list| ==> IsType(Render(schema.properties.list[i].schema))
    requires schema.additional.Sub? ==> IsType(Render(schema.additional.schema))
    ensures ReadInterface(RenderObject(schema)).Some? <==> schema.properties.Properties? && schema.properties.list != []
  {
    hide IsType, ReadInterface;
    if schema.properties.Properties? && schema.properties.list != [] {
      var ms := PropertiesRead(schema.properties.list, Names(schema.required));
      var u := One(Just(Object(ms)));
      assert ShowUnion(u) == ShowPrim(Object(ms));
      InterfaceReads(RenderObject(schema), u);
    } else {
      SoundWord("unknown", JNull, (name, v) => false);
      var values := if schema.additional.Sub? then Render(schema.additional.schema) else [Word("unknown")];
      var u := TypeReads(values);
      assert ShowUnion(One(Just(RecordOf(u)))) == ShowPrim(RecordOf(u));
      InterfaceReads(RenderObject(schema), One(Just(RecordOf(u))));
    }
  }

  lemma ObjectPartsAreTypes(schema: Schema)
    requires WellFormed(schema)
    ensures schema.properties.Properties? ==>
              forall i :: 0 <= i < |schema.properties.list| ==> IsType(Render(schema.properties.list[i].schema))
    ensures schema.additional.Sub? ==> IsType(Render(schema.additional.schema))
  {
    hide IsType, Render;
    if schema.properties.Properties? {
      forall i | 0 <= i < |schema.properties.list| {
        RenderIsType(schema.properties.list[i].schema);
      }
    }
    if schema.additional.Sub? {
      RenderIsType(schema.additional.schema);
    }
  }

  lemma ArrayIsNoObject(schema: Schema)
    requires WellFormed(schema)
    ensures var element := if schema.items.Sub? then Render(schema.items.schema) else [Word("unknown")];
            ReadInterface([Word("Array"), LAngle] + element + [RAngle]).None?
  {
    hide IsType, ReadInterface, Render;
    var element := if schema.items.Sub? then Render(schema.items.schema) else [Word("unknown")];
    SoundWord("unknown", JNull, (name, v) => false);
    if schema.items.Sub? {
      RenderIsType(schema.items.schema);
    }
    var u := TypeReads(element);
    assert ShowUnion(One(Just(ArrayOf(u)))) == ShowPrim(ArrayOf(u));
    InterfaceReads(ShowUnion(One(Just(ArrayOf(u)))), One(Just(ArrayOf(u))));
  }

  lemma BaseIsObject(schema: Schema)
    requires WellFormed(schema) && !Nullable(schema) && schema.component.None?
    requires !schema.oneOf.Alternatives? && !schema.anyOf.Alternatives? && !schema.allOf.Alternatives?
    ensures ReadInterface(RenderBase(schema)).Some? <==> PrintsObject(schema)
  {
    hide IsType, ReadInterface, Render;
    if schema.values.Some? && schema.values.value != [] {
      LiteralsAreNoObject(schema.values.value);
    } else if ObjectLike(schema) {
      ObjectPartsAreTypes(schema);
      ObjectIsObject(schema);
    } else if schema.typ == Some("array") {
      ArrayIsNoObject(schema);
    } else {
      WordIsNoObject("string");
      WordIsNoObject("number");
      WordIsNoObject("boolean");
      WordIsNoObject("unknown");
    }
  }

  /** A component's text can stand as the body of an interface if and only if its schema prints as an
      object type. */
  lemma {:induction false} InterfaceExactly(schema: Schema)
    requires WellFormed(schema)
    ensures ReadInterface(Render(schema)).Some? <==> PrintsObject(schema)
    decreases schema
  {
    hide IsType, ReadInterface, AllAlike;
    if Nullable(schema) {
      BaseIsType(schema);
      NullableIsNoObject(RenderBase(schema));
    } else if schema.component.Some? {
      WordIsNoObject(schema.component.value);
    } else if schema.oneOf.Alternatives? {
      ListExactly(schema.oneOf.list, Bar);
    } else if schema.anyOf.Alternatives? {
      ListExactly(schema.anyOf.list, Bar);
    } else if schema.allOf.Alternatives? {
      ListExactly(schema.allOf.list, Amp);
    } else {
      BaseIsObject(schema);
    }
  }

  lemma {:induction false} ListExactly(list: seq<Schema>, separator: Token)
    requires (separator == Bar || separator == Amp) && forall i :: 0 <= i < |list| ==> WellFormed(list[i])
    ensures ReadInterface(OrElse(Join(Unique(RenderAll(list)), separator), "unknown")).Some? <==>
              AllAlike(list) && PrintsObject(list[0])
    decreases list
  {
    hide IsType, ReadInterface, Render, PrintsObject;
    forall i | 0 <= i < |list| {
      RenderIsType(list[i]);
    }
    ListIsObject(list, separator);
    if list != [] {
      InterfaceExactly(list[0]);
    }
  }

  // ---------------------------------------------------------------- which schemas begin with one

  /** The schema's text begins with an opening brace. */
  predicate BeginsObject(schema: Schema)
    decreases schema, 1
  {
    BeginsBase(schema) && (Nullable(schema) ==> forall t :: t in RenderBase(schema) ==> !TokenMentions(t))
  }

  predicate BeginsBase(schema: Schema)
    decreases schema, 0
  {
    if schema.component.Some? then false
    else if schema.oneOf.Alternatives? then schema.oneOf.list != [] && BeginsObject(schema.oneOf.list[0])
    else if schema.anyOf.Alternatives? then schema.anyOf.list != [] && BeginsObject(schema.anyOf.list[0])
    else if schema.allOf.Alternatives? then schema.allOf.list != [] && BeginsObject(schema.allOf.list[0])
    else (schema.values == None || schema.values == Some([]))
         && schema.properties.Properties? && schema.properties.list != []
  }

  lemma {:induction false} UniqueKeepsFirst(texts: seq<seq<Token>>)
    requires texts != []
    ensures Unique(texts) != [] && Unique(texts)[0] == texts[0]
  {
    var n := |texts| - 1;
    if n == 0 {
      assert texts[..0] == [];
    } else {
      UniqueKeepsFirst(texts[..n]);
    }
  }

  lemma ListBegins(list: seq<Schema>, separator: Token)
    requires forall i :: 0 <= i < |list| ==> WellFormed(list[i])
    ensures StartsWith(OrElse(Join(Unique(RenderAll(list)), separator), "unknown"), LBrace) <==>
              list != [] && StartsWith(Render(list[0]), LBrace)
  {
    hide Render, WellFormed, IsType, Unique;
    if list == [] {
      assert Unique(RenderAll(list)) == [];
    } else {
      UniqueKeepsFirst(RenderAll(list));
      RenderIsType(list[0]);
      TypeNotEmpty(Render(list[0]));
    }
  }

  lemma LiteralsBeginNone(values: seq<Json>)
    ensures !StartsWith(OrElse(Join(Unique(Literals(values)), Bar), "never"), LBrace)
  {
    var texts := Unique(Literals(values));
    if texts != [] {
      assert texts[0] in texts;
    }
  }

  lemma {:induction false} BaseBegins(schema: Schema)
    requires WellFormed(schema)
    ensures StartsWith(RenderBase(schema), LBrace) <==> BeginsBase(schema)
    decreases schema, 0
  {
    hide Unique, Join;
    if schema.component.Some? {
    } else if schema.oneOf.Alternatives? {
      ListBegins(schema.oneOf.list, Bar);
      if schema.oneOf.list != [] {
        BeginsExactly(schema.oneOf.list[0]);
      }
    } else if schema.anyOf.Alternatives? {
      ListBegins(schema.anyOf.list, Bar);
      if schema.anyOf.list != [] {
        BeginsExactly(schema.anyOf.list[0]);
      }
    } else if schema.allOf.Alternatives? {
      ListBegins(schema.allOf.list, Amp);
      if schema.allOf.list != [] {
        BeginsExactly(schema.allOf.list[0]);
      }
    } else if schema.values.Some? && schema.values.value != [] {
      LiteralsBeginNone(schema.values.value);
    }
  }

  /** Adding `| null` leaves the beginning of a text unless it is put in parentheses. */
  lemma {:induction false} BeginsExactly(schema: Schema)
    requires WellFormed(schema)
    ensures StartsWith(Render(schema), LBrace) <==> BeginsObject(schema)
    decreases schema, 1
  {
    hide WellFormed, RenderBase, IsType, BeginsBase, TokenMentions;
    BaseBegins(schema);
    BaseIsType(schema);
    TypeNotEmpty(RenderBase(schema));
    assert forall t :: t in RenderBase(schema) <==>
             exists i :: 0 <= i < |RenderBase(schema)| && RenderBase(schema)[i] == t;
  }

  // ---------------------------------------------------------------- the generator's own test

  /** The generator declares a component anew when the text begins with an opening brace and the client has
      an interface of its name to replace. */
  predicate Replaced(components: map<string, Schema>, interfaces: set<string>, name: string) {
    name in components && name in interfaces && StartsWith(Render(components[name]), LBrace)
  }

  /** Every interface the generator writes can be read. */
  predicate Readable(components: map<string, Schema>, interfaces: set<string>) {
    forall name :: name in components && Replaced(components, interfaces, name) ==>
      ReadInterface(Render(components[name])).Some?
  }

  /** TypeScript can read every interface the generator writes if and only if each component that has an
      interface and begins as an object type is one object type to its end. */
  lemma ReadableExactly(components: map<string, Schema>, interfaces: set<string>)
    requires forall name :: name in components ==> WellFormed(components[name])
    ensures Readable(components, interfaces) <==>
              forall name :: name in components && name in interfaces && BeginsObject(components[name]) ==>
                PrintsObject(components[name])
  {
    hide ReadInterface, Render, PrintsObject, BeginsObject, WellFormed;
    forall name | name in components
      ensures ReadInterface(Render(components[name])).Some? <==> PrintsObject(components[name])
      ensures StartsWith(Render(components[name]), LBrace) <==> BeginsObject(components[name])
    {
      InterfaceExactly(components[name]);
      BeginsExactly(components[name]);
    }
  }

  /** `{type: object, properties: {a: {type: string}}, nullable: true}`. */
  function NullableRecord(): Schema {
    Plain().(properties := Properties([Property("a", Scalar("string"))]), nullable := true)
  }

  lemma WordMentionsNothing(text: string)
    requires ' ' !in text
    ensures !MentionsOperator(text)
  {
    forall i: nat | i <= |text|
      ensures !Text.OccursAt(text, " | ", i) && !Text.OccursAt(text, " & ", i)
    {
      assert i < |text| ==> text[i] in text;
    }
  }

  lemma NullableRecordText()
    ensures Render(NullableRecord()) == [LBrace, Key("a", true), Word("string"), RBrace, Bar, Word("null")]
  {
    RenderedScalars();
    var schema := NullableRecord();
    var texts := RenderProperties(schema.properties.list, []);
    assert texts[0] == [Key("a", true)] + [Word("string")];
    assert Join(texts, Semi) == texts[0];
    assert RenderBase(schema) == [LBrace, Key("a", true), Word("string"), RBrace];
    WordMentionsNothing("a");
    WordMentionsNothing("string");
  }

  /** A nullable object component passes the generator's test, and its interface cannot be read. */
  lemma NullableInterfaceBreaks(components: map<string, Schema>, interfaces: set<string>, name: string)
    requires name in components && name in interfaces && components[name] == NullableRecord()
    ensures Render(NullableRecord()) == [LBrace, Key("a", true), Word("string"), RBrace, Bar, Word("null")]
    ensures Replaced(components, interfaces, name) && !Readable(components, interfaces)
  {
    NullableRecordText();
    InterfaceExactly(NullableRecord());
  }

  // ---------------------------------------------------------------- cyclic components

  /** The values the components accept when references are followed at most `depth` deep. */
  function Accepted(components: map<string, Schema>, depth: nat): Env {
    (name, v) => depth > 0 && name in components && Accepts(components[name], v, Accepted(components, depth - 1))
  }

  /** The values the declared types admit, as deep: those declared anew and, as they are, the generated. */
  function Declared(components: map<string, Schema>, interfaces: set<string>, generated: Env, depth: nat): Env
    requires Readable(components, interfaces)
  {
    (name, v) =>
      if Replaced(components, interfaces, name) then
        depth > 0 && AdmitsPrim(Object(ReadInterface(Render(components[name])).value), v,
                                Declared(components, interfaces, generated, depth - 1))
      else generated(name, v)
  }

  lemma InterfaceCovers(schema: Schema, v: Json, components: Env, declared: Env)
    requires WellFormed(schema) && Covers(components, declared) && ReadInterface(Render(schema)).Some?
    ensures Accepts(schema, v, components) ==> AdmitsPrim(Object(ReadInterface(Render(schema)).value), v, declared)
  {
    hide Render, WellFormed, Accepts, ReadInterface, IsType;
    MeaningPreserved(schema, v, components, declared);
    RenderIsType(schema);
    var u := TypeReads(Render(schema));
    InterfaceReads(Render(schema), u);
  }

  /** Where every interface can be read, the declared types cover their components at every depth, however
      the components refer to each other, as long as the generated declarations that stay cover theirs. */
  lemma {:induction false} ComponentsCovered(
      components: map<string, Schema>, interfaces: set<string>, generated: Env, depth: nat)
    requires Readable(components, interfaces)
    requires forall name :: name in components ==> WellFormed(components[name])
    requires forall d: nat, name, v ::
               !Replaced(components, interfaces, name) && Accepted(components, d)(name, v) ==> generated(name, v)
    ensures Covers(Accepted(components, depth), Declared(components, interfaces, generated, depth))
  {
    hide Render, Replaced, WellFormed, Accepts, ReadInterface;
    if depth == 0 {
    } else {
      ComponentsCovered(components, interfaces, generated, depth - 1);
      forall name, v | Accepted(components, depth)(name, v)
        ensures Declared(components, interfaces, generated, depth)(name, v)
      {
        if Replaced(components, interfaces, name) {
          InterfaceCovers(components[name], v, Accepted(components, depth - 1),
                          Declared(components, interfaces, generated, depth - 1));
        }
      }
    }
  }
}
