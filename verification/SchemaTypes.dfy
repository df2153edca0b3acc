/** `responseSchemaType` of scripts/generate-selfhost-sdk.ts: an OpenAPI 3.0 response schema
    rendered to TypeScript text, and what the text means to the compiler that reads it. */
module SchemaTypes {
  import opened Wrappers
  import opened TypeScript
  import Text

  /** The keywords the renderer looks at. A `$ref` outside `#/components/schemas/` is no reference,
      and `additionalProperties: true` is the absence of a schema. */
  datatype Schema = Schema(
    component: Option<string>,
    oneOf: Alternatives,
    anyOf: Alternatives,
    allOf: Alternatives,
    values: Option<seq<Json>>,
    typ: Option<string>,
    properties: Properties,
    required: Option<seq<string>>,
    additional: Sub,
    items: Sub,
    nullable: bool
  )
  datatype Alternatives = NoAlternatives | Alternatives(list: seq<Schema>)
  datatype Properties = NoProperties | Properties(list: seq<Property>)
  datatype Property = Property(name: string, schema: Schema)
  datatype Sub = NoSub | Sub(schema: Schema)

  // ---------------------------------------------------------------- the renderer

  function Join(texts: seq<seq<Token>>, separator: Token): (r: seq<Token>) {
    if texts == [] then []
    else if |texts| == 1 then texts[0]
    else texts[0] + [separator] + Join(texts[1..], separator)
  }

  /** Each text once, where it first stood. */
  function Unique(texts: seq<seq<Token>>): (r: seq<seq<Token>>)
    ensures forall t :: t in r <==> t in texts
    ensures r == [] <==> texts == []
  {
    if texts == [] then []
    else
      var n := |texts| - 1;
      assert texts == texts[..n] + [texts[n]];
      var u := Unique(texts[..n]);
      if texts[n] in texts[..n] then u else u + [texts[n]]
  }

  function OrElse(text: seq<Token>, word: string): seq<Token> {
    if text == [] then [Word(word)] else text
  }

  function Literals(values: seq<Json>): (r: seq<seq<Token>>)
    ensures forall t :: t in r <==> exists v :: v in values && v != JNull && t == [Lit(v)]
  {
    if values == [] then []
    else
      assert values == [values[0]] + values[1..];
      var rest := Literals(values[1..]);
      if values[0] == JNull then rest else [[Lit(values[0])]] + rest
  }

  function RenderAll(schemas: seq<Schema>): (r: seq<seq<Token>>)
    ensures |r| == |schemas|
    ensures forall i :: 0 <= i < |schemas| ==> r[i] == Render(schemas[i])
    decreases schemas
  {
    if schemas == [] then [] else [Render(schemas[0])] + RenderAll(schemas[1..])
  }

  function Names(required: Option<seq<string>>): seq<string> {
    match required case Some(names) => names case None => []
  }

  function RenderProperties(properties: seq<Property>, required: seq<string>): (r: seq<seq<Token>>)
    ensures |r| == |properties|
    ensures forall i :: 0 <= i < |properties| ==>
              r[i] == [Key(properties[i].name, properties[i].name !in required)] + Render(properties[i].schema)
    decreases properties
  {
    if properties == [] then []
    else
      [[Key(properties[0].name, properties[0].name !in required)] + Render(properties[0].schema)]
      + RenderProperties(properties[1..], required)
  }

  predicate ObjectLike(schema: Schema) {
    schema.typ == Some("object") || schema.properties.Properties? || schema.required.Some?
  }

  function RenderObject(schema: Schema): (r: seq<Token>)
    decreases schema, 0
  {
    if schema.properties.Properties? && schema.properties.list != [] then
      [LBrace] + Join(RenderProperties(schema.properties.list, Names(schema.required)), Semi) + [RBrace]
    else
      var values := if schema.additional.Sub? then Render(schema.additional.schema) else [Word("unknown")];
      [Word("Record"), LAngle, Word("string"), Comma] + values + [RAngle]
  }

  function RenderBase(schema: Schema): (r: seq<Token>)
    decreases schema, 1
  {
    if schema.component.Some? then [Word(schema.component.value)]
    else if schema.oneOf.Alternatives? then OrElse(Join(Unique(RenderAll(schema.oneOf.list)), Bar), "unknown")
    else if schema.anyOf.Alternatives? then OrElse(Join(Unique(RenderAll(schema.anyOf.list)), Bar), "unknown")
    else if schema.allOf.Alternatives? then OrElse(Join(Unique(RenderAll(schema.allOf.list)), Amp), "unknown")
    else if schema.values.Some? && schema.values.value != [] then
      OrElse(Join(Unique(Literals(schema.values.value)), Bar), "never")
    else if ObjectLike(schema) then RenderObject(schema)
    else if schema.typ == Some("array") then
      var element := if schema.items.Sub? then Render(schema.items.schema) else [Word("unknown")];
      [Word("Array"), LAngle] + element + [RAngle]
    else if schema.typ == Some("string") then [Word("string")]
    else if schema.typ == Some("integer") || schema.typ == Some("number") then [Word("number")]
    else if schema.typ == Some("boolean") then [Word("boolean")]
    else [Word("unknown")]
  }

  predicate Nullable(schema: Schema) {
    schema.nullable || (schema.values.Some? && JNull in schema.values.value)
  }

  /** The text " | " or " & " occurs in a JSON literal exactly when one of its strings holds it. */
  predicate MentionsOperator(text: string) {
    Text.Includes(text, " | ") || Text.Includes(text, " & ")
  }

  predicate LiteralMentions(j: Json) {
    match j
    case JStr(text) => MentionsOperator(text)
    case JArr(items) => exists i :: 0 <= i < |items| && LiteralMentions(items[i])
    case JObj(fields) =>
      exists i :: 0 <= i < |fields| && (MentionsOperator(fields[i].name) || LiteralMentions(fields[i].value))
    case _ => false
  }

  predicate TokenMentions(t: Token) {
    match t
    case Bar => true
    case Amp => true
    case Word(name) => MentionsOperator(name)
    case Lit(value) => LiteralMentions(value)
    case Key(name, _) => MentionsOperator(name)
    case _ => false
  }

  function Render(schema: Schema): (r: seq<Token>)
    decreases schema, 2
  {
    var base := RenderBase(schema);
    if !Nullable(schema) then base
    else if exists i :: 0 <= i < |base| && TokenMentions(base[i]) then
      [LParen] + base + [RParen, Bar, Word("null")]
    else
      base + [Bar, Word("null")]
  }

  // ---------------------------------------------------------------- what a schema accepts

  predicate TypeAccepts(typ: Option<string>, v: Json) {
    match typ
    case None => true
    case Some(name) =>
      if name == "object" then v.JObj?
      else if name == "array" then v.JArr?
      else if name == "string" then v.JStr?
      else if name == "integer" then v.JNum? && v.number.Floor as real == v.number
      else if name == "number" then v.JNum?
      else if name == "boolean" then v.JBool?
      else true
  }

  predicate Accepts(schema: Schema, v: Json, components: Env)
    decreases schema, 2
  {
    (schema.nullable && v.JNull?) || AcceptsBase(schema, v, components)
  }

  /** Every keyword beside a `$ref` is ignored; without one, all keywords constrain together. */
  predicate AcceptsBase(schema: Schema, v: Json, components: Env)
    decreases schema, 1
  {
    if schema.component.Some? then components(schema.component.value, v)
    else
      && AcceptsCombined(schema, v, components)
      && (schema.values.Some? ==> v in schema.values.value)
      && TypeAccepts(schema.typ, v)
      && (ObjectLike(schema) ==> v.JObj?)
      && (v.JObj? ==> AcceptsObject(schema, v.fields, components))
      && (v.JArr? && schema.items.Sub? ==>
            forall i :: 0 <= i < |v.items| ==> Accepts(schema.items.schema, v.items[i], components))
  }

  /** `oneOf`: exactly one; `anyOf`: at least one; `allOf`: every one. */
  predicate AcceptsCombined(schema: Schema, v: Json, components: Env)
    decreases schema, 0
  {
    && (schema.oneOf.Alternatives? ==>
          exists i :: 0 <= i < |schema.oneOf.list| && Accepts(schema.oneOf.list[i], v, components)
                      && forall j :: 0 <= j < |schema.oneOf.list| && j != i ==>
                                       !Accepts(schema.oneOf.list[j], v, components))
    && (schema.anyOf.Alternatives? ==>
          exists i :: 0 <= i < |schema.anyOf.list| && Accepts(schema.anyOf.list[i], v, components))
    && (schema.allOf.Alternatives? ==>
          forall i :: 0 <= i < |schema.allOf.list| ==> Accepts(schema.allOf.list[i], v, components))
  }

  predicate Declares(properties: Properties, name: string) {
    properties.Properties? && exists i :: 0 <= i < |properties.list| && properties.list[i].name == name
  }

  predicate AcceptsObject(schema: Schema, fields: seq<Field>, components: Env)
    decreases schema, 0
  {
    && (forall i :: 0 <= i < |Names(schema.required)| ==> Lookup(fields, Names(schema.required)[i]).Some?)
    && (schema.properties.Properties? ==>
          forall i :: 0 <= i < |schema.properties.list| ==>
            var found := Lookup(fields, schema.properties.list[i].name);
            found.Some? ==> Accepts(schema.properties.list[i].schema, found.value, components))
    && (schema.additional.Sub? ==>
          forall i :: 0 <= i < |fields| && !Declares(schema.properties, fields[i].name) ==>
            Accepts(schema.additional.schema, fields[i].value, components))
  }

  // ---------------------------------------------------------------- well-formed schemas

  const RESERVED := ["Array", "Record", "string", "number", "boolean", "null", "unknown", "never"]

  /** Component names are not words TypeScript already gives a meaning, and enum literals are JSON
      values whose objects do not repeat a member. */
  ghost predicate WellFormed(schema: Schema) {
    && (schema.component.Some? ==> schema.component.value !in RESERVED)
    && (schema.values.Some? ==> forall v :: v in schema.values.value ==> ProperJson(v))
    && (schema.oneOf.Alternatives? ==> forall i :: 0 <= i < |schema.oneOf.list| ==> WellFormed(schema.oneOf.list[i]))
    && (schema.anyOf.Alternatives? ==> forall i :: 0 <= i < |schema.anyOf.list| ==> WellFormed(schema.anyOf.list[i]))
    && (schema.allOf.Alternatives? ==> forall i :: 0 <= i < |schema.allOf.list| ==> WellFormed(schema.allOf.list[i]))
    && (schema.properties.Properties? ==>
          forall i :: 0 <= i < |schema.properties.list| ==> WellFormed(schema.properties.list[i].schema))
    && (schema.additional.Sub? ==> WellFormed(schema.additional.schema))
    && (schema.items.Sub? ==> WellFormed(schema.items.schema))
  }

  // ---------------------------------------------------------------- texts as types

  /** `ts` is the printed form of a type TypeScript reads back as that type. */
  ghost predicate IsType(ts: seq<Token>) {
    exists u :: CleanUnion(u) && ShowUnion(u) == ts
  }

  lemma TypeReads(ts: seq<Token>) returns (u: Union)
    requires IsType(ts)
    ensures CleanUnion(u) && ShowUnion(u) == ts && ReadType(ts) == Some(u)
  {
    u :| CleanUnion(u) && ShowUnion(u) == ts;
    ReadShow(u);
  }

  lemma TypeNotEmpty(text: seq<Token>)
    requires IsType(text)
    ensures text != []
  {
    var u := TypeReads(text);
    match u
    case One(i) => match i { case Just(p) => case And(p, _) => }
    case Or(_, _) =>
  }

  /** The values of the type a text denotes. */
  predicate Denotes(ts: seq<Token>, v: Json, env: Env) {
    ReadType(ts).Some? && Admits(ReadType(ts).value, v, env)
  }

  lemma DenotesShown(u: Union, v: Json, env: Env)
    requires CleanUnion(u)
    ensures IsType(ShowUnion(u))
    ensures Denotes(ShowUnion(u), v, env) <==> Admits(u, v, env)
  {
    ReadShow(u);
  }

  /** A single primitive standing alone. */
  lemma DenotesPrim(p: Prim, v: Json, env: Env)
    requires CleanPrim(p)
    ensures IsType(ShowPrim(p))
    ensures Denotes(ShowPrim(p), v, env) <==> AdmitsPrim(p, v, env)
  {
    assert ShowUnion(One(Just(p))) == ShowPrim(p);
    DenotesShown(One(Just(p)), v, env);
  }

  // ---------------------------------------------------------------- `|` between texts

  function OrTypes(a: Union, b: Union): (r: Union) {
    match a
    case One(i) => Or(i, b)
    case Or(i, rest) => Or(i, OrTypes(rest, b))
  }

  lemma {:induction false} OrTypesMeans(a: Union, b: Union, v: Json, env: Env)
    requires CleanUnion(a) && CleanUnion(b)
    ensures CleanUnion(OrTypes(a, b)) && ShowUnion(OrTypes(a, b)) == ShowUnion(a) + [Bar] + ShowUnion(b)
    ensures Admits(OrTypes(a, b), v, env) <==> Admits(a, v, env) || Admits(b, v, env)
  {
    if a.Or? {
      OrTypesMeans(a.rest, b, v, env);
    }
  }

  lemma DenotesBar(a: seq<Token>, b: seq<Token>, v: Json, env: Env)
    requires IsType(a) && IsType(b)
    ensures IsType(a + [Bar] + b)
    ensures Denotes(a + [Bar] + b, v, env) <==> Denotes(a, v, env) || Denotes(b, v, env)
  {
    var t := TypeReads(a);
    var u := TypeReads(b);
    OrTypesMeans(t, u, v, env);
    DenotesShown(OrTypes(t, u), v, env);
  }

  lemma {:induction false} DenotesJoinedBar(texts: seq<seq<Token>>, v: Json, env: Env)
    requires texts != [] && forall t :: t in texts ==> IsType(t)
    ensures IsType(Join(texts, Bar))
    ensures Denotes(Join(texts, Bar), v, env) <==> exists t :: t in texts && Denotes(t, v, env)
  {
    if |texts| > 1 {
      assert texts == [texts[0]] + texts[1..];
      DenotesJoinedBar(texts[1..], v, env);
      DenotesBar(texts[0], Join(texts[1..], Bar), v, env);
    }
  }

  // ---------------------------------------------------------------- `&` between texts

  function AndParts(i: Inter, j: Inter): (r: Inter) {
    match i
    case Just(p) => And(p, j)
    case And(p, tail) => And(p, AndParts(tail, j))
  }

  /** `a & b` as TypeScript regroups it: the last part of `a` meets the first part of `b`. */
  function AndTypes(a: Union, b: Union): (r: Union) {
    match a
    case Or(i, rest) => Or(i, AndTypes(rest, b))
    case One(i) =>
      match b
      case One(j) => One(AndParts(i, j))
      case Or(j, rest) => Or(AndParts(i, j), rest)
  }

  lemma {:induction false} AndPartsMeans(i: Inter, j: Inter, v: Json, env: Env)
    requires CleanInter(i) && CleanInter(j)
    ensures CleanInter(AndParts(i, j)) && ShowInter(AndParts(i, j)) == ShowInter(i) + [Amp] + ShowInter(j)
    ensures AdmitsInter(AndParts(i, j), v, env) <==> AdmitsInter(i, v, env) && AdmitsInter(j, v, env)
  {
    hide AdmitsPrim, CleanPrim, ShowPrim;
    match i
    case Just(_) =>
    case And(p, tail) =>
      AndPartsMeans(tail, j, v, env);
      assert (ShowPrim(p) + [Amp] + ShowInter(tail)) + [Amp] + ShowInter(j)
             == ShowPrim(p) + [Amp] + (ShowInter(tail) + [Amp] + ShowInter(j));
  }

  /** Joining two texts with `&` loses no value both admit, and loses nothing else when neither is a
      union at the top. */
  lemma {:induction false} AndTypesMeans(a: Union, b: Union, v: Json, env: Env)
    requires CleanUnion(a) && CleanUnion(b)
    ensures CleanUnion(AndTypes(a, b)) && ShowUnion(AndTypes(a, b)) == ShowUnion(a) + [Amp] + ShowUnion(b)
    ensures Admits(a, v, env) && Admits(b, v, env) ==> Admits(AndTypes(a, b), v, env)
    ensures Admits(AndTypes(a, b), v, env) ==> Admits(a, v, env) || Admits(b, v, env)
    ensures a.One? && b.One? ==>
              AndTypes(a, b).One? && (Admits(AndTypes(a, b), v, env) <==> Admits(a, v, env) && Admits(b, v, env))
  {
    match a
    case Or(i, rest) =>
      AndTypesMeans(rest, b, v, env);
    case One(i) =>
      AndPartsMeans(i, match b case One(j) => j case Or(j, _) => j, v, env);
  }

  lemma DenotesAmp(a: seq<Token>, b: seq<Token>, v: Json, env: Env)
    requires IsType(a) && IsType(b)
    ensures IsType(a + [Amp] + b)
    ensures Denotes(a, v, env) && Denotes(b, v, env) ==> Denotes(a + [Amp] + b, v, env)
  {
    var t := TypeReads(a);
    var u := TypeReads(b);
    AndTypesMeans(t, u, v, env);
    DenotesShown(AndTypes(t, u), v, env);
  }

  lemma {:induction false} DenotesJoinedAmp(texts: seq<seq<Token>>, v: Json, env: Env)
    requires texts != [] && forall t :: t in texts ==> IsType(t)
    ensures IsType(Join(texts, Amp))
    ensures (forall t :: t in texts ==> Denotes(t, v, env)) ==> Denotes(Join(texts, Amp), v, env)
  {
    if |texts| > 1 {
      assert texts == [texts[0]] + texts[1..];
      DenotesJoinedAmp(texts[1..], v, env);
      DenotesAmp(texts[0], Join(texts[1..], Amp), v, env);
    }
  }

  // ---------------------------------------------------------------- meaning preservation

  /** Everything a component accepts is in the type declared under its name. */
  ghost predicate Covers(components: Env, declared: Env) {
    forall name, v :: components(name, v) ==> declared(name, v)
  }

  /** Soundness at one schema and one value; the induction hypotheses below speak of it. */
  ghost predicate Sound(schema: Schema, v: Json, components: Env, declared: Env) {
    && IsType(Render(schema))
    && (Accepts(schema, v, components) ==> Denotes(Render(schema), v, declared))
  }

  lemma SoundWord(name: string, v: Json, env: Env)
    requires !IsGeneric(name)
    ensures IsType([Word(name)])
    ensures Denotes([Word(name)], v, env) <==> AdmitsName(name, v, env)
  {
    DenotesPrim(Name(name), v, env);
  }

  lemma RenderedAreTypes(schemas: seq<Schema>)
    requires forall i :: 0 <= i < |schemas| ==> IsType(Render(schemas[i]))
    ensures forall t :: t in Unique(RenderAll(schemas)) ==> IsType(t)
  {}

  /** A member that accepts `v` leaves a text that admits `v` among the deduplicated ones. */
  lemma SoundSome(schemas: seq<Schema>, k: nat, v: Json, components: Env, declared: Env)
    requires k < |schemas| && Accepts(schemas[k], v, components)
    requires forall i :: 0 <= i < |schemas| ==> Sound(schemas[i], v, components, declared)
    ensures IsType(Join(Unique(RenderAll(schemas)), Bar))
    ensures Denotes(Join(Unique(RenderAll(schemas)), Bar), v, declared)
  {
    RenderedAreTypes(schemas);
    assert Sound(schemas[k], v, components, declared);
    assert RenderAll(schemas)[k] in Unique(RenderAll(schemas));
    DenotesJoinedBar(Unique(RenderAll(schemas)), v, declared);
  }

  lemma SoundAlternatives(schemas: seq<Schema>, v: Json, components: Env, declared: Env)
    requires forall i :: 0 <= i < |schemas| ==> Sound(schemas[i], v, components, declared)
    ensures IsType(OrElse(Join(Unique(RenderAll(schemas)), Bar), "unknown"))
    ensures (exists k :: 0 <= k < |schemas| && Accepts(schemas[k], v, components)) ==>
              Denotes(OrElse(Join(Unique(RenderAll(schemas)), Bar), "unknown"), v, declared)
  {
    RenderedAreTypes(schemas);
    SoundWord("unknown", v, declared);
    if schemas != [] {
      DenotesJoinedBar(Unique(RenderAll(schemas)), v, declared);
    }
    if k: nat :| k < |schemas| && Accepts(schemas[k], v, components) {
      SoundSome(schemas, k, v, components, declared);
    }
  }

  lemma SoundAll(schemas: seq<Schema>, v: Json, components: Env, declared: Env)
    requires forall i :: 0 <= i < |schemas| ==> Sound(schemas[i], v, components, declared)
    ensures IsType(OrElse(Join(Unique(RenderAll(schemas)), Amp), "unknown"))
    ensures (forall k :: 0 <= k < |schemas| ==> Accepts(schemas[k], v, components)) ==>
              Denotes(OrElse(Join(Unique(RenderAll(schemas)), Amp), "unknown"), v, declared)
  {
    RenderedAreTypes(schemas);
    SoundWord("unknown", v, declared);
    if schemas != [] {
      DenotesJoinedAmp(Unique(RenderAll(schemas)), v, declared);
    }
    if forall k :: 0 <= k < |schemas| ==> Accepts(schemas[k], v, components) {
      forall t | t in Unique(RenderAll(schemas))
        ensures Denotes(t, v, declared)
      {
        var k :| 0 <= k < |schemas| && RenderAll(schemas)[k] == t;
        assert Sound(schemas[k], v, components, declared);
      }
    }
  }

  lemma SoundLiterals(values: seq<Json>, v: Json, declared: Env)
    requires forall j :: j in values ==> ProperJson(j)
    ensures IsType(OrElse(Join(Unique(Literals(values)), Bar), "never"))
    ensures v in values && v != JNull ==> Denotes(OrElse(Join(Unique(Literals(values)), Bar), "never"), v, declared)
  {
    var texts := Unique(Literals(values));
    forall t | t in texts
      ensures IsType(t)
    {
      var j :| j in values && j != JNull && t == [Lit(j)];
      DenotesPrim(Literal(j), v, declared);
    }
    SoundWord("never", v, declared);
    if texts != [] {
      DenotesJoinedBar(texts, v, declared);
    }
    if v in values && v != JNull {
      assert [Lit(v)] in texts;
      DenotesPrim(Literal(v), v, declared);
      LiteralAdmitsItself(v);
    }
  }

  // ---------------------------------------------------------------- object types

  predicate PropertyAdmits(property: Property, required: seq<string>, fields: seq<Field>, env: Env) {
    match Lookup(fields, property.name)
    case None => property.name !in required
    case Some(x) => Denotes(Render(property.schema), x, env)
  }

  /** The members a list of properties renders to. */
  lemma {:induction false} PropertiesRead(properties: seq<Property>, required: seq<string>) returns (ms: Members)
    requires properties != []
    requires forall i :: 0 <= i < |properties| ==> IsType(Render(properties[i].schema))
    ensures CleanMembers(ms) && ShowMembers(ms) == Join(RenderProperties(properties, required), Semi)
    ensures forall fields: seq<Field>, env: Env ::
              AdmitsMembers(ms, fields, env) <==>
              forall i :: 0 <= i < |properties| ==> PropertyAdmits(properties[i], required, fields, env)
  {
    var u := TypeReads(Render(properties[0].schema));
    var m := Member(properties[0].name, properties[0].name !in required, u);
    var texts := RenderProperties(properties, required);
    if |properties| == 1 {
      ms := Last(m);
      assert ShowMembers(ms) == texts[0];
    } else {
      var others := PropertiesRead(properties[1..], required);
      ms := More(m, others);
      assert texts[1..] == RenderProperties(properties[1..], required);
      forall fields: seq<Field>, env: Env
        ensures AdmitsMembers(ms, fields, env) <==>
                forall i :: 0 <= i < |properties| ==> PropertyAdmits(properties[i], required, fields, env)
      {
        assert forall i :: 0 < i < |properties| ==> properties[i] == properties[1..][i - 1];
        assert AdmitsMember(m, fields, env) <==> PropertyAdmits(properties[0], required, fields, env);
      }
    }
  }

  lemma SoundObject(schema: Schema, v: Json, components: Env, declared: Env)
    requires schema.component.None? && ObjectLike(schema)
    requires schema.properties.Properties? ==>
               forall i, x :: 0 <= i < |schema.properties.list| ==>
                 Sound(schema.properties.list[i].schema, x, components, declared)
    requires schema.additional.Sub? ==> forall x :: Sound(schema.additional.schema, x, components, declared)
    ensures IsType(RenderObject(schema))
    ensures AcceptsBase(schema, v, components) ==> Denotes(RenderObject(schema), v, declared)
  {
    if schema.properties.Properties? && schema.properties.list != [] {
      var list := schema.properties.list;
      forall i | 0 <= i < |list|
        ensures IsType(Render(list[i].schema))
      {
        assert Sound(list[i].schema, JNull, components, declared);
      }
      var ms := PropertiesRead(list, Names(schema.required));
      DenotesPrim(Object(ms), v, declared);
      if AcceptsBase(schema, v, components) {
        assert AcceptsObject(schema, v.fields, components);
        forall i | 0 <= i < |list|
          ensures PropertyAdmits(list[i], Names(schema.required), v.fields, declared)
        {
          var found := Lookup(v.fields, list[i].name);
          if found.Some? {
            assert Sound(list[i].schema, found.value, components, declared);
          }
        }
      }
    } else {
      var values := if schema.additional.Sub? then Render(schema.additional.schema) else [Word("unknown")];
      SoundWord("unknown", v, declared);
      if schema.additional.Sub? {
        assert Sound(schema.additional.schema, v, components, declared);
      }
      var u := TypeReads(values);
      DenotesPrim(RecordOf(u), v, declared);
      if AcceptsBase(schema, v, components) {
        assert AcceptsObject(schema, v.fields, components);
        forall i | 0 <= i < |v.fields|
          ensures Admits(u, v.fields[i].value, declared)
        {
          SoundWord("unknown", v.fields[i].value, declared);
          if schema.additional.Sub? {
            assert !Declares(schema.properties, v.fields[i].name);
            assert Sound(schema.additional.schema, v.fields[i].value, components, declared);
          }
        }
      }
    }
  }

  lemma SoundArray(schema: Schema, v: Json, components: Env, declared: Env)
    requires schema.component.None? && schema.typ == Some("array")
    requires schema.items.Sub? ==> forall x :: Sound(schema.items.schema, x, components, declared)
    ensures var element := if schema.items.Sub? then Render(schema.items.schema) else [Word("unknown")];
            var text := [Word("Array"), LAngle] + element + [RAngle];
            && IsType(text)
            && (AcceptsBase(schema, v, components) ==> Denotes(text, v, declared))
  {
    var element := if schema.items.Sub? then Render(schema.items.schema) else [Word("unknown")];
    SoundWord("unknown", v, declared);
    if schema.items.Sub? {
      assert Sound(schema.items.schema, v, components, declared);
    }
    var u := TypeReads(element);
    DenotesPrim(ArrayOf(u), v, declared);
    if AcceptsBase(schema, v, components) {
      forall i | 0 <= i < |v.items|
        ensures Admits(u, v.items[i], declared)
      {
        SoundWord("unknown", v.items[i], declared);
        if schema.items.Sub? {
          assert Sound(schema.items.schema, v.items[i], components, declared);
        }
      }
    }
  }

  // ---------------------------------------------------------------- the whole renderer

  /** Adding `| null`, with or without parentheses, adds null and nothing else. */
  lemma DenotesNullable(base: seq<Token>, v: Json, env: Env)
    requires IsType(base)
    ensures IsType(base + [Bar, Word("null")]) && IsType([LParen] + base + [RParen, Bar, Word("null")])
    ensures Denotes(base + [Bar, Word("null")], v, env) <==> Denotes(base, v, env) || v.JNull?
    ensures Denotes([LParen] + base + [RParen, Bar, Word("null")], v, env) <==> Denotes(base, v, env) || v.JNull?
  {
    SoundWord("null", v, env);
    assert base + [Bar, Word("null")] == base + [Bar] + [Word("null")];
    DenotesBar(base, [Word("null")], v, env);
    var u := TypeReads(base);
    var wrapped := [LParen] + base + [RParen];
    assert wrapped == ShowPrim(Paren(u));
    DenotesPrim(Paren(u), v, env);
    assert [LParen] + base + [RParen, Bar, Word("null")] == wrapped + [Bar] + [Word("null")];
    DenotesBar(wrapped, [Word("null")], v, env);
  }

  lemma SoundSubschemas(schema: Schema, components: Env, declared: Env)
    requires WellFormed(schema) && Covers(components, declared)
    ensures schema.oneOf.Alternatives? ==>
              forall i, x :: 0 <= i < |schema.oneOf.list| ==> Sound(schema.oneOf.list[i], x, components, declared)
    ensures schema.anyOf.Alternatives? ==>
              forall i, x :: 0 <= i < |schema.anyOf.list| ==> Sound(schema.anyOf.list[i], x, components, declared)
    ensures schema.allOf.Alternatives? ==>
              forall i, x :: 0 <= i < |schema.allOf.list| ==> Sound(schema.allOf.list[i], x, components, declared)
    ensures schema.properties.Properties? ==>
              forall i, x :: 0 <= i < |schema.properties.list| ==>
                Sound(schema.properties.list[i].schema, x, components, declared)
    ensures schema.additional.Sub? ==> forall x :: Sound(schema.additional.schema, x, components, declared)
    ensures schema.items.Sub? ==> forall x :: Sound(schema.items.schema, x, components, declared)
    decreases schema, 0
  {
    if schema.oneOf.Alternatives? {
      forall i, x | 0 <= i < |schema.oneOf.list| { RenderIsSound(schema.oneOf.list[i], x, components, declared); }
    }
    if schema.anyOf.Alternatives? {
      forall i, x | 0 <= i < |schema.anyOf.list| { RenderIsSound(schema.anyOf.list[i], x, components, declared); }
    }
    if schema.allOf.Alternatives? {
      forall i, x | 0 <= i < |schema.allOf.list| { RenderIsSound(schema.allOf.list[i], x, components, declared); }
    }
    if schema.properties.Properties? {
      forall i, x | 0 <= i < |schema.properties.list| {
        RenderIsSound(schema.properties.list[i].schema, x, components, declared);
      }
    }
    if schema.additional.Sub? {
      forall x { RenderIsSound(schema.additional.schema, x, components, declared); }
    }
    if schema.items.Sub? {
      forall x { RenderIsSound(schema.items.schema, x, components, declared); }
    }
  }

  /** The keywords that combine schemas, in the order the renderer tries them. */
  lemma SoundCombined(schema: Schema, v: Json, components: Env, declared: Env)
    requires WellFormed(schema) && Covers(components, declared) && schema.component.None?
    requires schema.oneOf.Alternatives? || schema.anyOf.Alternatives? || schema.allOf.Alternatives?
    ensures IsType(RenderBase(schema))
    ensures AcceptsCombined(schema, v, components) ==> Denotes(RenderBase(schema), v, declared)
    decreases schema, 1
  {
    hide Sound, IsType, Denotes, Accepts, Join, Unique, WellFormed;
    SoundSubschemas(schema, components, declared);
    if schema.oneOf.Alternatives? {
      SoundAlternatives(schema.oneOf.list, v, components, declared);
    } else if schema.anyOf.Alternatives? {
      SoundAlternatives(schema.anyOf.list, v, components, declared);
    } else {
      SoundAll(schema.allOf.list, v, components, declared);
    }
  }

  /** A bare scalar type, or no type the renderer knows. */
  lemma SoundScalar(schema: Schema, v: Json, components: Env, declared: Env)
    requires schema.component.None?
    requires !schema.oneOf.Alternatives? && !schema.anyOf.Alternatives? && !schema.allOf.Alternatives?
    requires !(schema.values.Some? && schema.values.value != []) && !ObjectLike(schema) && schema.typ != Some("array")
    ensures IsType(RenderBase(schema))
    ensures AcceptsBase(schema, v, components) ==> Denotes(RenderBase(schema), v, declared)
  {
    SoundWord("string", v, declared);
    SoundWord("number", v, declared);
    SoundWord("boolean", v, declared);
    SoundWord("unknown", v, declared);
  }

  lemma SoundBase(schema: Schema, v: Json, components: Env, declared: Env)
    requires WellFormed(schema) && Covers(components, declared)
    ensures IsType(RenderBase(schema))
    ensures AcceptsBase(schema, v, components) ==>
              Denotes(RenderBase(schema), v, declared) || (Nullable(schema) && v.JNull?)
    decreases schema, 2
  {
    if schema.component.Some? {
      SoundWord(schema.component.value, v, declared);
    } else if schema.oneOf.Alternatives? || schema.anyOf.Alternatives? || schema.allOf.Alternatives? {
      SoundCombined(schema, v, components, declared);
    } else if schema.values.Some? && schema.values.value != [] {
      SoundLiterals(schema.values.value, v, declared);
    } else if ObjectLike(schema) {
      SoundSubschemas(schema, components, declared);
      SoundObject(schema, v, components, declared);
    } else if schema.typ == Some("array") {
      SoundSubschemas(schema, components, declared);
      SoundArray(schema, v, components, declared);
    } else {
      SoundScalar(schema, v, components, declared);
    }
  }

  lemma RenderIsSound(schema: Schema, v: Json, components: Env, declared: Env)
    requires WellFormed(schema) && Covers(components, declared)
    ensures Sound(schema, v, components, declared)
    decreases schema, 3
  {
    SoundBase(schema, v, components, declared);
    DenotesNullable(RenderBase(schema), v, declared);
  }

  lemma BaseIsType(schema: Schema)
    requires WellFormed(schema)
    ensures IsType(RenderBase(schema))
  {
    hide WellFormed, IsType, RenderBase;
    var never: Env := (name, v) => false;
    assert Covers(never, never);
    SoundBase(schema, JNull, never, never);
  }

  /** Every well-formed schema prints as a type. */
  lemma RenderIsType(schema: Schema)
    requires WellFormed(schema)
    ensures IsType(Render(schema))
  {
    hide WellFormed, IsType, Render;
    var never: Env := (name, v) => false;
    assert Covers(never, never);
    RenderIsSound(schema, JNull, never, never);
  }

  /** Every value a well-formed schema accepts is in the type TypeScript reads from its text. */
  lemma MeaningPreserved(schema: Schema, v: Json, components: Env, declared: Env)
    requires WellFormed(schema) && Covers(components, declared)
    ensures ReadType(Render(schema)).Some?
    ensures Accepts(schema, v, components) ==> Admits(ReadType(Render(schema)).value, v, declared)
  {
    RenderIsSound(schema, v, components, declared);
    var u := TypeReads(Render(schema));
  }

  // ---------------------------------------------------------------- where `allOf` is not exact

  function Plain(): Schema {
    Schema(None, NoAlternatives, NoAlternatives, NoAlternatives, None, None, NoProperties, None, NoSub, NoSub, false)
  }

  function Scalar(typ: string): Schema {
    Plain().(typ := Some(typ))
  }

  function AnyOf(a: Schema, b: Schema): Schema {
    Plain().(anyOf := Alternatives([a, b]))
  }

  function AllOf(a: Schema, b: Schema): Schema {
    Plain().(allOf := Alternatives([a, b]))
  }

  lemma RenderedPair(a: Schema, b: Schema, separator: Token)
    requires Render(a) != Render(b) && Render(a) != []
    ensures Join(Unique(RenderAll([a, b])), separator) == Render(a) + [separator] + Render(b)
  {
    var texts := RenderAll([a, b]);
    assert texts == [Render(a), Render(b)];
    assert texts[..1] == [Render(a)];
    assert Unique(texts[..1]) == [Render(a)] by { assert texts[..1][..0] == []; }
    assert Unique(texts) == texts;
    assert Join(texts[1..], separator) == Render(b);
  }

  lemma AcceptsBoth(a: Schema, b: Schema, v: Json, env: Env)
    ensures Accepts(AllOf(a, b), v, env) ==> Accepts(a, v, env) && Accepts(b, v, env)
  {
    var schema := AllOf(a, b);
    assert schema.allOf.list[0] == a && schema.allOf.list[1] == b;
    if Accepts(schema, v, env) {
      assert AcceptsBase(schema, v, env);
      assert AcceptsCombined(schema, v, env);
    }
  }

  lemma RenderedAlternatives(a: Schema, b: Schema)
    requires Render(a) != Render(b) && Render(a) != []
    ensures Render(AnyOf(a, b)) == Render(a) + [Bar] + Render(b)
    ensures Render(AllOf(a, b)) == Render(a) + [Amp] + Render(b)
  {
    RenderedPair(a, b, Bar);
    RenderedPair(a, b, Amp);
  }

  lemma RenderedScalars()
    ensures Render(Scalar("string")) == [Word("string")]
    ensures Render(Scalar("number")) == [Word("number")]
    ensures Render(Scalar("boolean")) == [Word("boolean")]
  {}

  function Narrowed(): Schema {
    AllOf(AnyOf(Scalar("string"), Scalar("number")), Scalar("boolean"))
  }

  const REGROUPED := [Word("string"), Bar, Word("number"), Amp, Word("boolean")]

  lemma NarrowedText()
    ensures Render(Narrowed()) == REGROUPED
  {
    RenderedScalars();
    var either := AnyOf(Scalar("string"), Scalar("number"));
    assert Render(either) == [Word("string"), Bar, Word("number")] by {
      RenderedAlternatives(Scalar("string"), Scalar("number"));
    }
    RenderedAlternatives(either, Scalar("boolean"));
  }

  lemma RegroupedDenotes(v: Json, env: Env)
    ensures Denotes(REGROUPED, v, env) <==> v.JStr?
  {
    var u := Or(Just(Name("string")), One(And(Name("number"), Just(Name("boolean")))));
    assert ShowUnion(u) == REGROUPED;
    assert !AdmitsInter(u.rest.only, v, env) by {
      assert AdmitsPrim(Name("number"), v, env) <==> v.JNum?;
      assert AdmitsInter(Just(Name("boolean")), v, env) <==> v.JBool?;
    }
    assert AdmitsInter(u.first, v, env) <==> v.JStr?;
    DenotesShown(u, v, env);
  }

  lemma ScalarAccepts(typ: string, v: Json, env: Env)
    requires Accepts(Scalar(typ), v, env)
    ensures TypeAccepts(Some(typ), v)
  {
    assert AcceptsBase(Scalar(typ), v, env);
  }

  /** `allOf: [{anyOf: [string, number]}, {type: boolean}]` accepts no string, yet its text
      `string | number & boolean` admits every one. */
  lemma AllOfOfUnionIsWider(v: Json, env: Env)
    requires v.JStr?
    ensures !Accepts(Narrowed(), v, env) && Denotes(Render(Narrowed()), v, env)
  {
    NarrowedText();
    RegroupedDenotes(v, env);
    if Accepts(Narrowed(), v, env) {
      AcceptsBoth(AnyOf(Scalar("string"), Scalar("number")), Scalar("boolean"), v, env);
      ScalarAccepts("boolean", v, env);
    }
  }
}
