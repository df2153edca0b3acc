/** What the text of a response schema denotes, case by case and in both directions: neither narrower nor
    wider than scripts/generate-selfhost-sdk.ts makes it. */
module TextMeaning {
  import opened Wrappers
  import opened TypeScript
  import opened SchemaTypes

  /** The text of the schema denotes the value. */
  predicate Admitted(schema: Schema, v: Json, env: Env) {
    Denotes(Render(schema), v, env)
  }

  // ---------------------------------------------------------------- the meaning of each kind of schema

  /** An array of items that are admitted; of anything where the items have no schema. */
  predicate IsArrayOf(items: Sub, v: Json, env: Env) {
    v.JArr? && (items.Sub? ==> forall i :: 0 <= i < |v.items| ==> Admitted(items.schema, v.items[i], env))
  }

  /** An object of admitted values; of anything where they have no schema. */
  predicate IsRecordOf(additional: Sub, v: Json, env: Env) {
    v.JObj? && (additional.Sub? ==> forall i :: 0 <= i < |v.fields| ==>
      Admitted(additional.schema, v.fields[i].value, env))
  }

  predicate Fits(property: Property, required: Option<seq<string>>, fields: seq<Field>, env: Env) {
    match Lookup(fields, property.name)
    case Some(x) => Admitted(property.schema, x, env)
    case None => required.Some? ==> property.name !in required.value
  }

  /** An object that has the required ones among the named properties, and whose named properties are
      admitted where it has them. */
  predicate HasProperties(properties: seq<Property>, required: Option<seq<string>>, v: Json, env: Env) {
    v.JObj? && forall i :: 0 <= i < |properties| ==> Fits(properties[i], required, v.fields, env)
  }

  /** One of the literals that are not null. */
  predicate IsLiteralOf(values: seq<Json>, v: Json) {
    exists i :: 0 <= i < |values| && !values[i].JNull? && AdmitsLiteral(values[i], v)
  }

  /** Anything that an alternative admits; everything where there is none. */
  predicate IsOneOf(list: seq<Schema>, v: Json, env: Env) {
    list == [] || exists i :: 0 <= i < |list| && Admitted(list[i], v, env)
  }

  /** What the text denotes beside null, by the first keyword that applies; `allOf` is left as its text. */
  predicate Meant(schema: Schema, v: Json, env: Env) {
    if schema.component.Some? then env(schema.component.value, v)
    else if schema.oneOf.Alternatives? then IsOneOf(schema.oneOf.list, v, env)
    else if schema.anyOf.Alternatives? then IsOneOf(schema.anyOf.list, v, env)
    else if schema.allOf.Alternatives? then Denotes(RenderBase(schema), v, env)
    else if schema.values.Some? && schema.values.value != [] then IsLiteralOf(schema.values.value, v)
    else if schema.typ == Some("object") || schema.properties.Properties? || schema.required.Some? then
      if schema.properties.Properties? && schema.properties.list != [] then
        HasProperties(schema.properties.list, schema.required, v, env)
      else IsRecordOf(schema.additional, v, env)
    else
      match schema.typ
      case Some("array") => IsArrayOf(schema.items, v, env)
      case Some("string") => v.JStr?
      case Some("integer") => v.JNum?
      case Some("number") => v.JNum?
      case Some("boolean") => v.JBool?
      case _ => true
  }

  /** Null is added where the schema says so, or lists it. */
  predicate MayBeNull(schema: Schema) {
    schema.nullable
      || (schema.values.Some? && exists i :: 0 <= i < |schema.values.value| && schema.values.value[i].JNull?)
  }

  // ---------------------------------------------------------------- the cases

  lemma {:induction false} SomeText(list: seq<Schema>, v: Json, env: Env)
    ensures (exists t :: t in Unique(RenderAll(list)) && Denotes(t, v, env)) <==>
              exists k :: 0 <= k < |list| && Admitted(list[k], v, env)
  {
    hide Render, Denotes;
    var texts := Unique(RenderAll(list));
    if t :| t in texts && Denotes(t, v, env) {
      var k :| 0 <= k < |list| && RenderAll(list)[k] == t;
      assert Admitted(list[k], v, env);
    }
    if k :| 0 <= k < |list| && Admitted(list[k], v, env) {
      assert RenderAll(list)[k] in texts;
    }
  }

  lemma {:induction false} AlternativesMean(list: seq<Schema>, v: Json, env: Env)
    requires forall i :: 0 <= i < |list| ==> WellFormed(list[i])
    ensures Denotes(OrElse(Join(Unique(RenderAll(list)), Bar), "unknown"), v, env) <==> IsOneOf(list, v, env)
  {
    hide WellFormed, Render, Denotes, IsType;
    var texts := Unique(RenderAll(list));
    if list == [] {
      assert texts == [];
      SoundWord("unknown", v, env);
    } else {
      forall t | t in texts
        ensures IsType(t)
      {
        var k :| 0 <= k < |list| && RenderAll(list)[k] == t;
        RenderIsType(list[k]);
      }
      DenotesJoinedBar(texts, v, env);
      TypeNotEmpty(Join(texts, Bar));
      SomeText(list, v, env);
    }
  }

  lemma {:induction false} NoLiterals(values: seq<Json>, v: Json)
    requires Unique(Literals(values)) == []
    ensures !IsLiteralOf(values, v)
  {
    hide AdmitsLiteral;
    forall i | 0 <= i < |values|
      ensures values[i].JNull?
    {
      assert [Lit(values[i])] !in Literals(values);
    }
  }

  lemma LiteralDenotes(j: Json, v: Json, env: Env)
    ensures Denotes([Lit(j)], v, env) <==> AdmitsLiteral(j, v)
  {
    hide AdmitsLiteral, Denotes, IsType;
    DenotesPrim(Literal(j), v, env);
  }

  lemma {:induction false} SomeLiteral(values: seq<Json>, v: Json, env: Env)
    ensures (exists t :: t in Unique(Literals(values)) && Denotes(t, v, env)) <==> IsLiteralOf(values, v)
  {
    hide AdmitsLiteral, Denotes;
    if t :| t in Unique(Literals(values)) && Denotes(t, v, env) {
      var j :| j in values && j != JNull && t == [Lit(j)];
      LiteralDenotes(j, v, env);
    }
    if i :| 0 <= i < |values| && !values[i].JNull? && AdmitsLiteral(values[i], v) {
      LiteralDenotes(values[i], v, env);
      assert [Lit(values[i])] in Unique(Literals(values));
    }
  }

  lemma {:induction false} LiteralsMean(values: seq<Json>, v: Json, env: Env)
    requires forall j :: j in values ==> ProperJson(j)
    ensures Denotes(OrElse(Join(Unique(Literals(values)), Bar), "never"), v, env) <==> IsLiteralOf(values, v)
  {
    hide ProperJson, AdmitsLiteral, IsType;
    var texts := Unique(Literals(values));
    forall t | t in texts
      ensures IsType(t)
    {
      var j :| j in values && j != JNull && t == [Lit(j)];
      DenotesPrim(Literal(j), v, env);
    }
    SoundWord("never", v, env);
    if texts == [] {
      NoLiterals(values, v);
    } else {
      DenotesJoinedBar(texts, v, env);
      TypeNotEmpty(Join(texts, Bar));
      hide Denotes;
      SomeLiteral(values, v, env);
    }
  }

  /** The text of a part that may have no schema. */
  function PartText(part: Sub): seq<Token> {
    if part.Sub? then Render(part.schema) else [Word("unknown")]
  }

  lemma PartMeans(part: Sub) returns (u: Union)
    requires part.Sub? ==> WellFormed(part.schema)
    ensures CleanUnion(u) && ShowUnion(u) == PartText(part)
    ensures forall x, env :: Admits(u, x, env) <==> (part.Sub? ==> Admitted(part.schema, x, env))
  {
    hide IsType, Render, WellFormed, Admits;
    SoundWord("unknown", JNull, (name, v) => false);
    if part.Sub? {
      RenderIsType(part.schema);
    }
    u := TypeReads(PartText(part));
    forall x, env
      ensures Admits(u, x, env) <==> (part.Sub? ==> Admitted(part.schema, x, env))
    {
      SoundWord("unknown", x, env);
    }
  }

  lemma ArrayMeans(schema: Schema, v: Json, env: Env)
    requires schema.items.Sub? ==> WellFormed(schema.items.schema)
    ensures Denotes([Word("Array"), LAngle] + PartText(schema.items) + [RAngle], v, env) <==>
              IsArrayOf(schema.items, v, env)
  {
    hide IsType, Render, WellFormed, PartText, Denotes, Admitted;
    var u := PartMeans(schema.items);
    DenotesPrim(ArrayOf(u), v, env);
  }

  lemma RecordMeans(schema: Schema, v: Json, env: Env)
    requires schema.additional.Sub? ==> WellFormed(schema.additional.schema)
    ensures Denotes([Word("Record"), LAngle, Word("string"), Comma] + PartText(schema.additional)
              + [RAngle], v, env) <==>
              IsRecordOf(schema.additional, v, env)
  {
    hide IsType, Render, WellFormed, PartText, Denotes, Admitted;
    var u := PartMeans(schema.additional);
    DenotesPrim(RecordOf(u), v, env);
  }

  lemma {:induction false} PropertiesMean(list: seq<Property>, required: Option<seq<string>>, v: Json, env: Env)
    requires list != [] && forall i :: 0 <= i < |list| ==> WellFormed(list[i].schema)
    ensures Denotes([LBrace] + Join(RenderProperties(list, Names(required)), Semi) + [RBrace], v, env) <==>
              HasProperties(list, required, v, env)
  {
    hide IsType, Render, WellFormed, Denotes;
    forall i | 0 <= i < |list|
      ensures IsType(Render(list[i].schema))
    {
      RenderIsType(list[i].schema);
    }
    var ms := PropertiesRead(list, Names(required));
    DenotesPrim(Object(ms), v, env);
    if v.JObj? {
      assert forall i :: 0 <= i < |list| ==>
        (PropertyAdmits(list[i], Names(required), v.fields, env) <==> Fits(list[i], required, v.fields, env));
    }
  }

  lemma ScalarsMean(v: Json, env: Env)
    ensures Denotes([Word("string")], v, env) <==> v.JStr?
    ensures Denotes([Word("number")], v, env) <==> v.JNum?
    ensures Denotes([Word("boolean")], v, env) <==> v.JBool?
    ensures Denotes([Word("unknown")], v, env)
  {
    hide Denotes;
    SoundWord("string", v, env);
    SoundWord("number", v, env);
    SoundWord("boolean", v, env);
    SoundWord("unknown", v, env);
  }

  lemma ComponentMeans(name: string, v: Json, env: Env)
    requires name !in RESERVED
    ensures Denotes([Word(name)], v, env) <==> env(name, v)
  {
    hide Denotes;
    assert RESERVED[0] == "Array" && RESERVED[1] == "Record" && RESERVED[2] == "string" && RESERVED[3] == "number";
    assert RESERVED[4] == "boolean" && RESERVED[5] == "null" && RESERVED[6] == "unknown" && RESERVED[7] == "never";
    SoundWord(name, v, env);
  }

  lemma BaseMeans(schema: Schema, v: Json, env: Env)
    requires WellFormed(schema)
    ensures Denotes(RenderBase(schema), v, env) <==> Meant(schema, v, env)
  {
    hide Render, Denotes, Unique, Join, Literals, IsOneOf, IsLiteralOf, IsArrayOf, IsRecordOf, HasProperties;
    if schema.component.Some? {
      ComponentMeans(schema.component.value, v, env);
    } else if schema.oneOf.Alternatives? {
      AlternativesMean(schema.oneOf.list, v, env);
    } else if schema.anyOf.Alternatives? {
      AlternativesMean(schema.anyOf.list, v, env);
    } else if schema.allOf.Alternatives? {
    } else if schema.values.Some? && schema.values.value != [] {
      LiteralsMean(schema.values.value, v, env);
    } else if ObjectLike(schema) {
      if schema.properties.Properties? && schema.properties.list != [] {
        PropertiesMean(schema.properties.list, schema.required, v, env);
      } else {
        RecordMeans(schema, v, env);
      }
    } else {
      ArrayMeans(schema, v, env);
      ScalarsMean(v, env);
    }
  }

  lemma NullableMeans(schema: Schema)
    ensures Nullable(schema) <==> MayBeNull(schema)
  {
    if schema.values.Some? && JNull in schema.values.value {
      var i :| 0 <= i < |schema.values.value| && schema.values.value[i] == JNull;
      assert schema.values.value[i].JNull?;
    }
  }

  /** For every well-formed schema: the text denotes exactly what the schema's first keyword makes of the
      texts of its parts, and null where the schema may be null. */
  lemma TextMeans(schema: Schema, v: Json, env: Env)
    requires WellFormed(schema)
    ensures Admitted(schema, v, env) <==> Meant(schema, v, env) || (MayBeNull(schema) && v.JNull?)
  {
    hide WellFormed, IsType, RenderBase, Denotes, Meant;
    BaseIsType(schema);
    BaseMeans(schema, v, env);
    DenotesNullable(RenderBase(schema), v, env);
    NullableMeans(schema);
  }
}
