/** `collectResponseComponentRefs` of scripts/generate-selfhost-sdk.ts: a depth-first walk that
    gathers the components a response schema refers to, directly or through other components. */
module RefClosure {
  import opened Wrappers
  import opened TypeScript
  import Text

  const PREFIX := "#/components/schemas/"

  /** The component an object's own `$ref` names, if it names one. */
  function OwnRef(fields: seq<Field>): (r: Option<string>) {
    match Lookup(fields, "$ref")
    case Some(JStr(text)) => if Text.StartsWith(text, PREFIX) then Some(text[|PREFIX|..]) else None
    case _ => None
  }

  function AsSet(name: Option<string>): set<string> {
    match name case Some(n) => {n} case None => {}
  }

  /** Every component name referred to anywhere inside a value. */
  function Refs(v: Json): set<string>
    decreases v, 0
  {
    match v
    case JArr(items) => RefsOfItems(items)
    case JObj(fields) => AsSet(OwnRef(fields)) + RefsOfFields(fields)
    case _ => {}
  }

  function RefsOfItems(items: seq<Json>): set<string>
    decreases items, 0
  {
    if items == [] then {} else RefsOfItems(items[..|items| - 1]) + Refs(items[|items| - 1])
  }

  function RefsOfFields(fields: seq<Field>): set<string>
    decreases fields, 0
  {
    if fields == [] then {} else RefsOfFields(fields[..|fields| - 1]) + Refs(fields[|fields| - 1].value)
  }

  // ---------------------------------------------------------------- reachability

  /** `part` stands somewhere inside the value, or is the value. */
  ghost predicate Inside(part: Json, v: Json)
    decreases v
  {
    || part == v
    || (v.JArr? && exists i :: 0 <= i < |v.items| && Inside(part, v.items[i]))
    || (v.JObj? && exists i :: 0 <= i < |v.fields| && Inside(part, v.fields[i].value))
  }

  /** An object whose `$ref` spells the component. */
  ghost predicate RefersTo(part: Json, name: string) {
    part.JObj? && Lookup(part.fields, "$ref") == Some(JStr("#/components/schemas/" + name))
  }

  lemma OwnRefMeans(fields: seq<Field>, name: string)
    ensures name in AsSet(OwnRef(fields)) <==> RefersTo(JObj(fields), name)
  {
    match Lookup(fields, "$ref")
    case Some(JStr(text)) =>
      if Text.StartsWith(text, PREFIX) {
        assert text == PREFIX + text[|PREFIX|..];
      }
      if text == PREFIX + name {
        assert text[..|PREFIX|] == PREFIX && text[|PREFIX|..] == name;
      }
    case _ =>
  }

  lemma {:induction false} ItemsMean(items: seq<Json>, name: string)
    requires forall i :: 0 <= i < |items| ==>
               (name in Refs(items[i]) <==> exists part :: Inside(part, items[i]) && RefersTo(part, name))
    ensures name in RefsOfItems(items) <==>
              exists i, part :: 0 <= i < |items| && Inside(part, items[i]) && RefersTo(part, name)
  {
    hide Inside, RefersTo, Refs;
    if items == [] {
    } else {
      ItemsMean(items[..|items| - 1], name);
    }
  }

  lemma {:induction false} FieldsMean(fields: seq<Field>, name: string)
    requires forall i :: 0 <= i < |fields| ==>
               (name in Refs(fields[i].value) <==> exists part :: Inside(part, fields[i].value) && RefersTo(part, name))
    ensures name in RefsOfFields(fields) <==>
              exists i, part :: 0 <= i < |fields| && Inside(part, fields[i].value) && RefersTo(part, name)
  {
    hide Inside, RefersTo, Refs;
    if fields == [] {
    } else {
      FieldsMean(fields[..|fields| - 1], name);
    }
  }

  /** A value refers to a component when some object anywhere inside it carries the reference. */
  lemma {:induction false} RefsMean(v: Json, name: string)
    ensures name in Refs(v) <==> exists part :: Inside(part, v) && RefersTo(part, name)
    decreases v
  {
    match v
    case JArr(items) =>
      forall i | 0 <= i < |items|
        ensures name in Refs(items[i]) <==> exists part :: Inside(part, items[i]) && RefersTo(part, name)
      {
        RefsMean(items[i], name);
      }
      ItemsMean(items, name);
    case JObj(fields) =>
      forall i | 0 <= i < |fields|
        ensures name in Refs(fields[i].value) <==> exists part :: Inside(part, fields[i].value) && RefersTo(part, name)
      {
        RefsMean(fields[i].value, name);
      }
      FieldsMean(fields, name);
      OwnRefMeans(fields, name);
      assert Inside(v, v);
    case _ =>
  }

  /** `path` leads from a root through known components to its last name. */
  ghost predicate IsPath(components: map<string, Json>, roots: set<string>, path: seq<string>) {
    && path != []
    && path[0] in roots
    && forall i :: 0 <= i < |path| - 1 ==> path[i] in components && path[i + 1] in Refs(components[path[i]])
  }

  ghost predicate Reachable(components: map<string, Json>, roots: set<string>, name: string) {
    exists path :: IsPath(components, roots, path) && path[|path| - 1] == name
  }

  lemma RootReachable(components: map<string, Json>, roots: set<string>, name: string)
    requires name in roots
    ensures Reachable(components, roots, name)
  {
    assert IsPath(components, roots, [name]);
  }

  lemma MoreRootsReachMore(components: map<string, Json>, roots: set<string>, more: set<string>, name: string)
    requires roots <= more && Reachable(components, roots, name)
    ensures Reachable(components, more, name)
  {
    var path :| IsPath(components, roots, path) && path[|path| - 1] == name;
    assert IsPath(components, more, path);
  }

  lemma ReachThrough(components: map<string, Json>, roots: set<string>, via: string, name: string)
    requires via in roots && via in components && Reachable(components, Refs(components[via]), name)
    ensures Reachable(components, roots, name)
  {
    var path :| IsPath(components, Refs(components[via]), path) && path[|path| - 1] == name;
    assert IsPath(components, roots, [via] + path);
  }

  /** A set that holds the roots and the references of its own members holds everything reachable. */
  lemma {:induction false} ClosedHoldsPath(components: map<string, Json>, roots: set<string>, names: set<string>,
                                           path: seq<string>)
    requires roots <= names && IsPath(components, roots, path)
    requires forall n :: n in names && n in components ==> Refs(components[n]) <= names
    ensures path[|path| - 1] in names
  {
    if |path| > 1 {
      var prefix := path[..|path| - 1];
      ClosedHoldsPath(components, roots, names, prefix);
      assert prefix[|prefix| - 1] == path[|path| - 2];
    }
  }

  // ---------------------------------------------------------------- the walk

  lemma {:induction false} RefsOfItemsGrow(items: seq<Json>, k: nat)
    requires k <= |items|
    ensures RefsOfItems(items[..k]) <= RefsOfItems(items)
    decreases |items|
  {
    if k < |items| {
      var n := |items| - 1;
      assert items[..n][..k] == items[..k];
      RefsOfItemsGrow(items[..n], k);
    } else {
      assert items[..k] == items;
    }
  }

  lemma {:induction false} RefsOfFieldsGrow(fields: seq<Field>, k: nat)
    requires k <= |fields|
    ensures RefsOfFields(fields[..k]) <= RefsOfFields(fields)
    decreases |fields|
  {
    if k < |fields| {
      var n := |fields| - 1;
      assert fields[..n][..k] == fields[..k];
      RefsOfFieldsGrow(fields[..n], k);
    } else {
      assert fields[..k] == fields;
    }
  }

  class Collector {
    const components: map<string, Json>
    var names: set<string>

    constructor (components: map<string, Json>)
      ensures this.components == components && names == {}
    {
      this.components := components;
      names := {};
    }

    /** Everything the walk added is known, reachable and closed under reference. */
    ghost predicate Walked(before: set<string>, roots: set<string>)
      reads this
    {
      && before <= names
      && roots <= names
      && names - before <= components.Keys
      && (forall n :: n in names - before ==> n in components && Refs(components[n]) <= names)
      && (forall n :: n in names - before ==> Reachable(components, roots, n))
    }

    /** The set of names grows while the walk recurses, so a cyclic component graph ends the walk:
        either a component is no longer new, or the value at hand gets smaller. */
    method Collect(value: Json) returns (r: Result<(), string>)
      modifies this`names
      ensures old(names) <= names
      ensures r.Ok? ==> Walked(old(names), Refs(value))
      ensures r.Err? ==> r.error !in components && Reachable(components, Refs(value), r.error)
      decreases components.Keys - names, value, 1
    {
      match value
      case JArr(items) =>
        r := CollectItems(items);
      case JObj(fields) =>
        var own := OwnRef(fields);
        if own.Some? {
          var name := own.value;
          if name !in components {
            RootReachable(components, Refs(value), name);
            return Err(name);
          }
          if name !in names {
            ghost var before := names;
            names := names + {name};
            assert components.Keys - names < components.Keys - before by {
              assert name in components.Keys - before && name !in components.Keys - names;
            }
            r := Collect(components[name]);
            if r.Err? {
              ReachThrough(components, Refs(value), name, r.error);
              return;
            }
            RootReachable(components, Refs(value), name);
            forall n | n in names - before
              ensures Reachable(components, Refs(value), n)
            {
              if n != name {
                ReachThrough(components, Refs(value), name, n);
              }
            }
          }
        }
        ghost var entered := names;
        r := CollectFields(fields);
        if r.Err? {
          MoreRootsReachMore(components, RefsOfFields(fields), Refs(value), r.error);
        } else {
          forall n | n in names - entered
            ensures Reachable(components, Refs(value), n)
          {
            MoreRootsReachMore(components, RefsOfFields(fields), Refs(value), n);
          }
        }
      case _ =>
        r := Ok(());
    }

    method CollectItems(items: seq<Json>) returns (r: Result<(), string>)
      modifies this`names
      ensures old(names) <= names
      ensures r.Ok? ==> Walked(old(names), RefsOfItems(items))
      ensures r.Err? ==> r.error !in components && Reachable(components, RefsOfItems(items), r.error)
      decreases components.Keys - names, items, 0
    {
      r := Ok(());
      for i := 0 to |items|
        invariant r.Ok? && old(names) <= names
        invariant Walked(old(names), RefsOfItems(items[..i]))
      {
        ghost var entered := names;
        assert items[..i + 1][..i] == items[..i];
        RefsOfItemsGrow(items, i + 1);
        r := Collect(items[i]);
        if r.Err? {
          MoreRootsReachMore(components, Refs(items[i]), RefsOfItems(items), r.error);
          return;
        }
        forall n | n in names - old(names)
          ensures Reachable(components, RefsOfItems(items[..i + 1]), n)
        {
          if n in entered {
            MoreRootsReachMore(components, RefsOfItems(items[..i]), RefsOfItems(items[..i + 1]), n);
          } else {
            MoreRootsReachMore(components, Refs(items[i]), RefsOfItems(items[..i + 1]), n);
          }
        }
      }
      assert items[..|items|] == items;
    }

    method CollectFields(fields: seq<Field>) returns (r: Result<(), string>)
      modifies this`names
      ensures old(names) <= names
      ensures r.Ok? ==> Walked(old(names), RefsOfFields(fields))
      ensures r.Err? ==> r.error !in components && Reachable(components, RefsOfFields(fields), r.error)
      decreases components.Keys - names, fields, 0
    {
      r := Ok(());
      for i := 0 to |fields|
        invariant r.Ok? && old(names) <= names
        invariant Walked(old(names), RefsOfFields(fields[..i]))
      {
        ghost var entered := names;
        assert fields[..i + 1][..i] == fields[..i];
        RefsOfFieldsGrow(fields, i + 1);
        r := Collect(fields[i].value);
        if r.Err? {
          MoreRootsReachMore(components, Refs(fields[i].value), RefsOfFields(fields), r.error);
          return;
        }
        forall n | n in names - old(names)
          ensures Reachable(components, RefsOfFields(fields[..i + 1]), n)
        {
          if n in entered {
            MoreRootsReachMore(components, RefsOfFields(fields[..i]), RefsOfFields(fields[..i + 1]), n);
          } else {
            MoreRootsReachMore(components, Refs(fields[i].value), RefsOfFields(fields[..i + 1]), n);
          }
        }
      }
      assert fields[..|fields|] == fields;
    }
  }

  /** The walk over every response contract's schema collects exactly the reachable components and
      fails exactly when one of them is unknown; what it emits refers only to what it emits. */
  method CollectResponseComponents(components: map<string, Json>,
                                   schemas: seq<Json>) returns (r: Result<set<string>, string>)
    ensures r.Ok? ==> forall n :: n in r.value <==> Reachable(components, RefsOfItems(schemas), n)
    ensures r.Ok? ==> forall n :: n in r.value ==> n in components && Refs(components[n]) <= r.value
    ensures r.Err? ==> r.error !in components && Reachable(components, RefsOfItems(schemas), r.error)
    ensures r.Ok? <==> forall n :: Reachable(components, RefsOfItems(schemas), n) ==> n in components
  {
    var collector := new Collector(components);
    var walked := collector.CollectItems(schemas);
    if walked.Err? {
      return Err(walked.error);
    }
    var names := collector.names;
    forall n | Reachable(components, RefsOfItems(schemas), n)
      ensures n in names
    {
      var path :| IsPath(components, RefsOfItems(schemas), path) && path[|path| - 1] == n;
      ClosedHoldsPath(components, RefsOfItems(schemas), names, path);
    }
    r := Ok(names);
  }
}
