/** The derived label index: the table `inbound_labels` and the two folder flags that the triggers of
    src/db/database.ts keep beside each message's own list of labels, and the operations of
    src/db/inbound.local.ts that change and query them. */
module LabelIndex {
  import opened Text
  import opened Labels

  /** One row of `inbound_emails`, as far as labels go: the list as stored, and the derived flags. */
  datatype Email = Email(labels: seq<string>, spam: bool, trash: bool)

  /** One row of `inbound_labels`. */
  datatype Entry = Entry(id: string, name: string)

  // ---------------------------------------------------------------- what the callers ask for

  datatype Op =
    | Insert(id: string, labels: seq<string>)
    | AddLabel(id: string, name: string)
    | RemoveLabel(id: string, name: string)
    | Delete(id: string)

  predicate Carries(labels: seq<string>, name: string) {
    exists i :: 0 <= i < |labels| && TsNorm(labels[i]) == TsNorm(name)
  }

  function Without(labels: seq<string>, name: string): (r: seq<string>)
    ensures forall l :: l in r <==> l in labels && TsNorm(l) != TsNorm(name)
  {
    if labels == [] then []
    else
      var rest := Without(labels[1..], name);
      assert labels == [labels[0]] + labels[1..];
      if TsNorm(labels[0]) == TsNorm(name) then rest else [labels[0]] + rest
  }

  function With(labels: seq<string>, name: string): (r: seq<string>) {
    if Carries(labels, name) then labels else labels + [name]
  }

  /** What an operation does to the messages' own lists; a refused one does nothing. */
  function Next(lists: map<string, seq<string>>, op: Op): (r: map<string, seq<string>>) {
    match op
    case Insert(id, labels) => if id in lists then lists else lists[id := labels]
    case AddLabel(id, name) => if id in lists then lists[id := With(lists[id], name)] else lists
    case RemoveLabel(id, name) => if id in lists then lists[id := Without(lists[id], name)] else lists
    case Delete(id) => lists - {id}
  }

  function Run(lists: map<string, seq<string>>, ops: seq<Op>): (r: map<string, seq<string>>)
    decreases |ops|
  {
    if ops == [] then lists else Run(Next(lists, ops[0]), ops[1..])
  }

  // ---------------------------------------------------------------- what adding and removing do

  /** The list ends with a spelling of the label: the old list, and `name` after it where it had none. */
  ghost predicate Added(was: seq<string>, now: seq<string>, name: string) {
    && (exists i :: 0 <= i < |now| && TsNorm(now[i]) == TsNorm(name))
    && was <= now
    && ((exists i :: 0 <= i < |was| && TsNorm(was[i]) == TsNorm(name)) ==> now == was)
    && ((forall i :: 0 <= i < |was| ==> TsNorm(was[i]) != TsNorm(name)) ==> now == was + [name])
  }

  /** The labels of the new list stood at these places of the old one. */
  ghost predicate Drawn(was: seq<string>, now: seq<string>, places: seq<nat>) {
    |places| == |now| && forall k :: 0 <= k < |now| ==> places[k] < |was| && now[k] == was[places[k]]
  }

  ghost predicate Increasing(places: seq<nat>) {
    forall k, m :: 0 <= k < m < |places| ==> places[k] < places[m]
  }

  /** The places of every label that is no spelling of `name`. */
  ghost predicate AllBut(was: seq<string>, name: string, places: seq<nat>) {
    forall i :: 0 <= i < |was| ==> (TsNorm(was[i]) != TsNorm(name) <==> i in places)
  }

  ghost predicate StaysAt(was: seq<string>, now: seq<string>, name: string, places: seq<nat>) {
    Drawn(was, now, places) && Increasing(places) && AllBut(was, name, places)
  }

  /** No spelling of the label is left, and every other label stays in its order. */
  ghost predicate Removed(was: seq<string>, now: seq<string>, name: string) {
    && (forall i :: 0 <= i < |now| ==> TsNorm(now[i]) != TsNorm(name))
    && exists places :: StaysAt(was, now, name, places)
  }

  lemma WithAdds(labels: seq<string>, name: string)
    ensures Added(labels, With(labels, name), name)
  {
    hide TsNorm;
    assert (labels + [name])[|labels|] == name;
  }

  function Shifted(places: seq<nat>): (r: seq<nat>)
    ensures |r| == |places| && forall k :: 0 <= k < |places| ==> r[k] == places[k] + 1
  {
    seq(|places|, k requires 0 <= k < |places| => places[k] + 1)
  }

  lemma ShiftedIn(places: seq<nat>, i: nat)
    ensures i in Shifted(places) <==> i > 0 && i - 1 in places
  {
    if i > 0 && i - 1 in places {
      var k :| 0 <= k < |places| && places[k] == i - 1;
      assert Shifted(places)[k] == i;
    }
  }

  lemma AllButTail(labels: seq<string>, name: string, rest: seq<nat>)
    requires labels != [] && AllBut(labels[1..], name, rest)
    ensures TsNorm(labels[0]) == TsNorm(name) ==> AllBut(labels, name, Shifted(rest))
    ensures TsNorm(labels[0]) != TsNorm(name) ==> AllBut(labels, name, [0] + Shifted(rest))
  {
    hide TsNorm, Shifted;
    forall i: nat | i < |labels|
      ensures i in Shifted(rest) <==> i > 0 && TsNorm(labels[i]) != TsNorm(name)
    {
      ShiftedIn(rest, i);
      assert i > 0 ==> labels[1..][i - 1] == labels[i];
    }
  }

  lemma DrawnTail(labels: seq<string>, now: seq<string>, rest: seq<nat>)
    requires labels != [] && Drawn(labels[1..], now, rest)
    ensures Drawn(labels, now, Shifted(rest)) && Drawn(labels, [labels[0]] + now, [0] + Shifted(rest))
  {
    hide Shifted;
    var later := Shifted(rest);
    forall k | 0 <= k < |now|
      ensures later[k] < |labels| && now[k] == labels[later[k]]
    {
      assert labels[1..][rest[k]] == labels[rest[k] + 1];
    }
    var more, first := [labels[0]] + now, [0] + later;
    forall k | 0 <= k < |more|
      ensures first[k] < |labels| && more[k] == labels[first[k]]
    {
      assert k > 0 ==> more[k] == now[k - 1] && first[k] == later[k - 1];
    }
  }

  lemma IncreasingTail(rest: seq<nat>)
    requires Increasing(rest)
    ensures Increasing(Shifted(rest)) && Increasing([0] + Shifted(rest))
  {
    hide Shifted;
    var first := [0] + Shifted(rest);
    forall k, m | 0 <= k < m < |first|
      ensures first[k] < first[m]
    {
      assert first[m] == rest[m - 1] + 1;
      assert k > 0 ==> first[k] == rest[k - 1] + 1;
    }
  }

  lemma PlacesOfTail(labels: seq<string>, now: seq<string>, name: string, rest: seq<nat>)
    requires labels != [] && StaysAt(labels[1..], now, name, rest)
    ensures TsNorm(labels[0]) == TsNorm(name) ==> StaysAt(labels, now, name, Shifted(rest))
    ensures TsNorm(labels[0]) != TsNorm(name) ==> StaysAt(labels, [labels[0]] + now, name, [0] + Shifted(rest))
  {
    hide TsNorm, Shifted, AllBut, Drawn, Increasing;
    AllButTail(labels, name, rest);
    DrawnTail(labels, now, rest);
    IncreasingTail(rest);
  }

  lemma {:induction false} WithoutPlaces(labels: seq<string>, name: string) returns (places: seq<nat>)
    ensures StaysAt(labels, Without(labels, name), name, places)
  {
    hide TsNorm;
    if labels == [] {
      places := [];
    } else {
      var rest := WithoutPlaces(labels[1..], name);
      hide StaysAt;
      PlacesOfTail(labels, Without(labels[1..], name), name, rest);
      places := if TsNorm(labels[0]) == TsNorm(name) then Shifted(rest) else [0] + Shifted(rest);
    }
  }

  lemma WithoutRemoves(labels: seq<string>, name: string)
    ensures Removed(labels, Without(labels, name), name)
  {
    hide TsNorm, StaysAt;
    var places := WithoutPlaces(labels, name);
    var now := Without(labels, name);
    forall i | 0 <= i < |now|
      ensures TsNorm(now[i]) != TsNorm(name)
    {
      assert now[i] in now;
    }
  }

  /** Every message but `id` keeps its list. */
  ghost predicate OnlyOf(was: map<string, seq<string>>, now: map<string, seq<string>>, id: string) {
    now - {id} == was - {id}
  }

  /** One operation: an insert stores the list of a new id and leaves a taken one; an add and a remove
      change one stored list as said above; a delete takes one message away; nothing else changes. */
  ghost predicate StepMeans(was: map<string, seq<string>>, now: map<string, seq<string>>, op: Op) {
    && OnlyOf(was, now, op.id)
    && match op
       case Insert(id, labels) => id in now && now[id] == (if id in was then was[id] else labels)
       case AddLabel(id, name) => (id in now <==> id in was) && (id in was ==> Added(was[id], now[id], name))
       case RemoveLabel(id, name) => (id in now <==> id in was) && (id in was ==> Removed(was[id], now[id], name))
       case Delete(id) => id !in now
  }

  lemma StepOfRun(lists: map<string, seq<string>>, op: Op)
    ensures StepMeans(lists, Next(lists, op), op)
  {
    hide TsNorm, Added, Removed;
    match op
    case AddLabel(id, name) =>
      if id in lists {
        WithAdds(lists[id], name);
      }
    case RemoveLabel(id, name) =>
      if id in lists {
        WithoutRemoves(lists[id], name);
      }
    case _ =>
  }

  // ---------------------------------------------------------------- no label twice

  ghost predicate NoRepeats(labels: seq<string>) {
    forall i, j :: 0 <= i < j < |labels| ==> TsNorm(labels[i]) != TsNorm(labels[j])
  }

  ghost predicate AllListsFree(lists: map<string, seq<string>>) {
    forall id :: id in lists ==> NoRepeats(lists[id])
  }

  lemma {:induction false} WithoutFree(labels: seq<string>, name: string)
    requires NoRepeats(labels)
    ensures NoRepeats(Without(labels, name))
  {
    hide TsNorm;
    if labels == [] {
    } else {
      WithoutFree(labels[1..], name);
      var rest := Without(labels[1..], name);
      forall j | 0 <= j < |rest|
        ensures TsNorm(rest[j]) != TsNorm(labels[0])
      {
        assert rest[j] in labels[1..];
      }
    }
  }

  lemma StepKeepsFree(lists: map<string, seq<string>>, op: Op)
    requires AllListsFree(lists) && (op.Insert? ==> NoRepeats(op.labels))
    ensures AllListsFree(Next(lists, op))
  {
    hide TsNorm;
    if op.RemoveLabel? && op.id in lists {
      WithoutFree(lists[op.id], op.name);
    }
  }

  /** Adding and removing never make a list carry two spellings of one label, over any run in which
      the inserted lists carry none. */
  lemma {:induction false} RunKeepsFree(lists: map<string, seq<string>>, ops: seq<Op>)
    requires AllListsFree(lists)
    requires forall i :: 0 <= i < |ops| && ops[i].Insert? ==> NoRepeats(ops[i].labels)
    ensures AllListsFree(Run(lists, ops))
    decreases |ops|
  {
    if ops == [] {
    } else {
      StepKeepsFree(lists, ops[0]);
      RunKeepsFree(Next(lists, ops[0]), ops[1..]);
    }
  }

  // ---------------------------------------------------------------- the store and its triggers

  /** The entries that one message's labels call for. */
  function EntriesOf(id: string, labels: seq<string>): (r: set<Entry>) {
    set l | l in labels && SqlNorm(l) != "" :: Entry(id, SqlNorm(l))
  }

  /** `inbound_labels` holds exactly the non-empty normalised labels of every stored message, and the
      flags say whether 'spam' and 'trash' are among them. */
  ghost predicate Exact(emails: map<string, Email>, index: set<Entry>) {
    && (forall e :: e in index <==> e.id in emails && e in EntriesOf(e.id, emails[e.id].labels))
    && (forall id :: id in emails ==> emails[id].spam == (Entry(id, "spam") in index))
    && (forall id :: id in emails ==> emails[id].trash == (Entry(id, "trash") in index))
  }

  function Lists(emails: map<string, Email>): (r: map<string, seq<string>>) {
    map id | id in emails :: emails[id].labels
  }

  lemma EntriesNamed(id: string, labels: seq<string>)
    ensures forall e :: e in EntriesOf(id, labels) ==> e.id == id
  {}

  lemma EntriesStay(emails: map<string, Email>, index: set<Entry>, id: string)
    requires Exact(emails, index)
    ensures Exact(emails - {id}, set e | e in index && e.id != id)
  {
    hide SqlNorm, EntriesOf;
  }

  lemma ListsTell(was: map<string, seq<string>>, emails: map<string, Email>, id: string, labels: seq<string>)
    requires id in was && Lists(emails) == was[id := labels]
    ensures emails.Keys == was.Keys && emails[id].labels == labels
    ensures forall other :: other in emails && other != id ==> emails[other].labels == was[other]
  {
    assert Lists(emails).Keys == emails.Keys;
    assert forall other :: other in emails ==> emails[other].labels == Lists(emails)[other];
  }

  lemma EntriesSpell(id: string, labels: seq<string>, name: string)
    ensures Entry(id, name) in EntriesOf(id, labels) <==>
              name != "" && exists i :: 0 <= i < |labels| && SqlNorm(labels[i]) == name
  {
    hide SqlNorm;
    if i :| 0 <= i < |labels| && SqlNorm(labels[i]) == name {
      assert labels[i] in labels;
    }
  }

  /** A message stands in the folders whose names its labels spell, and in the index under its labels. */
  lemma FlagsMean(emails: map<string, Email>, index: set<Entry>, id: string, name: string)
    requires Exact(emails, index) && id in emails
    ensures emails[id].spam <==> exists i :: 0 <= i < |emails[id].labels| && SqlNorm(emails[id].labels[i]) == "spam"
    ensures emails[id].trash <==> exists i :: 0 <= i < |emails[id].labels| && SqlNorm(emails[id].labels[i]) == "trash"
    ensures Entry(id, name) in index <==>
              name != "" && exists i :: 0 <= i < |emails[id].labels| && SqlNorm(emails[id].labels[i]) == name
  {
    hide SqlNorm;
    EntriesSpell(id, emails[id].labels, name);
    EntriesSpell(id, emails[id].labels, "spam");
    EntriesSpell(id, emails[id].labels, "trash");
  }

  class LabelledMail {
    var emails: map<string, Email>
    var index: set<Entry>

    constructor ()
      ensures emails == map[] && index == {} && Exact(emails, index)
    {
      emails := map[];
      index := {};
    }

    /** `INSERT OR IGNORE INTO inbound_labels ... WHERE normalized.label != ''`. */
    method IndexLabels(id: string, labels: seq<string>)
      modifies `index
      ensures index == old(index) + EntriesOf(id, labels)
    {
      hide SqlNorm;
      var i := 0;
      while i < |labels|
        invariant 0 <= i <= |labels|
        invariant index == old(index) + EntriesOf(id, labels[..i])
      {
        assert labels[..i + 1] == labels[..i] + [labels[i]];
        var name := SqlNorm(labels[i]);
        if name != "" {
          index := index + {Entry(id, name)};
        }
        i := i + 1;
      }
      assert labels[..i] == labels;
    }

    /** The UPDATE of both flags from the index. */
    method UpdateFlags(id: string)
      requires id in emails
      modifies `emails
      ensures var flagged := Email(old(emails)[id].labels, Entry(id, "spam") in index, Entry(id, "trash") in index);
              emails == old(emails)[id := flagged]
    {
      emails := emails[id := Email(emails[id].labels, Entry(id, "spam") in index, Entry(id, "trash") in index)];
    }

    /** AFTER INSERT, and what is left of AFTER UPDATE once the old entries are gone. */
    method Reindex(id: string)
      requires id in emails && forall e :: e in index ==> e.id != id
      requires Exact(emails - {id}, index)
      modifies this
      ensures Exact(emails, index) && Lists(emails) == old(Lists(emails))
    {
      hide SqlNorm, EntriesOf;
      var labels := emails[id].labels;
      ghost var before, was := emails, index;
      IndexLabels(id, labels);
      UpdateFlags(id);
      EntriesNamed(id, labels);
      assert Entry(id, "spam") in index <==> emails[id].spam;
      forall other | other in emails && other != id
        ensures emails[other] == (before - {id})[other]
        ensures forall name :: Entry(other, name) in index <==> Entry(other, name) in was
      {}
    }

    method Insert(id: string, labels: seq<string>) returns (ok: bool)
      requires Exact(emails, index)
      modifies this
      ensures Exact(emails, index)
      ensures ok == (id !in old(emails))
      ensures Lists(emails) == Next(old(Lists(emails)), Op.Insert(id, labels))
      ensures StepMeans(old(Lists(emails)), Lists(emails), Op.Insert(id, labels))
    {
      hide EntriesOf;
      StepOfRun(Lists(emails), Op.Insert(id, labels));
      if id in emails {
        return false;
      }
      ghost var was := emails;
      emails := emails[id := Email(labels, false, false)];
      assert emails - {id} == was;
      Reindex(id);
      ok := true;
    }

    /** `UPDATE inbound_emails SET label_ids_json = ?`, with its trigger. */
    method SetLabels(id: string, labels: seq<string>)
      requires Exact(emails, index) && id in emails
      modifies this
      ensures Exact(emails, index)
      ensures Lists(emails) == old(Lists(emails))[id := labels]
    {
      hide EntriesOf, Exact, SqlNorm;
      ghost var was := emails;
      emails := emails[id := emails[id].(labels := labels)];
      index := set e | e in index && e.id != id;
      assert emails - {id} == was - {id};
      EntriesStay(was, old(index), id);
      Reindex(id);
    }

    method MutateLabel(id: string, name: string, remove: bool) returns (ok: bool)
      requires Exact(emails, index)
      modifies this
      ensures Exact(emails, index)
      ensures ok == (id in old(emails))
      ensures Lists(emails)
                == Next(old(Lists(emails)), if remove then Op.RemoveLabel(id, name) else Op.AddLabel(id, name))
      ensures emails.Keys == old(emails).Keys
      ensures forall other :: other in emails && other != id ==> emails[other].labels == old(emails)[other].labels
      ensures ok && !remove ==> Added(old(emails)[id].labels, emails[id].labels, name)
      ensures ok && remove ==> Removed(old(emails)[id].labels, emails[id].labels, name)
    {
      hide Exact, Carries, Added, Removed;
      if id !in emails {
        return false;
      }
      var labels := emails[id].labels;
      var next := if remove then Without(labels, name) else if Carries(labels, name) then labels else labels + [name];
      WithAdds(labels, name);
      WithoutRemoves(labels, name);
      ghost var was := Lists(emails);
      SetLabels(id, next);
      ListsTell(was, emails, id, next);
      ok := true;
    }

    method Delete(id: string)
      requires Exact(emails, index)
      modifies this
      ensures Exact(emails, index)
      ensures Lists(emails) == Next(old(Lists(emails)), Op.Delete(id))
      ensures StepMeans(old(Lists(emails)), Lists(emails), Op.Delete(id))
    {
      hide EntriesOf;
      StepOfRun(Lists(emails), Op.Delete(id));
      EntriesStay(emails, index, id);
      emails := emails - {id};
      index := set e | e in index && e.id != id;
    }
  }

  // ---------------------------------------------------------------- the label filter

  /** The messages that the filter keeps: all of them when no label is given, and those with an entry
      under the normalised label otherwise. */
  ghost function Filtered(emails: map<string, Email>, index: set<Entry>, query: string): set<string> {
    if query == "" then emails.Keys else set id | id in emails && Entry(id, TsNorm(query)) in index
  }

  /** The messages that carry the label in their own list. */
  ghost function Scanned(emails: map<string, Email>, query: string): set<string> {
    set id | id in emails && Carries(emails[id].labels, query)
  }

  /** The non-empty names that a list is known under, by one normaliser or the other. */
  ghost function Names(labels: seq<string>, norm: string -> string): set<string> {
    set l | l in labels && norm(l) != "" :: norm(l)
  }

  lemma FilteredMeans(emails: map<string, Email>, index: set<Entry>, query: string, id: string)
    requires Exact(emails, index) && id in emails && query != ""
    ensures id in Filtered(emails, index, query) <==> TsNorm(query) in Names(emails[id].labels, SqlNorm)
    ensures TsNorm(query) != "" ==>
              (id in Scanned(emails, query) <==> TsNorm(query) in Names(emails[id].labels, TsNorm))
  {
    hide SqlNorm, TsNorm;
    var labels := emails[id].labels;
    if Carries(labels, query) {
      var i :| 0 <= i < |labels| && TsNorm(labels[i]) == TsNorm(query);
      assert labels[i] in labels;
    }
  }

  /** A blank query matches no message, and only the empty one is no filter. */
  lemma BlankMatchesNothing(emails: map<string, Email>, index: set<Entry>, query: string)
    requires Exact(emails, index) && TsNorm(query) == ""
    ensures Filtered(emails, index, query) == if query == "" then emails.Keys else {}
  {
    hide SqlNorm, TsNorm;
    if query != "" {
      forall id | id in emails
        ensures id !in Filtered(emails, index, query)
      {
        FilteredMeans(emails, index, query, id);
      }
    }
  }

  lemma NamedIsGiven(query: string)
    ensures TsNorm(query) != "" ==> query != ""
  {
    TrimOfSpaceless("");
  }

  /** For every label that is not blank, the indexed filter is a scan of the stored lists, when every
      stored label is one that the two normalisers agree on. */
  lemma FilterIsScan(emails: map<string, Email>, index: set<Entry>, query: string)
    requires Exact(emails, index) && TsNorm(query) != ""
    requires forall id, l :: id in emails && l in emails[id].labels ==> Agreeing(l)
    ensures Filtered(emails, index, query) == Scanned(emails, query)
  {
    hide SqlNorm, TsNorm, Agreeing;
    NamedIsGiven(query);
    forall id | id in emails
      ensures id in Filtered(emails, index, query) <==> id in Scanned(emails, query)
    {
      FilteredMeans(emails, index, query, id);
      var labels := emails[id].labels;
      forall l | l in labels
        ensures SqlNorm(l) == TsNorm(l)
      {
        assert Agreeing(l);
        NormalisersAgree(l);
      }
    }
  }

  predicate Plain(c: char) {
    !('\t' <= c <= '\r') && !('A' <= c <= 'Z')
  }

  lemma {:induction false} PassPlain(s: string)
    requires forall i :: 0 <= i < |s| ==> Plain(s[i])
    ensures forall i :: 0 <= i < |Pass(s)| ==> Plain(Pass(s)[i])
  {
    if s == "" {
    } else {
      if |s| >= 2 && s[0] == ' ' && s[1] == ' ' {
        PassPlain(s[2..]);
      } else {
        PassPlain(s[1..]);
      }
    }
  }

  lemma {:induction false} PassesPlain(s: string, n: nat)
    requires forall i :: 0 <= i < |s| ==> Plain(s[i])
    ensures forall i :: 0 <= i < |Passes(s, n)| ==> Plain(Passes(s, n)[i])
    decreases n
  {
    if n == 0 {
    } else {
      PassPlain(s);
      PassesPlain(Pass(s), n - 1);
    }
  }

  lemma SqlNormSettled(name: string)
    ensures Settled(SqlNorm(name)) && |SqlNorm(name)| <= LABEL_LENGTH
  {
    hide TrimBy;
    var u := Blank(Lower(TrimBy(name, IsBlank)));
    assert forall i :: 0 <= i < |u| ==> Plain(u[i]);
    PassesPlain(u, PASSES);
  }

  lemma NamesSettled(labels: seq<string>, name: string)
    requires name in Names(labels, SqlNorm) || name in Names(labels, TsNorm)
    ensures TsNorm(name) == name && name != ""
  {
    hide SqlNorm, TsNorm, Settled;
    if name in Names(labels, SqlNorm) {
      var l :| l in labels && SqlNorm(l) == name;
      SqlNormSettled(l);
      SettledStays(name);
    } else {
      var l :| l in labels && TsNorm(l) == name;
      TsNormIdempotent(l);
    }
  }

  /** One message is found by exactly the labels it carries if, and only if, both normalisers give its
      labels the same names. */
  lemma FoundExactly(emails: map<string, Email>, index: set<Entry>, id: string)
    requires Exact(emails, index) && id in emails
    ensures (forall query :: TsNorm(query) != "" ==>
               (id in Filtered(emails, index, query) <==> id in Scanned(emails, query)))
            <==> Names(emails[id].labels, SqlNorm) == Names(emails[id].labels, TsNorm)
  {
    hide SqlNorm, TsNorm, Exact, Filtered, Scanned;
    var labels := emails[id].labels;
    var sql, ts := Names(labels, SqlNorm), Names(labels, TsNorm);
    forall query | TsNorm(query) != ""
      ensures id in Filtered(emails, index, query) <==> TsNorm(query) in sql
      ensures id in Scanned(emails, query) <==> TsNorm(query) in ts
    {
      NamedIsGiven(query);
      FilteredMeans(emails, index, query, id);
    }
    forall name | name in sql || name in ts
      ensures TsNorm(name) == name != ""
    {
      NamesSettled(labels, name);
    }
    if sql != ts {
      var name :| name in sql + ts && !(name in sql && name in ts);
      assert TsNorm(name) == name;
    }
  }

  /** A message whose only label the normalisers read differently is missed under that very label. */
  lemma LoneLabel(emails: map<string, Email>, index: set<Entry>, id: string, name: string)
    requires Exact(emails, index) && id in emails && emails[id].labels == [name] && name != ""
    ensures id in Filtered(emails, index, name) <==> SqlNorm(name) == TsNorm(name) != ""
  {
    hide SqlNorm, TsNorm;
    FilteredMeans(emails, index, name, id);
  }

  /** It is not enough that the label asked for is an agreeing one: here a space and a tab before the
      stored "a" hide the message from a query for "a", which a scan of the list would answer. */
  lemma StoredLabelMatters(emails: map<string, Email>, index: set<Entry>)
    requires Exact(emails, index) && emails.Keys == {"m"} && emails["m"].labels == [" \ta"]
    ensures Agreeing("a")
    ensures Filtered(emails, index, "a") == {} && Scanned(emails, "a") == {"m"}
  {
    hide SqlNorm, TsNorm, Agreeing;
    SpaceHidesTab();
    SettledStays("a");
    NormalisersAgree("a");
    FilteredMeans(emails, index, "a", "m");
    assert TsNorm(emails["m"].labels[0]) == TsNorm("a");
  }

  // ---------------------------------------------------------------- adding, removing, finding

  lemma {:induction false} CarriesMeans(labels: seq<string>, name: string)
    ensures Carries(With(labels, name), name) && !Carries(Without(labels, name), name)
  {
    hide TsNorm;
    var more := labels + [name];
    assert more[|labels|] == name;
  }

  /** Adding a label makes the scan find the message under every spelling of it, removing one makes it
      miss the message under every spelling; other labels are not disturbed. */
  lemma AddThenRemove(labels: seq<string>, name: string, query: string)
    ensures Carries(With(labels, name), query) <==> Carries(labels, query) || TsNorm(query) == TsNorm(name)
    ensures Carries(Without(labels, name), query) <==> Carries(labels, query) && TsNorm(query) != TsNorm(name)
  {
    hide TsNorm;
    var more, less := With(labels, name), Without(labels, name);
    CarriesMeans(labels, name);
    if Carries(labels, query) {
      var i :| 0 <= i < |labels| && TsNorm(labels[i]) == TsNorm(query);
      assert more[i] == labels[i];
      if TsNorm(query) != TsNorm(name) {
        assert labels[i] in less;
      }
    }
    if Carries(less, query) {
      var i :| 0 <= i < |less| && TsNorm(less[i]) == TsNorm(query);
      assert less[i] in labels;
    }
  }
}
