/** JavaScript's insertion-ordered `Map` from keys to counts, as the batch counters of
    src/db/contacts.ts use it: first by spelling, then by resolved identity. */
module OrderedMap {

  /** One entry of a JavaScript `Map`, in insertion order: the address it was first seen under, and
      how often. */
  datatype Entry<K> = Entry(key: K, email: string, count: nat)

  predicate HasEntry<K(==)>(m: seq<Entry<K>>, key: K) {
    exists i :: 0 <= i < |m| && m[i].key == key
  }

  ghost predicate DistinctEntries<K>(m: seq<Entry<K>>) {
    forall i, j :: 0 <= i < j < |m| ==> m[i].key != m[j].key
  }

  /** Count `n` more under `key`; a new key goes to the end. */
  function Add<K(==)>(m: seq<Entry<K>>, key: K, email: string, n: nat): (r: seq<Entry<K>>) {
    if HasEntry(m, key) then
      seq(|m|, i requires 0 <= i < |m| => if m[i].key == key then m[i].(count := m[i].count + n) else m[i])
    else m + [Entry(key, email, n)]
  }

  function Tally(batch: seq<string>): (r: seq<Entry<string>>) {
    if batch == [] then []
    else
      var email := batch[|batch| - 1];
      Add(Tally(batch[..|batch| - 1]), email, email, 1)
  }

  function Merge<J, K(==)>(entries: seq<Entry<J>>, keyOf: string -> K): (r: seq<Entry<K>>) {
    if entries == [] then []
    else
      var e := entries[|entries| - 1];
      Add(Merge(entries[..|entries| - 1], keyOf), keyOf(e.email), e.email, e.count)
  }

  /** The entries a batch would leave if every address were merged at once. */
  function Grouped<K(==)>(batch: seq<string>, keyOf: string -> K): (r: seq<Entry<K>>) {
    if batch == [] then []
    else
      var email := batch[|batch| - 1];
      Add(Grouped(batch[..|batch| - 1], keyOf), keyOf(email), email, 1)
  }

  lemma AddKeepsDistinct<K>(m: seq<Entry<K>>, key: K, email: string, n: nat)
    requires DistinctEntries(m)
    ensures DistinctEntries(Add(m, key, email, n))
    ensures HasEntry(Add(m, key, email, n), key)
    ensures forall k :: HasEntry(Add(m, key, email, n), k) <==> HasEntry(m, k) || k == key
  {
    var r := Add(m, key, email, n);
    if HasEntry(m, key) {
      forall k | HasEntry(m, k)
        ensures HasEntry(r, k)
      {
        var i :| 0 <= i < |m| && m[i].key == k;
        assert r[i].key == k;
      }
    } else {
      assert r[|m|].key == key;
      forall k | HasEntry(m, k)
        ensures HasEntry(r, k)
      {
        var i :| 0 <= i < |m| && m[i].key == k;
        assert r[i].key == k;
      }
    }
  }

  lemma AddTwice<K>(m: seq<Entry<K>>, key: K, email: string, n: nat, other: string, k: nat)
    requires DistinctEntries(m)
    ensures Add(Add(m, key, email, n), key, other, k) == Add(m, key, email, n + k)
  {
    AddKeepsDistinct(m, key, email, n);
  }

  lemma AddCommutes<K>(m: seq<Entry<K>>, key: K, email: string, n: nat, key': K, email': string, n': nat)
    requires DistinctEntries(m) && HasEntry(m, key)
    ensures Add(Add(m, key, email, n), key', email', n') == Add(Add(m, key', email', n'), key, email, n)
  {
    AddKeepsDistinct(m, key, email, n);
    AddKeepsDistinct(m, key', email', n');
  }

  lemma {:induction false} MergeDistinct<J, K>(entries: seq<Entry<J>>, keyOf: string -> K)
    ensures DistinctEntries(Merge(entries, keyOf))
    ensures forall i :: 0 <= i < |entries| ==> HasEntry(Merge(entries, keyOf), keyOf(entries[i].email))
    ensures forall k :: HasEntry(Merge(entries, keyOf), k) ==>
                        exists i :: 0 <= i < |entries| && keyOf(entries[i].email) == k
  {
    if entries == [] {
    } else {
      var n := |entries| - 1;
      MergeDistinct(entries[..n], keyOf);
      AddKeepsDistinct(Merge(entries[..n], keyOf), keyOf(entries[n].email), entries[n].email, entries[n].count);
      forall i | 0 <= i < |entries|
        ensures HasEntry(Merge(entries, keyOf), keyOf(entries[i].email))
      {
        if i < n {
          assert HasEntry(Merge(entries[..n], keyOf), keyOf(entries[..n][i].email));
        }
      }
      forall k | HasEntry(Merge(entries[..n], keyOf), k)
        ensures exists i :: 0 <= i < |entries| && keyOf(entries[i].email) == k
      {
        var i :| 0 <= i < n && keyOf(entries[..n][i].email) == k;
        assert entries[..n][i] == entries[i];
      }
      assert keyOf(entries[n].email) == keyOf(entries[n].email);
    }
  }

  ghost predicate KeyedByEmail(entries: seq<Entry<string>>) {
    DistinctEntries(entries) && forall i :: 0 <= i < |entries| ==> entries[i].key == entries[i].email
  }

  lemma {:induction false} TallyKeyed(batch: seq<string>)
    ensures KeyedByEmail(Tally(batch))
  {
    if batch == [] {
    } else {
      var n := |batch| - 1;
      TallyKeyed(batch[..n]);
      AddKeepsDistinct(Tally(batch[..n]), batch[n], batch[n], 1);
    }
  }

  /** Counting one more spelling before merging is counting one more address after merging. */
  lemma {:induction false} MergeOneMore<K>(entries: seq<Entry<string>>, email: string, keyOf: string -> K)
    requires KeyedByEmail(entries)
    ensures Merge(Add(entries, email, email, 1), keyOf) == Add(Merge(entries, keyOf), keyOf(email), email, 1)
  {
    var more := Add(entries, email, email, 1);
    if !HasEntry(entries, email) {
      assert more[..|entries|] == entries;
    } else {
      var n := |entries| - 1;
      var before, last := entries[..n], entries[n];
      MergeDistinct(before, keyOf);
      if last.key == email {
        assert more[..n] == before;
        AddTwice(Merge(before, keyOf), keyOf(email), email, last.count, email, 1);
      } else {
        var i :| 0 <= i < |entries| && entries[i].key == email;
        assert before[i].key == email;
        assert HasEntry(before, email);
        assert more[..n] == Add(before, email, email, 1);
        MergeOneMore(before, email, keyOf);
        assert before[i].email == email;
        AddCommutes(Merge(before, keyOf), keyOf(email), email, 1, keyOf(last.email), last.email, last.count);
      }
    }
  }

  /** Counting by spelling and then merging by identity is grouping by identity: nothing is lost,
      and each group keeps the spelling and the place of its first address. */
  lemma {:induction false} MergeTally<K>(batch: seq<string>, keyOf: string -> K)
    ensures Merge(Tally(batch), keyOf) == Grouped(batch, keyOf)
  {
    if batch == [] {
    } else {
      var n := |batch| - 1;
      MergeTally(batch[..n], keyOf);
      TallyKeyed(batch[..n]);
      MergeOneMore(Tally(batch[..n]), batch[n], keyOf);
    }
  }

  // ---------------------------------------------------------------- nothing is lost in merging

  function Sum<K>(m: seq<Entry<K>>): nat {
    if m == [] then 0 else Sum(m[..|m| - 1]) + m[|m| - 1].count
  }

  lemma {:induction false} SumAdd<K>(m: seq<Entry<K>>, key: K, email: string, n: nat)
    requires DistinctEntries(m)
    ensures Sum(Add(m, key, email, n)) == Sum(m) + n
  {
    var r := Add(m, key, email, n);
    if !HasEntry(m, key) {
      assert r[..|m|] == m;
    } else {
      var k := |m| - 1;
      if m[k].key == key {
        assert r[..k] == m[..k];
      } else {
        var i :| 0 <= i < |m| && m[i].key == key;
        assert m[..k][i].key == key;
        assert r[..k] == Add(m[..k], key, email, n);
        SumAdd(m[..k], key, email, n);
      }
    }
  }

  /** The merged counts of a batch add up to its length. */
  lemma {:induction false} SumGrouped<K>(batch: seq<string>, keyOf: string -> K)
    ensures DistinctEntries(Grouped(batch, keyOf)) && Sum(Grouped(batch, keyOf)) == |batch|
  {
    if batch == [] {
    } else {
      var n := |batch| - 1;
      SumGrouped(batch[..n], keyOf);
      AddKeepsDistinct(Grouped(batch[..n], keyOf), keyOf(batch[n]), batch[n], 1);
      SumAdd(Grouped(batch[..n], keyOf), keyOf(batch[n]), batch[n], 1);
    }
  }

  /** Every group carries the key of the address it was first seen under, which is in the batch. */
  lemma {:induction false} GroupedMeans<K>(batch: seq<string>, keyOf: string -> K)
    ensures forall i :: 0 <= i < |Grouped(batch, keyOf)| ==>
              && Grouped(batch, keyOf)[i].key == keyOf(Grouped(batch, keyOf)[i].email)
              && Grouped(batch, keyOf)[i].email in batch
  {
    if batch == [] {
    } else {
      var n := |batch| - 1;
      GroupedMeans(batch[..n], keyOf);
      var g := Grouped(batch[..n], keyOf);
      forall i | 0 <= i < |g|
        ensures g[i].email in batch
      {
        assert g[i].email in batch[..n];
      }
    }
  }

  /** Two ways of keying that tell the same addresses apart make the same groups. */
  lemma {:induction false} SameGroups<J, K>(batch: seq<string>, f: string -> J, g: string -> K)
    requires forall a, b :: a in batch && b in batch ==> (f(a) == f(b) <==> g(a) == g(b))
    ensures |Grouped(batch, f)| == |Grouped(batch, g)|
    ensures forall i :: 0 <= i < |Grouped(batch, f)| ==>
              && Grouped(batch, f)[i].email == Grouped(batch, g)[i].email
              && Grouped(batch, f)[i].count == Grouped(batch, g)[i].count
  {
    if batch == [] {
    } else {
      var n := |batch| - 1;
      var before := batch[..n];
      assert forall a :: a in before ==> a in batch;
      SameGroups(before, f, g);
      GroupedMeans(before, f);
      GroupedMeans(before, g);
      var x, y := Grouped(before, f), Grouped(before, g);
      assert forall i :: 0 <= i < |x| ==> (x[i].key == f(batch[n]) <==> y[i].key == g(batch[n]));
      assert HasEntry(x, f(batch[n])) <==> HasEntry(y, g(batch[n])) by {
        if HasEntry(x, f(batch[n])) {
          var i :| 0 <= i < |x| && x[i].key == f(batch[n]);
          assert y[i].key == g(batch[n]);
        }
        if HasEntry(y, g(batch[n])) {
          var i :| 0 <= i < |y| && y[i].key == g(batch[n]);
          assert x[i].key == f(batch[n]);
        }
      }
    }
  }
}
