/** Sorting under a comparator, and slicing windows out of a sorted list. */
module Sorting {
  import opened Wrappers

  ghost predicate TotalPreorder<T(!new)>(le: (T, T) -> bool) {
    && (forall a, b :: le(a, b) || le(b, a))
    && (forall a, b, c :: le(a, b) && le(b, c) ==> le(a, c))
  }

  /** No two different members of `s` are tied. */
  ghost predicate NoTies<T>(s: seq<T>, le: (T, T) -> bool) {
    forall a, b | a in s && b in s :: le(a, b) && le(b, a) ==> a == b
  }

  ghost predicate Sorted<T>(s: seq<T>, le: (T, T) -> bool) {
    forall i, j :: 0 <= i < j < |s| ==> le(s[i], s[j])
  }

  function Insert<T>(x: T, s: seq<T>, le: (T, T) -> bool): (r: seq<T>)
    ensures multiset(r) == multiset([x]) + multiset(s)
  {
    if s == [] || le(x, s[0]) then
      assert [x] + s == [x] + s;
      [x] + s
    else
      assert s == [s[0]] + s[1..];
      [s[0]] + Insert(x, s[1..], le)
  }

  /** The stable sort that JavaScript's `Array.prototype.sort` performs. */
  function Sort<T>(s: seq<T>, le: (T, T) -> bool): (r: seq<T>)
    ensures multiset(r) == multiset(s)
    ensures |r| == |s|
  {
    if s == [] then []
    else
      assert s == [s[0]] + s[1..];
      var r := Insert(s[0], Sort(s[1..], le), le);
      assert |multiset(r)| == |multiset(s)|;
      r
  }

  lemma SameMembers<T>(s: seq<T>, t: seq<T>, x: T)
    requires multiset(s) == multiset(t)
    ensures x in s <==> x in t
  {
    assert x in s <==> x in multiset(s);
    assert x in t <==> x in multiset(t);
  }

  lemma {:induction false} InsertSorted<T(!new)>(x: T, s: seq<T>, le: (T, T) -> bool)
    requires TotalPreorder(le) && Sorted(s, le)
    ensures Sorted(Insert(x, s, le), le)
  {
    if !(s == [] || le(x, s[0])) {
      InsertSorted(x, s[1..], le);
      var rest := Insert(x, s[1..], le);
      forall j | 0 <= j < |rest|
        ensures le(s[0], rest[j])
      {
        assert rest[j] in multiset(rest);
        if rest[j] != x {
          assert rest[j] in s[1..];
        }
      }
    }
  }

  lemma {:induction false} SortSorted<T(!new)>(s: seq<T>, le: (T, T) -> bool)
    requires TotalPreorder(le)
    ensures Sorted(Sort(s, le), le)
  {
    if s == [] {
    } else {
      SortSorted(s[1..], le);
      InsertSorted(s[0], Sort(s[1..], le), le);
    }
  }

  lemma TailOfSorted<T>(s: seq<T>, le: (T, T) -> bool)
    requires s != [] && Sorted(s, le)
    ensures Sorted(s[1..], le) && (NoTies(s, le) ==> NoTies(s[1..], le))
    ensures s == [s[0]] + s[1..] && multiset(s[1..]) == multiset(s) - multiset{s[0]}
  {
    assert s == [s[0]] + s[1..];
  }

  lemma SameHead<T>(a: seq<T>, b: seq<T>, le: (T, T) -> bool)
    requires multiset(a) == multiset(b) && Sorted(a, le) && Sorted(b, le) && NoTies(a, le)
    requires a != [] && b != []
    ensures a[0] == b[0]
  {
    SameMembers(a, b, a[0]);
    SameMembers(a, b, b[0]);
    var i :| 0 <= i < |a| && a[i] == b[0];
    var j :| 0 <= j < |b| && b[j] == a[0];
    if i != 0 && j != 0 {
      assert le(a[0], b[0]) && le(b[0], a[0]);
    }
  }

  /** There is only one way to put a tie-free collection in order. */
  lemma {:induction false} SortedUnique<T>(a: seq<T>, b: seq<T>, le: (T, T) -> bool)
    requires multiset(a) == multiset(b) && Sorted(a, le) && Sorted(b, le)
    requires NoTies(a, le)
    ensures a == b
  {
    assert |a| == |multiset(a)| == |multiset(b)| == |b|;
    if a == [] {
    } else {
      hide Sorted, NoTies;
      SameHead(a, b, le);
      TailOfSorted(a, le);
      TailOfSorted(b, le);
      SortedUnique(a[1..], b[1..], le);
    }
  }

  /** Sorting a tie-free collection forgets the order it arrived in. */
  lemma SortForgetsOrder<T(!new)>(a: seq<T>, b: seq<T>, le: (T, T) -> bool)
    requires TotalPreorder(le) && multiset(a) == multiset(b) && NoTies(a, le)
    ensures Sort(a, le) == Sort(b, le)
  {
    SortSorted(a, le);
    SortSorted(b, le);
    var s := Sort(a, le);
    forall x, y | x in s && y in s && le(x, y) && le(y, x)
      ensures x == y
    {
      SameMembers(s, a, x);
      SameMembers(s, a, y);
    }
    SortedUnique(s, Sort(b, le), le);
  }

  // ---------------------------------------------------------------- no member twice

  ghost predicate DistinctBy<T, K>(s: seq<T>, key: T -> K) {
    forall i, j :: 0 <= i < j < |s| ==> key(s[i]) != key(s[j])
  }

  lemma TailDistinct<T, K>(s: seq<T>, key: T -> K)
    requires s != [] && DistinctBy(s, key)
    ensures DistinctBy(s[1..], key) && forall x :: x in s[1..] ==> key(x) != key(s[0])
  {}

  lemma ConsDistinct<T, K>(x: T, s: seq<T>, key: T -> K)
    requires DistinctBy(s, key) && forall y :: y in s ==> key(y) != key(x)
    ensures DistinctBy([x] + s, key)
  {}

  lemma {:induction false} CountOnce<T, K>(s: seq<T>, key: T -> K, x: T)
    requires DistinctBy(s, key)
    ensures multiset(s)[x] <= 1
  {
    if s == [] {
    } else {
      assert s == [s[0]] + s[1..];
      CountOnce(s[1..], key, x);
    }
  }

  /** Rearranging keeps keys distinct. */
  lemma RearrangedDistinct<T, K>(s: seq<T>, t: seq<T>, key: T -> K)
    requires DistinctBy(s, key) && multiset(s) == multiset(t)
    ensures DistinctBy(t, key)
  {
    forall i, j | 0 <= i < j < |t|
      ensures key(t[i]) != key(t[j])
    {
      SameMembers(s, t, t[i]);
      SameMembers(s, t, t[j]);
      var k :| 0 <= k < |s| && s[k] == t[i];
      var m :| 0 <= m < |s| && s[m] == t[j];
      if k == m {
        assert t == t[..j] + [t[j]] + t[j + 1..];
        assert t[..j][i] == t[i] && t[i] in t[..j];
        CountOnce(s, key, t[i]);
      }
    }
  }

  // ---------------------------------------------------------------- windows

  function Min(a: nat, b: nat): nat { if a < b then a else b }

  /** `Math.trunc`. */
  function Truncated(x: real): int {
    if x >= 0.0 then x.Floor else -(-x).Floor
  }

  /** `slice(offset, offset + limit)`; no limit means every row, whatever the offset. */
  function Windowed<T>(rows: seq<T>, limit: Option<nat>, offset: nat): (r: seq<T>) {
    match limit
    case None => rows
    case Some(n) => rows[Min(offset, |rows|)..Min(offset + n, |rows|)]
  }

  /** The first `count` consecutive pages of `size` rows each, one after another. */
  function Pages<T>(rows: seq<T>, size: nat, count: nat): (r: seq<T>) {
    if count == 0 then []
    else Pages(rows, size, count - 1) + Windowed(rows, Some(size), (count - 1) * size)
  }

  lemma WindowExtends<T>(rows: seq<T>, size: nat, offset: nat)
    ensures rows[..Min(offset, |rows|)] + Windowed(rows, Some(size), offset) == rows[..Min(offset + size, |rows|)]
  {}

  /** Consecutive equal windows neither skip nor repeat a row. */
  lemma {:induction false} PagesArePrefix<T>(rows: seq<T>, size: nat, count: nat)
    ensures Pages(rows, size, count) == rows[..Min(count * size, |rows|)]
  {
    if count == 0 {
    } else {
      PagesArePrefix(rows, size, count - 1);
      var m := (count - 1) * size;
      assert count * size == m + size;
      WindowExtends(rows, size, m);
    }
  }
}
