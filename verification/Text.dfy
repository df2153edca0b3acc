/** ASCII text as the repository's string operations see it: case folding, trimming, searching
    and the code-unit order used by every comparator. */
module Text {
  /** White space that JavaScript's `trim` and `\s` recognise among the ASCII characters. */
  predicate IsSpace(c: char) {
    c == ' ' || '\t' <= c <= '\r'
  }

  function LowerChar(c: char): (r: char)
    ensures r == c || ('A' <= c <= 'Z' && 'a' <= r <= 'z')
    ensures !('A' <= r <= 'Z')
  {
    if 'A' <= c <= 'Z' then c - 'A' + 'a' else c
  }

  function Lower(s: string): (r: string)
    ensures |r| == |s|
    ensures forall i :: 0 <= i < |s| ==> r[i] == LowerChar(s[i])
  {
    seq(|s|, i requires 0 <= i < |s| => LowerChar(s[i]))
  }

  /** Two spellings that differ only in letter case. */
  predicate SameLetters(a: string, b: string) {
    Lower(a) == Lower(b)
  }

  lemma LowerIdempotent(s: string)
    ensures Lower(Lower(s)) == Lower(s)
  {}

  lemma LowerAppend(a: string, b: string)
    ensures Lower(a + b) == Lower(a) + Lower(b)
  {}

  // ---------------------------------------------------------------- trimming

  ghost predicate All(s: string, p: char -> bool) {
    forall i :: 0 <= i < |s| ==> p(s[i])
  }

  /** Neither end of `s` satisfies `p`. */
  ghost predicate CleanEnds(s: string, p: char -> bool) {
    s == "" || (!p(s[0]) && !p(s[|s| - 1]))
  }

  function TrimStart(s: string, p: char -> bool): (r: string) {
    if s != "" && p(s[0]) then TrimStart(s[1..], p) else s
  }

  function TrimEnd(s: string, p: char -> bool): (r: string) {
    if s != "" && p(s[|s| - 1]) then TrimEnd(s[..|s| - 1], p) else s
  }

  function TrimBy(s: string, p: char -> bool): (r: string) {
    TrimEnd(TrimStart(s, p), p)
  }

  function Trim(s: string): (r: string) {
    TrimBy(s, IsSpace)
  }

  lemma {:induction false} TrimStartSplits(s: string, p: char -> bool) returns (a: string)
    ensures s == a + TrimStart(s, p) && All(a, p)
    ensures TrimStart(s, p) != "" ==> !p(TrimStart(s, p)[0])
  {
    a := "";
    if s != "" && p(s[0]) {
      var b := TrimStartSplits(s[1..], p);
      a := [s[0]] + b;
      assert s == [s[0]] + s[1..];
    }
  }

  lemma {:induction false} TrimEndSplits(s: string, p: char -> bool) returns (b: string)
    ensures s == TrimEnd(s, p) + b && All(b, p)
    ensures TrimEnd(s, p) != "" ==> !p(TrimEnd(s, p)[|TrimEnd(s, p)| - 1])
  {
    b := "";
    if s != "" && p(s[|s| - 1]) {
      var c := TrimEndSplits(s[..|s| - 1], p);
      b := c + [s[|s| - 1]];
      assert s == s[..|s| - 1] + [s[|s| - 1]];
    }
  }

  /** What trimming removes and what it leaves. */
  lemma TrimSplits(s: string, p: char -> bool) returns (a: string, b: string)
    ensures s == a + TrimBy(s, p) + b && All(a, p) && All(b, p)
    ensures CleanEnds(TrimBy(s, p), p)
  {
    a := TrimStartSplits(s, p);
    var m := TrimStart(s, p);
    b := TrimEndSplits(m, p);
    var t := TrimEnd(m, p);
    assert t != "" ==> t[0] == m[0];
  }

  lemma {:induction false} TrimStartOf(a: string, t: string, p: char -> bool)
    requires All(a, p) && (t == "" || !p(t[0]))
    ensures TrimStart(a + t, p) == t
  {
    if a != "" {
      assert (a + t)[1..] == a[1..] + t;
      TrimStartOf(a[1..], t, p);
    } else {
      assert a + t == t;
    }
  }

  lemma {:induction false} TrimEndOf(t: string, b: string, p: char -> bool)
    requires All(b, p) && (t == "" || !p(t[|t| - 1]))
    ensures TrimEnd(t + b, p) == t
  {
    if b != "" {
      assert (t + b)[..|t + b| - 1] == t + b[..|b| - 1];
      TrimEndOf(t, b[..|b| - 1], p);
    } else {
      assert t + b == t;
    }
  }

  /** Any decomposition of the shape `TrimSplits` gives is the one trimming finds. */
  lemma TrimUnique(a: string, t: string, b: string, p: char -> bool)
    requires All(a, p) && All(b, p) && CleanEnds(t, p)
    ensures TrimBy(a + t + b, p) == t
  {
    if t == "" {
      assert a + t + b == (a + b) + "";
      TrimStartOf(a + b, "", p);
    } else {
      assert a + t + b == a + (t + b);
      TrimStartOf(a, t + b, p);
      TrimEndOf(t, b, p);
    }
  }

  lemma TrimIdempotent(s: string)
    ensures Trim(Trim(s)) == Trim(s)
  {
    var a, b := TrimSplits(s, IsSpace);
    TrimUnique("", Trim(s), "", IsSpace);
    assert "" + Trim(s) + "" == Trim(s);
  }

  lemma LowerKeepsSpaces(a: string)
    requires All(a, IsSpace)
    ensures All(Lower(a), IsSpace)
  {}

  lemma LowerKeepsCleanEnds(t: string)
    requires CleanEnds(t, IsSpace)
    ensures CleanEnds(Lower(t), IsSpace)
  {}

  lemma TrimLower(s: string)
    ensures Trim(Lower(s)) == Lower(Trim(s))
  {
    var a, b := TrimSplits(s, IsSpace);
    var t := Trim(s);
    assert Lower(s) == Lower(a) + Lower(t) + Lower(b) by {
      LowerAppend(a + t, b);
      LowerAppend(a, t);
    }
    LowerKeepsSpaces(a);
    LowerKeepsSpaces(b);
    LowerKeepsCleanEnds(t);
    TrimUnique(Lower(a), Lower(t), Lower(b), IsSpace);
  }

  lemma TrimOfSpaceless(s: string)
    requires forall i :: 0 <= i < |s| ==> !IsSpace(s[i])
    ensures Trim(s) == s
  {
    TrimUnique("", s, "", IsSpace);
    assert "" + s + "" == s;
  }

  // ---------------------------------------------------------------- searching

  /** JavaScript's `indexOf` and SQLite's `instr`, with the length standing for "absent". */
  function IndexOf(s: string, c: char): (i: nat)
    ensures i <= |s|
    ensures i < |s| ==> s[i] == c
    ensures forall j :: 0 <= j < i ==> s[j] != c
  {
    if s == "" || s[0] == c then 0 else 1 + IndexOf(s[1..], c)
  }

  lemma IndexOfUnique(s: string, c: char, i: nat)
    requires i <= |s| && (i < |s| ==> s[i] == c) && forall j :: 0 <= j < i ==> s[j] != c
    ensures IndexOf(s, c) == i
  {}

  /** A character that case folding neither changes nor produces. */
  predicate Caseless(c: char) {
    !('a' <= c <= 'z') && !('A' <= c <= 'Z')
  }

  lemma IndexOfLower(s: string, c: char)
    requires Caseless(c)
    ensures IndexOf(Lower(s), c) == IndexOf(s, c)
  {
    var i := IndexOf(s, c);
    assert i < |s| ==> s[i] == c;
    IndexOfUnique(Lower(s), c, i);
  }

  predicate StartsWith(s: string, prefix: string) {
    |prefix| <= |s| && s[..|prefix|] == prefix
  }

  predicate OccursAt(s: string, needle: string, i: nat) {
    i + |needle| <= |s| && s[i..i + |needle|] == needle
  }

  /** JavaScript's `includes`. */
  predicate Includes(s: string, needle: string) {
    exists i: nat :: i <= |s| && OccursAt(s, needle, i)
  }

  // ---------------------------------------------------------------- code-unit order

  /** `a < b` as JavaScript compares strings and SQLite's BINARY collation compares ASCII text. */
  predicate Less(a: string, b: string) {
    b != "" && (a == "" || a[0] < b[0] || (a[0] == b[0] && Less(a[1..], b[1..])))
  }

  lemma {:induction false} LessTotal(a: string, b: string)
    ensures a == b || Less(a, b) || Less(b, a)
    ensures !(Less(a, b) && Less(b, a))
    ensures Less(a, b) ==> a != b
  {
    if a != "" && b != "" && a[0] == b[0] {
      assert a == [a[0]] + a[1..] && b == [b[0]] + b[1..];
      LessTotal(a[1..], b[1..]);
    }
  }

  lemma {:induction false} LessTransitive(a: string, b: string, c: string)
    requires Less(a, b) && Less(b, c)
    ensures Less(a, c)
  {
    if a != "" && a[0] == b[0] == c[0] {
      LessTransitive(a[1..], b[1..], c[1..]);
    }
  }

  lemma LessTail(a: string, b: string)
    requires a != "" && b != "" && a[0] == b[0]
    ensures |a| < |b| ==> (a == b[..|a|] <==> a[1..] == b[1..][..|a| - 1])
    ensures (exists k :: 0 <= k < |a| && k < |b| && a[..k] == b[..k] && a[k] < b[k]) <==>
              exists k :: 0 <= k < |a[1..]| && k < |b[1..]| && a[1..][..k] == b[1..][..k] && a[1..][k] < b[1..][k]
  {
    if |a| < |b| {
      assert b[..|a|] == [b[0]] + b[1..][..|a| - 1] && a == [a[0]] + a[1..];
    }
    forall k | 0 < k < |a| && k < |b|
      ensures a[..k] == b[..k] <==> a[1..][..k - 1] == b[1..][..k - 1]
    {
      assert a[..k] == [a[0]] + a[1..][..k - 1] && b[..k] == [b[0]] + b[1..][..k - 1];
    }
    if k :| 0 <= k < |a| && k < |b| && a[..k] == b[..k] && a[k] < b[k] {
      assert a[1..][k - 1] < b[1..][k - 1];
    }
    if k :| 0 <= k < |a[1..]| && k < |b[1..]| && a[1..][..k] == b[1..][..k] && a[1..][k] < b[1..][k] {
      assert a[k + 1] < b[k + 1] && a[..k + 1] == b[..k + 1];
    }
  }

  /** What comes first is a proper prefix, or smaller at the first place where the two differ. */
  lemma {:induction false} LessMeans(a: string, b: string)
    ensures Less(a, b) <==>
              || (|a| < |b| && a == b[..|a|])
              || exists k :: 0 <= k < |a| && k < |b| && a[..k] == b[..k] && a[k] < b[k]
    decreases |b|
  {
    if a == "" || b == "" {
    } else if a[0] != b[0] {
      assert a[0] < b[0] ==> a[..0] == b[..0];
      assert forall k :: 0 < k < |a| && k < |b| ==> a[..k][0] == a[0] && b[..k][0] == b[0];
      assert |a| < |b| ==> b[..|a|][0] == b[0];
    } else {
      LessMeans(a[1..], b[1..]);
      LessTail(a, b);
    }
  }

  /** Lower case pairs the capitals with the small letters, and leaves every other character. */
  lemma LowerMeans(s: string, i: nat)
    requires i < |s|
    ensures 'A' <= s[i] <= 'Z' ==> Lower(s)[i] as int - 97 == s[i] as int - 65
    ensures !('A' <= s[i] <= 'Z') ==> Lower(s)[i] == s[i]
  {}

  /** Space, tab, line feed, vertical tab, form feed and carriage return. */
  lemma SpaceMeans(c: char)
    ensures IsSpace(c) <==> c as int == 32 || 9 <= c as int <= 13
  {}
}
