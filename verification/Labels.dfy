/** The two label normalisers: the SQL expression that the triggers of src/db/database.ts index under,
    and the function src/db/inbound.local.ts looks labels up with. They are written differently and
    agree only on part of the labels; this module says which part. */
module Labels {
  import opened Text

  const LABEL_LENGTH := 64
  const PASSES := 8

  /** What SQLite's one-argument `TRIM` removes: spaces, and no other white space. */
  predicate IsBlank(c: char) {
    c == ' '
  }

  function BlankChar(c: char): char {
    if IsSpace(c) then ' ' else c
  }

  function DashChar(c: char): char {
    if c == ' ' then '-' else c
  }

  function Blank(s: string): (r: string)
    ensures |r| == |s|
    ensures forall i :: 0 <= i < |s| ==> r[i] == BlankChar(s[i])
  {
    seq(|s|, i requires 0 <= i < |s| => BlankChar(s[i]))
  }

  function Dash(s: string): (r: string)
    ensures |r| == |s|
    ensures forall i :: 0 <= i < |s| ==> r[i] == DashChar(s[i])
  {
    seq(|s|, i requires 0 <= i < |s| => DashChar(s[i]))
  }

  function Slice(s: string, n: nat): (r: string) {
    if |s| <= n then s else s[..n]
  }

  // ---------------------------------------------------------------- the SQL form

  /** `REPLACE(s, '  ', ' ')`: pairs of spaces, left to right, each rewritten once. */
  function Pass(s: string): (r: string) {
    if s == "" then ""
    else if |s| >= 2 && s[0] == ' ' && s[1] == ' ' then " " + Pass(s[2..])
    else [s[0]] + Pass(s[1..])
  }

  function Passes(s: string, n: nat): (r: string)
    decreases n
  {
    if n == 0 then s else Passes(Pass(s), n - 1)
  }

  function SqlFull(name: string): (r: string) {
    Dash(Passes(Blank(Lower(TrimBy(name, IsBlank))), PASSES))
  }

  function SqlNorm(name: string): (r: string) {
    Slice(SqlFull(name), LABEL_LENGTH)
  }

  // ---------------------------------------------------------------- the TypeScript form

  lemma {:induction false} TrimStartShorter(s: string, p: char -> bool)
    ensures |TrimStart(s, p)| <= |s|
  {
    if s != "" && p(s[0]) {
      TrimStartShorter(s[1..], p);
    }
  }

  /** `s.replace(/\s+/g, "-")`. */
  function DashRuns(s: string): (r: string)
    decreases |s|
  {
    if s == "" then ""
    else if IsSpace(s[0]) then
      TrimStartShorter(s[1..], IsSpace);
      "-" + DashRuns(TrimStart(s[1..], IsSpace))
    else [s[0]] + DashRuns(s[1..])
  }

  function TsFull(name: string): (r: string) {
    DashRuns(Lower(Trim(name)))
  }

  function TsNorm(name: string): (r: string) {
    Slice(TsFull(name), LABEL_LENGTH)
  }

  // ---------------------------------------------------------------- runs of spaces

  function LeadRun(s: string): (n: nat)
    ensures n <= |s|
  {
    if s != "" && s[0] == ' ' then 1 + LeadRun(s[1..]) else 0
  }

  /** The length of the longest run of spaces. */
  function MaxRun(s: string): (n: nat)
    ensures n >= LeadRun(s)
  {
    if s == "" then 0
    else if MaxRun(s[1..]) > LeadRun(s) then MaxRun(s[1..])
    else LeadRun(s)
  }

  /** Every run of spaces becomes one space. */
  function Collapse(s: string): (r: string)
    ensures |r| <= |s|
  {
    if s == "" then ""
    else if |s| >= 2 && s[0] == ' ' && s[1] == ' ' then Collapse(s[1..])
    else [s[0]] + Collapse(s[1..])
  }

  lemma {:induction false} LeadRunHalves(s: string)
    ensures LeadRun(Pass(s)) == (LeadRun(s) + 1) / 2
  {
    if s == "" {
    } else {
      if |s| >= 2 && s[0] == ' ' && s[1] == ' ' {
        LeadRunHalves(s[2..]);
        assert s[1..][1..] == s[2..];
        assert LeadRun(s) == 2 + LeadRun(s[2..]);
        assert Pass(s)[1..] == Pass(s[2..]);
      } else {
        LeadRunHalves(s[1..]);
        assert Pass(s)[1..] == Pass(s[1..]);
      }
    }
  }

  /** One pass takes a run of n spaces to one of n/2, rounded up. */
  lemma {:induction false} PassHalves(s: string)
    ensures MaxRun(Pass(s)) == (MaxRun(s) + 1) / 2
  {
    if s == "" {
    } else {
      LeadRunHalves(s);
      if |s| >= 2 && s[0] == ' ' && s[1] == ' ' {
        PassHalves(s[2..]);
        assert s[1..][1..] == s[2..];
        assert Pass(s)[1..] == Pass(s[2..]);
      } else {
        PassHalves(s[1..]);
        assert Pass(s)[1..] == Pass(s[1..]);
      }
    }
  }

  function Halved(n: nat, k: nat): nat {
    if k == 0 then n else (Halved(n, k - 1) + 1) / 2
  }

  lemma HalvedEight(n: nat)
    ensures Halved(n, 8) == (n + 255) / 256
  {
    var a, b, c := Halved(n, 2), Halved(n, 4), Halved(n, 6);
    assert Halved(n, 1) == (n + 1) / 2;
    assert a == (n + 3) / 4;
    assert Halved(n, 3) == (a + 1) / 2;
    assert b == (a + 3) / 4;
    assert Halved(n, 5) == (b + 1) / 2;
    assert c == (b + 3) / 4;
    assert Halved(n, 7) == (c + 1) / 2;
    assert Halved(n, 8) == (c + 3) / 4;
  }

  /** The eight passes together take a run of n spaces to one of n/256, rounded up. */
  lemma EightPasses(s: string)
    ensures MaxRun(Passes(s, PASSES)) == (MaxRun(s) + 255) / 256
  {
    var t := s;
    var n := MaxRun(s);
    for k := 0 to 8
      invariant Passes(t, (8 - k) as nat) == Passes(s, PASSES)
      invariant MaxRun(t) == Halved(n, k)
    {
      PassHalves(t);
      t := Pass(t);
    }
    HalvedEight(n);
  }

  lemma {:induction false} PassCollapses(s: string)
    ensures Collapse(Pass(s)) == Collapse(s)
    ensures s != "" ==> Pass(s) != "" && Pass(s)[0] == s[0]
  {
    if s == "" {
    } else {
      if |s| >= 2 && s[0] == ' ' && s[1] == ' ' {
        var v := s[2..];
        PassCollapses(v);
        assert s[1..][1..] == v;
        assert Pass(s)[1..] == Pass(v);
        assert Collapse(s) == Collapse(s[1..]);
      } else {
        PassCollapses(s[1..]);
        assert Pass(s)[1..] == Pass(s[1..]);
      }
    }
  }

  lemma {:induction false} PassesCollapse(s: string, n: nat)
    ensures Collapse(Passes(s, n)) == Collapse(s)
    decreases n
  {
    if n == 0 {
    } else {
      PassCollapses(s);
      PassesCollapse(Pass(s), n - 1);
    }
  }

  /** A text is as short as its collapsed form exactly when it has no run of two spaces. */
  lemma {:induction false} CollapsedExactly(s: string)
    ensures MaxRun(s) <= 1 ==> Collapse(s) == s
    ensures MaxRun(s) > 1 ==> |Collapse(s)| < |s|
  {
    if s == "" {
    } else {
      assert s == [s[0]] + s[1..];
      CollapsedExactly(s[1..]);
    }
  }

  // ---------------------------------------------------------------- the TypeScript form collapses

  lemma {:induction false} BlankTrimStart(s: string)
    ensures TrimStart(Blank(s), IsBlank) == Blank(TrimStart(s, IsSpace))
  {
    if s == "" {
    } else {
      assert Blank(s)[1..] == Blank(s[1..]);
      if IsSpace(s[0]) {
        BlankTrimStart(s[1..]);
      }
    }
  }

  lemma {:induction false} CollapseRun(s: string)
    requires s != "" && s[0] == ' '
    ensures Collapse(s) == " " + Collapse(TrimStart(s[1..], IsBlank))
  {
    if |s| >= 2 && s[1] == ' ' {
      CollapseRun(s[1..]);
    }
  }

  lemma {:induction false} DashAppend(a: string, b: string)
    ensures Dash(a + b) == Dash(a) + Dash(b)
  {}

  /** Replacing every white-space run by a dash is blanking, collapsing and dashing. */
  lemma {:induction false} DashRunsCollapses(s: string)
    ensures DashRuns(s) == Dash(Collapse(Blank(s)))
    decreases |s|
  {
    if s == "" {
    } else {
      var b := Blank(s);
      assert b[1..] == Blank(s[1..]);
      if IsSpace(s[0]) {
        TrimStartShorter(s[1..], IsSpace);
        CollapseRun(b);
        BlankTrimStart(s[1..]);
        DashRunsCollapses(TrimStart(s[1..], IsSpace));
        DashAppend(" ", Collapse(TrimStart(b[1..], IsBlank)));
        assert Dash(" ") == "-";
      } else {
        DashRunsCollapses(s[1..]);
        DashAppend([b[0]], Collapse(b[1..]));
        assert Dash([b[0]]) == [s[0]];
      }
    }
  }

  // ---------------------------------------------------------------- where the two agree

  /** Once spaces are trimmed off the label, no other white space is left at its ends, and no run of
      white space is longer than 256. */
  predicate Agreeing(name: string) {
    && TrimBy(name, IsBlank) == Trim(name)
    && MaxRun(Blank(Trim(name))) <= 256
  }

  lemma BlankLower(s: string)
    ensures Blank(Lower(s)) == Lower(Blank(s))
  {}

  lemma {:induction false} LeadRunLower(s: string)
    ensures LeadRun(Lower(s)) == LeadRun(s)
  {
    if s == "" {
    } else {
      assert Lower(s)[1..] == Lower(s[1..]);
      LeadRunLower(s[1..]);
    }
  }

  lemma {:induction false} MaxRunLower(s: string)
    ensures MaxRun(Lower(s)) == MaxRun(s)
  {
    LeadRunLower(s);
    if s == "" {
    } else {
      assert Lower(s)[1..] == Lower(s[1..]);
      MaxRunLower(s[1..]);
    }
  }

  lemma {:induction false} CollapseDrops(s: string)
    requires s != ""
    ensures |Collapse(s)| >= |Collapse(s[1..])|
    ensures s[0] != ' ' || (|s| >= 2 && s[1] != ' ') || |s| == 1 ==> |Collapse(s)| == 1 + |Collapse(s[1..])|
  {}

  lemma {:induction false} CollapseSuffix(a: string, b: string)
    ensures |Collapse(a + b)| >= |Collapse(b)|
    ensures a != "" && (b == "" || b[0] != ' ') ==> |Collapse(a + b)| > |Collapse(b)|
  {
    if a != "" {
      assert (a + b)[1..] == a[1..] + b;
      CollapseSuffix(a[1..], b);
      CollapseDrops(a + b);
    } else {
      assert a + b == b;
    }
  }

  lemma {:induction false} CollapseNotEmpty(s: string)
    requires s != ""
    ensures Collapse(s) != ""
  {
    if |s| >= 2 && s[0] == ' ' && s[1] == ' ' {
      CollapseNotEmpty(s[1..]);
    }
  }

  lemma {:induction false} CollapsePrefix(a: string, b: string)
    ensures |Collapse(a + b)| >= |Collapse(a)|
    ensures b != "" && (a == "" || a[|a| - 1] != ' ') ==> |Collapse(a + b)| > |Collapse(a)|
  {
    if a == "" {
      assert a + b == b;
      if b != "" {
        CollapseDrops(b);
        CollapseNotEmpty(b);
      }
    } else {
      assert (a + b)[1..] == a[1..] + b;
      CollapsePrefix(a[1..], b);
      if |a| == 1 {
        assert a[1..] + b == b;
      }
    }
  }

  /** The whole of a label seen through SQLite's narrower trim: white space, what JavaScript keeps,
      and white space again. */
  lemma BlankTrimAround(name: string) returns (a: string, b: string)
    ensures TrimBy(name, IsBlank) == a + Trim(name) + b
    ensures All(a, IsSpace) && All(b, IsSpace)
  {
    var t := TrimBy(name, IsBlank);
    a, b := TrimSplits(t, IsSpace);
    var c, d := TrimSplits(name, IsBlank);
    assert name == (c + a) + Trim(t) + (b + d);
    assert All(c + a, IsSpace) && All(b + d, IsSpace);
    TrimUnique(c + a, Trim(t), b + d, IsSpace);
  }

  lemma BlankAppend(a: string, b: string)
    ensures Blank(a + b) == Blank(a) + Blank(b)
  {}

  /** What SQLite keeps collapses to no less than what JavaScript keeps, and to more exactly when its
      trim left white space at an end. */
  lemma CollapseAround(name: string)
    ensures var narrow, wide := Blank(TrimBy(name, IsBlank)), Blank(Trim(name));
            && |Collapse(narrow)| >= |Collapse(wide)|
            && (TrimBy(name, IsBlank) != Trim(name) ==> |Collapse(narrow)| > |Collapse(wide)|)
  {
    var a, b := BlankTrimAround(name);
    var t := Trim(name);
    var x, y := TrimSplits(name, IsSpace);
    BlankAppend(a + t, b);
    BlankAppend(a, t);
    var u, v, w := Blank(a), Blank(t), Blank(b);
    CollapseSuffix(u, v);
    CollapsePrefix(u + v, w);
    if a == "" && b == "" {
      assert a + t + b == t;
    } else if a == "" {
      assert u + v == v;
    }
  }

  lemma {:induction false} CollapseLower(s: string)
    ensures |Collapse(Lower(s))| == |Collapse(s)|
  {
    if s == "" {
    } else {
      assert Lower(s)[1..] == Lower(s[1..]);
      CollapseLower(s[1..]);
    }
  }

  lemma CollapseOfLower(s: string)
    ensures |Collapse(Blank(Lower(s)))| == |Collapse(Blank(s))|
  {
    BlankLower(s);
    CollapseLower(Blank(s));
  }

  /** The SQL form is never the shorter one, and the two have the same length only when they agree. */
  lemma LengthsTell(name: string)
    ensures |SqlFull(name)| >= |TsFull(name)|
    ensures |SqlFull(name)| == |TsFull(name)| <==> Agreeing(name)
    ensures Agreeing(name) ==> SqlFull(name) == TsFull(name)
  {
    hide Collapse, MaxRun, Passes, TrimBy;
    var narrow, wide := TrimBy(name, IsBlank), Trim(name);
    var u := Blank(Lower(narrow));
    DashRunsCollapses(Lower(wide));
    CollapseAround(name);
    CollapseOfLower(narrow);
    CollapseOfLower(wide);
    PassesCollapse(u, PASSES);
    EightPasses(u);
    CollapsedExactly(Passes(u, PASSES));
    BlankLower(narrow);
    MaxRunLower(Blank(narrow));
  }

  /** Before they are cut to 64 characters, the two normalisers agree on exactly the agreeing labels. */
  lemma FullFormsAgree(name: string)
    ensures SqlFull(name) == TsFull(name) <==> Agreeing(name)
  {
    LengthsTell(name);
  }

  /** As stored and looked up: they agree on every agreeing label, and on no other one whose looked-up
      form is short enough not to be cut. */
  lemma NormalisersAgree(name: string)
    ensures Agreeing(name) ==> SqlNorm(name) == TsNorm(name)
    ensures |TsNorm(name)| < LABEL_LENGTH ==> (SqlNorm(name) == TsNorm(name) <==> Agreeing(name))
  {
    LengthsTell(name);
  }

  // ---------------------------------------------------------------- how tight that is

  function Spaces(n: nat): (r: string)
    ensures |r| == n && forall i :: 0 <= i < n ==> r[i] == ' '
  {
    seq(n, _ => ' ')
  }

  lemma {:induction false} RunOfSpaces(n: nat, rest: string)
    requires rest != "" && rest[0] != ' ' && MaxRun(rest) == 0
    ensures MaxRun(Spaces(n) + rest) == n && LeadRun(Spaces(n) + rest) == n
  {
    if n == 0 {
      assert Spaces(0) + rest == rest;
    } else {
      RunOfSpaces(n - 1, rest);
      assert (Spaces(n) + rest)[1..] == Spaces(n - 1) + rest;
    }
  }

  lemma {:induction false} CollapseOfRun(n: nat)
    ensures |Collapse(Spaces(n) + "b")| <= 2
  {
    if n <= 1 {
      assert (Spaces(n) + "b")[n..] == "b";
      assert n == 1 ==> Spaces(1) + "b" == [' '] + "b";
    } else {
      assert (Spaces(n) + "b")[1..] == Spaces(n - 1) + "b";
      CollapseOfRun(n - 1);
    }
  }

  lemma ShapeOfRun(n: nat)
    ensures var name := "a" + Spaces(n) + "b";
            Lower(name) == name && Blank(name) == name && MaxRun(name) == n && |Collapse(name)| <= 3
  {
    var name := "a" + Spaces(n) + "b";
    assert name[1..] == Spaces(n) + "b";
    RunOfSpaces(n, "b");
    CollapseOfRun(n);
  }

  /** Neither trim touches a text whose ends are not white space. */
  lemma NothingToTrim(s: string)
    requires CleanEnds(s, IsSpace)
    ensures Trim(s) == s && TrimBy(s, IsBlank) == s
  {
    assert "" + s + "" == s;
    TrimUnique("", s, "", IsSpace);
    TrimUnique("", s, "", IsBlank);
  }

  /** A run of 256 spaces is still normalised alike; one of 257 is not. */
  lemma LongestRun(n: nat)
    ensures SqlNorm("a" + Spaces(n) + "b") == TsNorm("a" + Spaces(n) + "b") <==> n <= 256
  {
    hide Trim, TrimBy, SqlNorm, DashRuns, Collapse, MaxRun;
    var name := "a" + Spaces(n) + "b";
    NothingToTrim(name);
    ShapeOfRun(n);
    DashRunsCollapses(name);
    NormalisersAgree(name);
  }

  lemma {:induction false} SamePasses(s: string, n: nat)
    requires Pass(s) == s
    ensures Passes(s, n) == s
    decreases n
  {
    if n == 0 {
    } else {
      SamePasses(s, n - 1);
    }
  }

  /** A label may begin and end with no tab or line break and still be read in two ways: a space hides
      the tab from SQLite's trim. */
  lemma SpaceHidesTab()
    ensures SqlNorm(" \ta") == "-a" && TsNorm(" \ta") == "a"
  {
    TrimUnique(" ", "\ta", "", IsBlank);
    assert " " + "\ta" + "" == " \ta";
    TrimUnique(" \t", "a", "", IsSpace);
    assert " \t" + "a" + "" == " \ta";
    var u := Blank(Lower("\ta"));
    assert u == " a";
    assert Pass(u) == u by {
      assert u[1..] == "a" && Pass("a") == "a";
    }
    SamePasses(u, PASSES);
    assert Dash(u) == "-a";
    assert Lower("a") == "a";
    assert DashRuns("a") == "a";
  }

  // ---------------------------------------------------------------- normal labels

  /** What a normalised label looks like: no white space, no capital. */
  predicate Settled(s: string) {
    forall i :: 0 <= i < |s| ==> !IsSpace(s[i]) && !('A' <= s[i] <= 'Z')
  }

  lemma {:induction false} DashRunsSettled(s: string)
    requires forall i :: 0 <= i < |s| ==> !('A' <= s[i] <= 'Z')
    ensures Settled(DashRuns(s))
    decreases |s|
  {
    if s == "" {
    } else {
      if IsSpace(s[0]) {
        TrimStartShorter(s[1..], IsSpace);
        var a := TrimStartSplits(s[1..], IsSpace);
        var rest := TrimStart(s[1..], IsSpace);
        forall i | 0 <= i < |rest|
          ensures !('A' <= rest[i] <= 'Z')
        {
          assert s[1..][|a| + i] == rest[i];
        }
        DashRunsSettled(rest);
      } else {
        DashRunsSettled(s[1..]);
      }
    }
  }

  lemma {:induction false} DashRunsOfSettled(s: string)
    requires Settled(s)
    ensures DashRuns(s) == s
    decreases |s|
  {
    if s == "" {
    } else {
      DashRunsOfSettled(s[1..]);
      assert s == [s[0]] + s[1..];
    }
  }

  lemma TsNormSettled(name: string)
    ensures Settled(TsNorm(name)) && |TsNorm(name)| <= LABEL_LENGTH
  {
    DashRunsSettled(Lower(Trim(name)));
  }

  lemma {:induction false} NoRuns(s: string)
    requires Settled(s)
    ensures MaxRun(s) == 0 && Blank(s) == s
  {
    if s == "" {
    } else {
      NoRuns(s[1..]);
    }
  }

  /** Both normalisers leave a settled label of at most 64 characters alone. */
  lemma SettledStays(s: string)
    requires Settled(s) && |s| <= LABEL_LENGTH
    ensures TsNorm(s) == s && SqlNorm(s) == s
  {
    hide Trim, TrimBy, SqlNorm, DashRuns, MaxRun;
    NothingToTrim(s);
    assert Lower(s) == s;
    DashRunsOfSettled(s);
    NoRuns(s);
    NormalisersAgree(s);
  }

  /** Normalising twice is normalising once, and SQLite stores a normalised label as it is. */
  lemma TsNormIdempotent(name: string)
    ensures TsNorm(TsNorm(name)) == TsNorm(name) && SqlNorm(TsNorm(name)) == TsNorm(name)
  {
    TsNormSettled(name);
    SettledStays(TsNorm(name));
  }

  /** Both forms are cut to their first 64 characters. */
  lemma CutAt64(name: string)
    ensures TsNorm(name) <= TsFull(name) && |TsNorm(name)| == if |TsFull(name)| <= 64 then |TsFull(name)| else 64
    ensures SqlNorm(name) <= SqlFull(name) && |SqlNorm(name)| == if |SqlFull(name)| <= 64 then |SqlFull(name)| else 64
  {
    hide TsFull, SqlFull;
  }
}
