/** What `canonicalSender` accepts and answers, said of the text itself. */
module SenderMeaning {
  import opened Wrappers
  import opened Text
  import opened EmailAddress

  // ---------------------------------------------------------------- what a sender looks like

  ghost predicate LetterOrDigit(c: char) {
    48 <= c as int <= 57 || 65 <= c as int <= 90 || 97 <= c as int <= 122
  }

  /** A letter, a digit, or one of the marks a local part may hold. */
  ghost predicate LocalMark(c: char) {
    LetterOrDigit(c) || c in "!#$%&'*+-./=?^_`{|}~"
  }

  /** 1 to 64 marks, no dot at either end and no two in a row. */
  ghost predicate LocalPart(s: string) {
    && 1 <= |s| <= 64
    && (forall i :: 0 <= i < |s| ==> LocalMark(s[i]))
    && s[0] != '.' && s[|s| - 1] != '.'
    && forall i, j :: 0 <= i < j < |s| && s[i] == '.' == s[j] ==> j != i + 1
  }

  /** 1 to 63 letters, digits and hyphens, with no hyphen at either end. */
  ghost predicate HostLabel(s: string) {
    && 1 <= |s| <= 63
    && (forall i :: 0 <= i < |s| ==> LetterOrDigit(s[i]) || s[i] == '-')
    && s[0] != '-' && s[|s| - 1] != '-'
  }

  function Dotted(labels: seq<string>): string
    requires labels != []
  {
    if |labels| == 1 then labels[0] else labels[0] + "." + Dotted(labels[1..])
  }

  ghost predicate IsDotted(labels: seq<string>, s: string) {
    labels != [] && s == Dotted(labels) && forall i :: 0 <= i < |labels| ==> HostLabel(labels[i])
  }

  /** Host labels joined by dots, 253 characters at most. */
  ghost predicate HostName(s: string) {
    |s| <= 253 && exists labels :: IsDotted(labels, s)
  }

  ghost predicate Address(addr: string) {
    exists local, domain :: addr == local + "@" + domain && LocalPart(local) && HostName(domain)
  }

  /** The text holds this address: it is bare, or stands in the only brackets, which close the text. */
  ghost predicate Holds(value: string, addr: string) {
    || (addr == value && '<' !in value && '>' !in value && forall c :: c in value ==> !IsSpace(c))
    || exists name, inner ::
         && value == name + "<" + inner + ">" && inner != "" && addr == Trim(inner)
         && '<' !in name && '>' !in name && '<' !in inner && '>' !in inner
  }

  // ---------------------------------------------------------------- occurrences of a character

  lemma LacksMeans(s: string, c: char)
    ensures Lacks(s, c) <==> c !in s
  {}

  lemma OnceMeans(s: string, c: char)
    ensures Once(s, c) <==> IndexOf(s, c) < |s| && c !in s[IndexOf(s, c) + 1..]
  {
    var i := IndexOf(s, c);
    if i < |s| {
      LacksMeans(s[i + 1..], c);
    }
  }

  /** A text with the character in one place. */
  lemma OnceAt(a: string, b: string, c: char)
    requires c !in a && c !in b
    ensures Once(a + [c] + b, c) && IndexOf(a + [c] + b, c) == |a|
  {
    var s := a + [c] + b;
    assert s[|a|] == c && forall k :: 0 <= k < |a| ==> s[k] == a[k];
    IndexOfUnique(s, c, |a|);
    assert s[|a| + 1..] == b;
    OnceMeans(s, c);
  }

  lemma OnceSplits(s: string, c: char)
    requires Once(s, c)
    ensures var i := IndexOf(s, c);
            i < |s| && s == s[..i] + [c] + s[i + 1..] && c !in s[..i] && c !in s[i + 1..]
  {
    OnceMeans(s, c);
  }

  // ---------------------------------------------------------------- the address

  lemma CharsMean(c: char)
    ensures IsAlnum(c) <==> LetterOrDigit(c)
    ensures IsLocalChar(c) <==> LocalMark(c)
  {}

  lemma LocalMeans(s: string)
    ensures ValidLocal(s) <==> LocalPart(s)
  {
    hide IsLocalChar, LocalMark;
    forall c
      ensures IsLocalChar(c) <==> LocalMark(c)
    {
      CharsMean(c);
    }
    assert forall i :: 0 <= i < |s| - 1 && s[i] == '.' && s[i + 1] == '.' ==>
             0 <= i < i + 1 < |s| && s[i] == '.' == s[i + 1];
  }

  lemma HyphenIsNone()
    ensures !IsAlnum('-') && !IsAlnum('.') && !IsAlnum('@')
  {}

  lemma LabelMeans(s: string)
    ensures ValidLabel(s) <==> HostLabel(s)
  {
    hide IsAlnum, LetterOrDigit;
    forall c
      ensures IsAlnum(c) <==> LetterOrDigit(c)
    {
      CharsMean(c);
    }
    CharsMean('-');
    assert !IsAlnum('-') by { HyphenIsNone(); }
  }

  lemma LabelLacksDot(s: string)
    requires HostLabel(s)
    ensures '.' !in s && '@' !in s
  {}

  lemma CutAt(s: string, dot: nat)
    requires dot < |s| && s[dot] == '.'
    ensures s == s[..dot] + "." + s[dot + 1..]
  {}

  lemma DottedMore(rest: seq<string>, s: string, dot: nat)
    requires rest != [] && dot < |s| && s[dot] == '.' && s[dot + 1..] == Dotted(rest)
    ensures Dotted([s[..dot]] + rest) == s
  {
    var labels := [s[..dot]] + rest;
    assert labels[1..] == rest && |labels| > 1;
    hide Dotted;
    CutAt(s, dot);
  }

  lemma FirstLabel(labels: seq<string>, s: string)
    requires IsDotted(labels, s)
    ensures var dot := IndexOf(s, '.');
            && labels[0] == s[..dot]
            && (dot < |s| <==> |labels| > 1)
            && (|labels| > 1 ==> s[dot + 1..] == Dotted(labels[1..]))
  {
    hide HostLabel;
    var first := labels[0];
    LabelLacksDot(first);
    if |labels| == 1 {
      LacksMeans(s, '.');
    } else {
      var rest := Dotted(labels[1..]);
      assert s == first + "." + rest && s[|first|] == '.';
      assert forall k :: 0 <= k < |first| ==> s[k] == first[k];
      IndexOfUnique(s, '.', |first|);
      assert s[|first| + 1..] == rest;
    }
  }

  lemma MoreLabels(s: string, dot: nat, rest: seq<string>)
    requires dot < |s| && s[dot] == '.' && HostLabel(s[..dot]) && IsDotted(rest, s[dot + 1..])
    ensures IsDotted([s[..dot]] + rest, s)
  {
    hide HostLabel, Dotted;
    DottedMore(rest, s, dot);
  }

  lemma OneLabel(s: string)
    requires HostLabel(s)
    ensures IsDotted([s], s)
  {
    hide HostLabel;
  }

  lemma FewerLabels(labels: seq<string>, s: string)
    requires IsDotted(labels, s)
    ensures labels != []
    ensures var dot := IndexOf(s, '.');
            HostLabel(s[..dot]) && (dot < |s| ==> IsDotted(labels[1..], s[dot + 1..]))
  {
    hide HostLabel, Dotted, IndexOf;
    FirstLabel(labels, s);
    assert HostLabel(labels[0]);
    var rest := labels[1..];
    forall i | 0 <= i < |rest|
      ensures HostLabel(rest[i])
    {
      assert rest[i] == labels[i + 1];
    }
  }

  lemma {:induction false} LabelsMean(s: string)
    ensures ValidLabels(s) <==> exists labels :: IsDotted(labels, s)
    decreases |s|
  {
    hide HostLabel, ValidLabel, IsDotted;
    var dot := IndexOf(s, '.');
    LabelMeans(s[..dot]);
    assert dot == |s| ==> s[..dot] == s;
    if dot < |s| {
      LabelsMean(s[dot + 1..]);
    }
    if ValidLabels(s) {
      if dot < |s| {
        var rest :| IsDotted(rest, s[dot + 1..]);
        MoreLabels(s, dot, rest);
      } else {
        OneLabel(s);
      }
    }
    if labels :| IsDotted(labels, s) {
      FewerLabels(labels, s);
      assert dot < |s| ==> IsDotted(labels[1..], s[dot + 1..]);
    }
  }

  lemma LowerLabel(s: string)
    ensures ValidLabel(Lower(s)) <==> ValidLabel(s)
  {
    forall i | 0 <= i < |s|
      ensures IsAlnum(Lower(s)[i]) <==> IsAlnum(s[i])
      ensures Lower(s)[i] == '-' <==> s[i] == '-'
    {
      LowerMeans(s, i);
    }
  }

  lemma LowerLabels(s: string)
    ensures ValidLabels(Lower(s)) <==> ValidLabels(s)
    decreases |s|
  {
    hide ValidLabel;
    IndexOfLower(s, '.');
    var dot := IndexOf(s, '.');
    assert Lower(s)[..dot] == Lower(s[..dot]);
    LowerLabel(s[..dot]);
    if dot < |s| {
      assert Lower(s)[dot + 1..] == Lower(s[dot + 1..]);
      LowerLabels(s[dot + 1..]);
    }
  }

  lemma {:induction false} DottedIsPlain(labels: seq<string>, s: string)
    requires IsDotted(labels, s)
    ensures s != "" && '@' !in s && forall i :: 0 <= i < |s| ==> !IsSpace(s[i])
  {
    assert HostLabel(labels[0]);
    LabelLacksDot(labels[0]);
    forall i | 0 <= i < |labels[0]|
      ensures !IsSpace(labels[0][i])
    {}
    if |labels| > 1 {
      var rest := Dotted(labels[1..]);
      assert IsDotted(labels[1..], rest);
      DottedIsPlain(labels[1..], rest);
      hide Dotted, HostLabel;
      assert s == labels[0] + "." + rest;
    }
  }

  lemma LocalIsPlain(s: string)
    requires LocalPart(s)
    ensures '@' !in s && forall i :: 0 <= i < |s| ==> !IsSpace(s[i])
  {
    assert !LocalMark('@');
    forall c | IsSpace(c)
      ensures !LocalMark(c)
    {}
  }

  lemma DomainMeans(domain: string)
    ensures 0 < |domain| <= 253 && ValidLabels(Lower(domain)) <==> HostName(domain)
  {
    hide ValidLabels, IsDotted;
    LowerLabels(domain);
    LabelsMean(domain);
    if labels :| IsDotted(labels, domain) {
      DottedIsPlain(labels, domain);
    }
  }

  lemma AddressSplits(addr: string)
    requires ValidAddress(addr)
    ensures Address(addr)
  {
    hide IndexOf, ValidLocal, ValidLabels, LocalPart, HostName, Once, HasSpace, Lower;
    var at := IndexOf(addr, '@');
    OnceSplits(addr, '@');
    LocalMeans(addr[..at]);
    DomainMeans(addr[at + 1..]);
    assert addr == addr[..at] + "@" + addr[at + 1..];
  }

  lemma AddressJoins(local: string, domain: string)
    requires LocalPart(local) && HostName(domain)
    ensures ValidAddress(local + "@" + domain)
  {
    var labels :| IsDotted(labels, domain);
    DottedIsPlain(labels, domain);
    LocalIsPlain(local);
    LocalMeans(local);
    DomainMeans(domain);
    OnceAt(local, domain, '@');
    hide IndexOf, ValidLocal, ValidLabels, LocalPart, HostName, Once, Lower;
    var addr := local + "@" + domain;
    assert addr == local + ['@'] + domain;
    assert addr[..|local|] == local && addr[|local| + 1..] == domain;
    forall i | 0 <= i < |addr|
      ensures !IsSpace(addr[i])
    {
      if i < |local| {
        assert addr[i] == local[i];
      } else if i > |local| {
        assert addr[i] == domain[i - |local| - 1];
      }
    }
  }

  lemma AddressMeans(addr: string)
    ensures ValidAddress(addr) <==> Address(addr)
  {
    hide ValidAddress, LocalPart, HostName;
    if ValidAddress(addr) {
      AddressSplits(addr);
    }
    if local, domain :| addr == local + "@" + domain && LocalPart(local) && HostName(domain) {
      AddressJoins(local, domain);
    }
  }

  // ---------------------------------------------------------------- the sender

  lemma BareMeans(value: string)
    ensures Lacks(value, '<') && Lacks(value, '>') && !HasSpace(value) <==>
              '<' !in value && '>' !in value && forall c :: c in value ==> !IsSpace(c)
  {
    LacksMeans(value, '<');
    LacksMeans(value, '>');
    if !HasSpace(value) {
      assert forall c :: c in value ==> !IsSpace(c);
    }
  }

  lemma InBefore(value: string, lt: nat, gt: nat)
    requires lt < gt < |value| && '<' !in value[..lt] && '<' !in value[lt + 1..] && '>' !in value[..gt]
    ensures '>' !in value[..lt] && '<' !in value[lt + 1..gt] && '>' !in value[lt + 1..gt]
  {
    var name, inner, tail, front := value[..lt], value[lt + 1..gt], value[lt + 1..], value[..gt];
    forall k | 0 <= k < |name|
      ensures name[k] != '>'
    {
      assert name[k] == front[k];
    }
    forall k | 0 <= k < |inner|
      ensures inner[k] != '>' && inner[k] != '<'
    {
      assert inner[k] == front[lt + 1 + k] == tail[k];
    }
  }

  lemma BracketedHolds(value: string)
    requires AddrSpec(value).Some? && !(Lacks(value, '<') && Lacks(value, '>'))
    ensures exists name, inner ::
              && value == name + "<" + inner + ">" && inner != "" && AddrSpec(value).value == Trim(inner)
              && '<' !in name && '>' !in name && '<' !in inner && '>' !in inner
  {
    hide Trim, IndexOf, Once;
    var lt, gt := IndexOf(value, '<'), IndexOf(value, '>');
    OnceSplits(value, '<');
    OnceSplits(value, '>');
    var name, inner := value[..lt], value[lt + 1..gt];
    assert value[lt] == '<' && value[gt] == '>' && gt == |value| - 1;
    assert value == name + "<" + inner + ">";
    InBefore(value, lt, gt);
  }

  lemma BracketedSpec(name: string, inner: string)
    requires inner != "" && '<' !in name && '>' !in name && '<' !in inner && '>' !in inner
    ensures AddrSpec(name + "<" + inner + ">") == Some(Trim(inner))
  {
    hide Trim, HasSpace;
    LacksMeans(name, '<');
    LacksMeans(name, '>');
    LacksMeans(inner, '<');
    LacksMeans(inner, '>');
    BracketsAround(name, inner);
    hide IndexOf;
    LacksMeans(name + "<" + inner + ">", '<');
    assert (name + "<" + inner + ">")[|name|] == '<';
  }

  lemma HoldsMeans(value: string, addr: string)
    ensures AddrSpec(value) == Some(addr) <==> Holds(value, addr)
  {
    hide Trim, HasSpace, Lacks, Once, IndexOf;
    BareMeans(value);
    if AddrSpec(value) == Some(addr) && !(Lacks(value, '<') && Lacks(value, '>')) {
      BracketedHolds(value);
    }
    forall name, inner | value == name + "<" + inner + ">" && inner != "" && '<' !in name && '>' !in name
                           && '<' !in inner && '>' !in inner
      ensures AddrSpec(value) == Some(Trim(inner))
    {
      BracketedSpec(name, inner);
    }
  }

  lemma EmptyHoldsNone()
    ensures forall addr :: Holds("", addr) ==> !Address(addr)
  {
    hide LocalPart, HostName;
    forall name: string, inner: string
      ensures name + "<" + inner + ">" != ""
    {
      assert |name + "<" + inner + ">"| > 0;
    }
    forall local: string, domain: string
      ensures local + "@" + domain != ""
    {
      assert |local + "@" + domain| > 0;
    }
  }

  /** The canonical sender of a text is the address that the trimmed text holds, in lower case; there is none
      where it holds none. */
  lemma SenderMeans(from: string, c: string)
    ensures CanonicalSender(from) == Some(c) <==>
              exists addr :: Holds(Trim(from), addr) && Address(addr) && c == Lower(addr)
  {
    hide Trim, AddrSpec, Holds, Address, ValidAddress, Lower;
    var value := Trim(from);
    forall addr
      ensures AddrSpec(value) == Some(addr) <==> Holds(value, addr)
    {
      HoldsMeans(value, addr);
    }
    forall addr
      ensures ValidAddress(addr) <==> Address(addr)
    {
      AddressMeans(addr);
    }
    EmptyHoldsNone();
  }
}
