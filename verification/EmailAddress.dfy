/** The strict sender parser (src/lib/email-address.ts) over ASCII text, and the canonical form
    that the contacts, quota and sent-ledger families compare addresses by. */
module EmailAddress {
  import opened Wrappers
  import opened Text

  const MAX_LOCAL_LENGTH := 64
  const MAX_DOMAIN_LENGTH := 253
  const MAX_LABEL_LENGTH := 63

  predicate IsAlnum(c: char) {
    'a' <= c <= 'z' || 'A' <= c <= 'Z' || '0' <= c <= '9'
  }

  predicate IsLocalChar(c: char) {
    IsAlnum(c) || c in ".!#$%&'*+/=?^_`{|}~-"
  }

  predicate HasSpace(s: string) {
    exists i :: 0 <= i < |s| && IsSpace(s[i])
  }

  /** Exactly one occurrence of `c`. */
  predicate Once(s: string, c: char) {
    var i := IndexOf(s, c);
    i < |s| && IndexOf(s[i + 1..], c) == |s| - i - 1
  }

  predicate Lacks(s: string, c: char) {
    IndexOf(s, c) == |s|
  }

  predicate ValidLocal(local: string) {
    && 0 < |local| <= MAX_LOCAL_LENGTH
    && local[0] != '.'
    && local[|local| - 1] != '.'
    && !(exists i :: 0 <= i < |local| - 1 && local[i] == '.' && local[i + 1] == '.')
    && (forall i :: 0 <= i < |local| ==> IsLocalChar(local[i]))
  }

  predicate ValidLabel(part: string) {
    && 0 < |part| <= MAX_LABEL_LENGTH
    && IsAlnum(part[0])
    && IsAlnum(part[|part| - 1])
    && forall i :: 0 <= i < |part| ==> IsAlnum(part[i]) || part[i] == '-'
  }

  /** Every dot-separated label of `domain` is a host name label. */
  predicate ValidLabels(domain: string) {
    var dot := IndexOf(domain, '.');
    ValidLabel(domain[..dot]) && (dot < |domain| ==> ValidLabels(domain[dot + 1..]))
  }

  predicate ValidAddress(addr: string) {
    && Once(addr, '@')
    && !HasSpace(addr)
    && var at := IndexOf(addr, '@');
    && ValidLocal(addr[..at])
    && 0 < |addr| - at - 1 <= MAX_DOMAIN_LENGTH
    && ValidLabels(Lower(addr[at + 1..]))
  }

  /** The addr-spec inside a trimmed sender: the bare text, or what stands between the one `<` and
      the closing `>` at the very end. */
  function AddrSpec(value: string): (r: Option<string>) {
    if Lacks(value, '<') && Lacks(value, '>') then
      if HasSpace(value) then None else Some(value)
    else if !(Once(value, '<') && Once(value, '>')) then
      None
    else
      var lt, gt := IndexOf(value, '<'), IndexOf(value, '>');
      if lt + 1 < gt && gt == |value| - 1 then Some(Trim(value[lt + 1..gt])) else None
  }

  function CanonicalSender(from: string): (r: Option<string>) {
    var value := Trim(from);
    if value == "" then None
    else
      match AddrSpec(value)
      case None => None
      case Some(addr) => if ValidAddress(addr) then Some(Lower(addr)) else None
  }

  /** The form two addresses are compared in: the canonical sender, else the trimmed lower case. */
  function CanonicalOf(value: string): (r: string) {
    match CanonicalSender(value)
    case Some(c) => c
    case None => Lower(Trim(value))
  }

  // ---------------------------------------------------------------- letter case never matters

  lemma OnceLower(s: string, c: char)
    requires Caseless(c)
    ensures Once(Lower(s), c) <==> Once(s, c)
    ensures Lacks(Lower(s), c) <==> Lacks(s, c)
  {
    IndexOfLower(s, c);
    var i := IndexOf(s, c);
    if i < |s| {
      IndexOfLower(s[i + 1..], c);
      assert Lower(s)[i + 1..] == Lower(s[i + 1..]);
    }
  }

  lemma HasSpaceLower(s: string)
    ensures HasSpace(Lower(s)) <==> HasSpace(s)
  {
    if HasSpace(s) {
      var i :| 0 <= i < |s| && IsSpace(s[i]);
      assert IsSpace(Lower(s)[i]);
    }
    if HasSpace(Lower(s)) {
      var i :| 0 <= i < |s| && IsSpace(Lower(s)[i]);
      assert IsSpace(s[i]);
    }
  }

  lemma LocalCharLower(c: char)
    ensures IsLocalChar(LowerChar(c)) <==> IsLocalChar(c)
    ensures LowerChar(c) == '.' <==> c == '.'
  {}

  lemma ValidLocalLower(s: string)
    ensures ValidLocal(Lower(s)) <==> ValidLocal(s)
  {
    hide IsLocalChar;
    forall i | 0 <= i < |s|
      ensures IsLocalChar(Lower(s)[i]) <==> IsLocalChar(s[i])
      ensures Lower(s)[i] == '.' <==> s[i] == '.'
    {
      LocalCharLower(s[i]);
    }
  }

  lemma ValidAddressLower(s: string)
    ensures ValidAddress(Lower(s)) <==> ValidAddress(s)
  {
    OnceLower(s, '@');
    HasSpaceLower(s);
    IndexOfLower(s, '@');
    var at := IndexOf(s, '@');
    if at < |s| {
      assert Lower(s)[..at] == Lower(s[..at]);
      assert Lower(s)[at + 1..] == Lower(s[at + 1..]);
      ValidLocalLower(s[..at]);
      LowerIdempotent(s[at + 1..]);
    }
  }

  lemma BracketsLower(s: string, c: char)
    requires Caseless(c)
    ensures Lacks(Lower(s), c) <==> Lacks(s, c)
    ensures Once(Lower(s), c) <==> Once(s, c)
    ensures IndexOf(Lower(s), c) == IndexOf(s, c)
  {
    OnceLower(s, c);
    IndexOfLower(s, c);
  }

  lemma EnclosedLower(s: string, i: nat, j: nat)
    requires i <= j <= |s|
    ensures Trim(Lower(s)[i..j]) == Lower(Trim(s[i..j]))
  {
    hide Trim;
    assert Lower(s)[i..j] == Lower(s[i..j]);
    TrimLower(s[i..j]);
  }

  lemma AddrSpecLower(s: string)
    ensures AddrSpec(Lower(s)) ==
            match AddrSpec(s) case None => None case Some(a) => Some(Lower(a))
  {
    hide Lacks, Once, HasSpace, Trim, Lower;
    BracketsLower(s, '<');
    BracketsLower(s, '>');
    HasSpaceLower(s);
    var lt, gt := IndexOf(s, '<'), IndexOf(s, '>');
    if lt + 1 < gt < |s| {
      EnclosedLower(s, lt + 1, gt);
    }
  }

  lemma CanonicalSenderLower(s: string)
    ensures CanonicalSender(Lower(s)) == CanonicalSender(s)
  {
    TrimLower(s);
    AddrSpecLower(Trim(s));
    match AddrSpec(Trim(s))
    case None =>
    case Some(a) =>
      ValidAddressLower(a);
      LowerIdempotent(a);
  }

  lemma CanonicalOfLower(s: string)
    ensures CanonicalOf(Lower(s)) == CanonicalOf(s)
  {
    CanonicalSenderLower(s);
    TrimLower(s);
    LowerIdempotent(Trim(s));
  }

  lemma CanonicalOfTrim(s: string)
    ensures CanonicalSender(Trim(s)) == CanonicalSender(s)
    ensures CanonicalOf(Trim(s)) == CanonicalOf(s)
  {
    TrimIdempotent(s);
  }

  // ---------------------------------------------------------------- idempotence

  lemma SpacelessTrim(s: string)
    requires !HasSpace(s)
    ensures Trim(s) == s
  {
    TrimOfSpaceless(s);
  }

  /** A piece of a text that lacks `c` lacks it too. */
  lemma LacksPiece(s: string, a: string, t: string, b: string, c: char)
    requires s == a + t + b && Lacks(s, c)
    ensures Lacks(t, c)
  {
    forall k | 0 <= k < |t|
      ensures t[k] != c
    {
      assert s[|a| + k] == t[k];
    }
  }

  /** What an angle form encloses has no angle brackets of its own. */
  lemma AddrSpecIsBare(value: string)
    requires AddrSpec(value).Some?
    ensures Lacks(AddrSpec(value).value, '<') && Lacks(AddrSpec(value).value, '>')
  {
    if !(Lacks(value, '<') && Lacks(value, '>')) {
      var lt, gt := IndexOf(value, '<'), IndexOf(value, '>');
      var inner := value[lt + 1..gt];
      assert value[lt + 1..] == [] + inner + value[gt..];
      LacksPiece(value[lt + 1..], [], inner, value[gt..], '<');
      assert value[..gt] == value[..lt + 1] + inner + [];
      IndexOfUnique(value[..gt], '>', gt);
      LacksPiece(value[..gt], value[..lt + 1], inner, [], '>');
      var a, b := TrimSplits(inner, IsSpace);
      LacksPiece(inner, a, Trim(inner), b, '<');
      LacksPiece(inner, a, Trim(inner), b, '>');
    }
  }

  /** A canonical sender is its own canonical sender, so comparing canonical forms is comparing
      senders. */
  lemma CanonicalSenderIdempotent(s: string)
    requires CanonicalSender(s).Some?
    ensures CanonicalSender(CanonicalSender(s).value) == CanonicalSender(s)
  {
    var addr := AddrSpec(Trim(s)).value;
    AddrSpecIsBare(Trim(s));
    SpacelessTrim(addr);
    assert AddrSpec(addr) == Some(addr);
    assert CanonicalSender(addr) == CanonicalSender(s);
    CanonicalSenderLower(addr);
  }

  lemma CanonicalOfIdempotent(s: string)
    ensures CanonicalOf(CanonicalOf(s)) == CanonicalOf(s)
  {
    if CanonicalSender(s).Some? {
      CanonicalSenderIdempotent(s);
    } else {
      CanonicalOfLower(Trim(s));
      CanonicalOfTrim(s);
    }
  }

  /** Whatever has a sender for its canonical form parses as that sender. */
  lemma SenderForm(s: string)
    requires CanonicalSender(CanonicalOf(s)).Some?
    ensures CanonicalSender(s) == Some(CanonicalOf(s))
  {
    CanonicalSenderLower(Trim(s));
    CanonicalOfTrim(s);
  }

  // ---------------------------------------------------------------- other spellings of a sender

  /** A canonical sender is bare, spaceless and valid. */
  lemma SenderIsBare(s: string)
    requires CanonicalSender(s) == Some(s)
    ensures s != "" && Lacks(s, '<') && Lacks(s, '>') && !HasSpace(s) && ValidAddress(s) && Lower(s) == s
  {
    var addr := AddrSpec(Trim(s)).value;
    AddrSpecIsBare(Trim(s));
    ValidAddressLower(addr);
    BracketsLower(addr, '<');
    BracketsLower(addr, '>');
    HasSpaceLower(addr);
    LowerIdempotent(addr);
  }

  lemma BracketsAround(pad: string, s: string)
    requires Lacks(pad, '<') && Lacks(pad, '>') && Lacks(s, '<') && Lacks(s, '>')
    ensures var value := pad + "<" + s + ">";
            && Once(value, '<') && IndexOf(value, '<') == |pad|
            && Once(value, '>') && IndexOf(value, '>') == |value| - 1
            && value[|pad| + 1..|value| - 1] == s
  {
    var value := pad + "<" + s + ">";
    var n := |pad|;
    assert value[n] == '<' && value[|value| - 1] == '>';
    forall k | 0 <= k < |value|
      ensures value[k] == '<' <==> k == n
      ensures value[k] == '>' <==> k == |value| - 1
    {
      if k < n {
        assert value[k] == pad[k];
      } else if n < k < |value| - 1 {
        assert value[k] == s[k - n - 1];
      }
    }
    IndexOfUnique(value, '<', n);
    IndexOfUnique(value, '>', |value| - 1);
    IndexOfUnique(value[n + 1..], '<', |value| - n - 1);
  }

  lemma BracketedTrim(pad: string, s: string)
    requires forall i :: 0 <= i < |pad| ==> pad[i] == 'x'
    ensures var value := pad + "<" + s + ">";
            value != "" && Trim(value) == value
  {
    hide TrimBy;
    var value := pad + "<" + s + ">";
    assert value[0] == if pad == "" then '<' else pad[0];
    assert "" + value + "" == value;
    TrimUnique("", value, "", IsSpace);
  }

  lemma BracketedSpec(pad: string, s: string)
    requires Lacks(pad, '<') && Lacks(pad, '>') && Lacks(s, '<') && Lacks(s, '>') && !HasSpace(s) && s != ""
    ensures AddrSpec(pad + "<" + s + ">") == Some(s)
  {
    hide IndexOf, HasSpace, TrimBy;
    BracketsAround(pad, s);
    assert (pad + "<" + s + ">")[|pad|] == '<';
    SpacelessTrim(s);
  }

  /** A sender can be written behind any display name. */
  lemma NamedSender(pad: string, s: string)
    requires CanonicalSender(s) == Some(s) && forall i :: 0 <= i < |pad| ==> pad[i] == 'x'
    ensures var value := pad + "<" + s + ">";
            Trim(value) == value && CanonicalSender(value) == Some(s)
  {
    SenderIsBare(s);
    assert Lacks(pad, '<') && Lacks(pad, '>');
    hide ValidAddress, AddrSpec, TrimBy, Lacks, Lower, HasSpace;
    BracketedTrim(pad, s);
    BracketedSpec(pad, s);
  }

  // ---------------------------------------------------------------- the canonical form is inside the text

  lemma IncludesPiece(a: string, t: string, b: string)
    ensures Includes(a + t + b, t)
  {
    assert OccursAt(a + t + b, t, |a|);
  }

  lemma IncludesTransitive(s: string, t: string, u: string)
    requires Includes(s, t) && Includes(t, u)
    ensures Includes(s, u)
  {
    var i: nat :| i <= |s| && OccursAt(s, t, i);
    var j: nat :| j <= |t| && OccursAt(t, u, j);
    forall k | 0 <= k < |u|
      ensures s[i + j + k] == u[k]
    {
      assert s[i..i + |t|][j + k] == t[j..j + |u|][k];
    }
    assert OccursAt(s, u, i + j);
  }

  lemma IncludesLower(s: string, t: string)
    requires Includes(s, t)
    ensures Includes(Lower(s), Lower(t))
  {
    var i: nat :| i <= |s| && OccursAt(s, t, i);
    assert Lower(s)[i..i + |t|] == Lower(s[i..i + |t|]);
    assert OccursAt(Lower(s), Lower(t), i);
  }

  lemma TrimIncluded(s: string)
    ensures Includes(s, Trim(s))
  {
    var a, b := TrimSplits(s, IsSpace);
    IncludesPiece(a, Trim(s), b);
  }

  /** A store that narrows a scan by "the lower-cased From contains the target" cannot drop a row
      whose canonical sender is the target. */
  lemma CanonicalOfIncluded(s: string)
    ensures Includes(Lower(s), CanonicalOf(s))
  {
    TrimIncluded(s);
    if CanonicalSender(s).Some? {
      var value := Trim(s);
      var addr := AddrSpec(value).value;
      if Lacks(value, '<') && Lacks(value, '>') {
        IncludesLower(s, value);
      } else {
        var lt, gt := IndexOf(value, '<'), IndexOf(value, '>');
        assert value == value[..lt + 1] + value[lt + 1..gt] + value[gt..];
        IncludesPiece(value[..lt + 1], value[lt + 1..gt], value[gt..]);
        TrimIncluded(value[lt + 1..gt]);
        IncludesTransitive(value, value[lt + 1..gt], addr);
        IncludesTransitive(s, value, addr);
        IncludesLower(s, addr);
      }
    } else {
      IncludesLower(s, Trim(s));
    }
  }
}
