/** The retired-mailbox rename bridge of src/db/database.ts, and the inbound trigger that once minted
    the retired mailbox again on every open. */
module RenameBridge {
  import opened Wrappers
  import opened Text

  const CURRENT := "legacy-inbound@local.emails"
  const RETIRED := "legacy-inbound@local.mailery"

  datatype Mailbox = Mailbox(address: string, displayName: Option<string>, ownerId: Option<string>, status: string,
                             createdAt: string)

  /** Where some mail of a mailbox came from. */
  datatype Source = Source(mailboxId: string, providerId: Option<string>, kind: string, external: Option<string>)

  type Mailboxes = map<string, Mailbox>
  type Sources = map<string, Source>

  // ---------------------------------------------------------------- minted ids

  function MailboxId(address: string): string {
    "mbx:" + address
  }

  function ProviderPart(p: Option<string>): string {
    if p.Some? then p.value else "none"
  }

  function Mint(address: string, p: Option<string>, kind: string): string {
    "msrc:" + MailboxId(address) + ":" + ProviderPart(p) + ":" + kind
  }

  function MailboxIds(addresses: set<string>): (r: set<string>) {
    set a | a in addresses :: MailboxId(a)
  }

  predicate Free(s: string, c: char) {
    forall i :: 0 <= i < |s| ==> s[i] != c
  }

  /** What the repository's generated provider ids look like, and the fixed source types too. */
  predicate Plain(s: string) {
    Free(s, ':') && Free(s, '@')
  }

  /** The trigger's scheme: the id spells out the row's mailbox, provider and type. */
  predicate IsMinted(id: string, s: Source) {
    && s.external.Some?
    && s.mailboxId == MailboxId(s.external.value)
    && (s.providerId.Some? ==> Plain(s.providerId.value))
    && Plain(s.kind)
    && id == Mint(s.external.value, s.providerId, s.kind)
  }

  ghost predicate AllMinted(sources: Sources) {
    forall id :: id in sources ==> IsMinted(id, sources[id])
  }

  lemma LastColon(x: string, y: string, x': string, y': string)
    requires x + ":" + y == x' + ":" + y' && Free(y, ':') && Free(y', ':')
    ensures x == x' && y == y'
  {
    var s := x + ":" + y;
    assert s[|x|] == ':' && s[|x'|] == ':';
    forall k | |x| < k < |s|
      ensures s[k] != ':'
    {
      assert s[k] == y[k - |x| - 1];
    }
    forall k | |x'| < k < |s|
      ensures s[k] != ':'
    {
      assert s[k] == y'[k - |x'| - 1];
    }
    assert x == s[..|x|] && x' == s[..|x'|];
    assert y == s[|x| + 1..] && y' == s[|x'| + 1..];
  }

  /** Two rows that the trigger would give one id. */
  predicate SameIdentity(s: Source, t: Source) {
    s.mailboxId == t.mailboxId && s.external == t.external && s.kind == t.kind
    && ProviderPart(s.providerId) == ProviderPart(t.providerId)
  }

  /** A minted id says all about its row but whether a provider part "none" is a provider of that name. */
  lemma MintedRows(id: string, s: Source, id': string, s': Source)
    requires IsMinted(id, s) && IsMinted(id', s')
    ensures id == id' <==> SameIdentity(s, s')
  {
    if id == id' {
      var a, b := "msrc:" + MailboxId(s.external.value), "msrc:" + MailboxId(s'.external.value);
      var p, q := ProviderPart(s.providerId), ProviderPart(s'.providerId);
      LastColon(a + ":" + p, s.kind, b + ":" + q, s'.kind);
      assert Plain("none");
      LastColon(a, p, b, q);
      assert a[9..] == s.external.value && b[9..] == s'.external.value;
    }
  }

  lemma MailboxIdsDiffer()
    ensures MailboxId(RETIRED) != MailboxId(CURRENT)
  {
    assert MailboxId(RETIRED)[4..] == RETIRED && MailboxId(CURRENT)[4..] == CURRENT;
    assert |RETIRED| == 28 && |CURRENT| == 27;
  }

  // ---------------------------------------------------------------- re-keying

  /** SQLite's `replace`: left to right, non-overlapping. */
  function Replace(s: string, needle: string, sub: string): (r: string)
    requires needle != ""
    decreases |s|
  {
    if |s| < |needle| then s
    else if s[..|needle|] == needle then sub + Replace(s[|needle|..], needle, sub)
    else [s[0]] + Replace(s[1..], needle, sub)
  }

  /** One and only one '@', at place `at`. */
  predicate OneAt(s: string, at: nat) {
    at < |s| && forall i :: 0 <= i < |s| ==> (s[i] == '@' <==> i == at)
  }

  lemma {:induction false} ReplaceNothing(s: string, needle: string, sub: string, at: nat)
    requires OneAt(needle, at) && Free(s, '@')
    ensures Replace(s, needle, sub) == s
    decreases |s|
  {
    if |s| >= |needle| {
      assert s[..|needle|][at] == s[at] != needle[at];
      ReplaceNothing(s[1..], needle, sub, at);
      assert s == [s[0]] + s[1..];
    }
  }

  lemma NoMatchYet(pre: string, needle: string, rest: string, at: nat)
    requires OneAt(needle, at) && Free(pre, '@') && pre != "" && |rest| >= |needle| && rest[..|needle|] == needle
    ensures (pre + rest)[..|needle|] != needle
  {
    var s := pre + rest;
    assert s[at] == if at < |pre| then pre[at] else rest[at - |pre|];
    assert at >= |pre| ==> rest[at - |pre|] == rest[..|needle|][at - |pre|] == needle[at - |pre|];
    assert s[..|needle|][at] == s[at] != needle[at];
  }

  lemma ReplaceShort(s: string, needle: string, sub: string)
    requires |s| < |needle|
    ensures Replace(s, needle, sub) == s
  {}

  lemma ReplaceStep(s: string, needle: string, sub: string)
    requires |s| >= |needle| > 0
    ensures Replace(s, needle, sub) ==
              if s[..|needle|] == needle then sub + Replace(s[|needle|..], needle, sub)
              else [s[0]] + Replace(s[1..], needle, sub)
  {}

  /** Before the first match, replacing copies one character and goes on. */
  lemma ReplaceCopies(s: string, needle: string, sub: string)
    requires needle != "" && s != "" && (|s| >= |needle| ==> s[..|needle|] != needle)
    ensures Replace(s, needle, sub) == [s[0]] + Replace(s[1..], needle, sub)
  {
    hide Replace;
    if |s| < |needle| {
      ReplaceShort(s, needle, sub);
      ReplaceShort(s[1..], needle, sub);
    } else {
      ReplaceStep(s, needle, sub);
    }
  }

  /** At a match, replacing writes the substitute, and after the last one nothing changes. */
  lemma ReplaceAtMatch(needle: string, post: string, sub: string, at: nat)
    requires OneAt(needle, at) && Free(post, '@')
    ensures Replace(needle + post, needle, sub) == sub + post
  {
    hide Replace;
    var s := needle + post;
    assert s[..|needle|] == needle && s[|needle|..] == post;
    ReplaceStep(s, needle, sub);
    ReplaceNothing(post, needle, sub, at);
  }

  lemma {:induction false} ReplaceOnce(pre: string, needle: string, post: string, sub: string, at: nat)
    requires OneAt(needle, at) && Free(pre, '@') && Free(post, '@')
    ensures Replace(pre + (needle + post), needle, sub) == pre + (sub + post)
    decreases |pre|
  {
    hide OneAt, Replace;
    var rest := needle + post;
    if pre == "" {
      assert pre + rest == rest && pre + (sub + post) == sub + post;
      ReplaceAtMatch(needle, post, sub, at);
    } else {
      var s, tail := pre + rest, pre[1..];
      assert rest[..|needle|] == needle;
      NoMatchYet(pre, needle, rest, at);
      ReplaceCopies(s, needle, sub);
      assert s[1..] == tail + rest && s[0] == pre[0];
      ReplaceOnce(tail, needle, post, sub, at);
      assert [pre[0]] + (tail + (sub + post)) == pre + (sub + post);
    }
  }

  function Rekey(id: string): (r: string) {
    Replace(id, RETIRED, CURRENT)
  }

  function Moved(s: Source): (r: Source) {
    s.(mailboxId := MailboxId(CURRENT), external := Some(CURRENT))
  }

  function MailboxIdPrefix(): string { "mbx:" }

  lemma SameMailbox(a: string, b: string)
    requires MailboxId(a) == MailboxId(b)
    ensures a == b
  {
    assert MailboxId(a)[4..] == a && MailboxId(b)[4..] == b;
  }

  lemma MintParts(address: string, p: Option<string>, kind: string)
    ensures Mint(address, p, kind) == ("msrc:" + MailboxIdPrefix()) + address + (":" + ProviderPart(p) + ":" + kind)
  {}

  /** Re-keying a minted row of the retired mailbox gives the row that the trigger would have minted
      for the current one. */
  lemma RekeyMints(id: string, s: Source)
    requires IsMinted(id, s) && s.mailboxId == MailboxId(RETIRED)
    ensures IsMinted(Rekey(id), Moved(s))
  {
    hide Replace, MailboxId;
    var pre, post := "msrc:" + MailboxIdPrefix(), ":" + ProviderPart(s.providerId) + ":" + s.kind;
    assert s.external == Some(RETIRED) by { SameMailbox(s.external.value, RETIRED); }
    assert Free(post, '@');
    MintParts(RETIRED, s.providerId, s.kind);
    MintParts(CURRENT, s.providerId, s.kind);
    assert OneAt(RETIRED, 14);
    ReplaceOnce(pre, RETIRED, post, CURRENT, 14);
    assert pre + (RETIRED + post) == pre + RETIRED + post && pre + (CURRENT + post) == pre + CURRENT + post;
  }

  // ---------------------------------------------------------------- what the bridge does

  /** The sources before and after the bridge: one row for each re-keyed identity, the one already on
      the current mailbox where there is one. */
  ghost predicate Bridged(before: Sources, after: Sources) {
    && (forall id :: id in before && before[id].mailboxId != MailboxId(RETIRED) ==>
              id in after && after[id] == before[id])
    && (forall id :: id in before && before[id].mailboxId == MailboxId(RETIRED) ==>
          && Rekey(id) in after
          && (Rekey(id) !in before ==> after[Rekey(id)] == Moved(before[id])))
    && (forall id :: id in after ==>
          || (id in before && before[id].mailboxId != MailboxId(RETIRED))
          || (id !in before && exists r :: r in before && before[r].mailboxId == MailboxId(RETIRED) && Rekey(r) == id))
  }

  /** The provenance recorded for a mailbox. */
  ghost function Provenance(sources: Sources, mailboxId: string): set<(Option<string>, string)> {
    set id | id in sources && sources[id].mailboxId == mailboxId :: (sources[id].providerId, sources[id].kind)
  }

  lemma BridgedStaysMinted(before: Sources, after: Sources)
    requires AllMinted(before) && Bridged(before, after)
    ensures AllMinted(after)
    ensures forall id :: id in after ==> after[id].mailboxId != MailboxId(RETIRED)
    ensures forall id :: id in after && id !in before ==> after[id].mailboxId == MailboxId(CURRENT)
  {
    hide IsMinted, Rekey, MailboxId;
    MailboxIdsDiffer();
    forall id | id in after
      ensures IsMinted(id, after[id]) && after[id].mailboxId != MailboxId(RETIRED)
      ensures id !in before ==> after[id].mailboxId == MailboxId(CURRENT)
    {
      if id !in before {
        var r :| r in before && before[r].mailboxId == MailboxId(RETIRED) && Rekey(r) == id;
        RekeyMints(r, before[r]);
      }
    }
  }

  /** A source of no provider and one of a provider called "none", of one type, meet across the two
      mailboxes: the one is taken for a double of the other. */
  ghost predicate Confused(sources: Sources) {
    exists r, c :: r in sources && c in sources
      && sources[r].mailboxId == MailboxId(RETIRED) && sources[c].mailboxId == MailboxId(CURRENT)
      && sources[r].kind == sources[c].kind && sources[r].providerId != sources[c].providerId
      && ProviderPart(sources[r].providerId) == ProviderPart(sources[c].providerId)
  }

  /** What stands under a re-keyed id afterwards is the moved row, but for the name of its provider. */
  lemma RekeyedRow(before: Sources, after: Sources, id: string)
    requires AllMinted(before) && Bridged(before, after)
    requires id in before && before[id].mailboxId == MailboxId(RETIRED)
    ensures Rekey(id) in after && SameIdentity(after[Rekey(id)], Moved(before[id]))
    ensures Rekey(id) !in before ==> after[Rekey(id)] == Moved(before[id])
    ensures Rekey(id) in before ==>
              after[Rekey(id)] == before[Rekey(id)] && before[Rekey(id)].mailboxId == MailboxId(CURRENT)
  {
    hide IsMinted, Rekey, MailboxId, ProviderPart;
    MailboxIdsDiffer();
    RekeyMints(id, before[id]);
    if Rekey(id) in before {
      MintedRows(Rekey(id), Moved(before[id]), Rekey(id), before[Rekey(id)]);
    }
  }

  lemma OthersUntouched(before: Sources, after: Sources, m: string)
    requires AllMinted(before) && Bridged(before, after)
    requires m != MailboxId(CURRENT) && m != MailboxId(RETIRED)
    ensures Provenance(after, m) == Provenance(before, m)
  {
    hide IsMinted, Rekey, MailboxId;
    BridgedStaysMinted(before, after);
  }

  /** The retired mailbox has nothing afterwards, and no other mailbox but the current one is affected. */
  lemma BridgeEmptiesRetired(before: Sources, after: Sources)
    requires AllMinted(before) && Bridged(before, after)
    ensures Provenance(after, MailboxId(RETIRED)) == {}
    ensures forall m :: m != MailboxId(CURRENT) && m != MailboxId(RETIRED) ==>
              Provenance(after, m) == Provenance(before, m)
  {
    hide IsMinted, Rekey, MailboxId;
    BridgedStaysMinted(before, after);
    forall m | m != MailboxId(CURRENT) && m != MailboxId(RETIRED)
      ensures Provenance(after, m) == Provenance(before, m)
    {
      OthersUntouched(before, after, m);
    }
  }

  /** Nothing is invented: what the current mailbox has afterwards one of the two had before. */
  lemma BridgeInventsNothing(before: Sources, after: Sources)
    requires AllMinted(before) && Bridged(before, after)
    ensures Provenance(after, MailboxId(CURRENT)) <=
              Provenance(before, MailboxId(RETIRED)) + Provenance(before, MailboxId(CURRENT))
  {
    hide IsMinted, Rekey, MailboxId;
    MailboxIdsDiffer();
    forall id | id in after && after[id].mailboxId == MailboxId(CURRENT)
      ensures (after[id].providerId, after[id].kind)
                in Provenance(before, MailboxId(RETIRED)) + Provenance(before, MailboxId(CURRENT))
    {
      if id !in before {
        var r :| r in before && before[r].mailboxId == MailboxId(RETIRED) && Rekey(r) == id;
        RekeyedRow(before, after, r);
      }
    }
  }

  lemma KeepsCurrent(before: Sources, after: Sources)
    requires Bridged(before, after)
    ensures Provenance(before, MailboxId(CURRENT)) <= Provenance(after, MailboxId(CURRENT))
  {
    hide Rekey, MailboxId;
    MailboxIdsDiffer();
    assert forall id :: id in before && before[id].mailboxId == MailboxId(CURRENT) ==>
             id in after && after[id] == before[id];
  }

  lemma MovesRetired(before: Sources, after: Sources)
    requires AllMinted(before) && Bridged(before, after) && !Confused(before)
    ensures Provenance(before, MailboxId(RETIRED)) <= Provenance(after, MailboxId(CURRENT))
  {
    hide IsMinted, Rekey, MailboxId, ProviderPart;
    forall r | r in before && before[r].mailboxId == MailboxId(RETIRED)
      ensures (before[r].providerId, before[r].kind) in Provenance(after, MailboxId(CURRENT))
    {
      RekeyedRow(before, after, r);
      assert Rekey(r) in after;
      assert after[Rekey(r)].mailboxId == MailboxId(CURRENT) && after[Rekey(r)].kind == before[r].kind;
      assert after[Rekey(r)].providerId == before[r].providerId;
    }
  }

  lemma SameMailboxSameExternal(id: string, s: Source, id': string, t: Source)
    requires IsMinted(id, s) && IsMinted(id', t) && s.mailboxId == t.mailboxId
    ensures s.external == t.external
  {
    hide Mint;
    SameMailbox(s.external.value, t.external.value);
  }

  lemma ConfusedLoses(before: Sources, after: Sources)
    requires AllMinted(before) && Bridged(before, after) && Confused(before)
    ensures Provenance(after, MailboxId(CURRENT)) !=
              Provenance(before, MailboxId(RETIRED)) + Provenance(before, MailboxId(CURRENT))
  {
    hide IsMinted, Rekey, MailboxId, ProviderPart;
    MailboxIdsDiffer();
    BridgedStaysMinted(before, after);
    var r, c :| r in before && c in before
      && before[r].mailboxId == MailboxId(RETIRED) && before[c].mailboxId == MailboxId(CURRENT)
      && before[r].kind == before[c].kind && before[r].providerId != before[c].providerId
      && ProviderPart(before[r].providerId) == ProviderPart(before[c].providerId);
    var pair := (before[r].providerId, before[r].kind);
    assert pair in Provenance(before, MailboxId(RETIRED));
    forall id | id in after && after[id].mailboxId == MailboxId(CURRENT)
      ensures (after[id].providerId, after[id].kind) != pair
    {
      assert before[c] == after[c];
      SameMailboxSameExternal(id, after[id], c, after[c]);
      MintedRows(id, after[id], c, after[c]);
    }
  }

  /** Provenance is conserved, the current mailbox having afterwards what the two had before, if and only
      if no provider called "none" is confused with the absence of one. */
  lemma BridgeConservesExactly(before: Sources, after: Sources)
    requires AllMinted(before) && Bridged(before, after)
    ensures Confused(before) <==>
              Provenance(after, MailboxId(CURRENT)) !=
              Provenance(before, MailboxId(RETIRED)) + Provenance(before, MailboxId(CURRENT))
  {
    hide IsMinted, Rekey, MailboxId, Provenance, Confused;
    if Confused(before) {
      ConfusedLoses(before, after);
    } else {
      BridgeInventsNothing(before, after);
      KeepsCurrent(before, after);
      MovesRetired(before, after);
    }
  }

  /** Running the bridge again changes nothing, whatever has been minted for other mailboxes since. */
  lemma BridgeIdempotent(before: Sources, after: Sources)
    requires Bridged(before, after)
    requires forall id :: id in before ==> before[id].mailboxId != MailboxId(RETIRED)
    ensures after == before
  {
    hide Rekey, MailboxId;
    assert after.Keys == before.Keys;
  }

  /** No provider is called "none", as generated ids have it. */
  ghost predicate NoneIsNoProvider(sources: Sources) {
    forall id :: id in sources ==> sources[id].providerId != Some("none")
  }

  lemma GeneratedIdsConserve(before: Sources, after: Sources)
    requires NoneIsNoProvider(before) && Bridged(before, after)
    ensures !Confused(before) && NoneIsNoProvider(after)
  {
    hide Rekey, MailboxId;
    forall id | id in after
      ensures after[id].providerId != Some("none")
    {
      if id !in before {
        var r :| r in before && before[r].mailboxId == MailboxId(RETIRED) && Rekey(r) == id;
      }
    }
  }

  // ---------------------------------------------------------------- the recipients of a message

  /** What SQLite's one-argument `TRIM` removes. */
  predicate Space(c: char) {
    c == ' '
  }

  /** `normalizedRecipientSql`: what is between the first '<' and the first '>', if they come in that
      order, trimmed of spaces and in lower case. */
  function Normalized(value: string): (r: string) {
    var i, j := IndexOf(value, '<'), IndexOf(value, '>');
    Lower(TrimBy(if i < j < |value| then value[i + 1..j] else value, Space))
  }

  predicate ValidRecipient(a: string) {
    var at := IndexOf(a, '@');
    && 1 <= at < |a|
    && '.' in a[at + 1..]
    && Free(a, ' ') && Free(a, '<') && Free(a, '>')
  }

  /** The addresses whose mailboxes one message belongs to: its valid recipients, or the synthetic one. */
  function Recipients(to: seq<string>): (r: set<string>) {
    var valid := set v | v in to && ValidRecipient(Normalized(v)) :: Normalized(v);
    if valid == {} then {CURRENT} else valid
  }

  lemma ShapeIsValid(a: string, at: nat, dot: nat)
    requires 1 <= at < dot < |a| && OneAt(a, at) && a[dot] == '.'
    requires Free(a, ' ') && Free(a, '<') && Free(a, '>')
    ensures ValidRecipient(a)
  {
    assert a[at] == '@';
    IndexOfUnique(a, '@', at);
    assert a[at + 1..][dot - at - 1] == '.';
  }

  lemma RetiredIsValid()
    ensures ValidRecipient(RETIRED)
  {
    hide ValidRecipient;
    assert RETIRED[20] == '.' && OneAt(RETIRED, 14);
    ShapeIsValid(RETIRED, 14, 20);
  }

  /** The retired address is a recipient exactly when some recipient of the message spells it. */
  lemma RetiredOnlyIfAddressed(to: seq<string>)
    ensures RETIRED in Recipients(to) <==> exists v :: v in to && Normalized(v) == RETIRED
  {
    hide Normalized, ValidRecipient;
    assert |RETIRED| == 28 && |CURRENT| == 27;
    RetiredIsValid();
    if v :| v in to && Normalized(v) == RETIRED {
      assert ValidRecipient(Normalized(v));
    }
  }

  /** What the header field names: the text between the first '<' and the first '>' after it, or all of it
      where there are no such two. */
  ghost predicate NamedBy(value: string, part: string) {
    || (exists x, y :: value == x + "<" + part + ">" + y && Free(x, '<') && Free(x, '>') && Free(part, '>'))
    || (part == value && !exists x, t, y ::
      value == x + "<" + t + ">" + y && Free(x, '<') && Free(x, '>') && Free(t, '>'))
  }

  /** The same text with spaces cut off both ends. */
  ghost predicate CutOff(part: string, text: string) {
    (exists a, b :: part == a + text + b && All(a, Space) && All(b, Space))
    && CleanEnds(text, Space)
  }

  /** `local@domain` with a dot somewhere in the domain, and neither a space nor a bracket. */
  ghost predicate LooksAddressed(a: string) {
    && (exists local, rest :: a == local + "@" + rest && local != "" && Free(local, '@') && '.' in rest)
    && Free(a, ' ') && Free(a, '<') && Free(a, '>')
  }

  /** The field spells the address, in whatever case. */
  ghost predicate Spells(value: string, a: string) {
    LooksAddressed(a) && exists part, text :: NamedBy(value, part) && CutOff(part, text) && a == Lower(text)
  }

  lemma CutOffIsTrim(part: string, text: string)
    ensures CutOff(part, text) <==> text == TrimBy(part, Space)
  {
    var a, b := TrimSplits(part, Space);
    if x, y :| part == x + text + y && All(x, Space) && All(y, Space) && CleanEnds(text, Space) {
      TrimUnique(x, text, y, Space);
    }
  }

  function Part(value: string): string {
    var i, j := IndexOf(value, '<'), IndexOf(value, '>');
    if i < j < |value| then value[i + 1..j] else value
  }

  lemma BracketsAt(value: string, x: string, t: string, y: string)
    requires value == x + "<" + t + ">" + y && Free(x, '<') && Free(x, '>') && Free(t, '>')
    ensures IndexOf(value, '<') == |x| && IndexOf(value, '>') == |x| + 1 + |t| < |value| && Part(value) == t
  {
    var j := |x| + 1 + |t|;
    assert value[|x|] == '<' && value[j] == '>' && value[|x| + 1..j] == t;
    hide IndexOf;
    forall k | 0 <= k < j
      ensures value[k] != '>' && (k < |x| ==> value[k] != '<')
    {
      if k < |x| {
        assert value[k] == x[k];
      } else if k > |x| {
        assert value[k] == t[k - |x| - 1];
      }
    }
    IndexOfUnique(value, '<', |x|);
    IndexOfUnique(value, '>', j);
  }

  lemma CutAt(s: string, k: nat, c: char)
    requires k < |s| && s[k] == c
    ensures s == s[..k] + [c] + s[k + 1..]
  {}

  lemma CutBrackets(s: string, i: nat, j: nat)
    requires i < j < |s| && s[i] == '<' && s[j] == '>'
    ensures s == s[..i] + "<" + s[i + 1..j] + ">" + s[j + 1..]
  {}

  lemma FreeBefore(s: string, c: char, i: nat, k: nat)
    requires i <= k <= IndexOf(s, c)
    ensures Free(s[i..k], c) && Free(s[..k], c)
  {}

  lemma PartBetween(value: string, i: nat, j: nat)
    requires i == IndexOf(value, '<') < j == IndexOf(value, '>') < |value|
    ensures Part(value) == value[i + 1..j] && value[i] == '<' && value[j] == '>'
  {}

  lemma BracketsThere(value: string)
    requires IndexOf(value, '<') < IndexOf(value, '>') < |value|
    ensures var i, j := IndexOf(value, '<'), IndexOf(value, '>');
            && value == value[..i] + "<" + Part(value) + ">" + value[j + 1..]
            && Free(value[..i], '<') && Free(value[..i], '>') && Free(Part(value), '>')
  {
    hide Free, IndexOf, Part;
    var i, j := IndexOf(value, '<'), IndexOf(value, '>');
    PartBetween(value, i, j);
    assert Free(value[..i], '<') by { FreeBefore(value, '<', i, i); }
    assert Free(value[..i], '>') by { FreeBefore(value, '>', i, i); }
    assert Free(value[i + 1..j], '>') by { FreeBefore(value, '>', i + 1, j); }
    assert value == value[..i] + "<" + value[i + 1..j] + ">" + value[j + 1..] by { CutBrackets(value, i, j); }
  }

  lemma NamedByIsPart(value: string, part: string)
    ensures NamedBy(value, part) <==> part == Part(value)
  {
    hide Free, IndexOf;
    var i, j := IndexOf(value, '<'), IndexOf(value, '>');
    if i < j < |value| {
      BracketsThere(value);
    }
    forall x, t, y | value == x + "<" + t + ">" + y && Free(x, '<') && Free(x, '>') && Free(t, '>')
      ensures i < j < |value| && t == Part(value)
    {
      BracketsAt(value, x, t, y);
    }
  }

  lemma SplitsAt(a: string, local: string, rest: string)
    requires a == local + "@" + rest && Free(local, '@')
    ensures IndexOf(a, '@') == |local| < |a| && a[|local| + 1..] == rest
  {
    assert a[|local|] == '@';
    forall k | 0 <= k < |local|
      ensures a[k] != '@'
    {
      assert a[k] == local[k];
    }
    IndexOfUnique(a, '@', |local|);
  }

  lemma SplitThere(a: string)
    requires IndexOf(a, '@') < |a|
    ensures var at := IndexOf(a, '@'); a == a[..at] + "@" + a[at + 1..] && Free(a[..at], '@')
  {
    var at := IndexOf(a, '@');
    FreeBefore(a, '@', 0, at);
    CutAt(a, at, '@');
  }

  lemma AddressedIsValid(a: string)
    ensures LooksAddressed(a) <==> ValidRecipient(a)
  {
    hide IndexOf, Free;
    var at := IndexOf(a, '@');
    if at < |a| {
      SplitThere(a);
    }
    forall local, rest | a == local + "@" + rest && Free(local, '@')
      ensures at == |local| < |a| && a[at + 1..] == rest
    {
      SplitsAt(a, local, rest);
    }
  }

  lemma SpellsIsNormalized(value: string, a: string)
    ensures Spells(value, a) <==> Normalized(value) == a && ValidRecipient(a)
  {
    hide NamedBy, CutOff, LooksAddressed, ValidRecipient, TrimBy, Lower;
    AddressedIsValid(a);
    forall part
      ensures NamedBy(value, part) <==> part == Part(value)
    {
      NamedByIsPart(value, part);
    }
    forall part, text
      ensures CutOff(part, text) <==> text == TrimBy(part, Space)
    {
      CutOffIsTrim(part, text);
    }
    var text := TrimBy(Part(value), Space);
    assert Normalized(value) == Lower(text);
    assert NamedBy(value, Part(value)) && CutOff(Part(value), text);
  }

  /** The recipients are the addresses that the field's values spell, and the synthetic one alone where they
      spell none. */
  lemma RecipientsMean(to: seq<string>, a: string)
    ensures a in Recipients(to) <==>
              || (exists v :: v in to && Spells(v, a))
              || (a == "legacy-inbound@local.emails" && !exists v, b :: v in to && Spells(v, b))
  {
    hide Spells, Normalized, ValidRecipient;
    forall v, b
      ensures Spells(v, b) <==> Normalized(v) == b && ValidRecipient(b)
    {
      SpellsIsNormalized(v, b);
    }
    var valid := set v | v in to && ValidRecipient(Normalized(v)) :: Normalized(v);
    assert forall b :: b in valid <==> exists v :: v in to && Spells(v, b);
    if valid == {} {
      assert forall v, b :: v in to && Spells(v, b) ==> b in valid;
    } else {
      var b :| b in valid;
      assert exists v :: v in to && Spells(v, b);
    }
  }

  // ---------------------------------------------------------------- the two tables

  datatype Provider = Provider(id: string, kind: string)

  /** What the trigger reads of a new message: its `to` list, the provider row it joins to, and the columns
      that tell whether it came through S3. */
  datatype Message = Message(
    to: seq<string>, provider: Option<Provider>, rawS3: Option<string>, metadataS3: Option<string>,
    messageId: Option<string>, createdAt: string)

  /** `LIKE 'inbound/%'` ignores the case of ASCII letters; a NULL id matches nothing. */
  predicate ThroughS3(m: Message) {
    || m.rawS3.Some?
    || m.metadataS3.Some?
    || (m.messageId.Some? && StartsWith(Lower(m.messageId.value), "inbound/"))
  }

  function SourceKind(m: Message): (r: string) {
    if m.provider.None? then "legacy_inbound"
    else
      var k := m.provider.value.kind;
      if k == "ses" && ThroughS3(m) then "ses_s3"
      else if k == "ses" || k == "resend" || k == "sandbox" then k
      else "legacy_inbound"
  }

  function ProviderId(m: Message): Option<string> {
    if m.provider.Some? then Some(m.provider.value.id) else None
  }

  ghost predicate FromProvider(m: Message, kind: string) {
    m.provider.Some? && m.provider.value.kind == kind
  }

  ghost predicate HasS3(m: Message) {
    m.rawS3 != None || m.metadataS3 != None
    || exists rest: string :: m.messageId.Some? && Lower(m.messageId.value) == "inbound/" + rest
  }

  /** The five kinds of source, each told by the columns of the message and of its provider. */
  ghost predicate KindFits(m: Message, kind: string) {
    && (kind == "ses_s3" <==> FromProvider(m, "ses") && HasS3(m))
    && (kind == "ses" <==> FromProvider(m, "ses") && !HasS3(m))
    && (kind == "resend" <==> FromProvider(m, "resend"))
    && (kind == "sandbox" <==> FromProvider(m, "sandbox"))
    && kind in ["ses_s3", "ses", "resend", "sandbox", "legacy_inbound"]
  }

  lemma PrefixMeans(s: string)
    ensures StartsWith(s, "inbound/") <==> exists rest: string :: s == "inbound/" + rest
  {
    if StartsWith(s, "inbound/") {
      assert s == s[..8] + s[8..];
    }
    if rest: string :| s == "inbound/" + rest {
      assert s[..8] == "inbound/";
    }
  }

  lemma S3Told(m: Message)
    ensures HasS3(m) <==> ThroughS3(m)
  {
    hide StartsWith;
    if m.messageId.Some? {
      PrefixMeans(Lower(m.messageId.value));
    }
  }

  lemma KindTold(m: Message)
    ensures KindFits(m, SourceKind(m))
  {
    S3Told(m);
    hide HasS3, ThroughS3;
    assert |"ses"| == 3 && |"sandbox"| == 7 && |"resend"| == 6 && |"ses_s3"| == 6;
    assert "ses_s3"[0] != "resend"[0] && |"legacy_inbound"| == 14;
  }

  /** The id of the provider row that the message joins to; none where it joins to none. */
  ghost predicate ProviderFits(m: Message, p: Option<string>) {
    (m.provider.None? <==> p == None) && forall row :: m.provider == Some(row) ==> p == Some(row.id)
  }

  /** What the trigger takes from a message is what its columns tell. */
  lemma MessageTold(m: Message)
    ensures forall p :: ProviderFits(m, p) ==> p == ProviderId(m)
    ensures forall kind :: KindFits(m, kind) ==> kind == SourceKind(m)
    ensures ProviderFits(m, ProviderId(m)) && KindFits(m, SourceKind(m))
  {
    KindTold(m);
  }

  predicate ProviderIsPlain(m: Message) {
    m.provider.Some? ==> Plain(m.provider.value.id) && m.provider.value.id != "none"
  }

  /** The UNIQUE key of `mailbox_sources`; a NULL never equals anything. */
  predicate Clash(sources: Sources, id: string, row: Source) {
    exists other :: other in sources && other != id
      && sources[other].mailboxId == row.mailboxId && sources[other].kind == row.kind
      && sources[other].providerId.Some? && sources[other].providerId == row.providerId
      && sources[other].external.Some? && sources[other].external == row.external
  }

  lemma MintedNeverClash(sources: Sources, id: string, row: Source)
    requires AllMinted(sources) && IsMinted(id, row)
    ensures !Clash(sources, id, row)
  {
    hide IsMinted;
    forall other | other in sources && SameIdentity(sources[other], row)
      ensures other == id
    {
      MintedRows(id, row, other, sources[other]);
    }
  }

  ghost predicate NamedMailboxes(mailboxes: Mailboxes) {
    forall id :: id in mailboxes ==> id == MailboxId(mailboxes[id].address)
  }

  ghost predicate Owned(sources: Sources, mailboxes: Mailboxes) {
    forall id :: id in sources ==> sources[id].mailboxId in mailboxes
  }

  /** How far the re-keying UPDATE has come, when the rows `left` are still to be moved. */
  ghost predicate Partway(start: Sources, now: Sources, left: set<string>) {
    && (forall id :: id in start && (start[id].mailboxId != MailboxId(RETIRED) || id in left) ==>
              id in now && now[id] == start[id])
    && (forall id :: id in start && start[id].mailboxId == MailboxId(RETIRED) && id !in left ==>
          Rekey(id) in now && now[Rekey(id)] == Moved(start[id]))
    && (forall id :: id in now ==>
          || (id in start && (start[id].mailboxId != MailboxId(RETIRED) || id in left))
          || exists r :: r in start && start[r].mailboxId == MailboxId(RETIRED) && r !in left && Rekey(r) == id)
  }

  /** Every mailbox of before is there as it was, and those of `addresses` beside them. */
  ghost predicate Extended(before: Mailboxes, after: Mailboxes, addresses: set<string>) {
    && after.Keys == before.Keys + MailboxIds(addresses)
    && forall id :: id in before ==> after[id] == before[id]
  }

  lemma ExtendedNothing(boxes: Mailboxes)
    ensures Extended(boxes, boxes, {})
  {}

  lemma ExtendedOneMore(boxes: Mailboxes, now: Mailboxes, done: set<string>, a: string)
    requires Extended(boxes, now, done)
    ensures forall next: Mailboxes :: next.Keys == now.Keys + {MailboxId(a)} && (forall id :: id in now ==>
              next[id] == now[id]) ==>
              Extended(boxes, next, done + {a})
  {
    hide MailboxId;
  }

  /** The id of a source in the trigger's scheme. */
  function SourceText(a: string, p: Option<string>, kind: string): string {
    "msrc:mbx:" + a + ":" + (match p case Some(id) => id case None => "none") + ":" + kind
  }

  lemma SourceTextIsMint(a: string, p: Option<string>, kind: string)
    ensures SourceText(a, p, kind) == Mint(a, p, kind)
  {
    assert "msrc:" + ("mbx:" + a) == "msrc:mbx:" + a;
  }

  /** Each of the addresses has its source, under the id that spells it out; nothing else is new and nothing
      is lost or changed. */
  ghost predicate Filed(was: Sources, now: Sources, addresses: set<string>, p: Option<string>, kind: string) {
    && (forall id :: id in was ==> id in now && now[id] == was[id])
    && (forall a :: a in addresses ==>
          SourceText(a, p, kind) in now && now[SourceText(a, p, kind)] == Source("mbx:" + a, p, kind, Some(a)))
    && (forall id :: id in now && id !in was ==> exists a :: a in addresses && id == SourceText(a, p, kind))
  }

  /** The sources that the columns of the message call for. */
  ghost predicate FiledFor(m: Message, was: Sources, now: Sources, addresses: set<string>) {
    exists p, kind :: ProviderFits(m, p) && KindFits(m, kind) && Filed(was, now, addresses, p, kind)
  }

  lemma FiledNothing(was: Sources, p: Option<string>, kind: string)
    ensures Filed(was, was, {}, p, kind)
  {}

  lemma SameMint(a: string, b: string, p: Option<string>, kind: string)
    requires Mint(a, p, kind) == Mint(b, p, kind)
    ensures a == b
  {
    var rest := ":" + ProviderPart(p) + ":" + kind;
    assert Mint(a, p, kind) == "msrc:mbx:" + a + rest && Mint(b, p, kind) == "msrc:mbx:" + b + rest;
    assert |a| == |b|;
    assert a == Mint(a, p, kind)[9..9 + |a|] && b == Mint(b, p, kind)[9..9 + |b|];
  }

  lemma SameRow(id: string, s: Source, t: Source)
    requires IsMinted(id, s) && IsMinted(id, t) && s.providerId != Some("none") && t.providerId != Some("none")
    ensures s == t
  {
    hide IsMinted;
    MintedRows(id, s, id, t);
  }

  lemma FiledOneMore(start: Sources, was: Sources, done: set<string>, a: string, p: Option<string>, kind: string)
    requires AllMinted(start) && NoneIsNoProvider(start) && p != Some("none")
    requires IsMinted(Mint(a, p, kind), Source(MailboxId(a), p, kind, Some(a)))
    requires Filed(start, was, done, p, kind)
    ensures Filed(start, was[Mint(a, p, kind) := Source(MailboxId(a), p, kind, Some(a))], done + {a}, p, kind)
  {
    hide IsMinted, Mint, SourceText;
    var id, row := Mint(a, p, kind), Source(MailboxId(a), p, kind, Some(a));
    SourceTextIsMint(a, p, kind);
    if id in start {
      SameRow(id, row, start[id]);
    }
    forall b | b in done
      ensures SourceText(b, p, kind) == id ==> b == a
    {
      SourceTextIsMint(b, p, kind);
      if SourceText(b, p, kind) == id {
        SameMint(a, b, p, kind);
      }
    }
  }

  /** The mailboxes of the addresses that had none are new, active and named by the address. */
  ghost predicate Opened(before: Mailboxes, after: Mailboxes, addresses: set<string>, createdAt: string) {
    && (forall id :: id in before ==> id in after && after[id] == before[id])
    && (forall a :: a in addresses && "mbx:" + a !in before ==>
          "mbx:" + a in after && after["mbx:" + a] == Mailbox(a, Some(a), None, "active", createdAt))
    && (forall id :: id in after && id !in before ==> exists a :: a in addresses && id == "mbx:" + a)
  }

  lemma OpenedNothing(boxes: Mailboxes, createdAt: string)
    ensures Opened(boxes, boxes, {}, createdAt)
  {}

  lemma OpenedOneMore(boxes: Mailboxes, was: Mailboxes, now: Mailboxes, done: set<string>, a: string, createdAt: string)
    requires Opened(boxes, was, done, createdAt)
    requires now == if "mbx:" + a in was then was
                    else was["mbx:" + a := Mailbox(a, Some(a), None, "active", createdAt)]
    ensures Opened(boxes, now, done + {a}, createdAt)
  {
    forall b | b in done && "mbx:" + b == "mbx:" + a
      ensures b == a
    {
      SameMailbox(a, b);
    }
    if "mbx:" + a in was && "mbx:" + a !in boxes {
      var b :| b in done && "mbx:" + a == "mbx:" + b;
      SameMailbox(a, b);
    }
  }

  /** The mailboxes of `addresses`, and no others, have gained one pair of provenance. */
  ghost predicate Recorded(was: Sources, now: Sources, addresses: set<string>, pair: (Option<string>, string)) {
    forall a :: Provenance(now, MailboxId(a)) == Provenance(was, MailboxId(a)) + (if a in addresses then {pair} else {})
  }

  lemma RecordedNothing(was: Sources, pair: (Option<string>, string))
    ensures Recorded(was, was, {}, pair)
  {}

  lemma ProvenanceGrows(was: Sources, a: string, p: Option<string>, kind: string, b: string)
    requires NoneIsNoProvider(was) && p != Some("none")
    requires AllMinted(was) && IsMinted(Mint(a, p, kind), Source(MailboxId(a), p, kind, Some(a)))
    ensures Provenance(was[Mint(a, p, kind) := Source(MailboxId(a), p, kind, Some(a))], MailboxId(b)) ==
              Provenance(was, MailboxId(b)) + (if b == a then {(p, kind)} else {})
  {
    hide IsMinted, Mint, MailboxId;
    var id, row := Mint(a, p, kind), Source(MailboxId(a), p, kind, Some(a));
    var now := was[id := row];
    if MailboxId(a) == MailboxId(b) {
      SameMailbox(a, b);
    }
    if id in was {
      SameRow(id, row, was[id]);
    }
    assert forall k :: k in was ==> k in now && now[k] == was[k];
    assert id in now;
  }

  lemma RecordedOneMore(start: Sources, was: Sources, done: set<string>, a: string, p: Option<string>, kind: string)
    requires AllMinted(was) && IsMinted(Mint(a, p, kind), Source(MailboxId(a), p, kind, Some(a)))
    requires NoneIsNoProvider(was) && p != Some("none")
    requires Recorded(start, was, done, (p, kind))
    ensures Recorded(start, was[Mint(a, p, kind) := Source(MailboxId(a), p, kind, Some(a))], done + {a}, (p, kind))
  {
    hide AllMinted, IsMinted, Mint, Provenance;
    var now := was[Mint(a, p, kind) := Source(MailboxId(a), p, kind, Some(a))];
    forall b
      ensures Provenance(now, MailboxId(b)) ==
                Provenance(start, MailboxId(b)) + (if b in done + {a} then {(p, kind)} else {})
    {
      ProvenanceGrows(was, a, p, kind, b);
    }
  }

  lemma MintsPlainly(m: Message, a: string)
    requires ProviderIsPlain(m)
    ensures ProviderId(m) != Some("none")
    ensures IsMinted(Mint(a, ProviderId(m), SourceKind(m)), Source(MailboxId(a), ProviderId(m), SourceKind(m), Some(a)))
  {
    assert Plain("legacy_inbound") && Plain("ses_s3") && Plain("ses") && Plain("resend") && Plain("sandbox");
  }

  // ---------------------------------------------------------------- steps of the bridge

  lemma OwnedByMore(sources: Sources, boxes: Mailboxes, more: Mailboxes)
    requires Owned(sources, boxes) && boxes.Keys <= more.Keys
    ensures Owned(sources, more)
  {}

  lemma LeftOwned(sources: Sources, mailboxes: Mailboxes)
    requires Owned(sources, mailboxes) && NamedMailboxes(mailboxes)
    requires forall id :: id in sources ==> sources[id].mailboxId != MailboxId(RETIRED)
    ensures Owned(sources, mailboxes - {MailboxId(RETIRED)}) && NamedMailboxes(mailboxes - {MailboxId(RETIRED)})
  {
    hide MailboxId;
  }

  lemma FewerMinted(before: Sources, fewer: Sources)
    requires AllMinted(before) && forall id :: id in fewer ==> id in before && fewer[id] == before[id]
    ensures AllMinted(fewer)
  {
    hide IsMinted;
  }

  lemma RekeyInjective(a: string, s: Source, b: string, t: Source)
    requires IsMinted(a, s) && IsMinted(b, t) && s.mailboxId == t.mailboxId == MailboxId(RETIRED)
               && Rekey(a) == Rekey(b)
    ensures a == b
  {
    hide Rekey;
    RekeyMints(a, s);
    RekeyMints(b, t);
    MintedRows(Rekey(a), Moved(s), Rekey(b), Moved(t));
    SameMailbox(s.external.value, t.external.value);
    MintedRows(a, s, b, t);
  }

  lemma RekeyApart(start: Sources, now: Sources, left: set<string>, id: string)
    requires AllMinted(start) && AllMinted(now) && Partway(start, now, left)
    requires id in left && id in start && start[id].mailboxId == MailboxId(RETIRED)
    requires forall k :: k in start && start[k].mailboxId == MailboxId(RETIRED) ==> Rekey(k) !in start
    ensures id in now && now[id] == start[id] && Rekey(id) !in now
  {
    hide IsMinted, Rekey, MailboxId;
    if Rekey(id) in now {
      var r :| r in start && start[r].mailboxId == MailboxId(RETIRED) && r !in left && Rekey(r) == Rekey(id);
      RekeyInjective(r, start[r], id, start[id]);
    }
  }

  lemma PartwayStep(start: Sources, was: Sources, left: set<string>, id: string)
    requires AllMinted(start) && AllMinted(was) && Partway(start, was, left)
    requires forall k :: k in left ==> k in start && start[k].mailboxId == MailboxId(RETIRED)
    requires forall k :: k in start && start[k].mailboxId == MailboxId(RETIRED) ==> Rekey(k) !in start
    requires id in left && Rekey(id) !in was
    ensures id in was
    ensures Partway(start, (was - {id})[Rekey(id) := Moved(was[id])], left - {id})
    ensures AllMinted((was - {id})[Rekey(id) := Moved(was[id])])
  {
    hide IsMinted, Rekey, MailboxId;
    var now := (was - {id})[Rekey(id) := Moved(was[id])];
    RekeyMints(id, was[id]);
    forall k | k in start && start[k].mailboxId == MailboxId(RETIRED) && k !in left - {id}
      ensures Rekey(k) in now && now[Rekey(k)] == Moved(start[k])
    {
      assert Rekey(k) !in start;
    }
    forall k | k in now
      ensures || (k in start && (start[k].mailboxId != MailboxId(RETIRED) || k in left - {id}))
              || exists r :: r in start && r !in left - {id}
                             && start[r].mailboxId == MailboxId(RETIRED) && Rekey(r) == k
    {}
  }

  /** Dropping the doubles and then moving the rest is what `Bridged` says. */
  lemma DroppedThenMoved(before: Sources, start: Sources, after: Sources)
    requires AllMinted(before)
    requires forall id :: id in start <==>
               id in before && !(before[id].mailboxId == MailboxId(RETIRED) && Rekey(id) in before)
    requires forall id :: id in start ==> start[id] == before[id]
    requires Partway(start, after, {})
    ensures Bridged(before, after)
  {
    hide IsMinted, Rekey, MailboxId;
    MailboxIdsDiffer();
    forall id | id in before && before[id].mailboxId == MailboxId(RETIRED) && Rekey(id) in before
      ensures Rekey(id) in after
    {
      RekeyMints(id, before[id]);
      MintedRows(Rekey(id), Moved(before[id]), Rekey(id), before[Rekey(id)]);
    }
  }

  lemma StillOwned(before: Sources, after: Sources, mailboxes: Mailboxes)
    requires AllMinted(before) && Bridged(before, after)
    requires Owned(before, mailboxes) && (MailboxId(RETIRED) in mailboxes ==> MailboxId(CURRENT) in mailboxes)
    ensures Owned(after, mailboxes)
  {
    hide IsMinted, Rekey, MailboxId;
    BridgedStaysMinted(before, after);
    forall id | id in after && id !in before
      ensures MailboxId(RETIRED) in mailboxes
    {
      var r :| r in before && before[r].mailboxId == MailboxId(RETIRED) && Rekey(r) == id;
    }
  }

  /** How far the trigger has come with a message: the recipients `done` have their mailbox and source. */
  ghost predicate Handled(m: Message, boxes: Mailboxes, mailboxes: Mailboxes, start: Sources, sources: Sources,
                          done: set<string>) {
    && AllMinted(start) && NoneIsNoProvider(start)
    && Extended(boxes, mailboxes, done)
    && Recorded(start, sources, done, (ProviderId(m), SourceKind(m)))
    && Opened(boxes, mailboxes, done, m.createdAt)
    && Filed(start, sources, done, ProviderId(m), SourceKind(m))
  }

  lemma HandledNothing(m: Message, boxes: Mailboxes, start: Sources)
    requires AllMinted(start) && NoneIsNoProvider(start)
    ensures Handled(m, boxes, boxes, start, start, {})
  {
    hide Extended, Recorded, Opened, Filed;
    ExtendedNothing(boxes);
    RecordedNothing(start, (ProviderId(m), SourceKind(m)));
    OpenedNothing(boxes, m.createdAt);
    FiledNothing(start, ProviderId(m), SourceKind(m));
  }

  lemma HandledAll(m: Message, boxes: Mailboxes, mailboxes: Mailboxes, start: Sources, sources: Sources,
                   done: set<string>)
    requires Handled(m, boxes, mailboxes, start, sources, done)
    ensures Extended(boxes, mailboxes, done) && Opened(boxes, mailboxes, done, m.createdAt)
    ensures Recorded(start, sources, done, (ProviderId(m), SourceKind(m)))
    ensures FiledFor(m, start, sources, done)
  {
    hide Extended, Recorded, Opened, Filed, KindFits, ProviderFits, ProviderId, SourceKind;
    MessageTold(m);
  }

  class MailArchitecture {
    var mailboxes: Mailboxes
    var sources: Sources

    ghost predicate Valid()
      reads this
    {
      NamedMailboxes(mailboxes) && AllMinted(sources) && Owned(sources, mailboxes)
    }

    constructor ()
      ensures Valid() && mailboxes == map[] && sources == map[]
    {
      mailboxes := map[];
      sources := map[];
    }

    /** The DELETE of sources whose re-keyed identity is recorded already. */
    method DropDoubles()
      modifies `sources
      ensures forall id :: id in sources <==>
                id in old(sources) && !(old(sources)[id].mailboxId == MailboxId(RETIRED) && Rekey(id) in old(sources))
      ensures forall id :: id in sources ==> sources[id] == old(sources)[id]
    {
      sources := map id | id in sources && !(sources[id].mailboxId == MailboxId(RETIRED) && Rekey(id) in sources) ::
                   sources[id];
    }

    /** The re-keying UPDATE, row by row in any order; a row that would break a key refuses it. */
    method RekeyRetired() returns (ok: bool)
      requires AllMinted(sources)
      requires forall id :: id in sources && sources[id].mailboxId == MailboxId(RETIRED) ==> Rekey(id) !in sources
      modifies `sources
      ensures ok && Partway(old(sources), sources, {}) && AllMinted(sources)
    {
      hide IsMinted, Rekey, MailboxId, Clash;
      ghost var start := sources;
      var left := set id | id in sources && sources[id].mailboxId == MailboxId(RETIRED);
      while left != {}
        invariant forall id :: id in left ==> id in start && start[id].mailboxId == MailboxId(RETIRED)
        invariant AllMinted(sources) && Partway(start, sources, left)
        decreases |left|
      {
        var id :| id in left;
        var row := sources[id];
        RekeyMints(id, row);
        MintedNeverClash(sources, Rekey(id), Moved(row));
        RekeyApart(start, sources, left, id);
        if Rekey(id) in sources || Clash(sources, Rekey(id), Moved(row)) {
          return false;
        }
        ghost var was := sources;
        sources := (sources - {id})[Rekey(id) := Moved(row)];
        PartwayStep(start, was, left, id);
        left := left - {id};
      }
      ok := true;
    }

    /** The first INSERT OR IGNORE: the current mailbox takes over what the retired one says. */
    method AdoptMailbox()
      requires NamedMailboxes(mailboxes)
      modifies `mailboxes
      ensures NamedMailboxes(mailboxes)
      ensures mailboxes.Keys
                == old(mailboxes).Keys + (if MailboxId(RETIRED) in old(mailboxes) then {MailboxId(CURRENT)} else {})
      ensures forall id :: id in old(mailboxes) ==> mailboxes[id] == old(mailboxes)[id]
      ensures MailboxId(RETIRED) in old(mailboxes) && MailboxId(CURRENT) !in old(mailboxes) ==>
                var r, c := old(mailboxes)[MailboxId(RETIRED)], mailboxes[MailboxId(CURRENT)];
                c.ownerId == r.ownerId && c.status == r.status && c.createdAt == r.createdAt
                && c.displayName == (if r.displayName.Some? then r.displayName else Some("Legacy inbound"))
    {
      hide MailboxId;
      if MailboxId(RETIRED) in mailboxes && MailboxId(CURRENT) !in mailboxes {
        var r := mailboxes[MailboxId(RETIRED)];
        var name := if r.displayName.Some? then r.displayName else Some("Legacy inbound");
        mailboxes := mailboxes[MailboxId(CURRENT) := Mailbox(CURRENT, name, r.ownerId, r.status, r.createdAt)];
      }
    }

    method Bridge() returns (ok: bool)
      requires Valid()
      modifies this
      ensures ok && Valid()
      ensures Bridged(old(sources), sources)
      ensures NoneIsNoProvider(old(sources)) ==> NoneIsNoProvider(sources)
      ensures MailboxId(RETIRED) !in mailboxes
      ensures mailboxes.Keys == old(mailboxes).Keys - {MailboxId(RETIRED)}
                + (if MailboxId(RETIRED) in old(mailboxes) then {MailboxId(CURRENT)} else {})
      ensures forall id :: id in mailboxes && id in old(mailboxes) ==> mailboxes[id] == old(mailboxes)[id]
    {
      hide Rekey, IsMinted, MailboxId, Partway, Bridged, AllMinted, NamedMailboxes, Owned, NoneIsNoProvider, Confused;
      MailboxIdsDiffer();
      ghost var before, boxes := sources, mailboxes;
      AdoptMailbox();
      OwnedByMore(sources, boxes, mailboxes);
      DropDoubles();
      ghost var start := sources;
      FewerMinted(before, start);
      ok := RekeyRetired();
      DroppedThenMoved(before, start, sources);
      BridgedStaysMinted(before, sources);
      if NoneIsNoProvider(before) {
        GeneratedIdsConserve(before, sources);
      }
      StillOwned(before, sources, mailboxes);
      if !exists id :: id in sources && sources[id].mailboxId == MailboxId(RETIRED) {
        LeftOwned(sources, mailboxes);
        mailboxes := mailboxes - {MailboxId(RETIRED)};
      }
    }

    /** `INSERT OR IGNORE INTO mailbox_sources`. */
    method AddSource(address: string, providerId: Option<string>, kind: string)
      requires IsMinted(Mint(address, providerId, kind), Source(MailboxId(address), providerId, kind, Some(address)))
      requires AllMinted(sources) && Owned(sources, mailboxes) && MailboxId(address) in mailboxes
      requires NoneIsNoProvider(sources) && providerId != Some("none")
      modifies `sources
      ensures AllMinted(sources) && Owned(sources, mailboxes) && NoneIsNoProvider(sources)
      ensures var source := Source(MailboxId(address), providerId, kind, Some(address));
              sources == old(sources)[Mint(address, providerId, kind) := source]
    {
      hide IsMinted, Mint, MailboxId, Clash;
      var id, row := Mint(address, providerId, kind), Source(MailboxId(address), providerId, kind, Some(address));
      MintedNeverClash(sources, id, row);
      if id in sources {
        SameRow(id, row, sources[id]);
      } else if !Clash(sources, id, row) {
        sources := sources[id := row];
      }
    }

    lemma ValidIsMinted()
      requires Valid()
      ensures AllMinted(sources)
    {
      hide AllMinted, NamedMailboxes, Owned;
    }

    /** The trigger that fires after every insert into `inbound_emails`. */
    method Receive(m: Message)
      requires Valid() && ProviderIsPlain(m) && NoneIsNoProvider(sources)
      modifies this
      ensures Valid() && NoneIsNoProvider(sources)
      ensures Extended(old(mailboxes), mailboxes, Recipients(m.to))
      ensures Recorded(old(sources), sources, Recipients(m.to), (ProviderId(m), SourceKind(m)))
      ensures Opened(old(mailboxes), mailboxes, Recipients(m.to), m.createdAt)
      ensures FiledFor(m, old(sources), sources, Recipients(m.to))
    {
      hide Recipients, Handled, Valid, ProviderIsPlain, NoneIsNoProvider, AllMinted, Extended, Recorded, Opened,
           FiledFor,
           ProviderId, SourceKind;
      var left := Recipients(m.to);
      ghost var boxes, start := mailboxes, sources;
      ghost var done: set<string> := {};
      ValidIsMinted();
      HandledNothing(m, boxes, start);
      while left != {}
        invariant done + left == Recipients(m.to)
        invariant Valid() && NoneIsNoProvider(sources) && Handled(m, boxes, mailboxes, start, sources, done)
        decreases |left|
      {
        var a :| a in left;
        ReceiveFor(m, a, boxes, start, done);
        done := done + {a};
        left := left - {a};
      }
      assert done == Recipients(m.to);
      HandledAll(m, boxes, mailboxes, start, sources, done);
    }

    /** The trigger's two rows for one recipient. */
    method ReceiveFor(m: Message, a: string, ghost boxes: Mailboxes, ghost start: Sources, ghost done: set<string>)
      requires Valid() && ProviderIsPlain(m) && NoneIsNoProvider(sources)
      requires Handled(m, boxes, mailboxes, start, sources, done)
      modifies this
      ensures Valid() && NoneIsNoProvider(sources)
      ensures Handled(m, boxes, mailboxes, start, sources, done + {a})
    {
      hide IsMinted, Mint, MailboxId, SourceKind, ProviderId, Recorded, AllMinted, NamedMailboxes, Owned,
           ProviderIsPlain, Extended, NoneIsNoProvider, Opened, Filed;
      ghost var was := mailboxes;
      ExtendedOneMore(boxes, mailboxes, done, a);
      EnsureMailbox(a, m.createdAt);
      OpenedOneMore(boxes, was, mailboxes, done, a, m.createdAt);
      MintsPlainly(m, a);
      RecordedOneMore(start, sources, done, a, ProviderId(m), SourceKind(m));
      FiledOneMore(start, sources, done, a, ProviderId(m), SourceKind(m));
      AddSource(a, ProviderId(m), SourceKind(m));
    }

    /** `INSERT OR IGNORE INTO mailboxes`. */
    method EnsureMailbox(a: string, createdAt: string)
      requires NamedMailboxes(mailboxes) && Owned(sources, mailboxes)
      modifies `mailboxes
      ensures NamedMailboxes(mailboxes) && Owned(sources, mailboxes)
      ensures mailboxes.Keys == old(mailboxes).Keys + {MailboxId(a)}
      ensures forall id :: id in old(mailboxes) ==> mailboxes[id] == old(mailboxes)[id]
      ensures mailboxes == if "mbx:" + a in old(mailboxes) then old(mailboxes)
                           else old(mailboxes)["mbx:" + a := Mailbox(a, Some(a), None, "active", createdAt)]
    {
      assert MailboxId(a) == "mbx:" + a;
      hide MailboxId;
      if MailboxId(a) !in mailboxes {
        mailboxes := mailboxes[MailboxId(a) := Mailbox(a, Some(a), None, "active", createdAt)];
      }
    }
  }

  // ---------------------------------------------------------------- after the bridge

  /** The mailboxes after a run of inserts. */
  ghost function MailboxesAfter(ids: set<string>, messages: seq<Message>): set<string>
    decreases |messages|
  {
    if messages == [] then ids
    else MailboxesAfter(ids + MailboxIds(Recipients(messages[0].to)), messages[1..])
  }

  /** Once bridged, no run of inserts mints the retired mailbox again unless a message is addressed to
      it. */
  lemma {:induction false} RetiredStaysGone(ids: set<string>, messages: seq<Message>)
    ensures MailboxId(RETIRED) in MailboxesAfter(ids, messages) <==>
              MailboxId(RETIRED) in ids || exists m, v :: m in messages && v in m.to && Normalized(v) == RETIRED
    decreases |messages|
  {
    hide Recipients, Normalized, MailboxId;
    if messages == [] {
    } else {
      var next := ids + MailboxIds(Recipients(messages[0].to));
      RetiredStaysGone(next, messages[1..]);
      RetiredOnlyIfAddressed(messages[0].to);
      assert MailboxId(RETIRED) in next <==> MailboxId(RETIRED) in ids || RETIRED in Recipients(messages[0].to) by {
        if a :| a in Recipients(messages[0].to) && MailboxId(a) == MailboxId(RETIRED) {
          SameMailbox(a, RETIRED);
        }
      }
      assert messages == [messages[0]] + messages[1..];
    }
  }
}
