/** Moving a domain and its addresses from one provider to another (src/db/domains.local.ts). */
module DomainMove {
  import opened Wrappers
  import opened Text

  datatype Domain = Domain(providerId: string, name: string, updatedAt: string)

  datatype Address = Address(providerId: string, email: string, domainId: Option<string>, updatedAt: string)

  type Domains = map<string, Domain>
  type Addresses = map<string, Address>

  datatype Fault = DomainNotFound | TargetHasDomain | TargetHasAddress | ConstraintFailed

  datatype Moved = Moved(from: string, to: string, addresses: nat)

  // ---------------------------------------------------------------- what the queries ask

  /** `substr(email, instr(email, '@') + 1)`: what follows the first '@', or the whole text. */
  function DomainPart(email: string): (r: string) {
    var at := IndexOf(email, '@');
    if at < |email| then email[at + 1..] else email
  }

  /** The addresses that move with the domain. */
  predicate OnDomain(a: Address, providerId: string, name: string) {
    a.providerId == providerId && SameLetters(DomainPart(a.email), name)
  }

  /** `getDomainByName` trims the name it is given; the stored names are not trimmed. */
  predicate HasDomain(domains: Domains, providerId: string, name: string) {
    exists d :: d in domains && domains[d].providerId == providerId && SameLetters(domains[d].name, Trim(name))
  }

  predicate HasAddress(addresses: Addresses, providerId: string, email: string, except: string) {
    exists b :: b in addresses && b != except
                && addresses[b].providerId == providerId && SameLetters(addresses[b].email, email)
  }

  predicate Conflicts(addresses: Addresses, from: string, to: string, name: string) {
    exists a :: a in addresses && OnDomain(addresses[a], from, name) && HasAddress(addresses, to, addresses[a].email, a)
  }

  /** The exact UNIQUE(provider_id, domain) that the UPDATE would break. */
  predicate TakesName(domains: Domains, providerId: string, name: string) {
    exists d :: d in domains && domains[d].providerId == providerId && domains[d].name == name
  }

  // ---------------------------------------------------------------- what a move does

  function MovedDomains(domains: Domains, id: string, to: string, stamp: string): (r: Domains)
    requires id in domains
  {
    domains[id := Domain(to, domains[id].name, stamp)]
  }

  function MovedAddresses(addresses: Addresses, from: string, name: string, id: string, to: string,
                          stamp: string): (r: Addresses) {
    map a | a in addresses ::
      if OnDomain(addresses[a], from, name) then Address(to, addresses[a].email, Some(id), stamp) else addresses[a]
  }

  ghost function Movers(addresses: Addresses, from: string, name: string): (r: set<string>) {
    set a | a in addresses && OnDomain(addresses[a], from, name)
  }

  /** Why a move is refused, in the order the reasons are looked for; none when it goes through. */
  function Refusal(providers: set<string>, domains: Domains, addresses: Addresses, id: string,
                   to: string): (r: Option<Fault>) {
    if id !in domains then Some(DomainNotFound)
    else
      var d := domains[id];
      if d.providerId == to then None
      else if HasDomain(domains, to, d.name) then Some(TargetHasDomain)
      else if Conflicts(addresses, d.providerId, to, d.name) then Some(TargetHasAddress)
      else if to !in providers || TakesName(domains, to, d.name) then Some(ConstraintFailed)
      else None
  }

  // ---------------------------------------------------------------- the keys

  ghost predicate UniqueDomains(domains: Domains) {
    forall a, b :: a in domains && b in domains && a != b ==>
      domains[a].providerId != domains[b].providerId || domains[a].name != domains[b].name
  }

  ghost predicate UniqueAddresses(addresses: Addresses) {
    forall a, b :: a in addresses && b in addresses && a != b ==>
      addresses[a].providerId != addresses[b].providerId || addresses[a].email != addresses[b].email
  }

  /** The same, with the case of letters ignored. */
  ghost predicate CaselessDomains(domains: Domains) {
    forall a, b :: a in domains && b in domains && a != b ==>
      domains[a].providerId != domains[b].providerId || !SameLetters(domains[a].name, domains[b].name)
  }

  ghost predicate CaselessAddresses(addresses: Addresses) {
    forall a, b :: a in addresses && b in addresses && a != b ==>
      addresses[a].providerId != addresses[b].providerId || !SameLetters(addresses[a].email, addresses[b].email)
  }

  lemma HasAddressMeans(addresses: Addresses, to: string, email: string, except: string, b: string)
    ensures b in addresses && b != except && addresses[b].providerId == to && SameLetters(addresses[b].email, email) ==>
              HasAddress(addresses, to, email, except)
  {
    hide SameLetters;
  }

  lemma OnDomainProvider(a: Address, from: string, name: string)
    ensures OnDomain(a, from, name) ==> a.providerId == from
  {}

  lemma SameLettersSymmetric(x: string, y: string)
    ensures SameLetters(x, y) == SameLetters(y, x) && SameLetters(x, x)
  {}

  /** A move that is not refused keeps both keys of the addresses, exact and caseless. */
  lemma MoveKeepsAddressKeys(addresses: Addresses, from: string, name: string, id: string, to: string, stamp: string)
    requires from != to && !Conflicts(addresses, from, to, name)
    ensures UniqueAddresses(addresses) ==> UniqueAddresses(MovedAddresses(addresses, from, name, id, to, stamp))
    ensures CaselessAddresses(addresses) ==> CaselessAddresses(MovedAddresses(addresses, from, name, id, to, stamp))
  {
    hide OnDomain, SameLetters, HasAddress;
    var after := MovedAddresses(addresses, from, name, id, to, stamp);
    forall a, b
      | a in after && b in after && a != b && OnDomain(addresses[a], from, name) && !OnDomain(addresses[b], from, name)
      ensures addresses[b].providerId == to ==> !SameLetters(addresses[b].email, addresses[a].email)
    {
      HasAddressMeans(addresses, to, addresses[a].email, a, b);
    }
    forall a | a in addresses
      ensures OnDomain(addresses[a], from, name) ==> addresses[a].providerId == from
    {
      OnDomainProvider(addresses[a], from, name);
    }
    forall x: string, y: string
      ensures SameLetters(x, y) == SameLetters(y, x) && SameLetters(x, x)
    {
      SameLettersSymmetric(x, y);
    }
  }

  /** A move that is not refused keeps the exact key of the domains. */
  lemma MoveKeepsDomainKey(domains: Domains, id: string, to: string, stamp: string)
    requires id in domains && UniqueDomains(domains) && !TakesName(domains, to, domains[id].name)
    ensures UniqueDomains(MovedDomains(domains, id, to, stamp))
  {}

  // ---------------------------------------------------------------- the caseless key of the domains

  predicate IsLetter(c: char) {
    'a' <= c <= 'z' || 'A' <= c <= 'Z'
  }

  predicate HasLetter(s: string) {
    exists i :: 0 <= i < |s| && IsLetter(s[i])
  }

  /** The checks let a domain of this name through from one provider to another. */
  ghost predicate LetThrough(domains: Domains, id: string, to: string) {
    && id in domains && domains[id].providerId != to
    && !HasDomain(domains, to, domains[id].name)
    && !TakesName(domains, to, domains[id].name)
  }

  /** Moving domains of this name never puts two spellings of one domain on a provider. */
  ghost predicate NameMovesSafely(name: string) {
    forall domains: Domains, id, to, stamp ::
      LetThrough(domains, id, to) && domains[id].name == name && CaselessDomains(domains) ==>
        CaselessDomains(MovedDomains(domains, id, to, stamp))
  }

  lemma NotSafely(name: string, domains: Domains, id: string, to: string, stamp: string)
    requires id in domains && LetThrough(domains, id, to) && domains[id].name == name && CaselessDomains(domains)
    requires !CaselessDomains(MovedDomains(domains, id, to, stamp))
    ensures !NameMovesSafely(name)
  {
    hide LetThrough, CaselessDomains, MovedDomains;
  }

  /** A text without letters has no other spelling. */
  lemma LetterlessExact(s: string, name: string)
    requires !HasLetter(name)
    ensures SameLetters(s, name) ==> s == name
  {
    if SameLetters(s, name) {
      forall i | 0 <= i < |name|
        ensures s[i] == name[i]
      {
        assert Lower(s)[i] == Lower(name)[i] == LowerChar(name[i]);
        assert !IsLetter(name[i]);
      }
      assert |Lower(s)| == |Lower(name)|;
    }
  }

  lemma SafeNameMoves(domains: Domains, id: string, to: string, stamp: string)
    requires LetThrough(domains, id, to) && CaselessDomains(domains)
    requires Trim(domains[id].name) == domains[id].name || !HasLetter(domains[id].name)
    ensures CaselessDomains(MovedDomains(domains, id, to, stamp))
  {
    hide SameLetters, HasLetter, Trim;
    var name, after := domains[id].name, MovedDomains(domains, id, to, stamp);
    forall d | d in domains && d != id && domains[d].providerId == to
      ensures !SameLetters(domains[d].name, name) && !SameLetters(name, domains[d].name)
    {
      SameLettersSymmetric(domains[d].name, name);
      if !HasLetter(name) {
        LetterlessExact(domains[d].name, name);
      }
    }
  }

  function OtherCase(c: char): char {
    if 'a' <= c <= 'z' then c - 'a' + 'A' else LowerChar(c)
  }

  lemma OtherSpelling(name: string) returns (other: string)
    requires HasLetter(name)
    ensures other != name && SameLetters(other, name)
  {
    var i :| 0 <= i < |name| && IsLetter(name[i]);
    other := name[i := OtherCase(name[i])];
    assert other[i] != name[i];
    assert LowerChar(OtherCase(name[i])) == LowerChar(name[i]);
  }

  lemma {:induction false} TrimShorter(s: string)
    requires Trim(s) != s
    ensures |Trim(s)| < |s|
  {
    var a, b := TrimSplits(s, IsSpace);
    assert a == "" && b == "" ==> a + Trim(s) + b == Trim(s);
  }

  lemma UnsafeNameMoves(name: string, other: string) returns (domains: Domains)
    requires Trim(name) != name && other != name && SameLetters(other, name)
    ensures "moving" in domains && LetThrough(domains, "moving", "to") && domains["moving"].name == name
              && CaselessDomains(domains)
    ensures !CaselessDomains(MovedDomains(domains, "moving", "to", ""))
  {
    hide Trim;
    domains := map["moving" := Domain("from", name, ""), "standing" := Domain("to", other, "")];
    assert domains["moving"].providerId == "from" && domains["standing"].providerId == "to";
    assert "from"[0] != "to"[0];
    TrimShorter(name);
    assert |Lower(other)| == |Lower(name)| && |Lower(Trim(name))| < |Lower(name)|;
    var after := MovedDomains(domains, "moving", "to", "");
    assert after["moving"].providerId == after["standing"].providerId
             && SameLetters(after["standing"].name, after["moving"].name);
  }

  /** That holds exactly for the names that carry no white space at their ends, or no letter: the check
      against the target provider looks for the trimmed name, and the move keeps the name as stored. */
  lemma SafeNames(name: string)
    ensures NameMovesSafely(name) <==> Trim(name) == name || !HasLetter(name)
  {
    hide Trim, HasLetter, HasDomain, TakesName, CaselessDomains, MovedDomains;
    if Trim(name) == name || !HasLetter(name) {
      forall domains: Domains, id, to, stamp
        | id in domains && LetThrough(domains, id, to) && domains[id].name == name && CaselessDomains(domains)
        ensures CaselessDomains(MovedDomains(domains, id, to, stamp))
      {
        SafeNameMoves(domains, id, to, stamp);
      }
    } else {
      var other := OtherSpelling(name);
      var domains := UnsafeNameMoves(name, other);
      NotSafely(name, domains, "moving", "to", "");
    }
  }

  // ---------------------------------------------------------------- the domain of an address

  /** The address is of the domain: what follows its first '@' is the name in whatever case; one without an
      '@' counts as a name itself. */
  ghost predicate Of(email: string, name: string) {
    || (exists x, d :: email == x + "@" + d && '@' !in x && Lower(d) == Lower(name))
    || ('@' !in email && Lower(email) == Lower(name))
  }

  lemma DomainFollowsAt(x: string, d: string)
    requires '@' !in x
    ensures DomainPart(x + "@" + d) == d
  {
    var email := x + "@" + d;
    assert email[|x|] == '@';
    forall k | 0 <= k < |x|
      ensures email[k] != '@'
    {
      assert email[k] == x[k];
    }
    IndexOfUnique(email, '@', |x|);
    assert email[|x| + 1..] == d;
  }

  lemma SplitsAtFirst(email: string)
    requires '@' in email
    ensures exists x :: email == x + "@" + DomainPart(email) && '@' !in x
  {
    var at := IndexOf(email, '@');
    assert at < |email|;
    var x := email[..at];
    assert email == x + [email[at]] + email[at + 1..];
    forall k | 0 <= k < |x|
      ensures x[k] != '@'
    {
      assert x[k] == email[k];
    }
  }

  lemma OfMeans(email: string, name: string)
    ensures SameLetters(DomainPart(email), name) <==> Of(email, name)
  {
    hide Lower, IndexOf;
    if '@' in email {
      SplitsAtFirst(email);
    }
    forall x, d | email == x + "@" + d && '@' !in x
      ensures DomainPart(email) == d && '@' in email
    {
      DomainFollowsAt(x, d);
      assert email[|x|] == '@';
    }
  }

  /** The addresses that move are those of the source provider on the domain. */
  lemma MoversMean(addresses: Addresses, from: string, name: string, a: string)
    ensures a in Movers(addresses, from, name) <==>
              a in addresses && addresses[a].providerId == from && Of(addresses[a].email, name)
  {
    hide DomainPart, SameLetters, Of;
    if a in addresses {
      OfMeans(addresses[a].email, name);
    }
  }

  /** The moved domain has the new provider, its old name and the new stamp; every other is as it was. */
  lemma DomainMoves(domains: Domains, id: string, to: string, stamp: string)
    requires id in domains
    ensures var after := MovedDomains(domains, id, to, stamp);
            && after.Keys == domains.Keys && after[id].providerId == to && after[id].name == domains[id].name
            && after[id].updatedAt == stamp
            && forall d :: d in domains && d != id ==> after[d] == domains[d]
  {}

  /** The target provider has the domain: one of its names is, in whatever case, the name without white space
      at its ends. */
  ghost predicate TargetHas(domains: Domains, to: string, name: string) {
    exists d :: d in domains && domains[d].providerId == to && Lower(domains[d].name) == Lower(Trim(name))
  }

  /** An address that would move is, in whatever case, one of the target provider's. */
  ghost predicate TargetHasOne(addresses: Addresses, from: string, to: string, name: string) {
    exists a, b :: a in addresses && b in addresses && a != b
      && addresses[a].providerId == from && Of(addresses[a].email, name)
      && addresses[b].providerId == to && Lower(addresses[b].email) == Lower(addresses[a].email)
  }

  lemma ConflictsMean(addresses: Addresses, from: string, to: string, name: string)
    ensures Conflicts(addresses, from, to, name) <==> TargetHasOne(addresses, from, to, name)
  {
    hide DomainPart, Lower, Of;
    forall a | a in addresses
      ensures SameLetters(DomainPart(addresses[a].email), name) <==> Of(addresses[a].email, name)
    {
      OfMeans(addresses[a].email, name);
    }
  }

  /** Why a move is refused: an unknown domain first; nothing when the domain is the target's already; then a
      target that has the domain, one that has an address, one that does not exist or has the exact name. */
  lemma RefusalMeans(providers: set<string>, domains: Domains, addresses: Addresses, id: string, to: string)
    ensures id !in domains <==> Refusal(providers, domains, addresses, id, to) == Some(DomainNotFound)
    ensures id in domains && domains[id].providerId == to ==> Refusal(providers, domains, addresses, id, to).None?
    ensures id in domains && domains[id].providerId != to ==>
              var r, name, from := Refusal(providers, domains, addresses, id, to), domains[id].name,
                                     domains[id].providerId;
              && (r == Some(TargetHasDomain) <==> TargetHas(domains, to, name))
              && (r == Some(TargetHasAddress) <==>
                    !TargetHas(domains, to, name) && TargetHasOne(addresses, from, to, name))
              && (r == Some(ConstraintFailed) <==>
                    && !TargetHas(domains, to, name) && !TargetHasOne(addresses, from, to, name)
                    && (to !in providers
                        || exists d :: d in domains && domains[d].providerId == to && domains[d].name == name))
  {
    hide Lower, Trim, Conflicts, TargetHasOne;
    if id in domains {
      ConflictsMean(addresses, domains[id].providerId, to, domains[id].name);
    }
  }

  // ---------------------------------------------------------------- conservation

  /** The addresses of a provider. */
  ghost function Held(addresses: Addresses, provider: string): (r: set<string>) {
    set a | a in addresses && addresses[a].providerId == provider
  }

  /** No address is lost, renamed or invented; exactly the source provider's addresses on the domain
      change provider and gain the domain id, and none is left behind. */
  lemma MoveConserves(addresses: Addresses, from: string, name: string, id: string, to: string, stamp: string)
    requires from != to
    ensures var after := MovedAddresses(addresses, from, name, id, to, stamp);
            && after.Keys == addresses.Keys
            && (forall a :: a in addresses ==> after[a].email == addresses[a].email)
            && (forall a :: a in addresses ==>
                  (after[a].providerId != addresses[a].providerId <==> a in Movers(addresses, from, name)))
            && (forall a :: a in Movers(addresses, from, name) ==>
                  after[a].providerId == to && after[a].domainId == Some(id))
            && (forall a :: a in addresses && a !in Movers(addresses, from, name) ==> after[a] == addresses[a])
            && Movers(after, from, name) == {}
  {
    hide SameLetters;
  }

  lemma WhoHolds(addresses: Addresses, from: string, name: string, id: string, to: string, stamp: string, p: string)
    requires from != to
    ensures var after, movers := MovedAddresses(addresses, from, name, id, to, stamp), Movers(addresses, from, name);
            && (p != from && p != to ==> Held(after, p) == Held(addresses, p))
            && (p == from ==> Held(addresses, p) == Held(after, p) + movers && Held(after, p) !! movers)
            && (p == to ==> Held(after, p) == Held(addresses, p) + movers && Held(addresses, p) !! movers)
  {
    MoveConserves(addresses, from, name, id, to, stamp);
    hide SameLetters, MovedAddresses;
  }

  lemma DisjointSize(a: set<string>, b: set<string>)
    requires a !! b
    ensures |a + b| == |a| + |b|
  {}

  /** The target gains as many addresses as the source loses, the number the move reports; every other
      provider keeps its own. */
  lemma MoveBalances(addresses: Addresses, from: string, name: string, id: string, to: string, stamp: string)
    requires from != to
    ensures var after, moved := MovedAddresses(addresses, from, name, id, to, stamp), |Movers(addresses, from, name)|;
            && |Held(after, from)| == |Held(addresses, from)| - moved
            && |Held(after, to)| == |Held(addresses, to)| + moved
            && forall p :: p != from && p != to ==> Held(after, p) == Held(addresses, p)
  {
    hide Held, Movers, MovedAddresses;
    var after, movers := MovedAddresses(addresses, from, name, id, to, stamp), Movers(addresses, from, name);
    forall p {
      WhoHolds(addresses, from, name, id, to, stamp, p);
    }
    WhoHolds(addresses, from, name, id, to, stamp, from);
    WhoHolds(addresses, from, name, id, to, stamp, to);
    DisjointSize(Held(after, from), movers);
    DisjointSize(Held(addresses, to), movers);
  }

  /** Moving back returns every address to its provider, if the target had none on the domain before. */
  lemma MoveBack(addresses: Addresses, from: string, name: string, id: string, to: string, stamp: string, later: string)
    requires from != to && Movers(addresses, to, name) == {}
    ensures var after := MovedAddresses(addresses, from, name, id, to, stamp);
            var back := MovedAddresses(after, to, name, id, from, later);
            && back.Keys == addresses.Keys
            && Movers(after, to, name) == Movers(addresses, from, name)
            && forall a :: a in addresses ==>
                      back[a].providerId == addresses[a].providerId && back[a].email == addresses[a].email
  {
    hide SameLetters;
    forall a | a in addresses
      ensures !OnDomain(addresses[a], to, name)
    {
      assert a !in Movers(addresses, to, name);
    }
  }

  // ---------------------------------------------------------------- the operation

  /** The exact UNIQUE(provider_id, email) would refuse to move this row. */
  predicate ClashesAt(addresses: Addresses, to: string, a: string)
    requires a in addresses
  {
    exists b :: b in addresses && b != a && addresses[b].providerId == to && addresses[b].email == addresses[a].email
  }

  /** How far the UPDATE has come: the rows `done` have moved. */
  ghost predicate Partway(start: Addresses, now: Addresses, done: set<string>, id: string, to: string, stamp: string) {
    now.Keys == start.Keys
    && forall a :: a in start ==> now[a] == if a in done then Address(to, start[a].email, Some(id), stamp) else start[a]
  }

  lemma PartwayStarts(start: Addresses, movers: set<string>, id: string, to: string, stamp: string)
    ensures Partway(start, start, movers - movers, id, to, stamp)
  {}

  lemma PartwayStep(start: Addresses, now: Addresses, movers: set<string>, left: set<string>, id: string,
                    to: string, stamp: string, a: string)
    requires left <= movers <= start.Keys && a in left && Partway(start, now, movers - left, id, to, stamp)
    ensures a in now
    ensures Partway(start, now[a := Address(to, now[a].email, Some(id), stamp)], movers - (left - {a}), id, to, stamp)
  {}

  lemma PartwayEnds(start: Addresses, now: Addresses, from: string, name: string, id: string, to: string, stamp: string)
    requires Partway(start, now, Movers(start, from, name), id, to, stamp)
    ensures now == MovedAddresses(start, from, name, id, to, stamp)
  {
    hide OnDomain;
  }

  lemma NoClashPartway(start: Addresses, now: Addresses, movers: set<string>, left: set<string>, from: string,
                       name: string,
                       id: string, to: string, stamp: string, a: string)
    requires UniqueAddresses(MovedAddresses(start, from, name, id, to, stamp))
    requires movers == Movers(start, from, name) && left <= movers && a in left && from != to
    requires Partway(start, now, movers - left, id, to, stamp)
    ensures a in now && !ClashesAt(now, to, a)
  {
    hide SameLetters;
    var after := MovedAddresses(start, from, name, id, to, stamp);
    forall b | b in now && b != a && now[b].providerId == to
      ensures now[b].email != now[a].email
    {
      assert after[b].providerId == to && after[a].providerId == to;
      assert after[b].email == now[b].email && after[a].email == now[a].email;
    }
  }

  class Registry {
    const providers: set<string>
    var domains: Domains
    var addresses: Addresses

    ghost predicate Valid()
      reads this
    {
      UniqueDomains(domains) && UniqueAddresses(addresses)
    }

    constructor (providers: set<string>, domains: Domains, addresses: Addresses)
      requires UniqueDomains(domains) && UniqueAddresses(addresses)
      ensures this.providers == providers && this.domains == domains && this.addresses == addresses && Valid()
    {
      this.providers := providers;
      this.domains := domains;
      this.addresses := addresses;
    }

    /** The second UPDATE, row by row in any order; no row meets the exact key on its way, so the
        ROLLBACK that would answer that is never reached. */
    method MoveAddresses(from: string, name: string, id: string, to: string, stamp: string) returns (changes: nat)
      requires from != to && UniqueAddresses(addresses) && !Conflicts(addresses, from, to, name)
      modifies `addresses
      ensures changes == |Movers(old(addresses), from, name)|
      ensures addresses == MovedAddresses(old(addresses), from, name, id, to, stamp)
    {
      hide OnDomain, Conflicts, UniqueAddresses, MovedAddresses, Partway;
      ghost var start := addresses;
      var left := set a | a in addresses && OnDomain(addresses[a], from, name);
      ghost var movers := left;
      MoveKeepsAddressKeys(start, from, name, id, to, stamp);
      PartwayStarts(start, movers, id, to, stamp);
      changes := 0;
      while left != {}
        invariant left <= movers && Partway(start, addresses, movers - left, id, to, stamp)
        invariant changes + |left| == |movers|
        decreases |left|
      {
        var a :| a in left;
        NoClashPartway(start, addresses, movers, left, from, name, id, to, stamp, a);
        assert !ClashesAt(addresses, to, a);
        PartwayStep(start, addresses, movers, left, id, to, stamp, a);
        addresses := addresses[a := Address(to, addresses[a].email, Some(id), stamp)];
        left := left - {a};
        changes := changes + 1;
      }
      assert movers - left == movers;
      PartwayEnds(start, addresses, from, name, id, to, stamp);
    }

    method MoveDomainProvider(id: string, to: string, stamp: string) returns (r: Result<Moved, Fault>)
      requires Valid()
      modifies this
      ensures Valid()
      ensures r.Err? <==> Refusal(providers, old(domains), old(addresses), id, to).Some?
      ensures r.Err? ==> Some(r.error) == Refusal(providers, old(domains), old(addresses), id, to)
                         && domains == old(domains) && addresses == old(addresses)
      ensures r.Ok? && old(domains)[id].providerId == to ==>
                r.value == Moved(to, to, 0) && domains == old(domains) && addresses == old(addresses)
      ensures r.Ok? && old(domains)[id].providerId != to ==>
                var from, name := old(domains)[id].providerId, old(domains)[id].name;
                && r.value == Moved(from, to, |Movers(old(addresses), from, name)|)
                && domains == MovedDomains(old(domains), id, to, stamp)
                && addresses == MovedAddresses(old(addresses), from, name, id, to, stamp)
    {
      hide HasDomain, Conflicts, TakesName, UniqueDomains, UniqueAddresses, OnDomain;
      if id !in domains {
        return Err(DomainNotFound);
      }
      var domain := domains[id];
      if domain.providerId == to {
        return Ok(Moved(to, to, 0));
      }
      if HasDomain(domains, to, domain.name) {
        return Err(TargetHasDomain);
      }
      if Conflicts(addresses, domain.providerId, to, domain.name) {
        return Err(TargetHasAddress);
      }
      var domainsAtBegin, addressesAtBegin := domains, addresses;
      if to !in providers || TakesName(domains, to, domain.name) {
        domains, addresses := domainsAtBegin, addressesAtBegin;
        return Err(ConstraintFailed);
      }
      MoveKeepsDomainKey(domains, id, to, stamp);
      MoveKeepsAddressKeys(addresses, domain.providerId, domain.name, id, to, stamp);
      domains := domains[id := Domain(to, domain.name, stamp)];
      var changes := MoveAddresses(domain.providerId, domain.name, id, to, stamp);
      r := Ok(Moved(domain.providerId, to, changes));
    }
  }
}
