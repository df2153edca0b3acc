/** The two questions about suppression (src/db/contacts.ts): the single one, which resolves an address to
    one row, and the batch one, which tests recipients against a set of suppressed spellings. */
module Suppression {
  import opened Wrappers
  import opened Text
  import opened EmailAddress
  import opened Sorting
  import opened CounterSteps
  import opened ContactLedger

  // ---------------------------------------------------------------- two ways of asking about suppression

  /** The single question: is the row the address resolves to suppressed? */
  predicate IsContactSuppressed(rows: seq<Contact>, email: string) {
    FindContact(rows, email).Some? && FindContact(rows, email).value.suppressed
  }

  predicate WrittenAs(email: string, text: string) {
    email == text || Trim(email) == text
  }

  /** Row `c` makes the batch question name `email`: they share a canonical form, and the recipient as
      written is a canonical sender, the row's own spelling, or already that form. */
  predicate Catches(c: Contact, email: string) {
    && c.suppressed
    && !IsBlank(email)
    && CanonicalOf(c.email) == CanonicalOf(email)
    && (CanonicalSender(email).Some? || WrittenAs(email, c.email) || WrittenAs(email, CanonicalOf(email)))
  }

  predicate Reported(rows: seq<Contact>, email: string) {
    exists i :: 0 <= i < |rows| && Catches(rows[i], email)
  }

  lemma BlankIsEmptyAddress(email: string)
    ensures IsBlank(email) <==> CanonicalOf(email) == ""
  {
    if CanonicalSender(email).Some? {
      var addr := AddrSpec(Trim(email)).value;
      assert ValidAddress(addr) && |addr| > 0;
    }
  }

  lemma SenderIsNotBlank(email: string)
    requires CanonicalSender(email).Some?
    ensures !IsBlank(email) && CanonicalOf(email) == CanonicalSender(email).value
  {}

  /** On any ledger, an address the single question calls suppressed is one the batch question names. */
  lemma SuppressedIsReported(rows: seq<Contact>, email: string)
    requires CanonicalSender(email).Some? && IsContactSuppressed(rows, email)
    ensures Reported(rows, email)
  {
    FindContactMeans(rows, email);
    SenderIsNotBlank(email);
    var c := FindContact(rows, email).value;
    var i :| 0 <= i < |rows| && rows[i] == c;
    assert Catches(rows[i], email);
  }

  // ---------------------------------------------------------------- where the two agree

  /** Some spelling of its address resolves to row `c`: it is the newest row of the address, or the
      newest that is spelled as it is, and a trimmed recipient can be spelled so. */
  ghost predicate Answers(rows: seq<Contact>, c: Contact) {
    || IsNewest(rows, AddressedAs(CanonicalOf(c.email)), c)
    || (Trim(c.email) == c.email && IsNewest(rows, SpelledAs(c.email), c))
  }

  /** The two rows share the address of one sender. */
  predicate SameSender(c: Contact, d: Contact) {
    CanonicalSender(c.email).Some? && CanonicalOf(c.email) == CanonicalOf(d.email)
  }

  /** Where a sender's address has a suppressed row, every row that answers for the address is
      suppressed. */
  ghost predicate FlagsAgree(rows: seq<Contact>) {
    forall c, d :: c in rows && d in rows && SameSender(c, d) && c.suppressed && Answers(rows, d) ==> d.suppressed
  }

  ghost predicate QuestionsAgreeOn(rows: seq<Contact>, email: string) {
    Reported(rows, email) <==> IsContactSuppressed(rows, email)
  }

  /** A row that an address resolves to answers for that address. */
  lemma FoundAnswers(rows: seq<Contact>, email: string)
    requires FindContact(rows, email).Some?
    ensures Answers(rows, FindContact(rows, email).value)
  {
    hide CanonicalSender, Sort, Select;
    var spelled := Trim(email);
    FindContactMeans(rows, email);
    FirstIsNewest(rows, SpelledAs(spelled));
    FirstIsNewest(rows, AddressedAs(CanonicalOf(spelled)));
    CanonicalOfTrim(email);
    TrimIdempotent(email);
  }

  /** The row that is the newest of its trimmed spelling is what that spelling resolves to. */
  lemma SpellingFinds(rows: seq<Contact>, d: Contact)
    requires DistinctIds(rows) && Trim(d.email) == d.email != "" && IsNewest(rows, SpelledAs(d.email), d)
    ensures FindContact(rows, d.email) == Some(d)
  {
    FirstIsNewest(rows, SpelledAs(d.email));
    var found := First(Sort(Select(rows, SpelledAs(d.email)), NewestFirst));
    assert found.Some?;
    NewestIsUnique(rows, SpelledAs(d.email), found.value, d);
  }

  /** A spelling that no row has resolves to the newest row of its address. */
  lemma OtherSpellingFinds(rows: seq<Contact>, email: string, d: Contact)
    requires DistinctIds(rows) && Trim(email) == email != "" && forall c :: c in rows ==> c.email != email
    requires IsNewest(rows, AddressedAs(CanonicalOf(email)), d)
    ensures FindContact(rows, email) == Some(d)
  {
    hide CanonicalOf;
    FirstIsNewest(rows, SpelledAs(email));
    FirstIsNewest(rows, AddressedAs(CanonicalOf(email)));
    var found := First(Sort(Select(rows, AddressedAs(CanonicalOf(email))), NewestFirst));
    assert found.Some?;
    NewestIsUnique(rows, AddressedAs(CanonicalOf(email)), found.value, d);
  }

  function Longest(rows: seq<Contact>): (n: nat)
    ensures forall c :: c in rows ==> |c.email| <= n
  {
    if rows == [] then 0
    else
      assert rows == [rows[0]] + rows[1..];
      if |rows[0].email| > Longest(rows[1..]) then |rows[0].email| else Longest(rows[1..])
  }

  /** Every sender has a spelling that no row carries. */
  lemma UnusedSpelling(rows: seq<Contact>, s: string) returns (email: string)
    requires CanonicalSender(s) == Some(s)
    ensures Trim(email) == email != "" && CanonicalSender(email) == Some(s)
    ensures forall c :: c in rows ==> c.email != email
  {
    hide CanonicalSender, Trim;
    var pad := seq(Longest(rows), _ => 'x');
    email := pad + "<" + s + ">";
    NamedSender(pad, s);
    assert |email| > Longest(rows);
  }

  lemma CaughtBySharedAddress(rows: seq<Contact>, c: Contact, email: string)
    requires c in rows && c.suppressed && CanonicalSender(email).Some? && CanonicalOf(c.email) == CanonicalOf(email)
    ensures Reported(rows, email)
  {
    SenderIsNotBlank(email);
    var i :| 0 <= i < |rows| && rows[i] == c;
    assert Catches(rows[i], email);
  }

  lemma AgreementNeedsFlags(rows: seq<Contact>, c: Contact, d: Contact)
    requires DistinctIds(rows) && forall email :: CanonicalSender(email).Some? ==> QuestionsAgreeOn(rows, email)
    requires c in rows && d in rows && SameSender(c, d) && c.suppressed && Answers(rows, d)
    ensures d.suppressed
  {
    hide CanonicalOf, FindContact, Reported, IsNewest, DistinctIds;
    SenderIsNotBlank(c.email);
    CanonicalSenderIdempotent(c.email);
    SenderForm(d.email);
    if Trim(d.email) == d.email && IsNewest(rows, SpelledAs(d.email), d) {
      SenderIsNotBlank(d.email);
      SpellingFinds(rows, d);
      CaughtBySharedAddress(rows, c, d.email);
      assert QuestionsAgreeOn(rows, d.email);
    } else {
      var email := UnusedSpelling(rows, CanonicalOf(c.email));
      SenderIsNotBlank(email);
      OtherSpellingFinds(rows, email, d);
      CaughtBySharedAddress(rows, c, email);
      assert QuestionsAgreeOn(rows, email);
    }
  }

  lemma FlagsSettle(rows: seq<Contact>, email: string)
    requires FlagsAgree(rows) && CanonicalSender(email).Some?
    ensures QuestionsAgreeOn(rows, email)
  {
    hide CanonicalSender, CanonicalOf, FindContact, Answers;
    FindContactMeans(rows, email);
    SenderIsNotBlank(email);
    CanonicalSenderIdempotent(email);
    if Reported(rows, email) {
      var i :| 0 <= i < |rows| && Catches(rows[i], email);
      assert rows[i] in rows;
      SenderForm(rows[i].email);
      assert FindContact(rows, email).Some?;
      FoundAnswers(rows, email);
    }
    if IsContactSuppressed(rows, email) {
      SuppressedIsReported(rows, email);
    }
  }

  /** On every ledger, the two questions agree on all senders if and only if the flags agree wherever
      rows share a sender's address. */
  lemma QuestionsAgreeExactly(rows: seq<Contact>)
    requires DistinctIds(rows)
    ensures (forall email :: CanonicalSender(email).Some? ==> QuestionsAgreeOn(rows, email)) <==> FlagsAgree(rows)
  {
    hide CanonicalSender, CanonicalOf, FindContact, Reported, DistinctIds, Answers;
    if FlagsAgree(rows) {
      forall email | CanonicalSender(email).Some?
        ensures QuestionsAgreeOn(rows, email)
      {
        FlagsSettle(rows, email);
      }
    }
    if forall email :: CanonicalSender(email).Some? ==> QuestionsAgreeOn(rows, email) {
      forall c, d | c in rows && d in rows && SameSender(c, d) && c.suppressed && Answers(rows, d)
        ensures d.suppressed
      {
        AgreementNeedsFlags(rows, c, d);
      }
    }
  }

  /** Where every stored spelling is trimmed and stands once, as the store's unique key on spellings
      has it, that is simply: rows that share a sender's address carry the same flag. */
  lemma SameFlags(rows: seq<Contact>)
    requires forall c :: c in rows ==> Trim(c.email) == c.email
    requires forall i, j :: 0 <= i < j < |rows| ==> rows[i].email != rows[j].email
    ensures FlagsAgree(rows) <==>
              forall c, d :: c in rows && d in rows && SameSender(c, d) ==> c.suppressed == d.suppressed
  {
    hide CanonicalOf, CanonicalSender, Trim;
    forall d | d in rows
      ensures Answers(rows, d)
    {
      var j :| 0 <= j < |rows| && rows[j] == d;
      assert forall c :: c in rows && SpelledAs(d.email)(c) ==> c == d;
      assert IsNewest(rows, SpelledAs(d.email), d);
    }
    forall c, d | c in rows && d in rows && SameSender(c, d)
      ensures SameSender(d, c)
    {
      SenderIsNotBlank(c.email);
      CanonicalSenderIdempotent(c.email);
      SenderForm(d.email);
    }
  }

  /** Blank recipients never part the questions, whatever blank rows there are. */
  lemma BlankIsNeverSuppressed(rows: seq<Contact>, email: string)
    requires IsBlank(email)
    ensures !Reported(rows, email) && !IsContactSuppressed(rows, email)
  {}

  /** With one row per address, the two questions agree exactly on every address that parses as a
      sender, and on any other exactly when it is written the way the row or its canonical form is. */
  lemma QuestionsAgree(rows: seq<Contact>, email: string)
    requires OnePer(rows, CanonicalOf)
    ensures CanonicalSender(email).Some? ==> (Reported(rows, email) <==> IsContactSuppressed(rows, email))
    ensures Reported(rows, email) <==>
            && IsContactSuppressed(rows, email)
            && (CanonicalSender(email).Some? || WrittenAs(email, CanonicalOf(email))
                || WrittenAs(email, FindContact(rows, email).value.email))
  {
    FindContactMeans(rows, email);
    if Reported(rows, email) {
      var i :| 0 <= i < |rows| && Catches(rows[i], email);
      assert rows[i] in rows;
      SameAddressSameRow(rows, rows[i], FindContact(rows, email).value);
    }
    if IsContactSuppressed(rows, email) {
      var c := FindContact(rows, email).value;
      var i :| 0 <= i < |rows| && rows[i] == c;
      assert !IsBlank(email);
      assert Catches(rows[i], email) <==>
             CanonicalSender(email).Some? || WrittenAs(email, c.email) || WrittenAs(email, CanonicalOf(email));
    }
  }

  /** Where rows that share a sender's address carry different flags, the unsuppressed row's own
      spelling parts the questions: the batch one names it and the single one does not. */
  lemma DuplicatesPartTheQuestions(rows: seq<Contact>, c: Contact, d: Contact)
    requires DistinctIds(rows) && c in rows && d in rows && SameSender(c, d) && c.suppressed && !d.suppressed
    requires Trim(d.email) == d.email && IsNewest(rows, SpelledAs(d.email), d)
    ensures CanonicalSender(d.email).Some? && Reported(rows, d.email) && !IsContactSuppressed(rows, d.email)
  {
    hide CanonicalOf, Trim, FindContact, Reported, IsNewest, DistinctIds;
    SenderIsNotBlank(c.email);
    CanonicalSenderIdempotent(c.email);
    SenderForm(d.email);
    SenderIsNotBlank(d.email);
    SpellingFinds(rows, d);
    CaughtBySharedAddress(rows, c, d.email);
  }

  /** The set the batch question tests against: the spelling and the canonical form of every suppressed
      row whose canonical form was asked about. */
  ghost predicate InSuppressedSet(rows: seq<Contact>, wanted: set<string>, text: string) {
    exists i :: 0 <= i < |rows| && rows[i].suppressed && CanonicalOf(rows[i].email) in wanted
                && (text == rows[i].email || text == CanonicalOf(rows[i].email))
  }

  /** `email` asks about the address `a`; a blank one asks nothing. */
  predicate Asks(email: string, a: string) {
    !IsBlank(email) && CanonicalOf(Trim(email)) == a
  }

  ghost predicate Wanted(emails: seq<string>, wanted: set<string>) {
    forall a :: a in wanted <==> exists i :: 0 <= i < |emails| && Asks(emails[i], a)
  }

  lemma SetMemberCatches(rows: seq<Contact>, emails: seq<string>, wanted: set<string>, e: string, text: string)
    requires Wanted(emails, wanted) && InSuppressedSet(rows, wanted, text)
    requires CanonicalOf(text) == CanonicalOf(e)
    requires text == e || text == Trim(e) || CanonicalSender(e).Some?
    ensures Reported(rows, e)
  {
    var i :| 0 <= i < |rows| && rows[i].suppressed && CanonicalOf(rows[i].email) in wanted
             && (text == rows[i].email || text == CanonicalOf(rows[i].email));
    CanonicalOfIdempotent(rows[i].email);
    assert CanonicalOf(rows[i].email) == CanonicalOf(e);
    var j :| 0 <= j < |emails| && Asks(emails[j], CanonicalOf(e));
    CanonicalOfTrim(emails[j]);
    BlankIsEmptyAddress(emails[j]);
    BlankIsEmptyAddress(e);
    assert Catches(rows[i], e);
  }

  /** Testing a recipient against that set is asking whether some row catches it; the other recipients
      of the batch make no difference. */
  lemma SetTestIsReported(rows: seq<Contact>, emails: seq<string>, wanted: set<string>, k: nat)
    requires Wanted(emails, wanted) && k < |emails|
    ensures var e := emails[k];
            Reported(rows, e) <==>
            || InSuppressedSet(rows, wanted, e)
            || InSuppressedSet(rows, wanted, Trim(e))
            || (CanonicalSender(e).Some? && InSuppressedSet(rows, wanted, CanonicalSender(e).value))
  {
    var e := emails[k];
    CanonicalOfTrim(e);
    if Reported(rows, e) {
      var i :| 0 <= i < |rows| && Catches(rows[i], e);
      assert Asks(emails[k], CanonicalOf(rows[i].email));
    }
    if InSuppressedSet(rows, wanted, e) {
      SetMemberCatches(rows, emails, wanted, e, e);
    }
    if InSuppressedSet(rows, wanted, Trim(e)) {
      SetMemberCatches(rows, emails, wanted, e, Trim(e));
    }
    if CanonicalSender(e).Some? && InSuppressedSet(rows, wanted, CanonicalSender(e).value) {
      CanonicalOfIdempotent(e);
      SetMemberCatches(rows, emails, wanted, e, CanonicalSender(e).value);
    }
  }
}
