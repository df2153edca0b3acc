# Emails: verified models of the storage logic

This project keeps, beside the email client and server, Dafny models of the parts of it that are easy
to get wrong: algorithms that must be right over partial reads, racing writers, derived indexes and
whole-table repairs. `dafny verify dfyconfig.toml` checks all of it.

| module | what it models |
|---|---|
| `Events` | idempotent event delivery: clients that find, create and find again over a shared table, one step at a time, in any interleaving |
| `TypeScript`, `SchemaTypes`, `TextMeaning`, `AllOfExactness` | the response-schema compiler of the SDK generator, how TypeScript reads the text it prints, what each text denotes, and when an `allOf` text is exact |
| `ComponentInterfaces` | the interfaces the generator declares anew from the component schemas, and which of them TypeScript can read |
| `RefClosure` | the walk that collects the components the responses refer to |
| `OrderedMap`, `CounterSteps`, `ContactLedger`, `CounterMeaning`, `Contacts` | the contacts ledger: batched counters against one-by-one counters, find-or-create, suppression, and what each does to the columns of the rows |
| `Suppression`, `ContactRuns`, `BlankContacts` | the two questions about suppression, and runs of the contact writes, blank addresses and refusals included |
| `ContactRaces` | contact writes that overlap: lookups and writes of several clients in any interleaving |
| `InboundPaging` | keyset paging over a table that changes between pages |
| `Labels`, `LabelIndex` | the two label normalisers, the derived label index and the folder flags the triggers keep |
| `S3Fence` | the repair that lets old S3 mail adopt its URL as fence, on every open |
| `RenameBridge` | the migration that renames the retired synthetic mailbox, and the trigger that mints mailboxes and sources |
| `QuotaGate` | whether an address may send, decided from bounded enumerations of a store that clamps its pages |
| `Aliases` | alias upserts, the protected catch-all, and recipient resolution |
| `Forwarding`, `ForwardingRaces` | forwarding rules, the pending join, the delivery ledger, serial runs, and runs that overlap |
| `DomainMove` | moving a domain and its addresses to another provider |
| `SentLedger`, `LedgerMeaning` | the sent-mail listing and search, their windows, and id prefixes, as functions and as what the columns of the rows say |
| `Wrappers`, `Text`, `EmailAddress`, `SenderMeaning`, `Sorting` | optional values, ASCII text operations, `canonicalSender` and the addresses it accepts, stable sorting and windows |

Code that changes tables in place (the contacts store, the label triggers, the S3 repair, the bridge
and its trigger, aliases, forwarding, the domain move, the component walk, the two enumeration loops of
the quota gate) is modelled by classes and methods with loops, each proved against functions or
relations on the tables; the properties are then proved of those. Code made of filters, sorts and maps
is modelled by functions. The event protocol is a transition relation over program counters.

Where the outside world decides (page sizes, enumeration order, refusals, outcomes of a send, minted
ids, clocks), the model leaves the choice open or takes it as a parameter, so each theorem holds for
every choice. `enumerateStoreRows` and `enumerateStorePages` are not part of this model: they appear as
a contract, the whole filtered set with each row once in an arbitrary order, or an error.

## Where the code does not do what is said of it

For each of these the project proves that it happens and exactly when it does not.

- Label normalisers. A label with no tab or line break at either end can still be read in two ways:
  SQLite's `TRIM` removes spaces only, so a space can hide a tab (`Labels.SpaceHidesTab`). Before the
  cut to 64 characters the two forms agree if and only if the space-trimmed label has no other white
  space at its ends and no white-space run is longer than 256 (`Labels.FullFormsAgree`). A message is
  found under exactly the labels it carries if and only if both forms give its stored labels the same
  names (`LabelIndex.FoundExactly`); that the label asked for is an agreeing one is not enough
  (`LabelIndex.StoredLabelMatters`).
- Moving a domain. The check against the target provider trims the name, the stored name is not
  trimmed. A provider can end up with two spellings of one domain if and only if the name has white
  space at an end and contains a letter (`DomainMove.SafeNames`).
- Forwarding. Two runs that overlap can both send a pair, one recording its success and the other a
  failure over it, and a third run sends once more, although before each call the ledger did not say
  the pair was sent (`ForwardingRaces.OverlappingRunsResend`); a run that lags behind another sends what
  that one has recorded as sent (`ForwardingRaces.LaggingRunResends`). Over every interleaving no pair is
  sent after it was recorded as sent if and only if no run sends a pair that was recorded as sent since
  that run scanned, or whose success a failure had replaced before it
  scanned (`ForwardingRaces.InterleavedRunsExactly`). It is enough that every run reads the ledger again before
  it takes up a pair and sends none that another run has in flight
  (`ForwardingRaces.CarefulRunsSendOnce`); neither care is enough alone.
- Suppression. Where two rows share a sender's address and carry different flags the two questions can
  part (`Suppression.DuplicatesPartTheQuestions`). On every ledger they agree on all senders if and
  only if, wherever a sender's address has a suppressed row, every row that answers for the address is
  suppressed (`Suppression.QuestionsAgreeExactly`, and `Suppression.SameFlags` for ledgers of trimmed
  spellings). No run of contact writes that do not overlap leads to such a ledger
  (`ContactRuns.ReachableQuestionsAgree`). Two that overlap can (`ContactRaces.OverlapPartsTheQuestions`):
  over every interleaving a form gets a second row if and only if a client creates an address of whose
  form a row was added since the client looked (`ContactRaces.OverlappingWritesExactly`).
- One row per canonical form. An operation, batches included, keeps it if and only if the blank rows
  there are and the distinct blank spellings it creates, those before the first that is already stored,
  are at most one together (`BlankContacts.StepKeepsOnePerAddress`); blank rows part neither question
  (`Suppression.BlankIsNeverSuppressed`). A batch does what its increments do one by one if and only if
  it holds a blank address that is stored, so that both are refused, or none that stands twice
  (`BlankContacts.BatchIsOneByOneExactly`).
- Component interfaces. The generator takes every text that begins with a brace for an interface body. A
  nullable object component passes that test, and `export interface C { ... } | null` is not TypeScript
  (`ComponentInterfaces.NullableInterfaceBreaks`). All interfaces can be read if and only if each
  component that has one and begins as an object type is one object type to its end
  (`ComponentInterfaces.ReadableExactly`).
- `allOf`. Its text can denote more than the members together (`SchemaTypes.AllOfOfUnionIsWider`). It is
  exact if and only if whatever an alternative of the joined text admits, the members that have no part
  in that alternative admit too (`AllOfExactness.AllOfExactly`; for two texts,
  `AllOfExactness.AndTypesExactly`).

The rename bridge conserves provenance for all ids that the repository generates. For any provider ids
without `:` and `@` it does so if and only if no source of a provider called `none` meets a source of no
provider and of its type across the two mailboxes (`RenameBridge.BridgeConservesExactly`).

## Model

| member | source | states |
|---|---|---|
| Events.UpsertIsIdempotent | src/db/events.ts:438-467 | in every reachable state of any number of clients over a store with the unique key: one row per (provider, provider event id), all finished clients of a key hold the same row, at most one was told it created it |
| Events.AnswersAreTrue | src/db/events.ts:438-467 | a finished client returns a stored row with its own key; it says `created` exactly when it stored that row, and the author of a row that another client returns has answered `created` itself |
| Events.ConflictHasAWinner | src/db/events.ts:452-467 | after a conflict the second look always finds a row, so the throw at the end is never reached |
| Events.AnswersStayStored | src/db/events.ts:438-467 | an answer is final: the row stays in the table in every later state of the run |
| Events.RunKeepsInvariant | src/db/events.ts:438-467 | every state of every run keeps distinct ids, the unique key and the honesty of every client |
| Events.WinnerIsFirst | src/db/events.ts:413-427 | whenever some row has the key one is found, and every other row with the key occurred earlier, or at the same time with a larger id, in whatever order the store lists them |
| Events.WithoutTheKeyTwoRows | src/db/database.ts:1270-1270 | without the unique index there is a run after which two rows carry one key and two clients were told they created it |
| SchemaTypes.MeaningPreserved | scripts/generate-selfhost-sdk.ts:144-207 | for every well-formed schema the printed text is a type TypeScript can read, and every JSON value the schema accepts is in that type, unparenthesised `allOf` joins and nullable suffixes included |
| TextMeaning.TextMeans | scripts/generate-selfhost-sdk.ts:144-207 | the other direction: for every well-formed schema the text denotes exactly what its first keyword makes of the texts of its parts (arrays of admitted items, records, objects with their required properties, the non-null literals, unions, scalars), and null exactly where the schema may be null |
| AllOfExactness.AllOfExactly | scripts/generate-selfhost-sdk.ts:157-207 | the printed text of an `allOf` schema denotes exactly what the texts of all its members denote, and null where it is nullable, if and only if whatever an alternative of the joined text admits, the distinct member texts with no part in it admit too |
| AllOfExactness.AndTypesExactly | scripts/generate-selfhost-sdk.ts:157-160 | two texts joined with ` & ` are exact if and only if all alternatives of the first but its last, and of the second but its first, admit nothing that the other text does not |
| AllOfExactness.JoinedExactly | scripts/generate-selfhost-sdk.ts:157-160 | the same condition for any number of texts, by the alternatives of the regrouped text and the members that have a part in each |
| AllOfExactness.PlainMembersAreExact | scripts/generate-selfhost-sdk.ts:157-160 | members of which none is printed as a union always satisfy the condition |
| AllOfExactness.OneMemberIsExact | scripts/generate-selfhost-sdk.ts:157-160 | a single member always satisfies it, union or not |
| SchemaTypes.AllOfOfUnionIsWider | scripts/generate-selfhost-sdk.ts:157-160 | a concrete `allOf` whose text admits every string although its schema accepts none |
| SchemaTypes.DenotesNullable | scripts/generate-selfhost-sdk.ts:200-207 | the nullable suffix adds null and nothing else, with or without the parentheses |
| ComponentInterfaces.InterfaceExactly | scripts/generate-selfhost-sdk.ts:209-219 | a component's text can stand as the body of an interface if and only if the schema is not nullable and has properties, or alternatives that all print alike as an object type |
| ComponentInterfaces.ReadableExactly | scripts/generate-selfhost-sdk.ts:209-219 | TypeScript can read every interface the generator writes if and only if each component that has an interface and whose schema begins as an object type prints as one |
| ComponentInterfaces.NullableInterfaceBreaks | scripts/generate-selfhost-sdk.ts:209-219 | a nullable object component (one optional string property `a`) that has an interface passes the test for a brace, prints as an object type with a null alternative, and its interface cannot be read |
| ComponentInterfaces.ComponentsCovered | scripts/generate-selfhost-sdk.ts:209-219 | where every interface can be read, each declared type admits what its component accepts at every depth, however they refer to each other, as long as the generated declarations that stay do |
| TypeScript.ReadShow | scripts/generate-selfhost-sdk.ts:144-207 | reading a printed type under TypeScript's precedence gives the same type back |
| TypeScript.LiteralAdmitsItself | scripts/generate-selfhost-sdk.ts:161-165 | the literal type printed for an enum value admits that value, arrays and objects included |
| RefClosure.CollectResponseComponents | scripts/generate-selfhost-sdk.ts:57-83 | the walk ends on cyclic graphs, collects exactly the reachable components, emits only references that resolve among them, and fails exactly when a reachable component is unknown |
| RefClosure.Collector.Collect | scripts/generate-selfhost-sdk.ts:59-77 | one recursive visit: what it adds is known, reachable from the value and closed under reference; a failure names a reachable unknown component |
| RefClosure.ClosedHoldsPath | scripts/generate-selfhost-sdk.ts:59-77 | a set holding the roots and closed under reference holds the end of every path |
| RefClosure.RefsMean | scripts/generate-selfhost-sdk.ts:59-76 | a value refers to a component exactly when some object anywhere inside it has a `$ref` that spells the prefix and the name |
| ContactLedger.BatchIsOneByOne | src/db/contacts.ts:426-504 | with no blank address, on any ledger with one row per canonical form, the batch leaves the same ledger as one increment at a time, but for timestamps: counts, auto-suppression at three bounces, ids and spellings of new rows |
| CounterMeaning.BatchMeans | src/db/contacts.ts:426-504 | on any ledger, a row that no address of the batch resolves to is untouched; every other has its one counter raised by how many do, is suppressed exactly if it was or its bounces are now at least 3 and bounces were counted, and is stamped as sent to exactly by sends; each form that found no row gets one, counted so from nothing |
| CounterMeaning.OneMeans | src/db/contacts.ts:514-528 | the same of one increment by itself |
| ContactLedger.BatchAddsItsLength | src/db/contacts.ts:426-504 | on any ledger, when no write is refused the column total rises by exactly the length of the batch |
| OrderedMap.MergeTally | src/db/contacts.ts:432-471 | counting by spelling and then merging by resolved identity is grouping by identity, each group keeping the place and spelling of its first address |
| CounterSteps.GroupsAreSingles | src/db/contacts.ts:458-503 | writing each merged group once equals writing each address of the batch once |
| CounterSteps.WriteEachIsSteps | src/db/contacts.ts:473-503 | where every address was resolved in a ledger with one row per address, no write of the loop is refused and each counts by canonical form |
| ContactLedger.FindContactMeans | src/db/contacts.ts:318-329 | a found row shares the canonical form of the address, and nothing is found only when no row does |
| CounterMeaning.FindContactPicks | src/db/contacts.ts:318-329 | a blank address finds nothing; any other the most recently updated row spelled as it is, trimmed, else the most recently updated one of its canonical form, the larger id among equal instants; nothing only where neither exists |
| ContactRuns.RunKeepsOnePerForm | src/db/contacts.ts:338-528 | every run of find-or-create, suppress, unsuppress and increments, with blank addresses, refusals and batches cut short, keeps at most one row per non-blank canonical form and one per blank spelling |
| ContactRuns.RunKeepsOnePerAddress | src/db/contacts.ts:338-528 | on non-blank addresses every run keeps one row per canonical form, blank one included, and none of its operations is refused |
| BlankContacts.OperationAddsBlanks | src/db/contacts.ts:338-528 | on a ledger with one row per form, an operation adds exactly the blank rows of its distinct blank spellings before the first already stored, in their order |
| BlankContacts.StepKeepsOnePerAddress | src/db/contacts.ts:338-528 | on a ledger with one row per canonical form, any operation keeps that so if and only if the blank rows present and the blank spellings it creates are at most one together |
| BlankContacts.BatchIsOneByOneExactly | src/db/contacts.ts:426-528 | on any ledger with one row per form, a batch has the outcome of its increments one by one (both refused, or the same ledger but for timestamps) if and only if it holds a stored blank address or no blank spelling twice |
| ContactRuns.ReachableQuestionsAgree | src/db/contacts.ts:532-588 | in every ledger that a run of operations which do not overlap reaches from the empty one, the two suppression questions agree on every sender |
| ContactRaces.OverlappingWritesExactly | src/db/contacts.ts:318-528 | over every interleaving of lookups and writes the ledger keeps one row per form if and only if no client creates an address of whose form a row was added since the client looked |
| ContactRaces.OverlappingQuestionsAgree | src/db/contacts.ts:532-588 | over every interleaving without such a creation the two suppression questions agree on every sender |
| ContactRaces.OverlapPartsTheQuestions | src/db/contacts.ts:338-401 | from any ledger without the address, suppressing it under one spelling while resolving it under another leaves two rows that part the two questions |
| ContactRaces.UninterruptedIsAfter | src/db/contacts.ts:338-528 | an operation that looks and writes without interruption leaves the ledger of the sequential model, refusals included |
| BlankContacts.BlanksBreakUniqueness | src/db/contacts.ts:338-355 | two blank spellings leave two rows that compare equal, whether one batch brings them or two operations |
| Suppression.QuestionsAgreeExactly | src/db/contacts.ts:532-588 | on every ledger the two questions agree on all senders if and only if, wherever a sender's address has a suppressed row, every row that some spelling of the address resolves to is suppressed |
| Suppression.SameFlags | src/db/contacts.ts:532-588 | where stored spellings are trimmed and unique that condition is: rows sharing a sender's address carry the same flag |
| Suppression.QuestionsAgree | src/db/contacts.ts:532-588 | with one row per address, the batch question names any text, sender or not, exactly when the single one holds and the text is a sender or is written as the row or its canonical form is |
| Suppression.SuppressedIsReported | src/db/contacts.ts:532-588 | on any ledger the single question implies the batch question |
| Suppression.DuplicatesPartTheQuestions | src/db/contacts.ts:532-588 | on any ledger where a suppressed and an unsuppressed row share a sender's address, the unsuppressed row's own trimmed spelling is named by the batch question and denied by the single one |
| Suppression.SetTestIsReported | src/db/contacts.ts:551-588 | testing a recipient against the set of suppressed texts is asking whether some suppressed row catches it, whoever else is asked about |
| Contacts.ContactStore.IncrementCounts | src/db/contacts.ts:426-504 | the loops over the four maps and the write loop compute the specified ledger from one enumeration in any order, or, where a write is refused, the writes before it; they fail only as the store does, and never because a row disappeared |
| Contacts.ContactStore.WriteGroups | src/db/contacts.ts:473-503 | the write loop performs the groups' writes one after another from the bases read at the start, up to the first that is refused |
| Contacts.ContactStore.SetSuppressed | src/db/contacts.ts:376-401 | sets the flag on the row the address resolves to, or creates the row with it; a failure changes nothing |
| CounterMeaning.SetSuppressedMeans | src/db/contacts.ts:376-401 | the flag of the row the address resolves to is set and nothing else changes but the instant of its update; an address that resolves to none gets a row in that state with no counts |
| CounterMeaning.UpsertMeans | src/db/contacts.ts:338-355 | an address that resolves changes nothing; any other gets an unsuppressed row with no counts |
| Contacts.ContactStore.UpsertContact | src/db/contacts.ts:338-355 | leaves a ledger in which the address resolves as specified; a failure changes nothing |
| Contacts.ContactStore.Find | src/db/contacts.ts:318-329 | two reads in any order answer the exact spelling first, then the newest row of the canonical form |
| Contacts.ContactStore.SuppressedRecipientsAmong | src/db/contacts.ts:551-588 | names, in the caller's order and spelling, exactly the recipients that some suppressed row catches |
| Contacts.MergeByIdentity | src/db/contacts.ts:458-471 | the merge loop groups the counted spellings by the row each resolves to, and keeps that row |
| Contacts.IndexRows | src/db/contacts.ts:442-451 | the two index maps answer what searching the sorted rows would |
| EmailAddress.CanonicalSenderIdempotent | src/lib/email-address.ts:16-49 | a canonical sender is its own canonical sender |
| EmailAddress.CanonicalOfIncluded | src/db/address-lifecycle.ts:297-333 | the lower-cased "From" text contains the canonical address, so a substring filter never drops a row that the exact check would count |
| SenderMeaning.SenderMeans | src/lib/email-address.ts:16-49 | the canonical sender of a text is exactly the lower-case form of the address that the trimmed text is, or holds between its one pair of angle brackets at its end; the addresses are described by their parts (local part, dotted host labels, their lengths and characters) |
| InboundPaging.PageIsPage | src/db/inbound.local.ts:583-629 | one page is an ordered part of the matching rows past the cursor, no longer than the limit; without a cursor it is all that is left, with one it is as long as the limit and the rest is exactly what the cursor admits |
| InboundPaging.PageMeans | src/db/inbound.local.ts:583-629 | the same said of the columns: rows neither sent nor archived, received at or after `since`, past the cursor, in strictly descending order of instant and then id; 200 of them when no limit is given |
| InboundPaging.PageRefused | src/db/inbound.local.ts:583-629 | a page is refused exactly for a limit outside 1 to 500 or a cursor made for another `since` |
| InboundPaging.CursorAlwaysAdvances | src/db/inbound.local.ts:625-627 | the "did not advance" throw is never reached |
| InboundPaging.WalkDescends | src/db/inbound.local.ts:583-629 | over any changes between pages the rows come out strictly descending by (instant, id), each matching and stored when it was read |
| InboundPaging.WalkMeans | src/db/inbound.local.ts:583-629 | over any changes between pages: the rows of a walk have strictly descending instants, or equal ones and descending ids; none is sent, archived or before `since`; a finished walk has every such row that was there throughout |
| InboundPaging.WalkNeverRepeats | src/db/inbound.local.ts:583-629 | no id is returned twice in a walk, as long as a row's instant does not change under its id |
| InboundPaging.WalkMissesNothing | src/db/inbound.local.ts:583-629 | a row that matches and stays for a whole finished walk is returned |
| InboundPaging.WalkFinishes | src/db/inbound.local.ts:583-629 | with no insert below the moving cursor the walk needs no more pages than there were rows ahead, and one |
| Labels.FullFormsAgree | src/db/database.ts:528-537 | before the cut, the SQL and TypeScript forms of a label are equal if and only if the space-trimmed label has clean ends and no white-space run above 256 |
| Labels.NormalisersAgree | src/db/inbound.local.ts:678-680 | after the cut to 64 characters they agree on every such label, and on no other one whose form is not cut |
| Labels.CutAt64 | src/db/inbound.local.ts:678-680 | both forms are cut to their first 64 characters |
| Labels.PassHalves | src/db/database.ts:533-535 | one REPLACE pass takes the longest run n to n/2 rounded up |
| Labels.EightPasses | src/db/database.ts:533-535 | the eight passes take it to n/256 rounded up |
| Labels.LongestRun | src/db/database.ts:528-537 | a label with one run of n spaces is normalised alike exactly when n is at most 256 |
| Labels.SpaceHidesTab | src/db/database.ts:528-537 | a space before a tab makes the two normalisers differ |
| Labels.TsNormIdempotent | src/db/inbound.local.ts:678-680 | normalising twice is normalising once, and the SQL form leaves the result alone |
| LabelIndex.LabelledMail.Insert | src/db/database.ts:603-609 | an insert refuses a taken id, stores the list as given beside the lists there are, and leaves the index and both flags exact |
| LabelIndex.LabelledMail.MutateLabel | src/db/inbound.local.ts:963-974 | after an add the message has a spelling of the label, its old list first, unchanged where it had one already; after a remove it has none and every other label in its order; every other list is unchanged, and the update trigger leaves the index and both flags exact |
| LabelIndex.LabelledMail.SetLabels | src/db/database.ts:611-617 | the update trigger re-derives the entries and flags of the updated message and of no other |
| LabelIndex.LabelledMail.Delete | src/db/database.ts:619-623 | a deleted message leaves no entry behind, the others keep theirs |
| LabelIndex.StepOfRun | src/db/inbound.local.ts:963-974 | the same of one step of a run, and of inserts and deletes: what each does to the list of its own message, and that it leaves the others |
| LabelIndex.FlagsMean | src/db/database.ts:603-623 | an exact index has an entry exactly for each name that a label of the message has in its SQL form, and the two flags say whether `spam` and `trash` are among them |
| LabelIndex.RunKeepsFree | src/db/inbound.local.ts:963-974 | over any run, lists stay free of two spellings of one label if the inserted ones were |
| LabelIndex.AddThenRemove | src/db/inbound.local.ts:963-974 | after an add every spelling of the label is carried, after a remove none is, other labels are undisturbed |
| LabelIndex.FilterIsScan | src/db/inbound.local.ts:646-654 | for every label that is not blank the indexed filter equals a scan of the stored lists, when the stored labels are agreeing ones |
| LabelIndex.FoundExactly | src/db/inbound.local.ts:646-654 | a message is found under exactly the labels it carries if and only if both normalisers give its labels the same names |
| LabelIndex.LoneLabel | src/db/inbound.local.ts:646-654 | a message with one label, not empty, is found under that very label exactly when the two normalisers agree on it and it is not blank |
| LabelIndex.BlankMatchesNothing | src/db/inbound.local.ts:646-654 | of the labels that normalise to nothing the empty one filters nothing out and every other matches no message |
| LabelIndex.StoredLabelMatters | src/db/inbound.local.ts:646-654 | a stored label outside the agreeing ones is missed by a query for an agreeing one |
| S3Fence.InboundMail.BackfillSourceIds | src/db/database.ts:1085-1139 | with its pre-check, and row by row in any order, the repair gives the table of the whole-table UPDATE and returns the number of URLs that were waiting |
| S3Fence.RepairMeans | src/db/database.ts:1121-1137 | every waiting URL ends with exactly one claimant, its earliest row by (created_at, id); no other row and no other column changes |
| S3Fence.RepairColumns | src/db/database.ts:1121-1137 | a row takes its URL as fence exactly when it has none, the URL begins with `s3://` in any letter case, no row has claimed it, and every other row that waits for it was created later, or at once with a larger id; no other column of any row changes |
| S3Fence.RepairKeepsFencesUnique | src/db/database.ts:2742-2743 | non-null fences stay unique |
| S3Fence.ChangesAreOrphans | src/db/database.ts:1121-1138 | as many rows change as there were URLs unclaimed and waiting |
| S3Fence.RepairIdempotent | src/db/database.ts:1085-1139 | a second repair finds nothing waiting and changes nothing |
| S3Fence.SweepIsRepaired | src/db/database.ts:1121-1137 | judging rows one at a time against the changing table, in any order, equals judging them all against the table as it was |
| RenameBridge.MailArchitecture.Bridge | src/db/database.ts:903-941 | the four statements run through without breaking a key, remove the retired mailbox, keep every other mailbox, and re-key its sources as `Bridged` says |
| RenameBridge.MailArchitecture.AdoptMailbox | src/db/database.ts:904-908 | the current mailbox is created, from what the retired one says, exactly when it is missing and the retired one is there |
| RenameBridge.MailArchitecture.RekeyRetired | src/db/database.ts:925-930 | re-keying row by row in any order never meets either unique key |
| RenameBridge.BridgeConservesExactly | src/db/database.ts:903-941 | the (provider, type) pairs of the current mailbox afterwards are the union of both before, unless a provider called `none` is confused with the absence of one, and then they are not |
| RenameBridge.BridgeEmptiesRetired | src/db/database.ts:903-941 | the retired mailbox has no pairs afterwards, and every other mailbox has those it had |
| RenameBridge.GeneratedIdsConserve | src/db/database.ts:903-941 | without a provider of that name there is no such confusion, and the bridge adds none |
| RenameBridge.BridgeIdempotent | src/db/database.ts:903-941 | once nothing is attributed to the retired mailbox, running the bridge changes no source |
| RenameBridge.RekeyMints | src/db/database.ts:925-930 | replacing the address in a minted id gives the id that the trigger would mint for the current mailbox |
| RenameBridge.MintedRows | src/db/database.ts:863-872 | two minted ids are equal exactly when the rows have the same mailbox, address, type and provider part |
| RenameBridge.MailArchitecture.Receive | src/db/database.ts:851-886 | every recipient has its mailbox, new ones active and named by the address, and one source: its provider is the id of the provider row exactly when there is one; its kind is `ses_s3` exactly for an SES provider and a message that came through S3, `ses`, `resend` or `sandbox` for those providers otherwise, and `legacy_inbound` in all other cases; its id spells them out; nothing else is added, changed or lost |
| RenameBridge.RecipientsMean | src/db/database.ts:453-460 | the recipients are the addresses that the values of `to` spell (between the first angle brackets where there are some, without outer spaces, in lower case), and the synthetic one exactly where they spell none |
| RenameBridge.RetiredOnlyIfAddressed | src/db/database.ts:649-679 | the retired address is among a message's mailboxes exactly when one of its recipients spells it |
| RenameBridge.RetiredStaysGone | src/db/database.ts:851-886 | after any run of inserts the retired mailbox is back exactly when some message was addressed to it |
| QuotaGate.GetAddressSendability | src/db/address-lifecycle.ts:508-564 | for any page sizes an answer is "unregistered", and then the whole table was read without a match, or the one the governing row warrants: denied exactly when suspended or when the true count has reached the quota; a suspended match denies once the scan is complete, wherever it stands; each fault says what was undecided, and small tables are always decided |
| QuotaGate.EnumerateAddresses | src/db/address-lifecycle.ts:206-215 | the address loop returns a prefix of the table, the whole of it when it says so, and is complete below the page budget |
| QuotaGate.MatchingAddresses | src/db/address-lifecycle.ts:237-253 | the first row returned governs: suspended before active, newest first; an empty answer means nobody is registered |
| QuotaGate.CountSendsOnDay | src/db/address-lifecycle.ts:297-333 | the count never exceeds the truth, equals it when complete, and is indeterminate only past the page budget |
| QuotaGate.PushdownLosesNothing | src/db/address-lifecycle.ts:304-320 | counting the store's filtered answer equals counting the true sends of the day |
| QuotaGate.FirstMatchGoverns | src/db/address-lifecycle.ts:247-252 | the head of the sorted matches is one that no other match precedes |
| QuotaGate.GovernsMeans | src/db/address-lifecycle.ts:247-252 | a row governs exactly when it is one of the address, suspended if any of them is, and no other as suspended as itself was created later |
| QuotaGate.SendsMean | src/db/address-lifecycle.ts:297-333 | the true count is the number of outbound messages of the sender whose instant lies from that midnight to the next, in milliseconds |
| Aliases.AliasStore.UpsertAlias | src/db/aliases.ts:477-533 | updates the target of the row under the key or inserts one; keeps one row per key and every protected row; a refusal changes nothing |
| Aliases.UpsertedMeans | src/db/aliases.ts:477-533 | what an upsert leaves: the aliases of other keys as they were; under its key one with the new target, the old id and protection where there was one, and as protected as asked where there was none |
| Aliases.AliasStore.CreateAlias | src/db/aliases.ts:536-539 | refuses exactly the addresses that cannot be split, otherwise upserts the lower-case target, unprotected |
| Aliases.AliasStore.CreateCatchAll | src/db/aliases.ts:542-544 | refuses exactly the empty domain, otherwise upserts the domain's catch-all |
| Aliases.AliasStore.SetGlobalCatchAll | src/db/aliases.ts:552-554 | upserts the global catch-all, protected when it is inserted |
| Aliases.AliasStore.EnsureDefaultCatchAll | src/db/aliases.ts:569-579 | leaves an existing global catch-all as it is, otherwise adds a protected one with an empty target |
| Aliases.AliasStore.RemoveAlias | src/db/aliases.ts:704-731 | removes an unprotected row, refuses a protected one, answers false for a blank or unknown id |
| Aliases.RemovedMeans | src/db/aliases.ts:704-731 | a removal takes away exactly the alias of the id, unless it is protected |
| Aliases.AliasStore.ResolveAlias | src/db/aliases.ts:752-782 | the loop with its memo answers as the plain chain of three lookups |
| Aliases.MemoKeysApart | src/db/aliases.ts:769-773 | the memo's text keys are equal only for equal pairs, whatever spaces the parts hold |
| Aliases.RouteMeans | src/db/aliases.ts:752-782 | a recipient resolves to a target exactly when its own alias has it; or that has none and the catch-all of its domain has it; or neither has one and the global catch-all has it; and to nothing exactly when none of the three has a target |
| Aliases.RouteOfNone | src/db/aliases.ts:752-782 | a text that cannot be split resolves to nothing |
| Aliases.PartsMean | src/db/aliases.ts:752-782 | an address is split at its last `@` into parts that are not empty, both in lower case |
| Aliases.CreatedAliasRoutes | src/db/aliases.ts:752-782 | after an alias is created with a target every case variant of its address resolves to the lower-case target, and recipients with other keys resolve as before |
| Aliases.RunKeepsProtected | src/db/aliases.ts:477-731 | after any run a protected row is there under its id and key, still protected, and keys stay unique |
| Aliases.StepProtects | src/db/aliases.ts:477-731 | no operation turns the protection of a row on or off or moves it to another key, and only an unprotected row can go |
| Aliases.SeededRuns | src/db/database.ts:2431-2433 | from the seeded table every reachable table has the protected global catch-all |
| Aliases.UnseededRun | src/db/aliases.ts:542-544 | without the seed, a catch-all for the domain `*` takes its place unprotected and can be removed |
| Forwarding.PendingMeans | src/db/forwarding.ts:665-688 | each (rule, message) pair is pending at most once, and exactly when the join's conditions hold and no delivery of it is sent |
| Forwarding.PendingColumns | src/db/forwarding.ts:665-688 | a message is pending under a rule exactly when the rule is enabled, of mode `app-copy` and for one of its recipients, the message is not a sent one, came no earlier than the rule or backfill is asked for, and every delivery of the two is recorded as failed |
| Forwarding.ListedMeans | src/db/forwarding.ts:657-694 | a scan lists pending pairs, each once, as many as the clamped limit allows, none newer than one left out |
| Forwarding.ListedColumns | src/db/forwarding.ts:657-694 | the list is ordered by the received text and then the source; it is as long as the whole part of the limit, one at least and 1000 at most, and shorter only where no more is pending |
| Forwarding.RecordMeans | src/db/forwarding.ts:706-742 | one ledger row per pair, whose id is stable; recording replaces what the row said and no other pair's row |
| Forwarding.ProcessMeans | src/lib/forwarding.ts:358-433 | one run attempts its pairs once each and in order; afterwards the ledger says `sent` of exactly those that were delivered, with the error of each attempt and the ids it had; rows of other pairs, rules, recipients and mail stay |
| Forwarding.SerialRunsSendOnce | src/lib/forwarding.ts:358-433 | in every serial history, with rules and mail coming and going between runs, a pair recorded as sent is never attempted again |
| ForwardingRaces.InterleavedRunsExactly | src/lib/forwarding.ts:358-433 | over every interleaving of scans, provider calls, ledger writes and outside changes, no pair is sent after it was recorded as sent if and only if no run sends a pair that was recorded as sent since that run scanned or whose success a failure had replaced before it scanned |
| ForwardingRaces.CarefulRunsSendOnce | src/db/forwarding.ts:113-131 | where each run reads the ledger again before it takes up a pair and sends none that another run has in flight, no pair is sent after it was recorded as sent |
| ForwardingRaces.OverlappingRunsResend | src/db/forwarding.ts:113-131 | from any tables with something to forward: two runs both send, one writes sent and the other failed, and a third run sends again, though the ledger was read again before each call |
| ForwardingRaces.LaggingRunResends | src/lib/forwarding.ts:358-433 | from any such tables a run that lags behind sends what another has recorded as sent, though no pair was in flight twice |
| ForwardingRaces.UninterruptedIsProcess | src/lib/forwarding.ts:358-433 | a run whose calls and writes nobody interrupts leaves the tables of the serial model |
| Forwarding.ForwardingLedger.ProcessForwardingRules | src/lib/forwarding.ts:358-433 | one run processes the scanned pairs in order, records each, and counts as sent exactly those that were delivered and recorded so |
| Forwarding.ForwardingLedger.RecordForwardingDelivery | src/db/forwarding.ts:706-742 | INSERT OR REPLACE with the kept id is the specified ledger |
| Forwarding.ForwardingLedger.CreateForwardingRule | src/db/forwarding.ts:462-523 | an input goes through exactly when source and target, and the sender where one is named, are addresses once trimmed and in lower case, and the mode is `app-copy` or left out; the rule has those values; one rule per (source, target, mode); an update keeps id and creation time |
| Forwarding.ValidatedMeans | src/db/forwarding.ts:462-475 | which fault an input is refused for: the source, then the target, then the sender, then the mode, each named by the text given |
| DomainMove.Registry.MoveDomainProvider | src/db/domains.local.ts:434-497 | throws exactly for the stated reasons, in their order, leaving both tables unchanged; otherwise both tables are the specified ones and the count is exact |
| DomainMove.Registry.MoveAddresses | src/db/domains.local.ts:477-484 | the second UPDATE never meets UNIQUE(provider_id, email), in any row order, and changes exactly the addresses on the domain |
| DomainMove.MoveConserves | src/db/domains.local.ts:477-484 | ids and emails are unchanged; exactly the source provider's addresses on the domain (any letter case, after the first `@`) change provider and gain the domain id; none is left behind |
| DomainMove.MoversMean | src/db/domains.local.ts:477-484 | the addresses that move are exactly those of the source provider whose text after the first `@` is, in whatever letter case, the name; a text without `@` counts as a whole |
| DomainMove.RefusalMeans | src/db/domains.local.ts:434-471 | each reason for a refusal, by columns, and that earlier reasons come first: no such domain; the target has the trimmed name in some case; an address that would move has its text in some case at the target; no such provider, or the exact name taken |
| DomainMove.DomainMoves | src/db/domains.local.ts:478-478 | the domain row keeps its name and gets the provider and the stamp; the other rows stay |
| DomainMove.MoveBalances | src/db/domains.local.ts:477-484 | the target gains as many addresses as the source loses, the number of the domain's addresses, and every other provider keeps its own |
| DomainMove.MoveBack | src/db/domains.local.ts:434-497 | moving back returns every address to its provider if the target had none on the domain |
| DomainMove.MoveKeepsAddressKeys | src/db/database.ts:1221-1221 | UNIQUE(provider_id, email), and its case-insensitive form, still hold where they held |
| DomainMove.MoveKeepsDomainKey | src/db/database.ts:1210-1210 | UNIQUE(provider_id, domain) still holds |
| DomainMove.SafeNames | src/db/domains.local.ts:149-168 | for all tables, the case-insensitive form still holds if and only if the name has no white space at its ends or no letter |
| SentLedger.ListEmailsForgetsOrder | src/db/emails.ts:680-687 | two stores with the same messages in different orders list the same ledger; when a row without a usable timestamp stops one, it stops the other |
| SentLedger.SearchEmailsForgetsOrder | src/db/emails.ts:693-711 | the same of searching |
| SentLedger.ListingMeans | src/db/emails.ts:504-513 | what may be presented is exactly the outbound rows that the filter keeps, newest first |
| LedgerMeaning.ListEmailsMeans | src/db/emails.ts:504-513 | a listing without a window shows exactly the outbound rows of the asked statuses and sender sent within the bounds, in strictly descending order of send time and id; each email has the columns of its row; it faults exactly where a wanted row has no time for a bound, or a listed one lacks a stamp or a known status |
| LedgerMeaning.SearchEmailsMeans | src/db/emails.ts:693-711 | the same of a search: the text stands in subject, sender or a recipient, in whatever case |
| LedgerMeaning.ListWindow | src/db/emails.ts:680-687 | with a limit and any offset, aligned or not, `listEmails` answers that window of what it answers without them |
| LedgerMeaning.SearchWindow | src/db/emails.ts:693-711 | the same of `searchEmails` |
| LedgerMeaning.WindowMeans | src/db/pagination.ts:1-14 | limits and offsets that are no whole numbers: a limit is cut, one at least, 50 where it is no number; an offset is cut and never negative |
| SentLedger.ListWalkIsWhole | src/db/emails.ts:680-687 | asking `listEmails` for offsets 0, k, 2k, ... with one limit k, and stopping at the first fault, ends with what one call without a limit answers: the same emails, none skipped and none twice, or the same fault |
| SentLedger.SearchWalkIsWhole | src/db/emails.ts:693-711 | the same of `searchEmails` |
| SentLedger.ListPageFaults | src/db/emails.ts:680-687 | once every row can be judged, a page of `listEmails` faults exactly where its window holds a row that cannot be presented |
| SentLedger.ResolvePrefix | src/db/emails.ts:658-677 | a short prefix resolves to an id exactly when it is the one outbound id with that prefix, to nothing exactly when there is none, and faults when there are more |
| LedgerMeaning.AmbiguousMeans | src/db/emails.ts:658-677 | an ambiguous prefix reports how many outbound ids begin with it and the first five of them in their order |
| LedgerMeaning.FullIdMeans | src/db/emails.ts:658-677 | an id of 36 characters or more resolves exactly to the stored message it was found under, if that is outbound; a blank one to nothing |
| SentLedger.ResolveForgetsOrder | src/db/emails.ts:658-677 | the answer, including the previewed ids of an ambiguous prefix, does not depend on store order |
| Sorting.SortForgetsOrder | src/db/emails.ts:476-478 | sorting a tie-free collection forgets the order it arrived in |

## Left out

- Text is ASCII: case folding, white space and comparison are those of JavaScript and SQLite on ASCII; `localeCompare` on timestamps is code-unit order.
- JSON, base64url, `julianday`, `datetime`, `Date.parse`, uuid and clock internals: instants are numbers or an uninterpreted reading of the stored text, stored timestamps are assumed to parse, minted ids are parameters or arbitrary unused values.
- Cursor text: an opaque cursor is modelled as what it carries; the malformed-cursor rejections of `decodeInboundInsertionsCursor` are not modelled.
- InboundPaging.WalkNeverRepeats: assumes that an id keeps its instant, because a row whose `received_at` is rewritten behind the cursor is, to the code, another place in the listing.
- Labels.NormalisersAgree: one direction only for forms cut at 64 characters, because a disagreement past the cut, or one that only repeats a dash at the cut, is invisible there; `Labels.FullFormsAgree` is exact before the cut.
- RenameBridge.MailArchitecture.Bridge: sources with ids not minted by the trigger, and provider ids containing `:` or `@`, are outside the model; the name, status, settings and snapshot columns are not modelled.
- RenameBridge.MailArchitecture.Receive: the same ids, and messages of a provider whose id is `none`, are left out; the repository generates no such id.
- QuotaGate.GetAddressSendability: the tables do not change during one call, and the store's `since` filter reads the same instant as the client's own check; a suspended row beyond an incomplete address scan can be missed, as the code allows.
- Forwarding.SerialRunsSendOnce: speaks of pairs recorded as sent; a copy that reached the provider but was recorded as failed (`Lost`) is attempted again, as the pipeline's header says.
- SchemaTypes.MeaningPreserved: all members are schema objects, `properties` and `required` are read as object schemas, component names are identifiers other than TypeScript's own words, and texts hold none of the `$` patterns that `String.replace` gives a meaning; the JSON numbers of enum literals are compared as values.
- RefClosure.CollectResponseComponents: the component table has no inherited member names, which JavaScript's `in` would also see.
- Contact ids are numbers, which stand for generated text ids in creation order; rows without readable timestamps, which fault when mapped, are not modelled.
- The counts that overlapping increments of one contact can lose, as the header of `src/db/contacts.ts` says; `ContactRaces` is about which rows there are.
- Columns holding malformed JSON, which the triggers and readers take for an empty list.
- The timestamp and type faults of `toEvent`, `toRule` and `toAlias`, the post-write comparisons that neither store can fail, and rows with blank alias keys.
- `updateEmailStatus`, `deleteEmail`, event and contact listings, `listAliases`, `listForwardingRules`: the same enumerate, sort and window pattern as the sent ledger, or one write.
- Groups, digests, threads, sandbox, scheduled mail: they repeat patterns that are modelled.
- Facades, dispatch, probes, the generated HTTP client and the API-backed address and domain arms.
- Filesystem hardening, WAL and VACUUM pragmas, the migration list, provider-secret encryption, CLI, MCP and TUI output.
