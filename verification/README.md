# A verified model of the accounting ledger

This project models the double-entry ledger of `packages/accounting` in Dafny and proves what the
package promises of it. A fact of the business (an order, a fee, an expense, a stock movement) is
read, matched to a posting rule, turned into lines, and filed in a book's journal; statements are
sums over what was filed. Every claim below is about all inputs, all runs or all interleavings.

`dafny verify dfyconfig.toml` checks the whole project.

## How it is laid out

- **Arithmetic.** `Decimal` parses and prints decimal strings; `Rounding` holds the two rounding
  functions on micro-unit integers and `MoneyArithmetic` ties them to strings; `Sums` is the finite
  sum that every SQL `sum` becomes; `Calendar` has dates, fiscal years and generated months.
- **Journal.** `Ledger` has the rows and, per transaction, the decision it takes (guards in the
  source's order) and the change it commits. `LedgerInvariants` proves what every run keeps,
  `LedgerHistory` what runs mean (freezing, reversal, idempotency),
  `LedgerAcceptance` when a transaction succeeds, `Statements` the read models. `JournalAnswers` says of
  every transaction, from its inputs and the rows alone, when it succeeds, what all the rows are afterwards
  and which refusal comes first; `StatementFigures` does so for each figure and row of the statements.
  `LedgerService` is the service as a class with mutable rows whose methods work step by step, with
  rollback, and are proved to do what the decisions say. `ConcurrentPosting` interleaves the steps
  of any number of posting, reversing and draft transactions, and `PostingAlone` proves that such a call, run
  undisturbed, is the journal's own decision; `ConcurrentClosing` interleaves posters with
  callers that close the period or demote the account. `FactTotals` takes an account's balance apart
  into the facts on it.
- **Rules and engine.** `Facts` and `Templates` have facts, line templates, the line builder, the
  fingerprint and the save-time check; `LineAnswers` says line by line what a template, its plug and a split
  put on each account; `TemplateExactness` the exact condition under which an accepted
  template balances; `TemplateExamples` and `OrderGap` templates on both sides of it.
  `PostingRules` and `PostingRulesService` are the rule and version store, `RuleAnswers` what its
  operations answer and which rule fires; `PostingEngine` and `EngineService` the evaluation protocol,
  `EngineAnswers` which verdict it gives; `Convergence` its main theorem, `ReturningFact` a run on
  which it fails, `EngineEdges` its edges; `RuleHistory` joins rule store, engine and journal;
  `ConcurrentActivation` interleaves activations of one rule's versions.
- **Around it.** `BookLinks` and `BookLinksService` route entities to books, `LinkAnswers` says by days
  which links they accept and which routes they give, `ConcurrentLinking` has related entities linked at
  once; `CostApportionment` spreads landed cost over depletions; `DefaultRules` is the shipped order
  rules, `DefaultAccounts` what they put on every account, `ShippedHistory` what they leave in the
  journal, `Resync` and `ResyncRun` the same beside an order's re-syncs; `ChartSeed` seeds a chart of
  accounts.

A row's id is its position, so ids are fresh and never reused. An error leaves every row alone.
Amounts are micro-units except in the string modules. A posting key is built from constructors and a
fingerprint is the tuple that is hashed, so both are injective. A fact's reading is an input.

## What the proofs found

- **A fact that changes and changes back is lost.** `postEntry` reuses any entry carrying the key,
  also one that was reversed since. `Convergence.Convergence` gives the exact condition (the needed
  key was not posted and reversed before, or the lines ask for nothing), and
  `ReturningFact.ReturningFactIsLost` the run: an order of 100, re-synced at 200, re-synced at 100 again,
  ends with nothing in the books and a successful result.
- **Re-syncing an order posts its fees and refunds again.** The design says operational facts are never
  hard-deleted (`financial-schema-design.md:706`), and the engine leaves the entry of a fact it no longer finds; but every re-sync deletes
  an order's fees and refunds and inserts them under new ids. `Resync.ResyncCountsTwice`: once
  the new row is posted too, the journal counts the money twice; `ResyncRun.FeeCountedTwice` is a run,
  and `ShippedHistory.ClearingIsOff` says what the clearing account is off by.
- **The upward link check asks for one day.** `linkEntity` asks the parent's route on
  `effectiveFrom` only, and `endLink` may lengthen a link unchecked. Roll-up holds for links opened in
  date order and only ever shortened; both conditions are shown necessary by runs, and exact
  conditions are given for each single write.
- **An accepted template can still fail to balance**, in two ways. The save-time check expands an
  order's total into subtotal, shipping, tax and discount, but the provider asserts the total:
  `OrderGap` has a template with whole-number multipliers that passes every check and an order whose
  entry is refused. And fractional multipliers are rounded: `TemplateExactness.AlwaysBalancesExactly`
  gives the exact condition, a finite test on the multipliers that could be made at save time, and
  `TemplateExactness.EntryMissesBy` says for each single fact by exactly how much its entry misses.
  Whole-number multipliers meet the test and are not necessary; templates that miss it are off by at
  most half a micro-unit a line.
- **A period can be reopened after it was locked, and filed into after it was closed.** The guards of
  `setStatus`, of `updateAccount` and of a posting read rows that no lock holds. `ConcurrentClosing`
  shows the interleavings and, for closing, soft closing, locking and demoting an account, exactly
  which callers must not be in flight at that moment; for a demotion these include posters that have
  only resolved their line, as long as the period's status, or a change of it under way, lets them past.
- **A rule can have two active versions, and a superseded one can come back,** when versions are activated
  at the same time; and a parent and a child linked at the same time slip past both roll-up checks.
  `ConcurrentActivation` and `ConcurrentLinking` show the runs and the exact conditions on the calls
  under way, over every step that starts no new one.
- **28 February can belong to no period.** A fiscal year anchored on 29, 30 or 31 February leaves
  that day of a leap year uncovered.
- **A trial balance without archived accounts** balances exactly when their lines net to zero.
- **Seeding a chart of three levels** throws "which the template does not define" when a child is
  written before a parent that itself has a parent.
- The documentation says split lines carry their dimension; the engine does not hand a built line's
  dimension to the journal, so entries it writes carry none (`EngineEdges.NoDimensionArrives`). The
  model follows the code.
- When a fact changed and its new lines number fewer than two, the code reverses first and throws
  after; the next call reports nothing to post (`EngineEdges.ReversesThenThrows`). `no_period` is
  documented as an outcome and is thrown as an error (`EngineEdges.NoPeriodThrows`). The model follows
  the code in both.

## Model

| member | source | states |
|---|---|---|
| Decimal.RoundTrip | packages/accounting/src/decimal.ts:73-89 | parsing what was printed gives back the integer, for every integer and scale |
| Decimal.FromUnitsInjective | packages/accounting/src/decimal.ts:73-89 | different integers print differently |
| Decimal.SignIsVisible | packages/accounting/src/decimal.ts:73-79 | a printed amount starts with a minus exactly when it is negative |
| Decimal.AcceptedExactly | packages/accounting/src/decimal.ts:47-94 | exactly the plain decimals with at most six fraction digits are money |
| Decimal.MoneyStringIdempotent | packages/accounting/src/decimal.ts:92-94 | normalising twice is normalising once, and the fixed points are the canonical strings |
| Decimal.MoneyStringUnique | packages/accounting/src/decimal.ts:92-94 | two strings normalise alike exactly when they stand for the same amount |
| Decimal.SumDecimals | packages/accounting/src/decimal.ts:97-101 | the accumulating loop returns the exact total, and fails exactly on a malformed value |
| Decimal.SubtractReads | packages/accounting/src/decimal.ts:104-113 | subtraction commutes with reading, and a negative difference is what comparison reports |
| Decimal.NegateReads | packages/accounting/src/decimal.ts:122-124 | negation commutes with reading |
| Decimal.AbsReads | packages/accounting/src/decimal.ts:116-119 | the absolute value commutes with reading and shows no sign |
| Decimal.OperationsFailTogether | packages/accounting/src/decimal.ts:104-124 | subtraction, negation and comparison fail exactly on a malformed operand |
| Decimal.ReadsAsWritten | packages/accounting/src/decimal.ts:47-70 | a decimal is its digits to the base of ten at its scale, with its sign, and fails exactly on too many fraction digits |
| Decimal.CompareReads | packages/accounting/src/decimal.ts:104-113 | comparison is the order of the integers read |
| MoneyArithmetic.MultiplyReads | packages/accounting/src/decimal.ts:138-147 | string multiplication reads as the integer one and is odd |
| MoneyArithmetic.ShareReads | packages/accounting/src/decimal.ts:173-192 | the string share reads as the integer share and fails exactly on a malformed string it reads |
| Rounding.MulRoundOdd | packages/accounting/src/decimal.ts:138-147 | the rounded product is odd in each argument |
| Rounding.MulRoundNearest | packages/accounting/src/decimal.ts:138-147 | within half a micro-unit of the exact product, ties away from zero |
| Rounding.MulRoundUnique | packages/accounting/src/decimal.ts:138-147 | those two facts determine the result |
| Rounding.MulRoundExact | packages/accounting/src/decimal.ts:138-147 | no rounding for a whole-number multiplier |
| Rounding.ShareNearest | packages/accounting/src/decimal.ts:173-192 | a share is within half a micro-unit of the exact one |
| Rounding.ShareWithin | packages/accounting/src/decimal.ts:173-192 | a share has the total's sign and at most its magnitude |
| Rounding.ShareMonotone | packages/accounting/src/decimal.ts:173-192 | its magnitude grows with the part, through both clamps |
| Rounding.ShareExactly | packages/accounting/src/decimal.ts:173-192 | the two clamps and, strictly between them, the nearest with ties away from zero: together they determine the share |
| Rounding.ComplementaryShares | packages/accounting/src/decimal.ts:173-192 | complementary strict shares sum to the total in magnitude, or one unit more exactly on a tie |
| Calendar.FiscalYearCharacterised | packages/accounting/src/periods.ts:75-104 | a date is in fiscal year y exactly from the start of y to before the start of y + 1, for every anchor |
| Calendar.CoveringYear | packages/accounting/src/periods.ts:294-312 | the period covering a date belongs to the date's fiscal year |
| Calendar.PeriodsDisjoint | packages/accounting/src/periods.ts:294-312 | no date is in two generated periods, for every anchor |
| Calendar.CoveredUnlessGap | packages/accounting/src/periods.ts:294-312 | a date of the year is covered by the twelve generated periods exactly when it is not the gap day |
| Calendar.CalendarTiles | packages/accounting/src/periods.ts:294-312 | every date is covered exactly once if and only if the anchor is not 29 to 31 February |
| Calendar.PreviousDayIsPredecessor | packages/accounting/src/statements.ts:428-432 | nothing lies between a day and its predecessor |
| Calendar.LtIsDateOrder | packages/accounting/src/periods.ts:75-104 | the order of dates is by year, then month, then day |
| Calendar.StartIsClamped | packages/accounting/src/periods.ts:75-104 | a fiscal year starts on the anchor, or on the last day of its month when that is shorter |
| Calendar.MonthsLater | packages/accounting/src/periods.ts:294-312 | the same day so many months on, or the last of that month when it is shorter |
| LedgerInvariants.DecisionAllowed | packages/accounting/src/journal.ts:777-1226 | every transaction that passes its guards commits a change the invariant allows |
| LedgerInvariants.RunKeeps | packages/accounting/src/journal.ts:777-1226 | balance, postability, gapless numbers, unique keys, reversal structure and the calendar survive every run |
| LedgerInvariants.NegatedBalanced | packages/accounting/src/journal.ts:1135-1160 | the mirror of a balanced entry balances |
| LedgerHistory.ReversalStructure | packages/accounting/src/journal.ts:1051-1226 | reversed exactly when one entry names it; reversals are never reversed; a pair nets to zero per account, entity and dimension |
| LedgerHistory.RunIsLater | packages/db/migrations/0009_accounting_books_chart_and_journal.sql:443-469 | a posted entry never changes except to reversed, and never leaves the books |
| LedgerHistory.ReversalIdempotent | packages/accounting/src/journal.ts:1084-1096 | a retried reversal returns the first one and changes nothing |
| LedgerHistory.PostingIdempotent | packages/accounting/src/journal.ts:781-784 | a retried posting returns the first entry and changes nothing |
| LedgerHistory.Gapless | packages/accounting/src/journal.ts:550-570 | in every reachable ledger a book's numbers are exactly 1 up to its counter, each once |
| LedgerHistory.PeriodIsLookup | packages/accounting/src/journal.ts:395-414 | at most one period contains a date, so finding it is a lookup |
| LedgerHistory.GenerationNeverConflicts | packages/accounting/src/periods.ts:277-352 | generation never meets an overlapping period in a reachable ledger |
| LedgerHistory.GenerationIdempotent | packages/accounting/src/periods.ts:294-312 | generating a year again adds nothing |
| LedgerHistory.OpeningDayIsCovered | packages/accounting/src/books.ts:415-430 | a book opened with its first fiscal year has a period for its opening day unless that is the gap day |
| LedgerHistory.LockedForever | packages/accounting/src/periods.ts:222-236 | no run reopens a locked period |
| LedgerHistory.Frozen | packages/accounting/src/periods.ts:416-441 | while a period is closed, or once locked, no run moves any account's total over its dates |
| LedgerHistory.SoftClosedDelta | packages/accounting/src/journal.ts:809-834 | while a period is soft-closed its totals move by exactly the entries flagged backdated since |
| LedgerAcceptance.ResolvesExactly | packages/accounting/src/journal.ts:426-512 | lines resolve exactly when each does, each in its place; otherwise the first refusal is the error |
| LedgerAcceptance.PostsFreshExactly | packages/accounting/src/journal.ts:777-862 | a posting files a fresh entry exactly under its guards |
| LedgerAcceptance.PostReusesExactly | packages/accounting/src/journal.ts:781-784 | it reuses an entry exactly when one carries its key |
| LedgerAcceptance.ReversesExactly | packages/accounting/src/journal.ts:1051-1130 | in a reachable ledger, the entries that can be reversed and when |
| JournalAnswers.PostAnswers | packages/accounting/src/journal.ts:777-878 | `postEntry` from its input and the rows: when it succeeds; the entry filed, line by line on the account named with entity, dimensions and amount as given, under the date's period, flag and next number; every other row unchanged; a taken key answers its entry; else the first refusal |
| JournalAnswers.DraftAnswers | packages/accounting/src/journal.ts:968-1012 | `createDraft` in the same way: no balance or period is asked for, and none is stamped |
| JournalAnswers.PostDraftAnswers | packages/accounting/src/journal.ts:880-963 | `postDraft` succeeds exactly for a draft that balances in a period that takes it; its lines stand as they are and it is stamped in |
| JournalAnswers.VoidAnswers | packages/accounting/src/journal.ts:1014-1049 | `voidDraft` voids a draft, leaves a void one so, refuses any other |
| JournalAnswers.ReverseAnswers | packages/accounting/src/journal.ts:1051-1226 | `reverseEntry`: when it succeeds; the mirror of every line under its own date and derived key; the original marked and otherwise unchanged; a reversal there already is answered; else the first refusal |
| JournalAnswers.StatusAnswers | packages/accounting/src/periods.ts:222-274 | the period takes the status asked for and nothing else changes; refused exactly when it is locked and asked for another |
| JournalAnswers.GenerateAnswers | packages/accounting/src/periods.ts:277-352 | in a reachable ledger: the missing months, each from its start to the day before the next, open, once; refused exactly for a year or book that cannot be |
| JournalAnswers.BookAnswers | packages/accounting/src/books.ts:353-398 | the book with the currency and anchor given, active, at number one, or nothing |
| JournalAnswers.OpenAnswers | packages/accounting/src/books.ts:353-434 | opening a book with periods leaves exactly the book and the twelve months of the fiscal year of its opening day |
| JournalAnswers.ArchiveAnswers | packages/accounting/src/books.ts:454-474 | that book alone goes offline; refused exactly when it is not there |
| JournalAnswers.AccountAnswers | packages/accounting/src/chart.ts:298-350 | the account as given; refused exactly for a missing book, a foreign or missing parent, a taken code or system key |
| JournalAnswers.PostableAnswers | packages/accounting/src/chart.ts:388-405 | the flag asked for, on that account alone; refused exactly when an account with lines is to take none |
| JournalAnswers.ActiveAnswers | packages/accounting/src/chart.ts:441-492 | the flag asked for, on that account alone; refused exactly when a system account is to be archived |
| LedgerService.AssertBalanced | packages/accounting/src/journal.ts:243-292 | the map-filling loop accepts exactly the balanced lists |
| LedgerService.BalancedInEveryCurrency | packages/accounting/src/journal.ts:243-292 | balanced means two lines at least and a zero sum in every transaction and functional currency there is |
| LedgerService.LedgerService.ResolveAll | packages/accounting/src/journal.ts:426-512 | the resolving loop returns all lines or the first line's error |
| LedgerService.LedgerService.AssertRequiredDimensions | packages/accounting/src/journal.ts:523-548 | the loop accepts exactly lists whose every line carries every required dimension |
| LedgerService.LedgerService.NextEntryNumber | packages/accounting/src/journal.ts:550-570 | hands out a counter between one and the largest safe integer and advances it by one, for that book only |
| LedgerService.LedgerService.PostEntry | packages/accounting/src/journal.ts:777-878 | the steps commit exactly the posting `JournalAnswers.PostAnswers` describes, or roll back to the rows before |
| LedgerService.LedgerService.CreateDraft | packages/accounting/src/journal.ts:968-1012 | files the unbalanced-tolerant draft that was decided, or nothing |
| LedgerService.LedgerService.PostDraft | packages/accounting/src/journal.ts:880-963 | promotes the draft with period, flag and number, or changes nothing |
| LedgerService.LedgerService.VoidDraft | packages/accounting/src/journal.ts:1014-1049 | voids a draft, once, and nothing else |
| LedgerService.LedgerService.ReverseEntry | packages/accounting/src/journal.ts:1051-1226 | files the mirror entry and marks the original, or rolls everything back |
| LedgerService.LedgerService.SetStatus | packages/accounting/src/periods.ts:222-274 | moves a period's status unless it is locked |
| LedgerService.LedgerService.GenerateFiscalYear | packages/accounting/src/periods.ts:277-352 | inserts the missing periods, or none when one overlaps |
| LedgerService.LedgerService.CreateBook | packages/accounting/src/books.ts:353-398 | a new book starts active at number one |
| LedgerService.LedgerService.OpenBook | packages/accounting/src/books.ts:353-434 | the book and then, separately, its first fiscal year; a failure of the second leaves the first |
| LedgerService.LedgerService.ArchiveBook | packages/accounting/src/books.ts:454-474 | takes a book offline, once |
| LedgerService.LedgerService.CreateAccount | packages/accounting/src/chart.ts:298-350 | adds an account unless its code or system key is taken in the book or its parent is elsewhere |
| LedgerService.LedgerService.UpdatePostable | packages/accounting/src/chart.ts:388-405 | an account with lines may not stop being postable |
| LedgerService.LedgerService.SetActive | packages/accounting/src/chart.ts:441-492 | a system account may not be archived; otherwise the flag is set |
| Statements.TrialRowSplits | packages/accounting/src/ledger-reports.ts:217-266 | debit and credit are gross, neither negative; debit less credit is the balance |
| Statements.TrialBalances | packages/accounting/src/ledger-reports.ts:202-266 | in every reachable ledger debits equal credits for any window; without archived accounts exactly when theirs net to zero |
| StatementFigures.TrialFigures | packages/accounting/src/ledger-reports.ts:202-266 | one row for each account listed and no other, each with its own gross debits, gross credits and balance over the dates; the totals are the columns' sums |
| Statements.NetIncomeAgrees | packages/accounting/src/statements.ts:255-317 | the income statement's bottom line is the net income the balance sheet uses |
| Statements.EarningsPartition | packages/accounting/src/statements.ts:356-408 | retained and current earnings together count every date up to the statement's once |
| Statements.BalanceSheetBalances | packages/accounting/src/statements.ts:319-423 | in every reachable ledger and for every date the balance sheet's difference is zero |
| StatementFigures.IncomeFigures | packages/accounting/src/statements.ts:255-317 | in every reachable ledger: revenue is the turned sum of the lines on revenue accounts over the dates, expense the sum of those on expense accounts, each section's rows exactly its own kind's accounts |
| StatementFigures.SheetFigures | packages/accounting/src/statements.ts:319-423 | in every reachable ledger: assets, liabilities and equity each from lines of their own kind up to the date, retained earnings from the fiscal years before the date's, current earnings from its own up to it, rows likewise |
| ConcurrentPosting.InterleavingsKeep | packages/accounting/src/journal.ts:777-1049 | the invariant holds after any interleaving of posting, reversing, drafting, draft-posting and draft-voiding steps |
| ConcurrentPosting.KeysNeverRepeat | packages/db/migrations/0009_accounting_books_chart_and_journal.sql:295 | committed entries never share a posting key |
| ConcurrentPosting.NumbersAreGapless | packages/accounting/src/journal.ts:550-570 | under any interleaving a number is used exactly once when below the counter and never otherwise |
| ConcurrentPosting.CallerGetsItsKey | packages/accounting/src/journal.ts:777-878 | a keyed call that succeeds returns the committed entry with its key |
| ConcurrentPosting.RereadFinds | packages/accounting/src/journal.ts:864-877 | the loser of a race always finds the winner's entry |
| ConcurrentPosting.OneReversalEach | packages/db/migrations/0009_accounting_books_chart_and_journal.sql:457-460 | racing reversals of one entry commit at most one |
| ConcurrentPosting.DraftSettledOnce | packages/accounting/src/journal.ts:880-963 | of callers posting or voiding one draft at once, one at most is told it posted it, and then none that it voided it and the row is filed |
| ConcurrentPosting.SettledForGood | packages/db/migrations/0009_accounting_books_chart_and_journal.sql:443-469 | over every continuation of an interleaving a filed entry keeps its number and a void draft stays void |
| ConcurrentPosting.NeverDeadlocked | packages/accounting/src/journal.ts:777-1049 | in every reachable state some unfinished call can take its next step |
| PostingAlone.PostAlone | packages/accounting/src/journal.ts:777-878 | an undisturbed call's steps leave and answer exactly what the decided posting does, in every reachable ledger |
| PostingAlone.DraftAlone | packages/accounting/src/journal.ts:968-1012 | the same of drafting |
| PostingAlone.PostDraftAlone | packages/accounting/src/journal.ts:880-963 | the same of posting a draft |
| PostingAlone.VoidAlone | packages/accounting/src/journal.ts:1014-1049 | the same of voiding a draft |
| PostingAlone.ReverseAlone | packages/accounting/src/journal.ts:1051-1226 | the same of reversing |
| ConcurrentClosing.ClosingFreezesExactly | packages/db/migrations/0009_accounting_books_chart_and_journal.sql:532-587 | closing freezes a period exactly when no poster is past the trigger at that moment |
| ConcurrentClosing.SoftClosingFlagsExactly | packages/db/migrations/0009_accounting_books_chart_and_journal.sql:532-587 | a soft close flags every later entry exactly when no unflagged poster is past it |
| ConcurrentClosing.LockingLastsExactly | packages/accounting/src/periods.ts:222-252 | a lock lasts exactly when no other status change had read the period before |
| ConcurrentClosing.ApartStaysSound | packages/accounting/src/chart.ts:388-405 | accounts with lines stay postable over runs that keep postings and demotions apart |
| ConcurrentClosing.PostabilityExactly | packages/accounting/src/chart.ts:388-405 | from any sound state, every run that starts no new call keeps lines on postable accounts exactly when no poster that can still get past the trigger meets a demoter or a demoted account, and no demoter has lines filed behind its back |
| ConcurrentClosing.BadMomentsReachable | packages/accounting/src/journal.ts:801-834 | the states those conditions exclude are reachable |
| ConcurrentClosing.LockUndone | packages/accounting/src/periods.ts:222-252 | a run that locks a period and ends with it merely closed |
| ConcurrentClosing.PosterAlone | packages/db/migrations/0009_accounting_books_chart_and_journal.sql:532-587 | undisturbed, a poster files its entry exactly when the account and the period take it, flagged when that is soft-closed |
| ConcurrentClosing.ChangersAlone | packages/accounting/src/periods.ts:222-252 | undisturbed, a change of status holds unless the period is locked, and a demotion unless the account has lines |
| Templates.BuildInLoop | packages/accounting/src/posting-engine.ts:303-372 | the pushing loop with its remembered plug computes the specified lines or the first error |
| Templates.PlugBalances | packages/accounting/src/posting-engine.ts:343-371 | with a plug the lines sum to exactly zero whatever was rounded or split |
| Templates.SplitPreservesTotal | packages/accounting/src/posting-engine.ts:391-430 | splitting by allocations preserves the total on every path |
| LineAnswers.SplitsExactly | packages/accounting/src/posting-engine.ts:391-430 | a split happens exactly for an expense with an allocation naming an account, one line that is not negative, and a stated sum of its sign and at most its size |
| LineAnswers.SplitAnswers | packages/accounting/src/posting-engine.ts:391-430 | then every additive measure of the lines is the unsplit one plus what the allocations state, less the stated sum at the debit; in every other case the lines are unchanged |
| LineAnswers.BuildAnswers | packages/accounting/src/posting-engine.ts:303-430 | every additive measure of the built lines, from the template and the fact: the rounded products, the split, and the plug's remainder on the last plug line; the first missing amount otherwise |
| LineAnswers.BuildPlaces | packages/accounting/src/posting-engine.ts:303-430 | what any fact, split or not, puts on each account and entity |
| Templates.FingerprintSuffices | packages/accounting/src/posting-engine.ts:191-244 | the lines can be rebuilt from the fingerprint alone |
| Templates.FingerprintExact | packages/accounting/src/posting-engine.ts:179-244 | two facts have one fingerprint exactly when they agree on everything the version consumes |
| Templates.EqualFingerprintsEqualEntries | packages/accounting/src/posting-engine.ts:627-641 | equal fingerprints mean equal date, currency and lines, so "unchanged" leaves nothing stale |
| Templates.AssertTemplateBalances | packages/accounting/src/posting-rules.ts:341-434 | the coefficient map ends empty of non-zero entries exactly when every component cancels |
| Templates.TableMatchesReaders | packages/accounting/src/posting-rules.ts:346-395 | the validator's table expands every amount to what the readers' identities make it |
| Templates.ValidatorExact | packages/accounting/src/posting-rules.ts:341-434 | accepted exactly when the un-rounded sum is zero for every assignment of the components |
| Templates.RoundingDrift | packages/accounting/src/decimal.ts:138-147 | rounded lines stray from their exact sum by at most half a micro-unit a line |
| Templates.AcceptedNearlyBalances | packages/accounting/src/posting-rules.ts:331-434 | an accepted template's lines miss zero by at most half a micro-unit a line on a gapless fact |
| TemplateExactness.AlwaysBalancesExactly | packages/accounting/src/posting-rules.ts:326-434 | for every fact type, an accepted plug-free template balances on every gapless fact if and only if it passes a finite test on its multipliers |
| TemplateExactness.EntryMissesBy | packages/accounting/src/posting-engine.ts:303-372 | for every accepted plug-free template and every fact, the entry misses zero by exactly the gap times the total's multipliers plus what each amount's remainder below one unit gains by rounding |
| TemplateExactness.DefectRepeats | packages/accounting/src/decimal.ts:138-147 | rounding gains on an amount what it gains on its signed remainder below one unit |
| TemplateExactness.EvenBalances | packages/accounting/src/posting-rules.ts:326-434 | an even template balances on a fact exactly when there is no gap or the total's multipliers cancel |
| TemplateExactness.OneAmountBalances | packages/accounting/src/decimal.ts:138-147 | any accepted template on a one-amount fact balances exactly when the amount's remainder below one unit does |
| TemplateExactness.RoundShifts | packages/accounting/src/decimal.ts:138-147 | one more unit of money adds the multiplier, exactly |
| TemplateExactness.AcceptedIntegralBalances | packages/accounting/src/posting-rules.ts:326-434 | with whole-number multipliers the entry balances exactly when there is no gap or the total's multipliers cancel |
| TemplateExamples.BothAccepted | packages/accounting/src/posting-rules.ts:341-434 | the save-time check accepts both fractional templates |
| TemplateExamples.OnlyOneIsEven | packages/accounting/src/posting-rules.ts:341-434 | the finite test tells them apart |
| TemplateExamples.HalvesDrift | packages/accounting/src/posting-engine.ts:303-372 | one of them builds an entry that is off by a micro-unit on a fee of one micro-unit |
| TemplateExamples.OppositeHalvesCancel | packages/accounting/src/posting-engine.ts:303-372 | the other balances on every fact |
| OrderGap.TemplateAccepted | packages/accounting/src/posting-rules.ts:244-434 | a plug-free order template with whole-number multipliers passes every save-time check and reads the total once |
| OrderGap.SaleIsOff | packages/accounting/src/posting-engine.ts:303-372 | on an order whose total exceeds its components by five it builds lines that sum to five |
| OrderGap.SaleIsRefused | packages/accounting/src/posting-engine.ts:450-506 | the posting of that sale is refused as unbalanced |
| PostingRules.ValidatePostingRuleTemplate | packages/accounting/src/posting-rules.ts:244-329 | the counting loop accepts exactly the valid templates |
| PostingRules.RunKeeps | packages/accounting/src/posting-rules.ts:661-857 | over any run the current version is the one active version, texts never change, superseded versions never return |
| PostingRules.OneActiveVersion | packages/accounting/src/posting-rules.ts:661-682 | no run leaves a rule with two active versions |
| ConcurrentActivation.OneActiveExactly | packages/accounting/src/posting-rules.ts:661-682 | as long as a rule never had two active versions, every run that starts no new call leaves at most one exactly when each caller that has looked or swept has seen whatever else is active and all that have read a version have read the same one |
| ConcurrentActivation.ApartKeepsOne | packages/accounting/src/posting-rules.ts:661-682 | over every run with one activating transaction open at a time the rule has one active version and points at it |
| ConcurrentActivation.SupersededLastsExactly | packages/accounting/src/posting-rules.ts:794-829 | a superseded version stays so for ever exactly when no caller had read it before |
| ConcurrentActivation.AloneIsSequential | packages/accounting/src/posting-rules.ts:794-829 | undisturbed, a caller's steps make the sequential activation, or are refused with it |
| ConcurrentActivation.TwoActive | packages/accounting/src/posting-rules.ts:661-682 | a run of two activations that ends with two active versions, through a state the condition rules out |
| ConcurrentActivation.SupersededReturns | packages/accounting/src/posting-rules.ts:794-829 | a run after which a superseded version can come back |
| PostingRules.ExplainerAgrees | packages/accounting/src/posting-rules.ts:910-978 | in every reachable store the rule that fires is the first candidate reported as matched |
| PostingRules.ExplainsExactly | packages/accounting/src/posting-rules.ts:486-570 | the reason given is that everything holds exactly when the version matches |
| RuleAnswers.ReasonExactly | packages/accounting/src/posting-rules.ts:486-570 | the reason is the first predicate that fails in the order dates, attributes, entity, attributes, currency, amount |
| RuleAnswers.ExplainAnswers | packages/accounting/src/posting-rules.ts:910-946 | every rule that is on for the type, once, in order, each with its own reason |
| RuleAnswers.ResolveAnswers | packages/accounting/src/posting-rules.ts:948-978 | the rule that answers and is ahead of all others that do by priority, then code; none exactly when none answers |
| RuleAnswers.ValidExactly | packages/accounting/src/posting-rules.ts:244-434 | accepted at save time exactly when every predicate and amount suits the type, each line has the multiplier it must, at most one line plugs, and the rest cancels |
| RuleAnswers.CreateAnswers | packages/accounting/src/posting-rules.ts:685-742 | `createRule`: when it succeeds, and the rule and version one as given; else the first refusal and nothing changed |
| RuleAnswers.AddAnswers | packages/accounting/src/posting-rules.ts:744-792 | `addVersion`: the text as given under one more than the largest number of that rule |
| RuleAnswers.ActivateAnswers | packages/accounting/src/posting-rules.ts:794-829 | `activateVersion`: refused exactly for a missing or superseded version; afterwards that version alone is active and current |
| RuleAnswers.SwitchAnswers | packages/accounting/src/posting-rules.ts:831-857 | `setRuleStatus`: the status asked for, on that rule alone; refused exactly for switching on without a current version |
| PostingRules.ResolveIsLeast | packages/accounting/src/posting-rules.ts:948-978 | it is the least, by priority and code, of the switched-on rules that fire; none exactly when none fires |
| PostingRulesService.PostingRulesService.ActivateRow | packages/accounting/src/posting-rules.ts:661-682 | the three updates retire, activate and repoint as specified |
| PostingRulesService.PostingRulesService.CreateRule | packages/accounting/src/posting-rules.ts:685-742 | creates the rule with version one, or rolls back |
| PostingRulesService.PostingRulesService.AddVersion | packages/accounting/src/posting-rules.ts:744-792 | adds the next version, or changes nothing |
| PostingRulesService.PostingRulesService.ActivateVersion | packages/accounting/src/posting-rules.ts:794-829 | activates any version that is not superseded and refuses a superseded one |
| PostingRulesService.PostingRulesService.SetRuleStatus | packages/accounting/src/posting-rules.ts:831-857 | a rule without a current version may not be switched on |
| PostingRulesService.PostingRulesService.FindRule | packages/accounting/src/posting-rules.ts:948-978 | the stopping loop finds the resolved rule |
| PostingRulesService.PostingRulesService.ExplainRules | packages/accounting/src/posting-rules.ts:910-946 | the other loop reports on every ordered rule, with its reason |
| RuleHistory.VersionsIdentify | packages/db/migrations/0010_posting_rules_and_source_links.sql:129-151 | a code and a version number name one text, now and after any further edits |
| RuleHistory.SavedVersionAlwaysBalances | packages/accounting/src/posting-rules.ts:244-434 | a stored version balances on every gapless fact if and only if it has a plug or is even |
| RuleHistory.SavedRuleBalances | packages/accounting/src/posting-rules.ts:326-434 | the entry of a rule that fires sums to zero with a plug, and without one misses zero by exactly the gap it reads and what rounding adds; for an even rule that is zero exactly without such a gap |
| RuleHistory.JournalBalanceIsRuleBalance | packages/accounting/src/posting-engine.ts:450-506 | the journal's check passes exactly when the built lines number two or more and sum to zero |
| RuleHistory.SavedRulePosts | packages/accounting/src/posting-engine.ts:450-506 | a saved rule is refused for balance only by fewer than two lines or by missing zero, and one that misses never gets a fresh entry |
| EngineService.Engine.EvaluateFact | packages/accounting/src/posting-engine.ts:264-691 | the call on a reading routes, resolves and then takes one step of the protocol in separate transactions on mutable rows |
| EngineService.EvaluationOfIsOk | packages/accounting/src/posting-engine.ts:271-293 | what router and resolver answer is an evaluation the convergence theorem speaks of |
| EngineService.RouteExactly | packages/accounting/src/posting-engine.ts:271-293 | the fact's own book, else that of the nearest link at or above its entity on its date, else the default |
| EngineService.RuleExactly | packages/accounting/src/posting-rules.ts:948-978 | the rule handed on is the one that answers ahead of all others, with its current version's attributes and lines |
| EngineService.EvaluationExactly | packages/accounting/src/posting-engine.ts:508-620 | the reading, the route and the rule the call works with |
| EngineService.ServiceSteps | packages/accounting/src/journal.ts:777-1226 | each service method takes the step the run theorems speak of and keeps the invariant |
| Convergence.ProtocolKept | packages/accounting/src/posting-engine.ts:432-691 | every allowed change keeps: one live entry at most, each original explained by its stamp, net equal to live net |
| Convergence.Converges | packages/accounting/src/posting-engine.ts:508-691 | a call that settles shows the current lines if their key is unspent and nothing if it is spent |
| Convergence.IneligibleShowsNothing | packages/accounting/src/posting-engine.ts:529-569 | an ineligible fact ends with a net of zero everywhere |
| Convergence.VerdictLeaves | packages/accounting/src/posting-engine.ts:513-620 | no fact, no route and no rule leave an existing entry standing; nothing to post shows nothing; a call that throws changed nothing or stopped after its reversal, showing nothing |
| EngineAnswers.MissingExactly | packages/accounting/src/posting-engine.ts:513-620 | fact_not_found, no_route and no_rule are given exactly without a reading, without a route or with an archived book, without a rule; no row changes |
| EngineAnswers.IneligibleExactly | packages/accounting/src/posting-engine.ts:529-569 | every call on an ineligible reading: with an entry in the books it is reversed and nothing of the fact is shown, or the reversal's refusal is thrown and no row changes; without one the verdict is the same and no row changes |
| EngineAnswers.IneligibleOnly | packages/accounting/src/posting-engine.ts:529-569 | fact_ineligible is said of ineligible readings only |
| EngineAnswers.FirstTimeExactly | packages/accounting/src/posting-engine.ts:622-688 | with no entry standing: the verdict and the rows follow the journal's answer to exactly the built lines |
| EngineAnswers.StandingExactly | packages/accounting/src/posting-engine.ts:622-688 | with one standing: unchanged exactly when it carries the current stamp, else reversed and reposted, each with the journal's answer |
| EngineAnswers.VerdictExactly | packages/accounting/src/posting-engine.ts:508-691 | posted, reposted, unchanged and nothing_to_post, each as an if-and-only-if |
| EngineAnswers.CrashExactly | packages/accounting/src/posting-engine.ts:643-672 | a crash between the two transactions leaves exactly the reversal the call makes, or nothing |
| Convergence.CrashRecovers | packages/accounting/src/posting-engine.ts:643-672 | calling again after a crash between the two transactions reaches the same rows |
| Convergence.HistoryKeeps | packages/accounting/src/posting-engine.ts:508-691 | the protocol's invariant holds after any history of evaluations, crashes and other activity |
| Convergence.Convergence | packages/accounting/src/posting-engine.ts:508-691 | after any history at most one entry is live, and a call that settles shows the current rule on the current fact if and only if the needed key is unspent or nothing is asked |
| Convergence.ReturningFactVanishes | packages/accounting/src/journal.ts:781-784 | a fact posted, changed and changed back shows nothing, whatever the facts |
| ReturningFact.ReturningFactIsLost | packages/accounting/src/journal.ts:781-784 | a reachable run over readings of an order that its reader can produce, under an accepted rule, ends in success with nothing shown where 100 is asked for |
| EngineEdges.ReversesThenThrows | packages/accounting/src/posting-engine.ts:643-688 | too few new lines: the reversal is committed, the call throws, and the next one changes nothing |
| EngineEdges.SyncedToNothing | packages/accounting/src/posting-engine.ts:643-688 | for instance an order of 100 that a re-sync brings to nothing |
| EngineEdges.NoPeriodThrows | packages/accounting/src/journal.ts:395-414 | a date no period contains is an error thrown, not a verdict |
| EngineEdges.NoDimensionArrives | packages/accounting/src/posting-engine.ts:457-470 | whatever dimension a rule line or allocation names, the entry's lines carry none |
| BookLinks.RollUpByDay | packages/accounting/src/books.ts:271-279 | roll-up by overlapping links is roll-up on every single day |
| BookLinks.RouteFinds | packages/accounting/src/books.ts:236-269 | the bounded walk finds a link exactly when the entity or an ancestor has one that day |
| BookLinks.RouteIsAnyAncestors | packages/accounting/src/books.ts:236-269 | under roll-up the route is the book of whichever linked ancestor is asked |
| BookLinks.ChildPostsToParentsBook | packages/accounting/src/books.ts:501-531 | a child's posting book is its parent's book |
| BookLinks.NearestIsNearest | packages/accounting/src/books.ts:236-269 | the walk returns the first linked entity on the way up, with its depth and its book |
| BookLinks.ResolveBookExactly | packages/accounting/src/books.ts:317-350 | which of own link, nearest linked ancestor (named) and installation default answers, and when none does |
| LinkAnswers.LinkAnswers | packages/accounting/src/books.ts:476-603 | `linkEntity` by days: accepted exactly when the dates are in order, book and entity are there, and a primary link meets no other of the entity, none below it to another book, and the book of the nearest above on its first day; else the first refusal |
| LinkAnswers.EndAnswers | packages/accounting/src/books.ts:605-636 | `endLink`: accepted exactly when the link is there, ends no sooner than it starts, and, when it is primary, no day of it has another primary link of the entity |
| LinkAnswers.ResolveAnswers | packages/accounting/src/books.ts:317-350 | which of the own link, the nearest above and the default answers, said from the links in force that day |
| LinkAnswers.RouteIsNearest | packages/accounting/src/books.ts:236-269 | the bounded walk gives the book of the nearest link in force at or above the entity |
| LinkAnswers.RunKeepsLinks | packages/db/migrations/0009_accounting_books_chart_and_journal.sql:321-325 | over every run an entity has one primary link at most on any day, so there is one nearest |
| BookLinks.LinkKeepsRollUp | packages/accounting/src/books.ts:501-548 | an accepted link keeps roll-up exactly when no ancestor's link to another book starts within its dates |
| BookLinks.EndKeepsRollUp | packages/accounting/src/books.ts:605-636 | ending a link keeps it exactly when no related entity's link to another book starts after the old end and not after the new one; shortening always does |
| BookLinks.RollUpOverRuns | packages/accounting/src/books.ts:476-636 | roll-up holds over every run with links opened in date order and never lengthened |
| BookLinks.OutOfOrderBreaks | packages/accounting/src/books.ts:501-548 | a back-dated link slips past both checks |
| BookLinks.LengtheningBreaks | packages/accounting/src/books.ts:605-636 | a lengthened link slips past them as well |
| ConcurrentLinking.InsertsExactly | packages/accounting/src/books.ts:501-560 | the calls past their checks keep roll-up in whatever order they insert exactly when no link still insertable clashes with a committed one and no two of different entities clash |
| ConcurrentLinking.TakingTurnsKeepsRollUp | packages/accounting/src/books.ts:501-560 | roll-up holds over every interleaving in which related links take turns and none starts before an ancestor's |
| ConcurrentLinking.AloneIsSequential | packages/accounting/src/books.ts:476-603 | undisturbed, a caller does what the sequential decision says |
| ConcurrentLinking.BothAtOnceBreaks | packages/accounting/src/books.ts:501-560 | a parent and a child linked at once to different books are both accepted |
| BookLinksService.BookLinksService.ConflictingDescendantLink | packages/accounting/src/books.ts:280-315 | the walk finds exactly a descendant's overlapping link to another book |
| BookLinksService.BookLinksService.RouteThroughEntity | packages/accounting/src/books.ts:236-269 | the upward loop returns the nearest link's book, its depth and its entity |
| BookLinksService.BookLinksService.ResolveBookForEntity | packages/accounting/src/books.ts:317-350 | the walk's answer or the default |
| BookLinksService.BookLinksService.LinkEntity | packages/accounting/src/books.ts:476-603 | inserts the link or throws, as `LinkAnswers.LinkAnswers` says |
| BookLinksService.BookLinksService.EndLink | packages/accounting/src/books.ts:605-636 | sets the end or throws, as `LinkAnswers.EndAnswers` says |
| CostApportionment.BasisWithin | packages/accounting/src/source-facts.ts:785-796 | every basis has the landed cost's sign and at most its size |
| CostApportionment.BasisExactly | packages/accounting/src/source-facts.ts:741-796 | a depletion's basis is the share up to and with it less the share before it |
| CostApportionment.BasesTelescope | packages/accounting/src/source-facts.ts:741-796 | the bases of any finite set of depletions sum to one share of the landed cost |
| CostApportionment.FullyDepletedReleasesAll | packages/accounting/src/source-facts.ts:727-735 | an item depleted to the last unit releases exactly its landed cost |
| CostApportionment.ReversalReadsItsOriginal | packages/accounting/src/source-facts.ts:776-790 | a reversal's basis is that of the movement it reverses |
| CostApportionment.NetCostWithin | packages/accounting/src/source-facts.ts:337-374 | with each depletion reversed at most once, net cost of goods sold stays between zero and the landed cost |
| DefaultRules.ShippedOk | packages/accounting/src/posting-rules-template.ts:136-267 | the shipped order rules pass the save-time checks and leave a sound store |
| DefaultRules.ShippedResolves | packages/accounting/src/posting-rules-template.ts:136-267 | each order, fee and refund fact resolves to its own shipped rule |
| DefaultRules.FactPosts | packages/accounting/src/posting-rules-template.ts:136-267 | what one fact puts on suspense and on clearing |
| DefaultAccounts.SaleEverywhere | packages/accounting/src/posting-rules-template.ts:136-188 | what a sale puts on each of its accounts, and nothing on any other |
| DefaultAccounts.TransferEverywhere | packages/accounting/src/posting-rules-template.ts:189-267 | the same of a fee or refund |
| DefaultRules.SuspenseClears | packages/accounting/src/posting-rules-template.ts:19-75 | summed over any facts, the lines built on suspense are zero exactly when surcharges explain the orders' gaps, and those on clearing are totals less seller charges less refunds |
| ShippedHistory.HistoryShows | packages/accounting/src/posting-engine.ts:508-691 | a fact that settled on an unspent key still shows its lines after any history that does not touch it, calls that find no fact, route or rule included |
| ShippedHistory.HistoryShowsNothing | packages/accounting/src/posting-engine.ts:508-691 | a fact with nothing to post still shows nothing after any such history |
| ShippedHistory.SuspenseInTheBooks | packages/accounting/src/posting-rules-template.ts:19-75 | after any history in which each of some orders, fees and refunds last settled or had nothing to post, what these facts show on suspense and clearing is that sum |
| ShippedHistory.SuspenseBalance | packages/accounting/src/posting-rules-template.ts:19-75 | and when nothing but these facts was ever on the two accounts, it is their balances in the trial balance |
| ShippedHistory.VanishedFactStands | packages/accounting/src/posting-engine.ts:513-524 | a settled fact whose row is gone is reported as not found and its entry keeps showing its lines |
| ShippedHistory.ClearingIsOff | packages/accounting/src/posting-rules-template.ts:19-75 | after any history, with facts whose rows are gone among those on it, the clearing account is off by what was owed for them |
| Resync.GoneForGood | packages/commerce/src/orders.ts:899-938 | a deleted fee or refund row never returns under its id, over any further syncs |
| Resync.ResyncCountsTwice | packages/commerce/src/orders.ts:899-938 | a fee or refund posted before a re-sync of its order and the row of the same content posted after show twice its effect, after any further events short of a reversal by hand |
| ResyncRun.FeeCountedTwice | packages/commerce/src/orders.ts:899-938 | a run from the empty ledger on which one unchanged fee of 100 is credited to clearing twice |
| FactTotals.AccountIsItsFacts | packages/accounting/src/ledger-reports.ts:202-266 | when every entry on an account belongs to one of some distinct facts, its balance is the sum of what they show on it |
| ChartSeed.SeedInLoop | packages/accounting/src/chart.ts:212-271 | the loop with its map computes the specified seeding or the first error |
| ChartSeed.SeedKeeps | packages/accounting/src/chart.ts:212-271 | seeding only appends, keeps codes, keys and parents sound, and leaves every template code present |
| ChartSeed.SeedAdds | packages/accounting/src/chart.ts:212-271 | what is added are copies of template accounts whose code was missing |
| ChartSeed.SeedRuns | packages/accounting/src/chart.ts:231-268 | account by account: skipped when its code is there, refused without its parent or with a taken key, else added as given; the first refusal ends the run |
| ChartSeed.OrderedExactly | packages/accounting/src/chart.ts:217-229 | the accounts seeded are those of the template, roots first |
| ChartSeed.SeedIdempotent | packages/accounting/src/chart.ts:131-141 | seeding a seeded book adds nothing |
| ChartSeed.SeedsWhenParentsFirst | packages/accounting/src/chart.ts:212-271 | short of a key clash it succeeds exactly when no new account precedes its parent |
| ChartSeed.TwoLevelsSeed | packages/accounting/src/chart.ts:217-229 | a two-level template in any order never trips the parent check |
| ChartSeed.ThreeLevelsCanFail | packages/accounting/src/chart.ts:240-245 | three levels written child first trip it |

## Left out

- Descriptions, memos, placeholders in description templates, audit rows, source links, notes and reasons: they carry no ledger property.
- Zod parsing of inputs: dates are valid calendar days with four-digit years, a fact stamp has both halves, ids are naturals; currency strings are taken as already trimmed and upper-case.
- PostingRules.ValidatePostingRuleTemplate: checks neither duplicate line numbers nor description placeholders, because lines are taken in order and without descriptions.
- LedgerService.LedgerService.OpenBook: does not seed the chart, which `ChartSeed` models on its own rows.
- EngineService.Engine.EvaluateFact: takes the reading of the fact, and its own book if it names one, as arguments.
- Line numbers chosen by the caller.
- Book codes, names, contra flags, and recoding or reparenting of accounts.
- Routing inside a posting by hand: the routed book, or none, is part of the input.
- A text key a caller chooses to look like a minted or reversal key, and the collision of two hash prefixes: keys are built from constructors.
- The database's own immutability triggers on lines, rule versions and rule lines, where no service method writes what they forbid.
- Range checks on a version's dates and amounts are reported as a conflict; the table raises a bare constraint error.
- Collation of rule codes: codes are compared by character.
- Entity-filtered statements, `accountBalance`, `accountActivity` and coverage reports: an entry may carry several entities, so the identities are not theorems there.
- Row order of reports by account code.
- `evaluateFacts`, the unpostable backlog and the sweep: a loop over the modelled step.
- The first update of an activation takes its rows one by one, and two of them can deadlock when a rule has two active versions already: `ConcurrentActivation` takes them at once, and an abort may end any call.
- Adding a version while another is activated: its insertion is not interleaved; its activation is the same three updates.
- Concurrent evaluations of one fact, rerouting after a link change and re-parenting of entities: the code promises no result there, so `Convergence` fixes a fact's book and takes evaluations one at a time.
- Conversion between currencies: the journal fixes every line to the book's currency; only the balance check is stated over several.
- Expense, acquisition-cost and inventory rules of the shipped set, and readers beyond the identities in `Templates.ReaderShaped`.
