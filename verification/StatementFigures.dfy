/**
 * What each figure of the statements is, said from the journal's lines (`ledger-reports.ts`, `statements.ts`):
 * sums over the lines of entries in the books, picked by account, kind and date.
 */
module StatementFigures {
  import opened Prelude
  import opened Sums
  import opened Calendar
  import opened Ledger
  import opened LedgerInvariants
  import opened Statements

  /** A day in the range, open where no end is given. */
  predicate Between(from: Option<Date>, to: Option<Date>, d: Date) {
    (from.Some? ==> Le(from.value, d)) && (to.Some? ==> Le(d, to.value))
  }

  /** Entries of the book that were posted, reversed since or not, and dated in the range. */
  function EntrySum(book: nat, from: Option<Date>, to: Option<Date>, w: Line -> int): Entry -> int {
    (e: Entry) => if (e.status == Posted || e.status == Reversed) && e.book == book && Between(from, to, e.date) then Total(e.lines, w) else 0
  }

  function SumOf(db: Db, book: nat, from: Option<Date>, to: Option<Date>, w: Line -> int): int {
    Total(db.entries, EntrySum(book, from, to, w))
  }

  /** Lines on accounts of one kind. */
  function OfKind(db: Db, kind: AccountType): Line -> int {
    (l: Line) => if l.account < |db.accounts| && db.accounts[l.account].kind == kind then l.functionalAmount else 0
  }

  /** Lines on accounts that earn or spend. */
  function Earning(db: Db): Line -> int {
    (l: Line) => if l.account < |db.accounts| && (db.accounts[l.account].kind == Revenue || db.accounts[l.account].kind == Expense)
                 then l.functionalAmount else 0
  }

  ghost predicate Moves(db: Db, book: nat, from: Option<Date>, to: Option<Date>, a: nat) {
    exists i, j :: && 0 <= i < |db.entries| && (db.entries[i].status == Posted || db.entries[i].status == Reversed) && db.entries[i].book == book
                   && Between(from, to, db.entries[i].date) && 0 <= j < |db.entries[i].lines| && db.entries[i].lines[j].account == a
  }


  lemma SumIsLineSum(db: Db, book: nat, from: Option<Date>, to: Option<Date>, w: Line -> int)
    ensures SumOf(db, book, from, to, w) == LineSum(db, book, Window(from, to), w)
  {
    TotalSame(db.entries, EntrySum(book, from, to, w), EntryWeight(book, Window(from, to), w));
  }

  lemma MovesIsActivity(db: Db, book: nat, from: Option<Date>, to: Option<Date>, a: nat)
    ensures Moves(db, book, from, to, a) <==> HasActivity(db, book, Window(from, to), a)
  {
  }

  lemma {:induction false} RowsAre(db: Db, book: nat, w: Window, pick: nat -> bool, includeEmpty: bool, n: nat)
    ensures forall a: nat :: a in Rows(db, book, w, pick, includeEmpty, n) <==> a < n && pick(a) && (includeEmpty || HasActivity(db, book, w, a))
    ensures forall i, j :: 0 <= i < j < |Rows(db, book, w, pick, includeEmpty, n)| ==>
              Rows(db, book, w, pick, includeEmpty, n)[i] < Rows(db, book, w, pick, includeEmpty, n)[j]
  {
    hide HasActivity;
    if n > 0 {
      RowsAre(db, book, w, pick, includeEmpty, n - 1);
      var init := Rows(db, book, w, pick, includeEmpty, n - 1);
      forall i | 0 <= i < |init| ensures init[i] < n - 1 {
        assert init[i] in init;
      }
    }
  }

  // ----- Sections -----

  /** Which accounts a section shows: postable ones of its kind in the book, with a line in the range unless empty ones are asked for. */
  ghost predicate Shown(db: Db, book: nat, kind: AccountType, from: Option<Date>, to: Option<Date>, includeEmpty: bool, a: nat) {
    && a < |db.accounts| && db.accounts[a].book == book && db.accounts[a].kind == kind && db.accounts[a].postable
    && (includeEmpty || Moves(db, book, from, to, a))
  }

  ghost predicate SectionShows(db: Db, book: nat, kind: AccountType, from: Option<Date>, to: Option<Date>, includeEmpty: bool, section: Section) {
    && (forall a: nat :: a in section.rows <==> Shown(db, book, kind, from, to, includeEmpty, a))
    && forall i, j :: 0 <= i < j < |section.rows| ==> section.rows[i] < section.rows[j]
  }

  lemma KindsAgree(db: Db, kind: AccountType)
    ensures forall l: Line :: KindLine(db, {kind})(l) == OfKind(db, kind)(l)
  {
  }

  lemma SectionFigures(db: Db, book: nat, from: Option<Date>, to: Option<Date>, kind: AccountType, flip: bool, includeEmpty: bool)
    requires LinesOk(db)
    ensures var section := SectionOf(db, book, Window(from, to), {kind}, flip, includeEmpty);
            && section.total == (if flip then -1 else 1) * SumOf(db, book, from, to, OfKind(db, kind))
            && SectionShows(db, book, kind, from, to, includeEmpty, section)
  {
    hide LineSum, SumOf, Rows, LinesOk, HasActivity, Moves;
    var w := Window(from, to);
    SectionTotal(db, book, w, {kind}, flip, includeEmpty);
    SumIsLineSum(db, book, from, to, OfKind(db, kind));
    KindSums(db, book, w, kind);
    RowsAre(db, book, w, OfKinds(db, book, {kind}), includeEmpty, |db.accounts|);
    forall a: nat ensures Moves(db, book, from, to, a) <==> HasActivity(db, book, w, a) {
      MovesIsActivity(db, book, from, to, a);
    }
  }

  lemma KindSums(db: Db, book: nat, w: Window, kind: AccountType)
    ensures LineSum(db, book, w, KindLine(db, {kind})) == LineSum(db, book, w, OfKind(db, kind))
  {
    hide LineSum;
    KindsAgree(db, kind);
    LineSumSame(db, book, w, KindLine(db, {kind}), OfKind(db, kind));
  }

  lemma EarningSums(db: Db, book: nat, from: Option<Date>, to: Option<Date>)
    ensures NetIncomeBetween(db, book, Window(from, to)) == -SumOf(db, book, from, to, Earning(db))
  {
    hide LineSum, SumOf;
    var w := Window(from, to);
    SumIsLineSum(db, book, from, to, Earning(db));
    EarningsAgree(db);
    LineSumSame(db, book, w, KindLine(db, PROFIT_AND_LOSS), Earning(db));
  }

  lemma EarningsAgree(db: Db)
    ensures forall l: Line :: KindLine(db, PROFIT_AND_LOSS)(l) == Earning(db)(l)
  {
  }

  // ----- Income statement -----

  /** Revenue turned round, expense as it is, each from lines of its own kind in the range; the rest is their difference. */
  lemma IncomeFigures(required: set<(nat, nat)>, ops: seq<Op>, book: nat, from: Date, to: Date, includeEmpty: bool)
    ensures var db := Run(Empty(required), ops);
            var s := IncomeStatementOf(db, book, from, to, includeEmpty);
            && s.revenue.total == -SumOf(db, book, Some(from), Some(to), OfKind(db, Revenue))
            && s.expense.total == SumOf(db, book, Some(from), Some(to), OfKind(db, Expense))
            && s.netIncome == s.revenue.total - s.expense.total
            && SectionShows(db, book, Revenue, Some(from), Some(to), includeEmpty, s.revenue)
            && SectionShows(db, book, Expense, Some(from), Some(to), includeEmpty, s.expense)
  {
    hide SumOf, SectionOf, SectionShows, Run, BooksOk, AccountsOk, PeriodsOk, NumbersOk, KeysOk, ReversalsOk, StampsOk, LinesOk;
    EmptyOk(required);
    RunKeeps(Empty(required), ops);
    var db := Run(Empty(required), ops);
    SectionFigures(db, book, Some(from), Some(to), Revenue, true, includeEmpty);
    SectionFigures(db, book, Some(from), Some(to), Expense, false, includeEmpty);
  }

  // ----- Balance sheet -----

  /** Entries of fiscal years before the date's, and of the date's own up to it. */
  function EarlierYears(book: nat, anchor: Anchor, asOf: Date, w: Line -> int): Entry -> int {
    (e: Entry) => if (e.status == Posted || e.status == Reversed) && e.book == book && FiscalYearFor(e.date, anchor) < FiscalYearFor(asOf, anchor)
                  then Total(e.lines, w) else 0
  }

  function ThisYear(book: nat, anchor: Anchor, asOf: Date, w: Line -> int): Entry -> int {
    (e: Entry) => if (e.status == Posted || e.status == Reversed) && e.book == book && FiscalYearFor(e.date, anchor) == FiscalYearFor(asOf, anchor)
                     && Le(e.date, asOf)
                  then Total(e.lines, w) else 0
  }

  lemma YearsOf(d: Day, asOf: Day, a: Anchor)
    requires ValidAnchor(a)
    ensures var start := FiscalYearStart(FiscalYearFor(asOf, a), a);
            && (Le(d, PreviousDay(start)) <==> FiscalYearFor(d, a) < FiscalYearFor(asOf, a))
            && (Le(start, d) && Le(d, asOf) <==> FiscalYearFor(d, a) == FiscalYearFor(asOf, a) && Le(d, asOf))
  {
    hide FiscalYearFor, FiscalYearStart, PreviousDay, ValidAnchor, DaysInMonth;
    var y, z := FiscalYearFor(asOf, a), FiscalYearFor(d, a);
    StartValid(y, a);
    PreviousDayIsPredecessor(d, FiscalYearStart(y, a));
    FiscalYearCharacterised(asOf, y, a);
    FiscalYearCharacterised(d, z, a);
    StartsAscend(z + 1, y, a);
    StartsAscend(y, z, a);
    StartsAscend(y + 1, z, a);
  }

  lemma StartsAscend(y: int, z: int, a: Anchor)
    requires ValidAnchor(a)
    ensures y <= z ==> Le(FiscalYearStart(y, a), FiscalYearStart(z, a))
    ensures y < z ==> Lt(FiscalYearStart(y, a), FiscalYearStart(z, a))
  {
  }

  lemma EarningsByYear(db: Db, book: nat, asOf: Day)
    requires BooksOk(db) && book < |db.books|
    ensures var a := db.books[book].anchor;
            var start := FiscalYearStart(FiscalYearFor(asOf, a), a);
            && SumOf(db, book, None, Some(PreviousDay(start)), Earning(db)) == Total(db.entries, EarlierYears(book, a, asOf, Earning(db)))
            && SumOf(db, book, Some(start), Some(asOf), Earning(db)) == Total(db.entries, ThisYear(book, a, asOf, Earning(db)))
  {
    hide FiscalYearFor, FiscalYearStart, PreviousDay, Total;
    var a := db.books[book].anchor;
    var start := FiscalYearStart(FiscalYearFor(asOf, a), a);
    assert ValidAnchor(a);
    forall i | 0 <= i < |db.entries|
      ensures EntrySum(book, None, Some(PreviousDay(start)), Earning(db))(db.entries[i]) == EarlierYears(book, a, asOf, Earning(db))(db.entries[i])
      ensures EntrySum(book, Some(start), Some(asOf), Earning(db))(db.entries[i]) == ThisYear(book, a, asOf, Earning(db))(db.entries[i])
    {
      YearsOf(db.entries[i].date, asOf, a);
    }
    TotalSame(db.entries, EntrySum(book, None, Some(PreviousDay(start)), Earning(db)), EarlierYears(book, a, asOf, Earning(db)));
    TotalSame(db.entries, EntrySum(book, Some(start), Some(asOf), Earning(db)), ThisYear(book, a, asOf, Earning(db)));
  }

  /**
   * Each section from lines of its own kind up to the date, liabilities and equity turned round; retained earnings from
   * the fiscal years before the date's and current earnings from the date's own, both turned round.
   */
  lemma SheetFigures(required: set<(nat, nat)>, ops: seq<Op>, book: nat, asOf: Day, includeEmpty: bool)
    requires book < |Run(Empty(required), ops).books|
    ensures var db := Run(Empty(required), ops);
            var s, a := BalanceSheetOf(db, book, asOf, includeEmpty), db.books[book].anchor;
            && s.assets.total == SumOf(db, book, None, Some(asOf), OfKind(db, Asset))
            && s.liabilities.total == -SumOf(db, book, None, Some(asOf), OfKind(db, Liability))
            && s.equityAccounts.total == -SumOf(db, book, None, Some(asOf), OfKind(db, Equity))
            && s.retainedEarnings == -Total(db.entries, EarlierYears(book, a, asOf, Earning(db)))
            && s.currentEarnings == -Total(db.entries, ThisYear(book, a, asOf, Earning(db)))
            && s.totalEquity == s.equityAccounts.total + s.retainedEarnings + s.currentEarnings
            && s.difference == s.assets.total - s.liabilities.total - s.totalEquity
    ensures var db := Run(Empty(required), ops);
            var s := BalanceSheetOf(db, book, asOf, includeEmpty);
            && SectionShows(db, book, Asset, None, Some(asOf), includeEmpty, s.assets)
            && SectionShows(db, book, Liability, None, Some(asOf), includeEmpty, s.liabilities)
            && SectionShows(db, book, Equity, None, Some(asOf), includeEmpty, s.equityAccounts)
  {
    hide SumOf, SectionOf, SectionShows, Run, BooksOk, AccountsOk, PeriodsOk, NumbersOk, KeysOk, ReversalsOk, StampsOk, LinesOk,
         FiscalYearFor, FiscalYearStart, PreviousDay, NetIncomeBetween, Total;
    EmptyOk(required);
    RunKeeps(Empty(required), ops);
    var db := Run(Empty(required), ops);
    var a := db.books[book].anchor;
    var start := FiscalYearStart(FiscalYearFor(asOf, a), a);
    SectionFigures(db, book, None, Some(asOf), Asset, false, includeEmpty);
    SectionFigures(db, book, None, Some(asOf), Liability, true, includeEmpty);
    SectionFigures(db, book, None, Some(asOf), Equity, true, includeEmpty);
    EarningSums(db, book, None, Some(PreviousDay(start)));
    EarningSums(db, book, Some(start), Some(asOf));
    EarningsByYear(db, book, asOf);
  }

  // ----- Trial balance -----

  function OnlyOn(a: nat): Line -> int {
    (l: Line) => if l.account == a then l.functionalAmount else 0
  }

  function DebitsOn(a: nat): Line -> int {
    (l: Line) => if l.account == a && l.functionalAmount > 0 then l.functionalAmount else 0
  }

  function CreditsOn(a: nat): Line -> int {
    (l: Line) => if l.account == a && l.functionalAmount < 0 then -l.functionalAmount else 0
  }

  /** The accounts of the book, archived ones if asked for, with a line in the range unless empty ones are asked for. */
  ghost predicate Listed(db: Db, book: nat, w: Window, includeArchived: bool, includeEmpty: bool, a: nat) {
    && a < |db.accounts| && db.accounts[a].book == book && (includeArchived || db.accounts[a].active)
    && (includeEmpty || Moves(db, book, w.from, w.to, a))
  }

  function RowDebit(): TrialRow -> int {
    (r: TrialRow) => r.debit
  }

  function RowCredit(): TrialRow -> int {
    (r: TrialRow) => r.credit
  }

  lemma RowFigures(db: Db, book: nat, w: Window, a: nat)
    ensures RowAmount(db, book, w, Signed())(a) == SumOf(db, book, w.from, w.to, OnlyOn(a))
    ensures RowAmount(db, book, w, Debit())(a) == SumOf(db, book, w.from, w.to, DebitsOn(a))
    ensures RowAmount(db, book, w, Credit())(a) == SumOf(db, book, w.from, w.to, CreditsOn(a))
  {
    hide LineSum, SumOf;
    assert w == Window(w.from, w.to);
    SumIsLineSum(db, book, w.from, w.to, OnlyOn(a));
    SumIsLineSum(db, book, w.from, w.to, DebitsOn(a));
    SumIsLineSum(db, book, w.from, w.to, CreditsOn(a));
    LineSumSame(db, book, w, OnAccount(a, Signed()), OnlyOn(a));
    LineSumSame(db, book, w, OnAccount(a, Debit()), DebitsOn(a));
    LineSumSame(db, book, w, OnAccount(a, Credit()), CreditsOn(a));
  }

  lemma {:induction false} ColumnTotals(ids: seq<nat>, rows: seq<TrialRow>, debit: nat -> int, credit: nat -> int)
    requires |rows| == |ids| && forall i :: 0 <= i < |ids| ==> rows[i].debit == debit(ids[i]) && rows[i].credit == credit(ids[i])
    ensures Total(rows, RowDebit()) == Total(ids, debit) && Total(rows, RowCredit()) == Total(ids, credit)
  {
    if ids != [] {
      var k := |ids| - 1;
      ColumnTotals(ids[..k], rows[..k], debit, credit);
    }
  }

  /** One row for each listed account, ascending, with its gross debit, its gross credit and its balance; the totals are the columns'. */
  lemma TrialFigures(db: Db, book: nat, w: Window, includeArchived: bool, includeEmpty: bool)
    ensures var t := TrialBalanceOf(db, book, w, includeArchived, includeEmpty);
            && (forall a: nat :: Listed(db, book, w, includeArchived, includeEmpty, a) <==> exists i :: 0 <= i < |t.rows| && t.rows[i].account == a)
            && (forall i, j :: 0 <= i < j < |t.rows| ==> t.rows[i].account < t.rows[j].account)
            && (forall i :: 0 <= i < |t.rows| ==>
                  && t.rows[i].balance == SumOf(db, book, w.from, w.to, OnlyOn(t.rows[i].account))
                  && t.rows[i].debit == SumOf(db, book, w.from, w.to, DebitsOn(t.rows[i].account))
                  && t.rows[i].credit == SumOf(db, book, w.from, w.to, CreditsOn(t.rows[i].account)))
            && t.totalDebit == Total(t.rows, RowDebit()) && t.totalCredit == Total(t.rows, RowCredit())
            && t.difference == t.totalDebit - t.totalCredit
  {
    hide LineSum, SumOf, Rows, HasActivity, Moves, RowAmount, Total;
    var t, pick := TrialBalanceOf(db, book, w, includeArchived, includeEmpty), OfBook(db, book, includeArchived);
    var ids := Rows(db, book, w, pick, includeEmpty, |db.accounts|);
    RowsAre(db, book, w, pick, includeEmpty, |db.accounts|);
    forall a: nat
      ensures Moves(db, book, w.from, w.to, a) <==> HasActivity(db, book, w, a)
      ensures RowAmount(db, book, w, Signed())(a) == SumOf(db, book, w.from, w.to, OnlyOn(a))
      ensures RowAmount(db, book, w, Debit())(a) == SumOf(db, book, w.from, w.to, DebitsOn(a))
      ensures RowAmount(db, book, w, Credit())(a) == SumOf(db, book, w.from, w.to, CreditsOn(a))
    {
      assert w == Window(w.from, w.to);
      MovesIsActivity(db, book, w.from, w.to, a);
      RowFigures(db, book, w, a);
    }
    forall a: nat ensures Listed(db, book, w, includeArchived, includeEmpty, a) <==> a in ids {
      assert a in Rows(db, book, w, pick, includeEmpty, |db.accounts|) <==> a < |db.accounts| && pick(a) && (includeEmpty || HasActivity(db, book, w, a));
    }
    forall a: nat | a in ids ensures exists i :: 0 <= i < |t.rows| && t.rows[i].account == a {
      var i :| 0 <= i < |ids| && ids[i] == a;
      assert t.rows[i].account == a;
    }
    forall i | 0 <= i < |t.rows| ensures t.rows[i].account in ids {
      assert t.rows[i].account == ids[i];
    }
    ColumnTotals(ids, t.rows, RowAmount(db, book, w, Debit()), RowAmount(db, book, w, Credit()));
  }
}
