/**
 * Read models over the books: trial balance, income statement and balance sheet
 * (`ledger-reports.ts`, `statements.ts`). Rows come in account-id order; the totals do not depend
 * on the order.
 */
module Statements {
  import opened Prelude
  import opened Sums
  import opened Calendar
  import opened Ledger
  import opened LedgerInvariants

  // ----- Which lines count -----

  datatype Window = Window(from: Option<Date>, to: Option<Date>)

  predicate InWindow(w: Window, d: Date) {
    && (w.from.Some? ==> Le(w.from.value, d))
    && (w.to.Some? ==> Le(d, w.to.value))
  }

  /** Posted and reversed entries of the book dated inside the window. */
  predicate Counts(e: Entry, book: nat, w: Window) {
    InBooks(e) && e.book == book && InWindow(w, e.date)
  }

  function EntryWeight(book: nat, w: Window, line: Line -> int): Entry -> int {
    (e: Entry) => if Counts(e, book, w) then Total(e.lines, line) else 0
  }

  /** `sum(...)` over the counted lines. */
  function LineSum(db: Db, book: nat, w: Window, line: Line -> int): int {
    Total(db.entries, EntryWeight(book, w, line))
  }

  function OnAccount(account: nat, measure: int -> int): Line -> int {
    (l: Line) => if l.account == account then measure(l.functionalAmount) else 0
  }

  predicate HasActivity(db: Db, book: nat, w: Window, account: nat) {
    exists i, j :: 0 <= i < |db.entries| && Counts(db.entries[i], book, w)
                   && 0 <= j < |db.entries[i].lines| && db.entries[i].lines[j].account == account
  }

  // ----- Measures of a signed amount -----

  function Signed(): int -> int { (x: int) => x }

  function Debit(): int -> int { (x: int) => if x > 0 then x else 0 }

  function Credit(): int -> int { (x: int) => if x < 0 then -x else 0 }

  // ----- Rows -----

  /** The accounts below `n` a report selects, dropping the inactive ones unless told otherwise. */
  function Rows(db: Db, book: nat, w: Window, pick: nat -> bool, includeEmpty: bool, n: nat): seq<nat> {
    if n == 0 then []
    else
      Rows(db, book, w, pick, includeEmpty, n - 1)
      + if pick(n - 1) && (includeEmpty || HasActivity(db, book, w, n - 1)) then [n - 1] else []
  }

  function RowAmount(db: Db, book: nat, w: Window, measure: int -> int): nat -> int {
    (a: nat) => LineSum(db, book, w, OnAccount(a, measure))
  }

  function Picked(pick: nat -> bool, measure: int -> int, n: nat): Line -> int {
    (l: Line) => if l.account < n && pick(l.account) then measure(l.functionalAmount) else 0
  }

  lemma LineSumAdd(db: Db, book: nat, w: Window, f: Line -> int, g: Line -> int, h: Line -> int)
    requires forall l: Line :: h(l) == f(l) + g(l)
    ensures LineSum(db, book, w, h) == LineSum(db, book, w, f) + LineSum(db, book, w, g)
  {
    forall i | 0 <= i < |db.entries|
      ensures EntryWeight(book, w, h)(db.entries[i])
              == EntryWeight(book, w, f)(db.entries[i]) + EntryWeight(book, w, g)(db.entries[i])
    {
      TotalAdd(db.entries[i].lines, f, g, h);
    }
    TotalAdd(db.entries, EntryWeight(book, w, f), EntryWeight(book, w, g), EntryWeight(book, w, h));
  }

  lemma LineSumSame(db: Db, book: nat, w: Window, f: Line -> int, g: Line -> int)
    requires forall i, j | 0 <= i < |db.entries| && 0 <= j < |db.entries[i].lines| ::
               Counts(db.entries[i], book, w) ==> f(db.entries[i].lines[j]) == g(db.entries[i].lines[j])
    ensures LineSum(db, book, w, f) == LineSum(db, book, w, g)
  {
    forall i | 0 <= i < |db.entries|
      ensures EntryWeight(book, w, f)(db.entries[i]) == EntryWeight(book, w, g)(db.entries[i])
    {
      if Counts(db.entries[i], book, w) {
        TotalSame(db.entries[i].lines, f, g);
      }
    }
    TotalSame(db.entries, EntryWeight(book, w, f), EntryWeight(book, w, g));
  }

  lemma NoActivityNoAmount(db: Db, book: nat, w: Window, account: nat, measure: int -> int)
    requires !HasActivity(db, book, w, account)
    ensures LineSum(db, book, w, OnAccount(account, measure)) == 0
  {
    forall i | 0 <= i < |db.entries|
      ensures EntryWeight(book, w, OnAccount(account, measure))(db.entries[i]) == 0
    {
      if Counts(db.entries[i], book, w) {
        TotalZero(db.entries[i].lines, OnAccount(account, measure));
      }
    }
    TotalZero(db.entries, EntryWeight(book, w, OnAccount(account, measure)));
  }

  lemma NothingPicked(db: Db, book: nat, w: Window, pick: nat -> bool, measure: int -> int)
    ensures LineSum(db, book, w, Picked(pick, measure, 0)) == 0
  {
    hide LineSum;
    var none := Picked(pick, measure, 0);
    forall l: Line ensures none(l) == 0 {
      var account: nat := l.account;
    }
    LineSumAdd(db, book, w, none, none, none);
  }

  lemma OneMorePicked(db: Db, book: nat, w: Window, pick: nat -> bool, measure: int -> int, a: nat)
    ensures LineSum(db, book, w, Picked(pick, measure, a + 1))
            == LineSum(db, book, w, Picked(pick, measure, a))
               + if pick(a) then LineSum(db, book, w, OnAccount(a, measure)) else 0
  {
    hide LineSum;
    if pick(a) {
      LineSumAdd(db, book, w, Picked(pick, measure, a), OnAccount(a, measure), Picked(pick, measure, a + 1));
    } else {
      LineSumSame(db, book, w, Picked(pick, measure, a), Picked(pick, measure, a + 1));
    }
  }

  /** Summing a report's rows is summing the counted lines of the accounts it selects. */
  lemma {:induction false} RowsTotal(db: Db, book: nat, w: Window, pick: nat -> bool, includeEmpty: bool,
                                     measure: int -> int, n: nat)
    ensures Total(Rows(db, book, w, pick, includeEmpty, n), RowAmount(db, book, w, measure))
            == LineSum(db, book, w, Picked(pick, measure, n))
  {
    hide LineSum, HasActivity, Picked;
    if n == 0 {
      NothingPicked(db, book, w, pick, measure);
    } else {
      var a: nat, amount := n - 1, RowAmount(db, book, w, measure);
      var init := Rows(db, book, w, pick, includeEmpty, a);
      RowsTotal(db, book, w, pick, includeEmpty, measure, a);
      TotalAppend(init, a, amount);
      assert init + [] == init;
      OneMorePicked(db, book, w, pick, measure, a);
      if !HasActivity(db, book, w, a) {
        NoActivityNoAmount(db, book, w, a, measure);
      }
    }
  }

  // ----- Double entry: the counted lines of a book sum to zero -----

  function AnyLine(): Line -> int {
    (l: Line) => l.functionalAmount
  }

  lemma EntrySumsToZero(db: Db, e: Entry)
    requires LinesFit(db, e) && Balanced(e.lines)
    ensures Total(e.lines, AnyLine()) == 0
  {
    var currency := db.books[e.book].currency;
    TotalSame(e.lines, AnyLine(), InFunctional(currency));
    assert LineFits(db, e.book, e.lines[0]);
  }

  lemma BookSumsToZero(db: Db, book: nat, w: Window)
    requires LinesOk(db) && StampsOk(db)
    ensures LineSum(db, book, w, AnyLine()) == 0
  {
    hide LinesFit, Balanced, Contains;
    forall i | 0 <= i < |db.entries|
      ensures EntryWeight(book, w, AnyLine())(db.entries[i]) == 0
    {
      if Counts(db.entries[i], book, w) {
        assert LinesFit(db, db.entries[i]) && StampFits(db, db.entries[i]);
        EntrySumsToZero(db, db.entries[i]);
      }
    }
    TotalZero(db.entries, EntryWeight(book, w, AnyLine()));
  }

  // ----- Trial balance -----

  datatype TrialRow = TrialRow(account: nat, balance: int, debit: int, credit: int)

  datatype TrialBalance = TrialBalance(rows: seq<TrialRow>, totalDebit: int, totalCredit: int, difference: int)

  function OfBook(db: Db, book: nat, includeArchived: bool): nat -> bool {
    (a: nat) => a < |db.accounts| && db.accounts[a].book == book && (includeArchived || db.accounts[a].active)
  }

  function TrialBalanceOf(db: Db, book: nat, w: Window, includeArchived: bool, includeEmpty: bool): TrialBalance {
    var ids := Rows(db, book, w, OfBook(db, book, includeArchived), includeEmpty, |db.accounts|);
    var debit, credit := RowAmount(db, book, w, Debit()), RowAmount(db, book, w, Credit());
    var balance := RowAmount(db, book, w, Signed());
    var rows := seq(|ids|, i requires 0 <= i < |ids| => TrialRow(ids[i], balance(ids[i]), debit(ids[i]), credit(ids[i])));
    var totalDebit, totalCredit := Total(ids, debit), Total(ids, credit);
    TrialBalance(rows, totalDebit, totalCredit, totalDebit - totalCredit)
  }

  /** Lines on archived accounts of the book: what a report without them leaves out. */
  function ArchivedLine(db: Db): Line -> int {
    (l: Line) => if l.account < |db.accounts| && !db.accounts[l.account].active then l.functionalAmount else 0
  }

  /** A row's debit and credit are gross, so neither is negative; their difference is its balance. */
  lemma TrialRowSplits(db: Db, book: nat, w: Window, a: nat)
    ensures RowAmount(db, book, w, Debit())(a)
            == RowAmount(db, book, w, Signed())(a) + RowAmount(db, book, w, Credit())(a)
    ensures RowAmount(db, book, w, Debit())(a) >= 0 && RowAmount(db, book, w, Credit())(a) >= 0
  {
    LineSumAdd(db, book, w, OnAccount(a, Signed()), OnAccount(a, Credit()), OnAccount(a, Debit()));
    LineSumNotNegative(db, book, w, OnAccount(a, Debit()));
    LineSumNotNegative(db, book, w, OnAccount(a, Credit()));
  }

  lemma LineSumNotNegative(db: Db, book: nat, w: Window, line: Line -> int)
    requires forall l :: line(l) >= 0
    ensures LineSum(db, book, w, line) >= 0
  {
    forall i | 0 <= i < |db.entries|
      ensures EntryWeight(book, w, line)(db.entries[i]) >= 0
    {
      TotalNotNegative(db.entries[i].lines, line);
    }
    TotalNotNegative(db.entries, EntryWeight(book, w, line));
  }

  lemma DebitsLessCredits(db: Db, book: nat, w: Window, includeArchived: bool, includeEmpty: bool)
    requires LinesOk(db)
    ensures TrialBalanceOf(db, book, w, includeArchived, includeEmpty).difference
            == LineSum(db, book, w, Picked(OfBook(db, book, includeArchived), Signed(), |db.accounts|))
  {
    hide LineSum, EntryWeight;
    var pick, n := OfBook(db, book, includeArchived), |db.accounts|;
    RowsTotal(db, book, w, pick, includeEmpty, Debit(), n);
    RowsTotal(db, book, w, pick, includeEmpty, Credit(), n);
    LineSumAdd(db, book, w, Picked(pick, Signed(), n), Picked(pick, Credit(), n), Picked(pick, Debit(), n));
  }

  /**
   * In every reachable ledger and for every date window, total debit equals total credit. When
   * archived accounts are filtered out, it does so exactly when their own lines net to zero.
   */
  lemma TrialBalances(required: set<(nat, nat)>, ops: seq<Op>, book: nat, w: Window, includeEmpty: bool)
    ensures var db := Run(Empty(required), ops);
            && TrialBalanceOf(db, book, w, true, includeEmpty).totalDebit
               == TrialBalanceOf(db, book, w, true, includeEmpty).totalCredit
            && (TrialBalanceOf(db, book, w, false, includeEmpty).difference == 0
                <==> LineSum(db, book, w, ArchivedLine(db)) == 0)
  {
    hide LineSum, EntryWeight, Run, Rows, BooksOk, AccountsOk, PeriodsOk, NumbersOk, KeysOk, ReversalsOk, StampsOk, Counts;
    EmptyOk(required);
    RunKeeps(Empty(required), ops);
    var db := Run(Empty(required), ops);
    BookSumsToZero(db, book, w);
    var n := |db.accounts|;
    DebitsLessCredits(db, book, w, true, includeEmpty);
    DebitsLessCredits(db, book, w, false, includeEmpty);
    CountedLinesFit(db, book, w);
    LineSumSame(db, book, w, Picked(OfBook(db, book, true), Signed(), n), AnyLine());
    var rest := (l: Line) => AnyLine()(l) - ArchivedLine(db)(l);
    LineSumAdd(db, book, w, rest, ArchivedLine(db), AnyLine());
    LineSumSame(db, book, w, Picked(OfBook(db, book, false), Signed(), n), rest);
  }

  lemma CountedLinesFit(db: Db, book: nat, w: Window)
    requires LinesOk(db)
    ensures forall i, j | 0 <= i < |db.entries| && 0 <= j < |db.entries[i].lines| ::
              Counts(db.entries[i], book, w) ==> LineFits(db, book, db.entries[i].lines[j])
  {
    forall i, j | 0 <= i < |db.entries| && 0 <= j < |db.entries[i].lines| && Counts(db.entries[i], book, w)
      ensures LineFits(db, book, db.entries[i].lines[j])
    {
      assert LinesFit(db, db.entries[i]);
    }
  }

  // ----- Statements -----

  datatype Section = Section(rows: seq<nat>, total: int)

  /** Only postable accounts of the given types reach a section (`balancesByAccount`). */
  function OfKinds(db: Db, book: nat, kinds: set<AccountType>): nat -> bool {
    (a: nat) => a < |db.accounts| && db.accounts[a].book == book
                && db.accounts[a].kind in kinds && db.accounts[a].postable
  }

  /** `section`: credits are presented positively when `flip`. */
  function SectionOf(db: Db, book: nat, w: Window, kinds: set<AccountType>, flip: bool, includeEmpty: bool): Section {
    var ids := Rows(db, book, w, OfKinds(db, book, kinds), includeEmpty, |db.accounts|);
    var total := Total(ids, RowAmount(db, book, w, Signed()));
    Section(ids, if flip then -total else total)
  }

  /** Lines of accounts of the given types, with no postability filter. */
  function KindLine(db: Db, kinds: set<AccountType>): Line -> int {
    (l: Line) => if l.account < |db.accounts| && db.accounts[l.account].kind in kinds then l.functionalAmount else 0
  }

  const PROFIT_AND_LOSS: set<AccountType> := {Revenue, Expense}

  function NetIncomeBetween(db: Db, book: nat, w: Window): int {
    -LineSum(db, book, w, KindLine(db, PROFIT_AND_LOSS))
  }

  datatype IncomeStatement = IncomeStatement(revenue: Section, expense: Section, netIncome: int)

  function IncomeStatementOf(db: Db, book: nat, from: Date, to: Date, includeEmpty: bool): IncomeStatement {
    var w := Window(Some(from), Some(to));
    var revenue := SectionOf(db, book, w, {Revenue}, true, includeEmpty);
    var expense := SectionOf(db, book, w, {Expense}, false, includeEmpty);
    IncomeStatement(revenue, expense, revenue.total - expense.total)
  }

  datatype BalanceSheet = BalanceSheet(
    assets: Section,
    liabilities: Section,
    equityAccounts: Section,
    retainedEarnings: int,
    currentEarnings: int,
    totalEquity: int,
    difference: int)

  function BalanceSheetOf(db: Db, book: nat, asOf: Date, includeEmpty: bool): BalanceSheet
    requires book < |db.books|
  {
    var w := Window(None, Some(asOf));
    var assets := SectionOf(db, book, w, {Asset}, false, includeEmpty);
    var liabilities := SectionOf(db, book, w, {Liability}, true, includeEmpty);
    var equity := SectionOf(db, book, w, {Equity}, true, includeEmpty);
    var anchor := db.books[book].anchor;
    var yearStart := FiscalYearStart(FiscalYearFor(asOf, anchor), anchor);
    var retained := NetIncomeBetween(db, book, Window(None, Some(PreviousDay(yearStart))));
    var current := NetIncomeBetween(db, book, Window(Some(yearStart), Some(asOf)));
    var totalEquity := equity.total + retained + current;
    BalanceSheet(assets, liabilities, equity, retained, current, totalEquity,
                 assets.total - liabilities.total - totalEquity)
  }

  /** The postability filter drops nothing: every account carrying a line is postable. */
  lemma SectionTotal(db: Db, book: nat, w: Window, kinds: set<AccountType>, flip: bool, includeEmpty: bool)
    requires LinesOk(db)
    ensures var sum := LineSum(db, book, w, KindLine(db, kinds));
            SectionOf(db, book, w, kinds, flip, includeEmpty).total == if flip then -sum else sum
  {
    hide LineSum, EntryWeight, Rows, Counts;
    RowsTotal(db, book, w, OfKinds(db, book, kinds), includeEmpty, Signed(), |db.accounts|);
    CountedLinesFit(db, book, w);
    LineSumSame(db, book, w, Picked(OfKinds(db, book, kinds), Signed(), |db.accounts|), KindLine(db, kinds));
  }

  /** The income statement's bottom line is the net-income query's answer for the same window. */
  lemma NetIncomeAgrees(required: set<(nat, nat)>, ops: seq<Op>, book: nat, from: Date, to: Date, includeEmpty: bool)
    ensures var db := Run(Empty(required), ops);
            IncomeStatementOf(db, book, from, to, includeEmpty).netIncome
            == NetIncomeBetween(db, book, Window(Some(from), Some(to)))
  {
    hide LineSum, SectionOf, Run, BooksOk, AccountsOk, PeriodsOk, NumbersOk, KeysOk, ReversalsOk, StampsOk, LinesOk;
    EmptyOk(required);
    RunKeeps(Empty(required), ops);
    var db, w := Run(Empty(required), ops), Window(Some(from), Some(to));
    SectionTotal(db, book, w, {Revenue}, true, includeEmpty);
    SectionTotal(db, book, w, {Expense}, false, includeEmpty);
    LineSumAdd(db, book, w, KindLine(db, {Revenue}), KindLine(db, {Expense}), KindLine(db, PROFIT_AND_LOSS));
  }

  /** Retained and current earnings partition every date up to `asOf`. */
  lemma EarningsPartition(db: Db, book: nat, asOf: Day)
    requires book < |db.books| && ValidAnchor(db.books[book].anchor)
    ensures var anchor := db.books[book].anchor;
            var yearStart := FiscalYearStart(FiscalYearFor(asOf, anchor), anchor);
            NetIncomeBetween(db, book, Window(None, Some(PreviousDay(yearStart))))
            + NetIncomeBetween(db, book, Window(Some(yearStart), Some(asOf)))
            == NetIncomeBetween(db, book, Window(None, Some(asOf)))
  {
    var anchor := db.books[book].anchor;
    var yearStart := FiscalYearStart(FiscalYearFor(asOf, anchor), anchor);
    StartValid(FiscalYearFor(asOf, anchor), anchor);
    FiscalYearCharacterised(asOf, FiscalYearFor(asOf, anchor), anchor);
    var line := KindLine(db, PROFIT_AND_LOSS);
    var before, within := Window(None, Some(PreviousDay(yearStart))), Window(Some(yearStart), Some(asOf));
    var whole := Window(None, Some(asOf));
    forall i | 0 <= i < |db.entries|
      ensures EntryWeight(book, whole, line)(db.entries[i])
              == EntryWeight(book, before, line)(db.entries[i]) + EntryWeight(book, within, line)(db.entries[i])
    {
      hide FiscalYearStart, FiscalYearFor, PreviousDay;
      PreviousDayIsPredecessor(db.entries[i].date, yearStart);
    }
    TotalAdd(db.entries, EntryWeight(book, before, line), EntryWeight(book, within, line),
             EntryWeight(book, whole, line));
  }

  /**
   * The balance sheet identity: assets equal liabilities plus equity on every date of every
   * reachable ledger, with or without empty accounts.
   */
  lemma BalanceSheetBalances(required: set<(nat, nat)>, ops: seq<Op>, book: nat, asOf: Day, includeEmpty: bool)
    requires book < |Run(Empty(required), ops).books|
    ensures BalanceSheetOf(Run(Empty(required), ops), book, asOf, includeEmpty).difference == 0
  {
    hide LineSum, SectionOf, Run, AccountsOk, PeriodsOk, NumbersOk, KeysOk, ReversalsOk, StampsOk, LinesOk,
         FiscalYearFor, FiscalYearStart, PreviousDay, ValidAnchor;
    EmptyOk(required);
    RunKeeps(Empty(required), ops);
    var db, w := Run(Empty(required), ops), Window(None, Some(asOf));
    SectionTotal(db, book, w, {Asset}, false, includeEmpty);
    SectionTotal(db, book, w, {Liability}, true, includeEmpty);
    SectionTotal(db, book, w, {Equity}, true, includeEmpty);
    EarningsPartition(db, book, asOf);
    KindsPartition(db, book, w);
    BookSumsToZero(db, book, w);
  }

  lemma KindsPartition(db: Db, book: nat, w: Window)
    requires LinesOk(db)
    ensures LineSum(db, book, w, KindLine(db, {Asset})) + LineSum(db, book, w, KindLine(db, {Liability}))
            + LineSum(db, book, w, KindLine(db, {Equity})) + LineSum(db, book, w, KindLine(db, PROFIT_AND_LOSS))
            == LineSum(db, book, w, AnyLine())
  {
    hide LineSum, Counts;
    var al, ale, all := {Asset, Liability}, {Asset, Liability, Equity}, {Asset, Liability, Equity, Revenue, Expense};
    LineSumAdd(db, book, w, KindLine(db, {Asset}), KindLine(db, {Liability}), KindLine(db, al));
    LineSumAdd(db, book, w, KindLine(db, al), KindLine(db, {Equity}), KindLine(db, ale));
    LineSumAdd(db, book, w, KindLine(db, ale), KindLine(db, PROFIT_AND_LOSS), KindLine(db, all));
    CountedLinesFit(db, book, w);
    forall k: AccountType ensures k in all {
      match k case Asset => case Liability => case Equity => case Revenue => case Expense =>
    }
    LineSumSame(db, book, w, KindLine(db, all), AnyLine());
  }
}
