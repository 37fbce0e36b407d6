/**
 * Theorems about whole runs of ledger transactions: immutability of posted entries, the reversal
 * pairing, idempotent retries, gapless numbers, the period lookup, and frozen periods.
 */
module LedgerHistory {
  import opened Prelude
  import opened Sums
  import opened Calendar
  import opened Facts
  import opened Ledger
  import opened LedgerInvariants

  // ----- Posted entries never change -----

  /** `f` is `e` later on: identical, except that a posted entry may have been marked reversed. */
  predicate SameEntryLater(e: Entry, f: Entry) {
    && f.book == e.book && f.date == e.date && f.header == e.header
    && f.reverses == e.reverses && f.lines == e.lines
    && (InBooks(e) ==> f == e || f == e.(status := Reversed))
    && (e.status == Void ==> f == e)
  }

  ghost predicate Later(db: Db, after: Db) {
    && |db.entries| <= |after.entries|
    && (forall i :: 0 <= i < |db.entries| ==> SameEntryLater(db.entries[i], after.entries[i]))
  }

  lemma StepIsLater(db: Db, op: Op)
    requires Inv(db)
    ensures Later(db, Apply(db, op))
  {
    hide Inv, Decide, Allowed, Commit, Enters;
    if Decide(db, op).Ok? {
      var c := Decide(db, op).value.change;
      DecisionAllowed(db, op);
      forall i | 0 <= i < |db.entries|
        ensures i < |Commit(db, c).entries| && SameEntryLater(db.entries[i], Commit(db, c).entries[i])
      {
        RowStays(db, c, i);
      }
      if |db.entries| > 0 {
        RowStays(db, c, |db.entries| - 1);
      }
    }
  }

  /** Headers and lines are immutable; the one permitted change is posted -> reversed. */
  lemma {:induction false} RunIsLater(db: Db, ops: seq<Op>)
    requires Inv(db)
    ensures Later(db, Run(db, ops))
  {
    hide Inv, Apply;
    if ops != [] {
      var init := Run(db, ops[..|ops| - 1]);
      RunIsLater(db, ops[..|ops| - 1]);
      RunKeeps(db, ops[..|ops| - 1]);
      StepIsLater(init, ops[|ops| - 1]);
      forall i | 0 <= i < |db.entries|
        ensures SameEntryLater(db.entries[i], Run(db, ops).entries[i])
      {
        LaterTransitive(db.entries[i], init.entries[i], Run(db, ops).entries[i]);
      }
    }
  }

  lemma LaterTransitive(e: Entry, f: Entry, g: Entry)
    requires SameEntryLater(e, f) && SameEntryLater(f, g)
    ensures SameEntryLater(e, g)
  {
  }

  // ----- Reversals -----

  /** The line weight of one (account, entity, dimensions) cell. */
  function Cell(account: nat, entity: Option<nat>, dimensions: map<nat, nat>): Line -> int {
    (l: Line) => if l.account == account && l.entity == entity && l.dimensions == dimensions
                 then l.functionalAmount else 0
  }

  /**
   * In every run from the empty ledger: an entry is reversed exactly when one entry names it, that
   * entry is unique and itself never reversed, and the pair nets to zero in every cell.
   */
  lemma ReversalStructure(required: set<(nat, nat)>, ops: seq<Op>, i: nat)
    requires i < |Run(Empty(required), ops).entries|
    ensures var es := Run(Empty(required), ops).entries;
            && (es[i].status == Reversed <==> IsReversed(es, i))
            && (forall j, k | 0 <= j < |es| && 0 <= k < |es| ::
                  es[j].reverses == Some(i) && es[k].reverses == Some(i) ==> j == k)
            && (es[i].reverses.Some? ==> !IsReversed(es, i))
            && (forall j | 0 <= j < |es| :: es[j].reverses == Some(i) ==> Nets(es[i], es[j]))
  {
    hide BooksOk, AccountsOk, PeriodsOk, LinesOk, StampsOk, NumbersOk, KeysOk, Run;
    EmptyOk(required);
    RunKeeps(Empty(required), ops);
    var es := Run(Empty(required), ops).entries;
    forall j | 0 <= j < |es| && es[j].reverses == Some(i) ensures Nets(es[i], es[j]) {
      assert IsReversal(es, j);
      UndoesNets(es[i], es[j]);
    }
    assert es[i].reverses.Some? ==> IsReversal(es, i) && es[i].status == Posted;
    if IsReversed(es, i) {
      var j :| 0 <= j < |es| && es[j].reverses == Some(i);
      assert IsReversal(es, j);
    }
  }

  ghost predicate Nets(o: Entry, r: Entry) {
    forall a, e, d :: Total(o.lines, Cell(a, e, d)) + Total(r.lines, Cell(a, e, d)) == 0
  }

  lemma UndoesNets(o: Entry, r: Entry)
    requires Undoes(r, o)
    ensures Nets(o, r)
  {
    forall a, e, d ensures Total(o.lines, Cell(a, e, d)) + Total(r.lines, Cell(a, e, d)) == 0 {
      NegatedTotal(o.lines, Cell(a, e, d));
    }
  }

  /** Reversing again, at any later time and with any arguments, returns the first reversal. */
  lemma ReversalIdempotent(db: Db, i: nat, date: Option<Day>, allow: bool, between: seq<Op>,
                           date2: Option<Day>, allow2: bool)
    requires Inv(db) && DecideReverse(db, i, date, allow).Ok?
    ensures var first := DecideReverse(db, i, date, allow).value;
            DecideReverse(Run(Apply(db, ReverseEntry(i, date, allow)), between), i, date2, allow2)
            == Ok(Outcome(Nothing, first.id, true))
  {
    hide BooksOk, AccountsOk, PeriodsOk, LinesOk, StampsOk, NumbersOk, KeysOk, Run, Allowed, Undoes, Commit;
    var op := ReverseEntry(i, date, allow);
    var mid := Apply(db, op);
    StepKeeps(db, op);
    RunKeeps(mid, between);
    RunIsLater(mid, between);
    var after := Run(mid, between);
    FirstReversal(db, i, date, allow);
    var first := DecideReverse(db, i, date, allow).value.id;
    assert SameEntryLater(mid.entries[first], after.entries[first]);
    assert SameEntryLater(mid.entries[i], after.entries[i]);
    assert after.entries[first].reverses == Some(i);
    FoundReversal(after, first, i);
  }

  lemma FirstReversal(db: Db, i: nat, date: Option<Day>, allow: bool)
    requires Inv(db) && DecideReverse(db, i, date, allow).Ok?
    ensures var first := DecideReverse(db, i, date, allow).value.id;
            var es := Apply(db, ReverseEntry(i, date, allow)).entries;
            && first < |es| && i < |es| && es[first].reverses == Some(i)
            && InBooks(es[i]) && es[i].reverses.None?
  {
    hide BooksOk, AccountsOk, PeriodsOk, LinesOk, StampsOk, NumbersOk, KeysOk, ReversalsOk,
         TakeStamp, LoadBook, CheckHeader, Enters, Undoes, HeaderFresh, IsReversed, Negated, IsReversal;
    var op := ReverseEntry(i, date, allow);
    DecisionAllowed(db, op);
    var c := Decide(db, op).value.change;
    RowStays(db, c, i);
    if c.AddReversal? {
      NewReversal(db, c);
    }
  }

  /** The lookup returns the one entry that names `i`. */
  lemma FoundReversal(db: Db, j: nat, i: nat)
    requires ReversalsOk(db) && j < |db.entries| && db.entries[j].reverses == Some(i)
    ensures FindReversal(db.entries, i) == Some(j)
  {
    hide IsReversal, IsReversed;
    var k := FindReversal(db.entries, i).value;
    assert db.entries[k].reverses == db.entries[j].reverses;
  }

  /** A retry under the same posting key, at any later time, returns the first entry. */
  lemma PostingIdempotent(db: Db, input: EntryInput, allow: bool, between: seq<Op>,
                          retry: EntryInput, allow2: bool)
    requires Inv(db) && DecidePost(db, input, allow).Ok? && input.header.key.Some?
    requires retry.header.key == input.header.key && retry.lines != []
    ensures var first := DecidePost(db, input, allow).value;
            DecidePost(Run(Apply(db, PostEntry(input, allow)), between), retry, allow2)
            == Ok(Outcome(Nothing, first.id, true))
  {
    hide BooksOk, AccountsOk, PeriodsOk, LinesOk, StampsOk, NumbersOk, ReversalsOk, Run, Commit,
         LoadBook, TakeStamp, ResolveLines, CheckHeader;
    var op := PostEntry(input, allow);
    var mid := Apply(db, op);
    StepKeeps(db, op);
    RunKeeps(mid, between);
    RunIsLater(mid, between);
    var after := Run(mid, between);
    FirstPosting(db, input, allow);
    var first := DecidePost(db, input, allow).value.id;
    assert SameEntryLater(mid.entries[first], after.entries[first]);
    FoundKey(after, first, input.header.key.value);
  }

  lemma FirstPosting(db: Db, input: EntryInput, allow: bool)
    requires DecidePost(db, input, allow).Ok? && input.header.key.Some?
    ensures var first := DecidePost(db, input, allow).value.id;
            var es := Apply(db, PostEntry(input, allow)).entries;
            first < |es| && es[first].header.key == input.header.key
  {
    hide Balanced, CarriesRequired, TakeStamp, CheckHeader, ResolveLine;
  }

  lemma FoundKey(db: Db, j: nat, key: PostingKey)
    requires KeysOk(db) && j < |db.entries| && db.entries[j].header.key == Some(key)
    ensures FindKey(db.entries, key) == Some(j)
  {
    var k := FindKey(db.entries, key).value;
    assert db.entries[k].header.key == db.entries[j].header.key;
  }

  /** Each book's posted and reversed numbers are exactly 1..next-1, with no gap and no repeat. */
  lemma Gapless(required: set<(nat, nat)>, ops: seq<Op>, b: nat, n: nat)
    requires b < |Run(Empty(required), ops).books|
    ensures var db := Run(Empty(required), ops);
            && (NumberTaken(db.entries, b, n) <==> 1 <= n < db.books[b].nextNumber)
            && (forall i, j | 0 <= i < |db.entries| && 0 <= j < |db.entries| ::
                  HasNumber(db.entries[i], b, n) && HasNumber(db.entries[j], b, n) ==> i == j)
  {
    hide AccountsOk, PeriodsOk, LinesOk, StampsOk, ReversalsOk, KeysOk, Run, BooksOk;
    EmptyOk(required);
    RunKeeps(Empty(required), ops);
    var db := Run(Empty(required), ops);
    if NumberTaken(db.entries, b, n) {
      var i :| 0 <= i < |db.entries| && HasNumber(db.entries[i], b, n);
    }
  }

  // ----- The period lookup -----

  /** At most one period of a book contains a date, and it belongs to the date's fiscal year. */
  lemma PeriodIsLookup(db: Db, p: nat, q: nat, book: nat, date: Day)
    requires BooksOk(db) && PeriodsOk(db) && p < |db.periods| && q < |db.periods|
    requires Contains(db.periods[p], book, date) && Contains(db.periods[q], book, date)
    ensures p == q
    ensures book < |db.books| && db.periods[p].fiscalYear == FiscalYearFor(date, db.books[book].anchor)
  {
    hide PeriodStart, PeriodEnd, Valid;
    var x, y := db.periods[p], db.periods[q];
    assert IsGenerated(db, x) && IsGenerated(db, y);
    var a := db.books[book].anchor;
    assert Covers(x.fiscalYear, x.sequence - 1, a, date) && Covers(y.fiscalYear, y.sequence - 1, a, date);
    PeriodsDisjoint(x.fiscalYear, x.sequence - 1, y.fiscalYear, y.sequence - 1, a, date);
    CoveringYear(x.fiscalYear, x.sequence - 1, a, date);
    assert SameSlot(x, y) && SameSlot(y, x);
  }

  lemma GeneratedOverlapIsSameSlot(x: Period, y: Period, a: Anchor)
    requires ValidAnchor(a) && 1 <= x.sequence <= 12 && 1 <= y.sequence <= 12
    requires x.startsOn == PeriodStart(x.fiscalYear, x.sequence - 1, a)
             && x.endsOn == PeriodEnd(x.fiscalYear, x.sequence - 1, a)
    requires y.startsOn == PeriodStart(y.fiscalYear, y.sequence - 1, a)
             && y.endsOn == PeriodEnd(y.fiscalYear, y.sequence - 1, a)
    requires Overlaps(x, y)
    ensures SameSlot(x, y)
  {
    hide PeriodStart, PeriodEnd, Valid;
    var shared := if Le(x.startsOn, y.startsOn) then y.startsOn else x.startsOn;
    GeneratedValid(x.fiscalYear, x.sequence - 1, a);
    GeneratedValid(y.fiscalYear, y.sequence - 1, a);
    PeriodsDisjoint(x.fiscalYear, x.sequence - 1, y.fiscalYear, y.sequence - 1, a, shared);
  }

  lemma GeneratedValid(fiscalYear: int, i: nat, a: Anchor)
    requires ValidAnchor(a)
    ensures Valid(PeriodStart(fiscalYear, i, a))
    ensures Le(PeriodStart(fiscalYear, i, a), PeriodEnd(fiscalYear, i, a))
  {
    PeriodStartsIncrease(fiscalYear, i, i + 1, a);
    PreviousDayIsPredecessor(PeriodStart(fiscalYear, i, a), PeriodStart(fiscalYear, i + 1, a));
  }

  /**
   * Generation never raises the overlap conflict in a reachable ledger, and running it again for
   * the same year adds nothing.
   */
  lemma {:induction false} GenerationNeverConflicts(db: Db, book: nat, fiscalYear: int, count: nat)
    requires BooksOk(db) && PeriodsOk(db) && book < |db.books| && count <= 12
    ensures NewPeriods(db.periods, book, fiscalYear, count, db.books[book].anchor).Ok?
  {
    hide PeriodStart, PeriodEnd, Overlaps, SameSlot, PeriodsOk, Allowed, IsGenerated;
    if count > 0 {
      var a := db.books[book].anchor;
      GenerationNeverConflicts(db, book, fiscalYear, count - 1);
      var init := NewPeriods(db.periods, book, fiscalYear, count - 1, a).value;
      var p := Generated(book, fiscalYear, count - 1, a);
      AddedAreGenerated(db, book, fiscalYear, count);
      OverlapIsSameSlot(db, init, p);
    }
  }

  lemma AddedAreGenerated(db: Db, book: nat, fiscalYear: int, count: nat)
    requires book < |db.books| && 0 < count <= 12
    requires NewPeriods(db.periods, book, fiscalYear, count - 1, db.books[book].anchor).Ok?
    ensures IsGenerated(db, Generated(book, fiscalYear, count - 1, db.books[book].anchor))
    ensures var init := NewPeriods(db.periods, book, fiscalYear, count - 1, db.books[book].anchor).value;
            forall k :: 0 <= k < |init| ==> IsGenerated(db, init[k])
  {
    hide NewPeriods, PeriodStart, PeriodEnd;
    NewPeriodsGenerated(db, book, fiscalYear, count - 1);
  }

  lemma OverlapIsSameSlot(db: Db, init: seq<Period>, p: Period)
    requires BooksOk(db) && PeriodsOk(db) && IsGenerated(db, p)
    requires forall k :: 0 <= k < |init| ==> IsGenerated(db, init[k])
    ensures forall q :: q in db.periods + init && Overlaps(p, q) ==> SameSlot(p, q)
  {
    hide PeriodStart, PeriodEnd, SameSlot;
    forall q | q in db.periods + init && Overlaps(p, q) ensures SameSlot(p, q) {
      assert q in db.periods || q in init;
      assert IsGenerated(db, q);
      GeneratedOverlapIsSameSlot(p, q, db.books[p.book].anchor);
    }
  }

  lemma {:induction false} GenerationIdempotent(periods: seq<Period>, book: nat, fiscalYear: int, count: nat, a: Anchor, k: nat)
    requires k <= count && NewPeriods(periods, book, fiscalYear, count, a).Ok?
    ensures NewPeriods(periods + NewPeriods(periods, book, fiscalYear, count, a).value, book, fiscalYear, k, a) == Ok([])
  {
    if k > 0 {
      GenerationIdempotent(periods, book, fiscalYear, count, a, k - 1);
      var all := periods + NewPeriods(periods, book, fiscalYear, count, a).value;
      SlotFilled(periods, book, fiscalYear, count, a, k);
      var q :| q in all && SameSlot(Generated(book, fiscalYear, k - 1, a), q);
      assert q in all + [];
    }
  }

  lemma {:induction false} SlotFilled(periods: seq<Period>, book: nat, fiscalYear: int, count: nat, a: Anchor, k: nat)
    requires 1 <= k <= count && NewPeriods(periods, book, fiscalYear, count, a).Ok?
    ensures exists q :: q in periods + NewPeriods(periods, book, fiscalYear, count, a).value
                        && SameSlot(Generated(book, fiscalYear, k - 1, a), q)
  {
    hide PeriodStart, PeriodEnd;
    var added := NewPeriods(periods, book, fiscalYear, count, a).value;
    var init := NewPeriods(periods, book, fiscalYear, count - 1, a).value;
    var p := Generated(book, fiscalYear, count - 1, a);
    if k < count {
      SlotFilled(periods, book, fiscalYear, count - 1, a, k);
      var q :| q in periods + init && SameSlot(Generated(book, fiscalYear, k - 1, a), q);
      assert q in periods + added;
    } else if added == init + [p] {
      assert p in periods + added;
    }
  }

  /** The new book's periods after the first generation. */
  function FirstYear(db: Db, currency: string, anchor: Anchor, openedOn: Day): Db {
    Apply(Apply(db, CreateBook(currency, anchor)), GenerateFiscalYear(|db.books|, FiscalYearFor(openedOn, anchor), 12))
  }

  predicate IsSlot(p: Period, book: nat, fiscalYear: int, i: nat) {
    p.book == book && p.fiscalYear == fiscalYear && p.sequence == i + 1
  }

  predicate HasSlot(periods: seq<Period>, book: nat, fiscalYear: int, i: nat) {
    exists p :: 0 <= p < |periods| && IsSlot(periods[p], book, fiscalYear, i)
  }

  /** A book opened with its first fiscal year has a period for its opening day, unless that is the gap day. */
  lemma OpeningDayIsCovered(db: Db, currency: string, anchor: Anchor, openedOn: Day)
    requires Inv(db) && DecideBook(db, currency, anchor).Ok? && 1900 <= FiscalYearFor(openedOn, anchor) <= 9999
    ensures FindPeriod(FirstYear(db, currency, anchor, openedOn).periods, |db.books|, openedOn).Some? <==> !IsGapDay(openedOn, anchor)
  {
    hide Decide, Commit, DecideBook, IsGapDay, FiscalYearFor, HasSlot, BooksOk, PeriodsOk, AccountsOk, LinesOk, StampsOk, NumbersOk,
         KeysOk, ReversalsOk, Apply;
    StepKeeps(db, CreateBook(currency, anchor));
    StepKeeps(Apply(db, CreateBook(currency, anchor)), GenerateFiscalYear(|db.books|, FiscalYearFor(openedOn, anchor), 12));
    YearIsThere(db, currency, anchor, openedOn);
    CoveredWhenGenerated(FirstYear(db, currency, anchor, openedOn), |db.books|, openedOn);
  }

  lemma CoveredWhenGenerated(db: Db, book: nat, d: Day)
    requires BooksOk(db) && PeriodsOk(db) && book < |db.books|
    requires forall i: nat :: i < 12 ==> HasSlot(db.periods, book, FiscalYearFor(d, db.books[book].anchor), i)
    ensures FindPeriod(db.periods, book, d).Some? <==> !IsGapDay(d, db.books[book].anchor)
  {
    hide PeriodsOk, IsGapDay, FiscalYearFor, Covers;
    var a := db.books[book].anchor;
    CoveredUnlessGap(d, a);
    if FindPeriod(db.periods, book, d).Some? {
      FoundCovers(db, book, d);
    } else {
      forall i: nat | i < 12 ensures !Covers(FiscalYearFor(d, a), i, a, d) {
        assert HasSlot(db.periods, book, FiscalYearFor(d, a), i);
        var p :| 0 <= p < |db.periods| && IsSlot(db.periods[p], book, FiscalYearFor(d, a), i);
        SlotCovers(db, p, d);
      }
    }
  }

  /** Every slot of the year is filled, and the book has the anchor it was created with. */
  lemma YearIsThere(db: Db, currency: string, anchor: Anchor, openedOn: Day)
    requires Inv(db) && DecideBook(db, currency, anchor).Ok? && 1900 <= FiscalYearFor(openedOn, anchor) <= 9999
    ensures var after, y := FirstYear(db, currency, anchor, openedOn), FiscalYearFor(openedOn, anchor);
            && |db.books| < |after.books| && after.books[|db.books|].anchor == anchor
            && forall i: nat :: i < 12 ==> HasSlot(after.periods, |db.books|, y, i)
  {
    hide AccountsOk, LinesOk, StampsOk, NumbersOk, KeysOk, ReversalsOk, FiscalYearFor, PeriodStart, PeriodEnd, NewPeriods, BooksOk, PeriodsOk;
    var created, y := Apply(db, CreateBook(currency, anchor)), FiscalYearFor(openedOn, anchor);
    StepKeeps(db, CreateBook(currency, anchor));
    GenerationNeverConflicts(created, |db.books|, y, 12);
    var after := FirstYear(db, currency, anchor, openedOn);
    forall i: nat | i < 12 ensures HasSlot(after.periods, |db.books|, y, i) {
      SlotFilled(created.periods, |db.books|, y, 12, anchor, i + 1);
      var q :| q in after.periods && SameSlot(Generated(|db.books|, y, i, anchor), q);
      var p :| 0 <= p < |after.periods| && after.periods[p] == q;
      assert IsSlot(after.periods[p], |db.books|, y, i);
    }
  }

  lemma FoundCovers(db: Db, book: nat, d: Day)
    requires PeriodsOk(db) && BooksOk(db) && book < |db.books| && FindPeriod(db.periods, book, d).Some?
    ensures exists i: nat :: i < 12 && Covers(FiscalYearFor(d, db.books[book].anchor), i, db.books[book].anchor, d)
  {
    hide PeriodStart, PeriodEnd, FiscalYearFor;
    var p := FindPeriod(db.periods, book, d).value;
    var i: nat := db.periods[p].sequence - 1;
    assert IsGenerated(db, db.periods[p]);
    CoveringYear(db.periods[p].fiscalYear, i, db.books[book].anchor, d);
  }

  lemma SlotCovers(db: Db, p: nat, d: Day)
    requires PeriodsOk(db) && p < |db.periods| && db.periods[p].book < |db.books| && 1 <= db.periods[p].sequence
    ensures Covers(db.periods[p].fiscalYear, db.periods[p].sequence - 1, db.books[db.periods[p].book].anchor, d)
            <==> Contains(db.periods[p], db.periods[p].book, d)
  {
    hide PeriodStart, PeriodEnd;
    assert IsGenerated(db, db.periods[p]);
  }

  // ----- Frozen periods -----

  function AccountLine(account: nat): Line -> int {
    (l: Line) => if l.account == account then l.functionalAmount else 0
  }

  /** An entry's contribution to an account's in-the-books total over a period's dates. */
  function PeriodWeight(p: Period, account: nat): Entry -> int {
    (e: Entry) => if InBooks(e) && Contains(p, e.book, e.date) then Total(e.lines, AccountLine(account)) else 0
  }

  function PeriodTotal(db: Db, p: Period, account: nat): int {
    Total(db.entries, PeriodWeight(p, account))
  }

  /** `period` has `status` before every transaction of the run. */
  predicate StatusHeld(db: Db, ops: seq<Op>, period: nat, status: PeriodStatus) {
    && period < |Run(db, ops).periods| && Run(db, ops).periods[period].status == status
    && (ops == [] || StatusHeld(db, ops[..|ops| - 1], period, status))
  }

  /** A locked period stays locked whatever is called. */
  lemma {:induction false} LockedForever(db: Db, ops: seq<Op>, period: nat)
    requires Inv(db) && period < |db.periods| && db.periods[period].status == Locked
    ensures StatusHeld(db, ops, period, Locked)
  {
    hide Inv, Decide;
    if ops != [] {
      var init := Run(db, ops[..|ops| - 1]);
      LockedForever(db, ops[..|ops| - 1], period);
      RunKeeps(db, ops[..|ops| - 1]);
      if Decide(init, ops[|ops| - 1]).Ok? {
        DecisionAllowed(init, ops[|ops| - 1]);
        PeriodRowStays(init, Decide(init, ops[|ops| - 1]).value.change, period);
      }
    }
  }

  /** A period's book and dates never change; its status changes only through `setStatus`. */
  lemma PeriodRowStays(db: Db, c: Change, p: nat)
    requires Allowed(db, c) && p < |db.periods|
    ensures p < |Commit(db, c).periods|
    ensures Commit(db, c).periods[p] == db.periods[p]
            || (c.SetStatus? && c.period == p && db.periods[p].status != Locked
                && Commit(db, c).periods[p] == db.periods[p].(status := c.status))
  {
    hide Balanced, LinesFit, HeaderFresh, Undoes, IsGenerated, SameSlot, SameHandle, AccountUsed, IsReversed, Enters;
  }

  lemma {:induction false} RunPeriodRowStays(db: Db, ops: seq<Op>, p: nat)
    requires Inv(db) && p < |db.periods|
    ensures p < |Run(db, ops).periods|
    ensures Run(db, ops).periods[p].(status := db.periods[p].status) == db.periods[p]
  {
    hide Inv, Decide, Commit, Allowed;
    if ops != [] {
      var init := Run(db, ops[..|ops| - 1]);
      RunPeriodRowStays(db, ops[..|ops| - 1], p);
      RunKeeps(db, ops[..|ops| - 1]);
      if Decide(init, ops[|ops| - 1]).Ok? {
        DecisionAllowed(init, ops[|ops| - 1]);
        PeriodRowStays(init, Decide(init, ops[|ops| - 1]).value.change, p);
      }
    }
  }

  predicate NewlyInBooks(before: seq<Entry>, after: seq<Entry>, i: nat)
    requires i < |after|
  {
    InBooks(after[i]) && !(i < |before| && InBooks(before[i]))
  }

  /** What one transaction may file under a period: nothing unless it is open or soft-closed, and
      only flagged entries when it is soft-closed. */
  lemma StepFiles(db: Db, op: Op, p: nat, i: nat)
    requires Inv(db) && p < |db.periods| && i < |Apply(db, op).entries|
    requires NewlyInBooks(db.entries, Apply(db, op).entries, i)
    requires Contains(db.periods[p], Apply(db, op).entries[i].book, Apply(db, op).entries[i].date)
    ensures db.periods[p].status == Open || db.periods[p].status == SoftClosed
    ensures db.periods[p].status == SoftClosed ==> Apply(db, op).entries[i].backdated
  {
    hide AccountsOk, LinesOk, StampsOk, NumbersOk, KeysOk, ReversalsOk, Decide, Contains, PeriodsOk, BooksOk;
    var e := Apply(db, op).entries[i];
    DecisionAllowed(db, op);
    NewEntryEnters(db, Decide(db, op).value.change, i);
    PeriodIsLookup(db, p, e.period.value, e.book, e.date);
  }

  lemma NewEntryEnters(db: Db, c: Change, i: nat)
    requires Allowed(db, c) && i < |Commit(db, c).entries| && NewlyInBooks(db.entries, Commit(db, c).entries, i)
    ensures Enters(db, Commit(db, c).entries[i])
  {
    hide Balanced, LinesFit, HeaderFresh, Undoes, IsGenerated, SameSlot, SameHandle, AccountUsed, IsReversed, Contains;
  }

  /** The same for a run during which the period keeps its status. */
  lemma {:induction false} RunFiles(db: Db, ops: seq<Op>, p: nat, status: PeriodStatus, i: nat)
    requires Inv(db) && p < |db.periods| && StatusHeld(db, ops, p, status) && status != Open
    requires i < |Run(db, ops).entries| && NewlyInBooks(db.entries, Run(db, ops).entries, i)
    requires Contains(db.periods[p], Run(db, ops).entries[i].book, Run(db, ops).entries[i].date)
    ensures status == SoftClosed && Run(db, ops).entries[i].backdated
  {
    hide Inv, Apply, Contains;
    assert ops != [];
    var init := Run(db, ops[..|ops| - 1]);
    var op := ops[|ops| - 1];
    RunKeeps(db, ops[..|ops| - 1]);
    RunPeriodRowStays(db, ops[..|ops| - 1], p);
    StepIsLater(init, op);
    RunIsLater(db, ops[..|ops| - 1]);
    ContainsIgnoresStatus(db.periods[p], init.periods[p], Run(db, ops).entries[i]);
    if i < |init.entries| && InBooks(init.entries[i]) {
      assert SameEntryLater(init.entries[i], Apply(init, op).entries[i]);
      RunFiles(db, ops[..|ops| - 1], p, status, i);
    } else {
      StepFiles(init, op, p, i);
    }
  }

  lemma ContainsIgnoresStatus(p: Period, q: Period, e: Entry)
    requires q.(status := p.status) == p
    ensures Contains(p, e.book, e.date) <==> Contains(q, e.book, e.date)
  {
  }

  /** While a period stays closed, or once it is locked, no account's total over its dates moves. */
  lemma Frozen(db: Db, ops: seq<Op>, p: nat, account: nat)
    requires Inv(db) && p < |db.periods|
    requires db.periods[p].status == Locked
             || (db.periods[p].status == Closed && StatusHeld(db, ops, p, Closed))
    ensures PeriodTotal(Run(db, ops), db.periods[p], account) == PeriodTotal(db, db.periods[p], account)
  {
    hide Inv, Run, Contains, StatusHeld;
    if db.periods[p].status == Locked {
      LockedForever(db, ops, p);
    }
    var after := Run(db, ops);
    RunIsLater(db, ops);
    forall i | 0 <= i < |after.entries| && NewlyInBooks(db.entries, after.entries, i)
      ensures !Contains(db.periods[p], after.entries[i].book, after.entries[i].date)
    {
      if Contains(db.periods[p], after.entries[i].book, after.entries[i].date) {
        RunFiles(db, ops, p, db.periods[p].status, i);
      }
    }
    TotalsAgree(db.entries, after.entries, PeriodWeight(db.periods[p], account));
  }

  /** Sums agree when old positions keep their weight and new ones weigh nothing. */
  lemma {:induction false} TotalsAgree(before: seq<Entry>, after: seq<Entry>, w: Entry -> int)
    requires |before| <= |after|
    requires forall i :: 0 <= i < |after| ==> w(after[i]) == if i < |before| then w(before[i]) else 0
    ensures Total(after, w) == Total(before, w)
  {
    if |after| > |before| {
      TotalsAgree(before, after[..|after| - 1], w);
    } else if after != [] {
      TotalsAgree(before[..|before| - 1], after[..|after| - 1], w);
    }
  }

  /** The contribution of entries that entered the books since `before` carrying the flag. */
  function BackdatedSince(before: seq<Entry>, after: seq<Entry>, p: Period, account: nat): int {
    if after == [] then 0
    else
      var k := |after| - 1;
      BackdatedSince(before, after[..k], p, account)
      + if NewlyInBooks(before, after, k) && after[k].backdated then PeriodWeight(p, account)(after[k]) else 0
  }

  /**
   * While a period stays soft-closed, the change in any account's total over its dates is exactly
   * the sum of the entries posted since with `is_backdated`.
   */
  lemma SoftClosedDelta(db: Db, ops: seq<Op>, p: nat, account: nat)
    requires Inv(db) && p < |db.periods| && StatusHeld(db, ops, p, SoftClosed)
    ensures PeriodTotal(Run(db, ops), db.periods[p], account) - PeriodTotal(db, db.periods[p], account)
            == BackdatedSince(db.entries, Run(db, ops).entries, db.periods[p], account)
  {
    hide Inv, Run, Contains, StatusHeld;
    var after := Run(db, ops);
    RunIsLater(db, ops);
    forall i | 0 <= i < |after.entries| && NewlyInBooks(db.entries, after.entries, i)
               && Contains(db.periods[p], after.entries[i].book, after.entries[i].date)
      ensures after.entries[i].backdated
    {
      RunFiles(db, ops, p, SoftClosed, i);
    }
    DeltaIsBackdated(db.entries, after.entries, db.periods[p], account);
  }

  lemma {:induction false} DeltaIsBackdated(before: seq<Entry>, after: seq<Entry>, p: Period, account: nat)
    requires |before| <= |after|
    requires forall i :: 0 <= i < |before| ==> SameEntryLater(before[i], after[i])
    requires forall i | 0 <= i < |after| ::
               NewlyInBooks(before, after, i) && Contains(p, after[i].book, after[i].date) ==> after[i].backdated
    ensures Total(after, PeriodWeight(p, account)) - Total(before, PeriodWeight(p, account))
            == BackdatedSince(before, after, p, account)
  {
    hide Contains;
    if after != [] {
      var k := |after| - 1;
      if |after| > |before| {
        forall i | 0 <= i < k ensures NewlyInBooks(before, after[..k], i) == NewlyInBooks(before, after, i) {
        }
        DeltaIsBackdated(before, after[..k], p, account);
      } else {
        forall i | 0 <= i < k ensures NewlyInBooks(before[..k], after[..k], i) == NewlyInBooks(before, after, i) {
        }
        DeltaIsBackdated(before[..k], after[..k], p, account);
        SinceIgnoresTail(before, after[..k], p, account);
      }
    }
  }

  lemma {:induction false} SinceIgnoresTail(before: seq<Entry>, after: seq<Entry>, p: Period, account: nat)
    requires |after| <= |before|
    ensures BackdatedSince(before, after, p, account) == BackdatedSince(before[..|after|], after, p, account)
    decreases after
  {
    if after != [] {
      var k := |after| - 1;
      SinceIgnoresTail(before, after[..k], p, account);
      SinceIgnoresTail(before[..|after|], after[..k], p, account);
      assert before[..|after|][..k] == before[..k];
    }
  }
}
