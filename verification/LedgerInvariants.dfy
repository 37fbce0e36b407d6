/**
 * What every run of ledger transactions keeps: balance, postability, gapless numbering, unique
 * keys, the reversal structure, and the generated calendar.
 */
module LedgerInvariants {
  import opened Prelude
  import opened Sums
  import opened Calendar
  import opened Ledger

  // ----- The invariant, one concern at a time -----

  ghost predicate BooksOk(db: Db) {
    forall b :: 0 <= b < |db.books| ==>
      ValidAnchor(db.books[b].anchor) && db.books[b].nextNumber >= 1
  }

  predicate SameHandle(a: Account, b: Account) {
    a.book == b.book && (a.code == b.code || (a.systemKey.Some? && a.systemKey == b.systemKey))
  }

  predicate ParentFits(accounts: seq<Account>, a: Account) {
    a.parent.Some? ==> a.parent.value < |accounts| && accounts[a.parent.value].book == a.book
  }

  /** A code or system key names at most one account of a book, and a parent is of the same book. */
  ghost predicate AccountsOk(db: Db) {
    && (forall a :: 0 <= a < |db.accounts| ==> db.accounts[a].book < |db.books|)
    && (forall a, b :: 0 <= a < b < |db.accounts| ==> !SameHandle(db.accounts[a], db.accounts[b]))
    && (forall a :: 0 <= a < |db.accounts| ==> ParentFits(db.accounts, db.accounts[a]))
  }

  ghost predicate IsGenerated(db: Db, p: Period) {
    && p.book < |db.books| && 1 <= p.sequence <= 12
    && p.startsOn == PeriodStart(p.fiscalYear, p.sequence - 1, db.books[p.book].anchor)
    && p.endsOn == PeriodEnd(p.fiscalYear, p.sequence - 1, db.books[p.book].anchor)
  }

  ghost predicate PeriodsOk(db: Db) {
    && (forall p :: 0 <= p < |db.periods| ==> IsGenerated(db, db.periods[p]))
    && (forall p, q :: 0 <= p < q < |db.periods| ==> !SameSlot(db.periods[p], db.periods[q]))
  }

  ghost predicate LineFits(db: Db, book: nat, l: Line) {
    && book < |db.books|
    && l.account < |db.accounts|
    && db.accounts[l.account].book == book
    && db.accounts[l.account].postable
    && l.amount != 0 && l.functionalAmount == l.amount
    && l.currency == l.functionalCurrency == db.books[book].currency
  }

  ghost predicate LinesFit(db: Db, e: Entry) {
    e.book < |db.books| && forall j :: 0 <= j < |e.lines| ==> LineFits(db, e.book, e.lines[j])
  }

  ghost predicate LinesOk(db: Db) {
    forall i :: 0 <= i < |db.entries| ==> LinesFit(db, db.entries[i])
  }

  /** A draft has no stamp; an entry in the books is balanced and filed in the period of its date. */
  ghost predicate StampFits(db: Db, e: Entry) {
    if InBooks(e) then
      && Balanced(e.lines)
      && e.number.Some? && e.period.Some? && e.period.value < |db.periods|
      && Contains(db.periods[e.period.value], e.book, e.date)
    else e.number.None?
  }

  ghost predicate StampsOk(db: Db) {
    forall i :: 0 <= i < |db.entries| ==> StampFits(db, db.entries[i])
  }

  ghost predicate HasNumber(e: Entry, book: nat, n: nat) {
    InBooks(e) && e.book == book && e.number == Some(n)
  }

  ghost predicate NumberTaken(entries: seq<Entry>, book: nat, n: nat) {
    exists i :: 0 <= i < |entries| && HasNumber(entries[i], book, n)
  }

  /** Gapless: each book's numbers are exactly 1 .. next - 1, each used once. */
  ghost predicate NumbersOk(db: Db) {
    && (forall i, b: nat, n: nat :: 0 <= i < |db.entries| && b < |db.books| && HasNumber(db.entries[i], b, n)
          ==> 1 <= n < db.books[b].nextNumber)
    && (forall i, j, b: nat, n: nat :: 0 <= i < j < |db.entries| && HasNumber(db.entries[i], b, n)
          ==> !HasNumber(db.entries[j], b, n))
    && (forall b, n: nat :: 0 <= b < |db.books| && 1 <= n < db.books[b].nextNumber
          ==> NumberTaken(db.entries, b, n))
  }

  ghost predicate KeysOk(db: Db) {
    && (forall i, j :: 0 <= i < j < |db.entries| && db.entries[i].header.key.Some?
          ==> db.entries[i].header.key != db.entries[j].header.key)
    && (forall i :: 0 <= i < |db.entries| ==>
          (db.entries[i].header.source == PostingRule <==> db.entries[i].header.version.Some?))
  }

  /** `r` undoes `o`: same book and provenance, opposite lines. */
  ghost predicate Undoes(r: Entry, o: Entry) {
    && r.book == o.book && r.lines == Negated(o.lines) && r.header == ReversalHeader(o.header)
  }

  ghost predicate IsReversal(entries: seq<Entry>, j: nat)
    requires j < |entries| && entries[j].reverses.Some?
  {
    var i := entries[j].reverses.value;
    && i < |entries| && entries[j].status == Posted && entries[i].status == Reversed
    && Undoes(entries[j], entries[i])
  }

  /** Reversed exactly when one entry names it; a reversal is posted and is never reversed. */
  ghost predicate ReversalsOk(db: Db) {
    && (forall j :: 0 <= j < |db.entries| && db.entries[j].reverses.Some? ==> IsReversal(db.entries, j))
    && (forall i, j :: 0 <= i < j < |db.entries| && db.entries[i].reverses.Some?
          ==> db.entries[i].reverses != db.entries[j].reverses)
    && (forall i :: 0 <= i < |db.entries| && db.entries[i].status == Reversed
          ==> IsReversed(db.entries, i))
  }

  ghost predicate IsReversed(entries: seq<Entry>, i: nat) {
    exists j :: 0 <= j < |entries| && entries[j].reverses == Some(i)
  }

  ghost predicate Inv(db: Db) {
    && BooksOk(db) && AccountsOk(db) && PeriodsOk(db)
    && LinesOk(db) && StampsOk(db) && NumbersOk(db) && KeysOk(db) && ReversalsOk(db)
  }

  // ----- What the guards establish about a change -----

  ghost predicate Enters(db: Db, e: Entry) {
    && e.status == Posted && e.book < |db.books|
    && e.number == Some(db.books[e.book].nextNumber)
    && Balanced(e.lines)
    && e.period.Some? && e.period.value < |db.periods|
    && Contains(db.periods[e.period.value], e.book, e.date)
    && (db.periods[e.period.value].status == SoftClosed || db.periods[e.period.value].status == Open)
    && (db.periods[e.period.value].status == SoftClosed ==> e.backdated)
  }

  ghost predicate HeaderFresh(db: Db, h: Header) {
    && (h.source == PostingRule <==> h.version.Some?)
    && (forall i :: 0 <= i < |db.entries| && h.key.Some? ==> db.entries[i].header.key != h.key)
  }

  ghost predicate Allowed(db: Db, c: Change) {
    match c
    case Nothing => true
    case AddBook(b) => ValidAnchor(b.anchor) && b.nextNumber == 1
    case DeactivateBook(b) => b < |db.books|
    case AddAccount(a) =>
      && a.book < |db.books| && ParentFits(db.accounts, a)
      && (forall i :: 0 <= i < |db.accounts| ==> !SameHandle(db.accounts[i], a))
    case SetAccount(i, a) =>
      && i < |db.accounts|
      && a.book == db.accounts[i].book && a.kind == db.accounts[i].kind
      && a.systemKey == db.accounts[i].systemKey && a.code == db.accounts[i].code && a.parent == db.accounts[i].parent
      && (a.postable || a.postable == db.accounts[i].postable || !AccountUsed(db.entries, i))
    case AddPeriods(ps) =>
      && (forall p :: 0 <= p < |ps| ==> IsGenerated(db, ps[p]))
      && (forall p, q :: 0 <= p < q < |db.periods + ps| && q >= |db.periods| ==>
            !SameSlot((db.periods + ps)[p], (db.periods + ps)[q]))
    case SetStatus(p, s) => p < |db.periods| && db.periods[p].status != Locked
    case AddDraft(e) =>
      e.status == Draft && e.number.None? && e.reverses.None? && LinesFit(db, e) && HeaderFresh(db, e.header)
    case DropDraft(i) => i < |db.entries| && db.entries[i].status == Draft
    case AddPosted(e) => Enters(db, e) && LinesFit(db, e) && HeaderFresh(db, e.header) && e.reverses.None?
    case PromoteDraft(i, e) =>
      && i < |db.entries| && db.entries[i].status == Draft && Enters(db, e)
      && e.(status := Draft, number := db.entries[i].number, period := db.entries[i].period,
            backdated := db.entries[i].backdated) == db.entries[i]
    case AddReversal(i, e) =>
      && i < |db.entries| && db.entries[i].status == Posted && db.entries[i].reverses.None?
      && !IsReversed(db.entries, i)
      && Enters(db, e) && HeaderFresh(db, e.header)
      && e.reverses == Some(i) && Undoes(e, db.entries[i])
  }

  // ----- Every decision is allowed -----

  lemma {:induction false} ResolvedLinesFit(db: Db, book: nat, lines: seq<LineInput>)
    requires book < |db.books| && ResolveLines(db, book, lines).Ok?
    ensures forall j :: 0 <= j < |lines| ==> LineFits(db, book, ResolveLines(db, book, lines).value[j])
  {
    if lines != [] {
      ResolvedLinesFit(db, book, lines[..|lines| - 1]);
    }
  }

  /** Negation keeps balance: an entry's mirror balances because the entry does. */
  lemma NegatedBalanced(lines: seq<Line>)
    requires Balanced(lines)
    ensures Balanced(Negated(lines))
  {
    var n := Negated(lines);
    forall i | 0 <= i < |n|
      ensures Total(n, InCurrency(n[i].currency)) == 0
      ensures Total(n, InFunctional(n[i].functionalCurrency)) == 0
    {
      assert n[i].currency == lines[i].currency && n[i].functionalCurrency == lines[i].functionalCurrency;
      NegatedTotal(lines, InCurrency(lines[i].currency));
      NegatedTotal(lines, InFunctional(lines[i].functionalCurrency));
    }
  }

  /** Any line weight that flips with the amounts totals to the opposite over the mirror. */
  lemma {:induction false} NegatedTotal(lines: seq<Line>, w: Line -> int)
    requires forall i :: 0 <= i < |lines| ==> w(NegatedLine(lines[i])) == -w(lines[i])
    ensures Total(Negated(lines), w) == -Total(lines, w)
  {
    if lines != [] {
      var k := |lines| - 1;
      assert Negated(lines)[..k] == Negated(lines[..k]);
      NegatedTotal(lines[..k], w);
    }
  }

  lemma NewPeriodsGenerated(db: Db, book: nat, fiscalYear: int, count: nat)
    requires book < |db.books| && count <= 12
    requires NewPeriods(db.periods, book, fiscalYear, count, db.books[book].anchor).Ok?
    ensures Allowed(db, AddPeriods(NewPeriods(db.periods, book, fiscalYear, count, db.books[book].anchor).value))
  {
    hide PeriodStart, PeriodEnd, Overlaps, SameSlot;
    if count > 0 {
      NewPeriodsGenerated(db, book, fiscalYear, count - 1);
      var a := db.books[book].anchor;
      var init := NewPeriods(db.periods, book, fiscalYear, count - 1, a).value;
      var p := Generated(book, fiscalYear, count - 1, a);
      if NewPeriods(db.periods, book, fiscalYear, count, a).value != init {
        OneMorePeriod(db, init, p);
      }
    }
  }

  lemma OneMorePeriod(db: Db, init: seq<Period>, p: Period)
    requires Allowed(db, AddPeriods(init)) && IsGenerated(db, p)
    requires forall q :: q in db.periods + init ==> !SameSlot(p, q)
    ensures Allowed(db, AddPeriods(init + [p]))
  {
    hide IsGenerated;
    var before, all := db.periods + init, db.periods + (init + [p]);
    assert all == before + [p];
    forall i, j | 0 <= i < j < |all| && j >= |db.periods| ensures !SameSlot(all[i], all[j]) {
      if j == |before| {
        assert all[i] in before;
      } else {
        assert all[i] == before[i] && all[j] == before[j];
      }
    }
  }

  lemma PostAllowed(db: Db, input: EntryInput, allowBackdated: bool)
    requires DecidePost(db, input, allowBackdated).Ok?
    ensures Allowed(db, DecidePost(db, input, allowBackdated).value.change)
  {
    if DecidePost(db, input, allowBackdated).value.change.AddPosted? {
      ResolvedLinesFit(db, input.book.value, input.lines);
    }
  }

  lemma ReverseAllowed(db: Db, id: nat, date: Option<Day>, allowBackdated: bool)
    requires StampsOk(db) && DecideReverse(db, id, date, allowBackdated).Ok?
    ensures Allowed(db, DecideReverse(db, id, date, allowBackdated).value.change)
  {
    if DecideReverse(db, id, date, allowBackdated).value.change.AddReversal? {
      NegatedBalanced(db.entries[id].lines);
    }
  }

  lemma DraftAllowed(db: Db, input: EntryInput)
    requires DecideDraft(db, input).Ok?
    ensures Allowed(db, DecideDraft(db, input).value.change)
  {
    hide LineFits, ResolveLine;
    ResolvedLinesFit(db, input.book.value, input.lines);
  }

  lemma PostDraftAllowed(db: Db, id: nat, allowBackdated: bool)
    requires DecidePostDraft(db, id, allowBackdated).Ok?
    ensures Allowed(db, DecidePostDraft(db, id, allowBackdated).value.change)
  {
    hide Balanced, CarriesRequired, Contains;
  }

  lemma ChartAllowed(db: Db, op: Op)
    requires op.CreateAccount? || op.UpdatePostable? || op.UpdateActive?
    requires Decide(db, op).Ok?
    ensures Allowed(db, Decide(db, op).value.change)
  {
    hide AccountUsed;
  }

  lemma DecisionAllowed(db: Db, op: Op)
    requires Inv(db) && Decide(db, op).Ok?
    ensures Allowed(db, Decide(db, op).value.change)
  {
    hide DecidePost, DecideReverse, DecideDraft, DecidePostDraft, DecideAccount, DecidePostable, DecideActive,
         NewPeriods, BooksOk, AccountsOk, PeriodsOk, LinesOk, StampsOk, NumbersOk, KeysOk, ReversalsOk,
         LinesFit, IsGenerated, SameHandle, Enters, HeaderFresh, Undoes, IsReversed;
    match op
    case CreateBook(_, _) =>
    case ArchiveBook(_) =>
    case CreateAccount(_, _, _, _, _, _) => ChartAllowed(db, op);
    case UpdatePostable(_, _) => ChartAllowed(db, op);
    case UpdateActive(_, _) => ChartAllowed(db, op);
    case GenerateFiscalYear(book, year, count) => NewPeriodsGenerated(db, book, year, count);
    case SetPeriodStatus(_, _) =>
    case CreateDraft(input) => DraftAllowed(db, input);
    case PostDraft(id, allow) => PostDraftAllowed(db, id, allow);
    case VoidDraft(_) =>
    case PostEntry(input, allow) => PostAllowed(db, input, allow);
    case ReverseEntry(id, date, allow) => ReverseAllowed(db, id, date, allow);
  }

  // ----- Every allowed change keeps each part -----

  lemma BooksKept(db: Db, c: Change)
    requires BooksOk(db) && Allowed(db, c)
    ensures BooksOk(Commit(db, c))
  {
    hide Balanced, LinesFit, HeaderFresh, Contains, Undoes, IsGenerated, SameSlot, SameHandle, AccountUsed;
  }

  lemma AccountsKept(db: Db, c: Change)
    requires AccountsOk(db) && Allowed(db, c)
    ensures AccountsOk(Commit(db, c))
  {
    hide Balanced, LinesFit, HeaderFresh, Contains, Undoes, IsGenerated, SameSlot, AccountUsed;
  }

  lemma PeriodsKept(db: Db, c: Change)
    requires PeriodsOk(db) && Allowed(db, c)
    ensures PeriodsOk(Commit(db, c))
  {
    hide Balanced, LinesFit, HeaderFresh, Contains, Undoes, SameHandle, AccountUsed, PeriodStart, PeriodEnd;
    var after := Commit(db, c);
    forall p | IsGenerated(db, p) ensures IsGenerated(after, p) {
    }
  }

  /** An account carrying a line never stops being postable, and never changes book. */
  lemma LineFitsStays(db: Db, c: Change, i: nat, j: nat)
    requires Allowed(db, c) && i < |db.entries| && j < |db.entries[i].lines|
    requires LineFits(db, db.entries[i].book, db.entries[i].lines[j])
    ensures LineFits(Commit(db, c), db.entries[i].book, db.entries[i].lines[j])
  {
    hide Balanced, LinesFit, HeaderFresh, Contains, Undoes, IsGenerated, SameSlot, SameHandle;
    if c.SetAccount? && c.accountId == db.entries[i].lines[j].account {
      assert AccountUsed(db.entries, c.accountId);
    }
  }

  lemma LinesFitStays(db: Db, c: Change, i: nat)
    requires Allowed(db, c) && i < |db.entries| && LinesFit(db, db.entries[i])
    ensures LinesFit(Commit(db, c), db.entries[i])
  {
    hide Allowed, LineFits;
    forall j | 0 <= j < |db.entries[i].lines|
      ensures LineFits(Commit(db, c), db.entries[i].book, db.entries[i].lines[j])
    {
      LineFitsStays(db, c, i, j);
    }
    assert |Commit(db, c).books| >= |db.books|;
  }

  /** What a change does to the row of an entry that was already there. */
  lemma RowStays(db: Db, c: Change, i: nat)
    requires Allowed(db, c) && i < |db.entries|
    ensures i < |Commit(db, c).entries|
    ensures var e, f := db.entries[i], Commit(db, c).entries[i];
            && f.lines == e.lines && f.book == e.book && f.date == e.date
            && f.header == e.header && f.reverses == e.reverses
            && (InBooks(e) ==> f == e || f == e.(status := Reversed))
            && (!InBooks(f) ==> f.number == e.number)
            && (e.status == Void ==> f == e)
            && (f.status == Reversed && e.status != Reversed ==> c.AddReversal? && c.original == i)
            && (!InBooks(e) && InBooks(f) ==> c.PromoteDraft? && c.draft == i && Enters(db, f))
  {
    hide Balanced, LinesFit, HeaderFresh, Contains, Undoes, IsGenerated, SameSlot, SameHandle, AccountUsed, IsReversed;
  }

  lemma LinesKept(db: Db, c: Change)
    requires LinesOk(db) && Allowed(db, c)
    ensures LinesOk(Commit(db, c))
  {
    var after := Commit(db, c);
    forall i | 0 <= i < |after.entries| ensures LinesFit(after, after.entries[i]) {
      if i < |db.entries| {
        RowStays(db, c, i);
        LinesFitStays(db, c, i);
      } else if c.AddReversal? {
        LinesFitStays(db, c, c.original);
      }
    }
  }

  lemma StampFitsStays(db: Db, c: Change, e: Entry)
    requires Allowed(db, c) && StampFits(db, e)
    ensures StampFits(Commit(db, c), e)
  {
    hide Balanced, LinesFit, HeaderFresh, Undoes, IsGenerated, SameSlot, SameHandle, AccountUsed;
  }

  lemma EnteringStampFits(db: Db, c: Change, e: Entry)
    requires Allowed(db, c) && Enters(db, e)
    ensures StampFits(Commit(db, c), e)
  {
    hide Balanced, LinesFit, HeaderFresh, Undoes, IsGenerated, SameSlot, SameHandle, AccountUsed;
  }

  lemma StampsKept(db: Db, c: Change)
    requires StampsOk(db) && Allowed(db, c)
    ensures StampsOk(Commit(db, c))
  {
    hide Balanced, LinesFit, HeaderFresh, Undoes, IsGenerated, SameSlot, SameHandle, AccountUsed, Contains, Enters;
    var after := Commit(db, c);
    forall i | 0 <= i < |after.entries| ensures StampFits(after, after.entries[i]) {
      if i < |db.entries| {
        RowStays(db, c, i);
        StampFitsStays(db, c, db.entries[i]);
        if InBooks(after.entries[i]) && !InBooks(db.entries[i]) {
          EnteringStampFits(db, c, after.entries[i]);
        }
      } else if !c.AddDraft? {
        EnteringStampFits(db, c, after.entries[i]);
      }
    }
  }

  lemma KeysKept(db: Db, c: Change)
    requires KeysOk(db) && Allowed(db, c)
    ensures KeysOk(Commit(db, c))
  {
    hide Balanced, LinesFit, Undoes, IsGenerated, SameSlot, SameHandle, AccountUsed, Contains, Enters;
    var after := Commit(db, c);
    forall i | 0 <= i < |db.entries| ensures after.entries[i].header == db.entries[i].header {
      RowStays(db, c, i);
    }
  }

  lemma IsReversalStays(db: Db, c: Change, j: nat)
    requires Allowed(db, c) && j < |db.entries| && db.entries[j].reverses.Some? && IsReversal(db.entries, j)
    ensures j < |Commit(db, c).entries| && Commit(db, c).entries[j].reverses == db.entries[j].reverses
    ensures IsReversal(Commit(db, c).entries, j)
  {
    hide Balanced, LinesFit, HeaderFresh, IsGenerated, SameSlot, SameHandle, AccountUsed, Contains, Negated, IsReversed;
    RowStays(db, c, j);
    RowStays(db, c, db.entries[j].reverses.value);
  }

  lemma NewReversal(db: Db, c: Change)
    requires Allowed(db, c) && c.AddReversal?
    ensures var after := Commit(db, c).entries;
            && |after| == |db.entries| + 1 && after[|db.entries|].reverses == Some(c.original)
            && IsReversal(after, |db.entries|)
            && IsReversed(after, c.original)
  {
    hide Balanced, LinesFit, HeaderFresh, IsGenerated, SameSlot, SameHandle, AccountUsed, Contains, Negated;
    assert Commit(db, c).entries[|db.entries|].reverses == Some(c.original);
  }

  lemma IsReversedStays(db: Db, c: Change, i: nat)
    requires Allowed(db, c) && IsReversed(db.entries, i)
    ensures IsReversed(Commit(db, c).entries, i)
  {
    var j :| 0 <= j < |db.entries| && db.entries[j].reverses == Some(i);
    RowStays(db, c, j);
  }

  lemma ReversalsKept(db: Db, c: Change)
    requires ReversalsOk(db) && Allowed(db, c)
    ensures ReversalsOk(Commit(db, c))
  {
    hide Balanced, LinesFit, HeaderFresh, IsGenerated, SameSlot, SameHandle, AccountUsed, Contains, Undoes, IsReversal;
    var after := Commit(db, c);
    forall j | 0 <= j < |after.entries| && after.entries[j].reverses.Some?
      ensures IsReversal(after.entries, j)
    {
      if j < |db.entries| {
        RowStays(db, c, j);
        IsReversalStays(db, c, j);
      } else {
        NewReversal(db, c);
      }
    }
    forall i | 0 <= i < |after.entries| && after.entries[i].status == Reversed
      ensures IsReversed(after.entries, i)
    {
      RowsOf(db, c, i);
      if c.AddReversal? && i == c.original {
        NewReversal(db, c);
      } else {
        IsReversedStays(db, c, i);
      }
    }
    forall i, j | 0 <= i < j < |after.entries| && after.entries[i].reverses.Some?
      ensures after.entries[i].reverses != after.entries[j].reverses
    {
      RowStays(db, c, i);
      if j < |db.entries| {
        RowStays(db, c, j);
      } else if c.AddReversal? {
        NewReversal(db, c);
        assert !IsReversed(db.entries, c.original);
        assert db.entries[i].reverses != Some(c.original);
      }
    }
  }

  /** Only a reversal's original becomes reversed. */
  lemma RowsOf(db: Db, c: Change, i: nat)
    requires Allowed(db, c) && i < |Commit(db, c).entries| && Commit(db, c).entries[i].status == Reversed
    ensures i < |db.entries|
    ensures db.entries[i].status == Reversed || (c.AddReversal? && c.original == i)
  {
    hide Balanced, LinesFit, HeaderFresh, IsGenerated, SameSlot, SameHandle, AccountUsed, Contains, Undoes, IsReversed;
    if i < |db.entries| {
      RowStays(db, c, i);
    }
  }

  // ----- Numbering -----

  /** The entry, if any, that takes the book's next number. */
  function Numbered(c: Change): Option<Entry> {
    match c
    case AddPosted(e) => Some(e)
    case PromoteDraft(_, e) => Some(e)
    case AddReversal(_, e) => Some(e)
    case _ => None
  }

  /** Exactly one row gains a number, and it is the book's next one. */
  lemma NumberGained(db: Db, c: Change, b: nat, n: nat)
    requires Allowed(db, c) && StampsOk(db)
    ensures forall i :: 0 <= i < |db.entries| && HasNumber(db.entries[i], b, n)
              ==> HasNumber(Commit(db, c).entries[i], b, n)
    ensures forall i :: 0 <= i < |Commit(db, c).entries| && HasNumber(Commit(db, c).entries[i], b, n)
              && !(i < |db.entries| && HasNumber(db.entries[i], b, n))
              ==> Numbered(c).Some? && b == Numbered(c).value.book && b < |db.books|
                  && n == db.books[b].nextNumber
                  && i == if c.PromoteDraft? then c.draft else |db.entries|
  {
    hide Balanced, LinesFit, HeaderFresh, Undoes, IsGenerated, SameSlot, SameHandle, AccountUsed, Contains, IsReversed;
    forall i | 0 <= i < |db.entries|
      ensures StampFits(db, db.entries[i])
    {
    }
  }

  lemma NumbersKept(db: Db, c: Change)
    requires NumbersOk(db) && StampsOk(db) && BooksOk(db) && LinesOk(db) && Allowed(db, c)
    ensures NumbersOk(Commit(db, c))
  {
    hide Balanced, LineFits, HeaderFresh, Undoes, IsGenerated, SameSlot, SameHandle, AccountUsed, Contains, IsReversed, StampFits;
    var after := Commit(db, c);
    forall i, b: nat, n: nat | 0 <= i < |after.entries| && b < |after.books| && HasNumber(after.entries[i], b, n)
      ensures 1 <= n < after.books[b].nextNumber
    {
      NumberGained(db, c, b, n);
      if i < |db.entries| && HasNumber(db.entries[i], b, n) {
        assert LinesFit(db, db.entries[i]);
      }
    }
    forall i, j, b: nat, n: nat
      | 0 <= i < j < |after.entries| && HasNumber(after.entries[i], b, n)
      ensures !HasNumber(after.entries[j], b, n)
    {
      NumberGained(db, c, b, n);
    }
    forall b, n: nat | 0 <= b < |after.books| && 1 <= n < after.books[b].nextNumber
      ensures NumberTaken(after.entries, b, n)
    {
      NumberReaches(db, c, b, n);
    }
  }

  lemma NumberReaches(db: Db, c: Change, b: nat, n: nat)
    requires NumbersOk(db) && StampsOk(db) && BooksOk(db) && Allowed(db, c)
    requires b < |Commit(db, c).books| && 1 <= n < Commit(db, c).books[b].nextNumber
    ensures NumberTaken(Commit(db, c).entries, b, n)
  {
    hide Balanced, LinesFit, HeaderFresh, Undoes, IsGenerated, SameSlot, SameHandle, AccountUsed, Contains, IsReversed, StampFits;
    var after := Commit(db, c);
    if b < |db.books| && n < db.books[b].nextNumber {
      assert NumberTaken(db.entries, b, n);
      var i :| 0 <= i < |db.entries| && HasNumber(db.entries[i], b, n);
      NumberGained(db, c, b, n);
      assert HasNumber(after.entries[i], b, n);
    } else {
      var i := if c.PromoteDraft? then c.draft else |db.entries|;
      assert HasNumber(after.entries[i], b, n);
    }
  }

  // ----- Runs -----

  lemma StepKeeps(db: Db, op: Op)
    requires Inv(db)
    ensures Inv(Apply(db, op))
  {
    hide BooksOk, AccountsOk, PeriodsOk, LinesOk, StampsOk, NumbersOk, KeysOk, ReversalsOk, Allowed, Decide, Commit;
    if Decide(db, op).Ok? {
      var c := Decide(db, op).value.change;
      DecisionAllowed(db, op);
      BooksKept(db, c);
      AccountsKept(db, c);
      PeriodsKept(db, c);
      LinesKept(db, c);
      StampsKept(db, c);
      NumbersKept(db, c);
      KeysKept(db, c);
      ReversalsKept(db, c);
    }
  }

  /** Every run of transactions keeps the invariant. */
  lemma {:induction false} RunKeeps(db: Db, ops: seq<Op>)
    requires Inv(db)
    ensures Inv(Run(db, ops))
  {
    hide Inv, Apply;
    if ops != [] {
      RunKeeps(db, ops[..|ops| - 1]);
      StepKeeps(Run(db, ops[..|ops| - 1]), ops[|ops| - 1]);
    }
  }

  lemma EmptyOk(required: set<(nat, nat)>)
    ensures Inv(Empty(required))
  {
  }
}
