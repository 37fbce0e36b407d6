/**
 * The services as they run: methods that update rows step by step inside a transaction and roll
 * back when a step throws (`journal.ts`, `periods.ts`, `chart.ts`, `books.ts`). Every method is
 * proved to do exactly what the decision functions of `Ledger` say.
 */
module LedgerService {
  import opened Prelude
  import opened Sums
  import opened Calendar
  import opened Ledger

  /** What a call hands back: the row it names, and whether that row was already there. */
  datatype Receipt = Receipt(id: nat, reused: bool)

  /** The call did what was decided: committed the change, or threw and left every row alone. */
  ghost predicate Did(decision: Result<Outcome>, before: Db, after: Db, r: Result<Receipt>) {
    match decision
    case Ok(o) => r == Ok(Receipt(o.id, o.reused)) && after == Commit(before, o.change)
    case Err(e) => r == Err(e) && after == before
  }

  // ----- The balance check -----

  function SumOf(sums: map<string, int>, currency: string): int {
    if currency in sums then sums[currency] else 0
  }

  /** Balance is zero in every currency there is, not only the ones that occur. */
  lemma BalancedInEveryCurrency(lines: seq<Line>)
    ensures Balanced(lines)
            <==> |lines| >= 2
                 && forall c: string :: Total(lines, InCurrency(c)) == 0 && Total(lines, InFunctional(c)) == 0
  {
    if Balanced(lines) {
      forall c: string ensures Total(lines, InCurrency(c)) == 0 && Total(lines, InFunctional(c)) == 0 {
        AbsentCurrency(lines, c);
      }
    }
  }

  lemma AbsentCurrency(lines: seq<Line>, c: string)
    ensures (exists i :: 0 <= i < |lines| && lines[i].currency == c) || Total(lines, InCurrency(c)) == 0
    ensures (exists i :: 0 <= i < |lines| && lines[i].functionalCurrency == c) || Total(lines, InFunctional(c)) == 0
  {
    if forall i :: 0 <= i < |lines| ==> lines[i].currency != c {
      TotalZero(lines, InCurrency(c));
    }
    if forall i :: 0 <= i < |lines| ==> lines[i].functionalCurrency != c {
      TotalZero(lines, InFunctional(c));
    }
  }

  ghost predicate Tallies(sums: map<string, int>, lines: seq<Line>, w: string -> Line -> int) {
    forall c: string :: SumOf(sums, c) == Total(lines, w(c))
  }

  lemma TallyStep(sums: map<string, int>, lines: seq<Line>, l: Line, c: string, amount: int, w: string -> Line -> int)
    requires Tallies(sums, lines, w) && w(c)(l) == amount
    requires forall d: string :: d != c ==> w(d)(l) == 0
    ensures Tallies(sums[c := SumOf(sums, c) + amount], lines + [l], w)
  {
    forall d: string ensures SumOf(sums[c := SumOf(sums, c) + amount], d) == Total(lines + [l], w(d)) {
      TotalAppend(lines, l, w(d));
    }
  }

  predicate AllZero(sums: map<string, int>) {
    forall c :: c in sums ==> sums[c] == 0
  }

  lemma TalliesZero(sums: map<string, int>, lines: seq<Line>, w: string -> Line -> int)
    requires Tallies(sums, lines, w)
    ensures AllZero(sums) <==> forall c: string :: Total(lines, w(c)) == 0
  {
    if !AllZero(sums) {
      var c :| c in sums && sums[c] != 0;
      assert SumOf(sums, c) == Total(lines, w(c));
    } else {
      assert forall c: string :: SumOf(sums, c) == 0;
    }
  }

  /** `assertBalanced`: one pass fills a map per kind of currency, then no sum may be non-zero. */
  method AssertBalanced(lines: seq<Line>) returns (ok: bool)
    ensures ok <==> Balanced(lines)
  {
    hide Balanced, InCurrency, InFunctional, Tallies, AllZero;
    BalancedInEveryCurrency(lines);
    if |lines| < 2 {
      return false;
    }
    var byCurrency: map<string, int> := map[];
    var byFunctional: map<string, int> := map[];
    NothingTallied();
    for k := 0 to |lines|
      invariant Tallies(byCurrency, lines[..k], InCurrency) && Tallies(byFunctional, lines[..k], InFunctional)
    {
      var l := lines[k];
      assert lines[..k + 1] == lines[..k] + [l];
      CountsOnce(l);
      TallyStep(byCurrency, lines[..k], l, l.currency, l.amount, InCurrency);
      TallyStep(byFunctional, lines[..k], l, l.functionalCurrency, l.functionalAmount, InFunctional);
      byCurrency := byCurrency[l.currency := SumOf(byCurrency, l.currency) + l.amount];
      byFunctional := byFunctional[l.functionalCurrency := SumOf(byFunctional, l.functionalCurrency) + l.functionalAmount];
    }
    assert lines[..|lines|] == lines;
    TalliesZero(byCurrency, lines, InCurrency);
    TalliesZero(byFunctional, lines, InFunctional);
    ok := AllZero(byCurrency) && AllZero(byFunctional);
  }

  lemma NothingTallied()
    ensures Tallies(map[], [], InCurrency) && Tallies(map[], [], InFunctional)
  {
  }

  lemma CountsOnce(l: Line)
    ensures InCurrency(l.currency)(l) == l.amount && InFunctional(l.functionalCurrency)(l) == l.functionalAmount
    ensures forall d: string :: d != l.currency ==> InCurrency(d)(l) == 0
    ensures forall d: string :: d != l.functionalCurrency ==> InFunctional(d)(l) == 0
  {
  }

  lemma {:induction false} ResolvePrefix(db: Db, book: nat, lines: seq<LineInput>, k: nat)
    requires book < |db.books| && k <= |lines| && ResolveLines(db, book, lines[..k]).Err?
    ensures ResolveLines(db, book, lines) == ResolveLines(db, book, lines[..k])
  {
    if k == |lines| {
      assert lines[..k] == lines;
    } else {
      assert lines[..|lines| - 1][..k] == lines[..k];
      ResolvePrefix(db, book, lines[..|lines| - 1], k);
    }
  }

  lemma HeaderReadsEntries(db: Db, other: Db, h: Header)
    requires db.entries == other.entries
    ensures CheckHeader(db, h) == CheckHeader(other, h)
  {
  }

  lemma NothingCommits(db: Db)
    ensures Commit(db, Nothing) == db
  {
  }

  lemma ReversalHeaderOf(original: Entry, id: nat, on: Day)
    ensures ReversalOf(original, id, on).header == ReversalHeader(original.header)
  {
  }

  /** The rows after a book is opened: two transactions, the second only if asked for. */
  function Opened(db: Db, currency: string, anchor: Anchor, openedOn: Day, generatePeriods: bool): Db {
    var created := Apply(db, CreateBook(currency, anchor));
    if generatePeriods && DecideBook(db, currency, anchor).Ok?
    then Apply(created, GenerateFiscalYear(|db.books|, FiscalYearFor(openedOn, anchor), 12))
    else created
  }

  class LedgerService {
    var books: seq<Book>
    var accounts: seq<Account>
    var periods: seq<Period>
    var entries: seq<Entry>
    const required: set<(nat, nat)>

    function View(): Db
      reads this
    {
      Db(books, accounts, periods, entries, required)
    }

    constructor (required: set<(nat, nat)>)
      ensures View() == Empty(required)
    {
      this.books, this.accounts, this.periods, this.entries := [], [], [], [];
      this.required := required;
    }

    method Rollback(before: Db)
      requires before.required == required
      modifies this
      ensures View() == before
    {
      books, accounts, periods, entries := before.books, before.accounts, before.periods, before.entries;
    }

    // ----- Reading steps -----

    method ResolveAll(book: nat, lines: seq<LineInput>) returns (r: Result<seq<Line>>)
      requires book < |books|
      ensures r == ResolveLines(View(), book, lines)
    {
      var resolved: seq<Line> := [];
      for k := 0 to |lines|
        invariant ResolveLines(View(), book, lines[..k]) == Ok(resolved)
      {
        assert lines[..k + 1][..k] == lines[..k];
        var line := ResolveLine(View(), book, lines[k]);
        if line.Err? {
          ResolvePrefix(View(), book, lines, k + 1);
          return Err(line.error);
        }
        resolved := resolved + [line.value];
      }
      assert lines[..|lines|] == lines;
      r := Ok(resolved);
    }

    method AssertRequiredDimensions(book: nat, lines: seq<Line>) returns (ok: bool)
      ensures ok <==> CarriesRequired(View(), book, lines)
    {
      for k := 0 to |lines|
        invariant CarriesRequired(View(), book, lines[..k])
      {
        if exists r :: r in required && r.0 == book && r.1 !in lines[k].dimensions {
          return false;
        }
        assert lines[..k + 1] == lines[..k] + [lines[k]];
      }
      assert lines[..|lines|] == lines;
      ok := true;
    }

    // ----- Writing steps -----

    /** `nextEntryNumber`: read the counter under the row lock, then advance it. */
    method NextEntryNumber(book: nat) returns (r: Result<nat>)
      requires book < |books|
      modifies this`books
      ensures r == if !Usable(old(books)[book].nextNumber) then Err(Conflict) else Ok(old(books)[book].nextNumber)
      ensures books == if r.Err? then old(books) else TakeNumber(old(View()), book).books
    {
      var row := books[book];
      if !Usable(row.nextNumber) {
        return Err(Conflict);
      }
      books := books[book := row.(nextNumber := row.nextNumber + 1)];
      r := Ok(row.nextNumber);
    }

    /** `insertHeader` with its lines: a draft row, unless a check or the unique key refuses it. */
    method InsertDraft(draft: Entry) returns (r: Result<nat>)
      modifies this`entries
      ensures r == if CheckHeader(old(View()), draft.header).Err? then Err(CheckHeader(old(View()), draft.header).error)
                   else Ok(|old(entries)|)
      ensures entries == if r.Err? then old(entries) else old(entries) + [draft]
    {
      var checked := CheckHeader(View(), draft.header);
      if checked.Err? {
        return Err(checked.error);
      }
      entries := entries + [draft];
      r := Ok(|entries| - 1);
    }

    method MarkPosted(id: nat, stamp: Stamp)
      requires id < |entries|
      modifies this`entries
      ensures entries == old(entries)[id := Stamped(old(entries)[id], stamp)]
    {
      entries := entries[id := Stamped(entries[id], stamp)];
    }

    /** The period of a date and its verdict on the posting. */
    method ResolvePeriod(book: nat, date: Day, allowBackdated: bool) returns (r: Result<(nat, bool)>)
      ensures match FindPeriod(periods, book, date)
              case None => r == Err(PeriodClosed)
              case Some(p) => r == match Accepts(periods[p].status, allowBackdated)
                                   case Ok(flag) => Ok((p, flag))
                                   case Err(e) => Err(e)
    {
      var found := FindPeriod(periods, book, date);
      if found.None? {
        return Err(PeriodClosed);
      }
      var accepted := Accepts(periods[found.value].status, allowBackdated);
      if accepted.Err? {
        return Err(accepted.error);
      }
      r := Ok((found.value, accepted.value));
    }

    // ----- Journal -----

    method PostEntry(input: EntryInput, allowBackdated: bool) returns (r: Result<Receipt>)
      modifies this
      ensures Did(DecidePost(old(View()), input, allowBackdated), old(View()), View(), r)
    {
      hide Balanced, CarriesRequired, ResolveLines, CheckHeader, FindKey, FindPeriod, Accepts, Usable;
      var before := View();
      if input.lines == [] {
        return Err(Validation);
      }
      if input.header.key.Some? {
        var existing := FindKey(entries, input.header.key.value);
        if existing.Some? {
          return Ok(Receipt(existing.value, true));
        }
      }
      if input.book.None? {
        return Err(BookRouting);
      }
      var book := input.book.value;
      var row := LoadBook(View(), book);
      if row.Err? {
        return Err(row.error);
      }
      var lines := ResolveAll(book, input.lines);
      if lines.Err? {
        return Err(lines.error);
      }
      var balanced := AssertBalanced(lines.value);
      if !balanced {
        return Err(Unbalanced);
      }
      var dimensioned := AssertRequiredDimensions(book, lines.value);
      if !dimensioned {
        return Err(Validation);
      }
      var period := ResolvePeriod(book, input.date, allowBackdated);
      if period.Err? {
        return Err(period.error);
      }
      var number := NextEntryNumber(book);
      if number.Err? {
        return Err(number.error);
      }
      HeaderReadsEntries(before, View(), input.header);
      var draft := InsertDraft(DraftOf(book, input, lines.value));
      if draft.Err? {
        Rollback(before);
        return Err(draft.error);
      }
      var stamp := Stamp(period.value.0, period.value.1, number.value);
      MarkPosted(draft.value, stamp);
      assert TakeStamp(before, book, input.date, allowBackdated) == Ok(stamp);
      assert entries == before.entries + [Stamped(DraftOf(book, input, lines.value), stamp)];
      r := Ok(Receipt(draft.value, false));
    }

    method CreateDraft(input: EntryInput) returns (r: Result<Receipt>)
      modifies this
      ensures Did(DecideDraft(old(View()), input), old(View()), View(), r)
    {
      if input.lines == [] {
        return Err(Validation);
      }
      if input.book.None? {
        return Err(BookRouting);
      }
      var row := LoadBook(View(), input.book.value);
      if row.Err? {
        return Err(row.error);
      }
      var lines := ResolveAll(input.book.value, input.lines);
      if lines.Err? {
        return Err(lines.error);
      }
      var draft := InsertDraft(DraftOf(input.book.value, input, lines.value));
      if draft.Err? {
        return Err(draft.error);
      }
      r := Ok(Receipt(draft.value, false));
    }

    method PostDraft(id: nat, allowBackdated: bool) returns (r: Result<Receipt>)
      modifies this
      ensures Did(DecidePostDraft(old(View()), id, allowBackdated), old(View()), View(), r)
    {
      if id >= |entries| {
        return Err(NotFound);
      }
      var draft := entries[id];
      if draft.status != Draft {
        return Err(Immutable);
      }
      var row := LoadBook(View(), draft.book);
      if row.Err? {
        return Err(row.error);
      }
      var balanced := AssertBalanced(draft.lines);
      if !balanced {
        return Err(Unbalanced);
      }
      var dimensioned := AssertRequiredDimensions(draft.book, draft.lines);
      if !dimensioned {
        return Err(Validation);
      }
      var period := ResolvePeriod(draft.book, draft.date, allowBackdated);
      if period.Err? {
        return Err(period.error);
      }
      var number := NextEntryNumber(draft.book);
      if number.Err? {
        return Err(number.error);
      }
      MarkPosted(id, Stamp(period.value.0, period.value.1, number.value));
      r := Ok(Receipt(id, false));
    }

    method VoidDraft(id: nat) returns (r: Result<Receipt>)
      modifies this
      ensures Did(DecideVoid(old(View()), id), old(View()), View(), r)
    {
      if id >= |entries| {
        return Err(NotFound);
      }
      if entries[id].status == Void {
        return Ok(Receipt(id, true));
      }
      if entries[id].status != Draft {
        return Err(Immutable);
      }
      entries := entries[id := entries[id].(status := Void)];
      r := Ok(Receipt(id, false));
    }

    method NegateLines(lines: seq<Line>) returns (negated: seq<Line>)
      ensures negated == Negated(lines)
    {
      negated := [];
      for k := 0 to |lines|
        invariant negated == Negated(lines[..k])
      {
        negated := negated + [NegatedLine(lines[k])];
      }
    }

    method ReverseEntry(id: nat, date: Option<Day>, allowBackdated: bool) returns (r: Result<Receipt>)
      modifies this
      ensures Did(DecideReverse(old(View()), id, date, allowBackdated), old(View()), View(), r)
    {
      hide CheckHeader, Commit, ReversalOf, ReversalHeader, Negated;
      if id >= |entries| {
        return Err(NotFound);
      }
      var original := entries[id];
      if original.status == Draft || original.status == Void || original.reverses.Some? {
        return Err(Immutable);
      }
      var already := FindReversal(entries, id);
      if already.Some? {
        NothingCommits(View());
        return Ok(Receipt(already.value, true));
      }
      var row := LoadBook(View(), original.book);
      if row.Err? {
        return Err(row.error);
      }
      if original.lines == [] {
        return Err(Validation);
      }
      var on := if date.Some? then date.value else original.date;
      var period := ResolvePeriod(original.book, on, allowBackdated);
      if period.Err? {
        return Err(period.error);
      }
      ReversalHeaderOf(original, id, on);
      r := FileReversal(id, on, period.value.0, period.value.1);
    }

    /** The writes of a reversal, in order; any refusal rolls all of them back. */
    method FileReversal(id: nat, on: Day, period: nat, backdated: bool) returns (r: Result<Receipt>)
      requires id < |entries| && entries[id].book < |books|
      modifies this
      ensures var before, original := old(View()), old(entries)[id];
              var checked := CheckHeader(before, ReversalHeader(original.header));
              var next := before.books[original.book].nextNumber;
              if !Usable(next) then r == Err(Conflict) && View() == before
              else if checked.Err? then r == Err(checked.error) && View() == before
              else if original.status != Posted then r == Err(Immutable) && View() == before
              else && r == Ok(Receipt(|before.entries|, false))
                   && View() == Commit(before, AddReversal(id, Stamped(ReversalOf(original, id, on), Stamp(period, backdated, next))))
    {
      hide CheckHeader, ReversalHeader, Negated, NegatedLine;
      var before := View();
      var original := entries[id];
      var number := NextEntryNumber(original.book);
      if number.Err? {
        return Err(number.error);
      }
      var negated := NegateLines(original.lines);
      HeaderReadsEntries(before, View(), ReversalHeader(original.header));
      var draft := InsertDraft(ReversalOf(original, id, on).(lines := negated));
      if draft.Err? {
        Rollback(before);
        return Err(draft.error);
      }
      MarkPosted(draft.value, Stamp(period, backdated, number.value));
      // The one update the immutability trigger lets through.
      if entries[id].status != Posted {
        Rollback(before);
        return Err(Immutable);
      }
      entries := entries[id := entries[id].(status := Reversed)];
      r := Ok(Receipt(draft.value, false));
    }

    // ----- Periods, chart, books -----

    method SetStatus(id: nat, status: PeriodStatus) returns (r: Result<Receipt>)
      modifies this
      ensures Did(DecideStatus(old(View()), id, status), old(View()), View(), r)
    {
      if id >= |periods| {
        return Err(NotFound);
      }
      if periods[id].status == status {
        return Ok(Receipt(id, true));
      }
      if periods[id].status == Locked {
        return Err(Immutable);
      }
      periods := periods[id := periods[id].(status := status)];
      r := Ok(Receipt(id, false));
    }

    /** One insert of `count` rows: a taken slot is skipped, an overlap aborts the whole insert. */
    method GenerateFiscalYear(book: nat, fiscalYear: int, count: nat) returns (r: Result<Receipt>)
      modifies this
      ensures Did(DecideGenerate(old(View()), book, fiscalYear, count), old(View()), View(), r)
    {
      hide PeriodStart, PeriodEnd, Overlaps, SameSlot;
      var before := View();
      if !(1900 <= fiscalYear <= 9999 && 1 <= count <= 12) {
        return Err(Validation);
      }
      if book >= |books| {
        return Err(NotFound);
      }
      var a := books[book].anchor;
      ghost var added: seq<Period> := [];
      var created := 0;
      for i := 0 to count
        invariant View() == before.(periods := before.periods + added)
        invariant NewPeriods(before.periods, book, fiscalYear, i, a) == Ok(added) && created == |added|
      {
        var p := Generated(book, fiscalYear, i, a);
        if exists q :: q in periods && SameSlot(p, q) {
        } else if exists q :: q in periods && Overlaps(p, q) {
          OverlapAborts(before.periods, book, fiscalYear, i + 1, count, a);
          Rollback(before);
          return Err(Conflict);
        } else {
          assert before.periods + added + [p] == before.periods + (added + [p]);
          periods := periods + [p];
          added := added + [p];
          created := created + 1;
        }
      }
      r := Ok(Receipt(created, created == 0));
    }

    method CreateBook(currency: string, anchor: Anchor) returns (r: Result<Receipt>)
      modifies this
      ensures Did(DecideBook(old(View()), currency, anchor), old(View()), View(), r)
    {
      if !ValidAnchor(anchor) {
        return Err(Validation);
      }
      if !SupportedCurrency(currency) {
        return Err(UnsupportedCurrency);
      }
      books := books + [Book(true, currency, anchor, 1)];
      r := Ok(Receipt(|books| - 1, false));
    }

    /** `createBook` after its insert: the first fiscal year in a transaction of its own, whose failure leaves the book. */
    method OpenBook(currency: string, anchor: Anchor, openedOn: Day, generatePeriods: bool) returns (r: Result<Receipt>)
      modifies this
      ensures View() == Opened(old(View()), currency, anchor, openedOn, generatePeriods)
      ensures DecideBook(old(View()), currency, anchor).Err? ==> r == Err(DecideBook(old(View()), currency, anchor).error)
      ensures r.Ok? ==> r.value == Receipt(|old(books)|, false)
    {
      hide DecideGenerate;
      r := CreateBook(currency, anchor);
      if r.Ok? && generatePeriods {
        var generated := GenerateFiscalYear(r.value.id, FiscalYearFor(openedOn, anchor), 12);
        if generated.Err? {
          r := Err(generated.error);
        }
      }
    }

    method ArchiveBook(id: nat) returns (r: Result<Receipt>)
      modifies this
      ensures Did(DecideArchiveBook(old(View()), id), old(View()), View(), r)
    {
      if id >= |books| {
        return Err(NotFound);
      }
      if !books[id].active {
        return Ok(Receipt(id, true));
      }
      books := books[id := books[id].(active := false)];
      r := Ok(Receipt(id, false));
    }

    method CreateAccount(book: nat, code: string, kind: AccountType, postable: bool, systemKey: Option<string>,
                         parent: Option<nat>)
      returns (r: Result<Receipt>)
      modifies this
      ensures Did(DecideAccount(old(View()), book, code, kind, postable, systemKey, parent), old(View()), View(), r)
    {
      hide FindCode, FindSystemKey;
      if book >= |books| {
        return Err(NotFound);
      }
      if parent.Some? {
        if parent.value >= |accounts| {
          return Err(NotFound);
        }
        if accounts[parent.value].book != book {
          return Err(Validation);
        }
      }
      if FindCode(accounts, book, code).Some? || (systemKey.Some? && FindSystemKey(accounts, book, systemKey.value).Some?) {
        return Err(Conflict);
      }
      accounts := accounts + [Account(book, code, kind, postable, true, systemKey, parent)];
      r := Ok(Receipt(|accounts| - 1, false));
    }

    method UpdatePostable(id: nat, postable: bool) returns (r: Result<Receipt>)
      modifies this
      ensures Did(DecidePostable(old(View()), id, postable), old(View()), View(), r)
    {
      if id >= |accounts| {
        return Err(NotFound);
      }
      if !postable {
        var used := HasLines(id);
        if used {
          return Err(Validation);
        }
      }
      accounts := accounts[id := accounts[id].(postable := postable)];
      r := Ok(Receipt(id, false));
    }

    method HasLines(account: nat) returns (used: bool)
      ensures used <==> AccountUsed(entries, account)
    {
      for i := 0 to |entries|
        invariant !AccountUsed(entries[..i], account)
      {
        if exists j :: 0 <= j < |entries[i].lines| && entries[i].lines[j].account == account {
          return true;
        }
      }
      assert entries[..|entries|] == entries;
      used := false;
    }

    method SetActive(id: nat, active: bool) returns (r: Result<Receipt>)
      modifies this
      ensures Did(DecideActive(old(View()), id, active), old(View()), View(), r)
    {
      if id >= |accounts| {
        return Err(NotFound);
      }
      if !active && accounts[id].systemKey.Some? {
        return Err(Immutable);
      }
      if accounts[id].active == active {
        return Ok(Receipt(id, true));
      }
      accounts := accounts[id := accounts[id].(active := active)];
      r := Ok(Receipt(id, false));
    }
  }

  lemma {:induction false} OverlapAborts(periods: seq<Period>, book: nat, fiscalYear: int, i: nat, count: nat, a: Anchor)
    requires i <= count && NewPeriods(periods, book, fiscalYear, i, a) == Err(Conflict)
    ensures NewPeriods(periods, book, fiscalYear, count, a) == Err(Conflict)
    decreases count - i
  {
    if i < count {
      OverlapAborts(periods, book, fiscalYear, i + 1, count, a);
    }
  }
}
