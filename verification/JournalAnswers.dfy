/**
 * What the journal's calls answer, and what they leave behind, said from their inputs and the rows: which
 * call succeeds, what is filed line by line, what is left alone, and which refusal comes first. The
 * predicates here look at rows only and are none of those the transactions are written with.
 */
module JournalAnswers {
  import opened Prelude
  import opened Sums
  import opened Calendar
  import opened Facts
  import opened Ledger
  import opened LedgerInvariants
  import opened LedgerAcceptance
  import opened LedgerHistory
  import LedgerService

  // ----- What a call asks for -----

  ghost predicate BookTakes(db: Db, book: nat) {
    book < |db.books| && db.books[book].active && db.books[book].currency == "USD"
  }

  /** The account a reference names. */
  ghost predicate Refers(db: Db, book: nat, ref: AccountRef, a: nat) {
    a < |db.accounts| &&
    match ref
    case ById(id) => a == id
    case BySystemKey(key) => db.accounts[a].book == book && db.accounts[a].systemKey == Some(key)
  }

  ghost predicate AccountTakes(db: Db, book: nat, a: nat) {
    a < |db.accounts| && db.accounts[a].book == book && db.accounts[a].postable && db.accounts[a].active
  }

  ghost predicate LineTakes(db: Db, book: nat, l: LineInput) {
    && l.amount != 0 && (l.currency.Some? ==> l.currency.value == "USD")
    && exists a: nat :: Refers(db, book, l.account, a) && AccountTakes(db, book, a)
  }

  ghost predicate LinesTake(db: Db, book: nat, lines: seq<LineInput>) {
    forall i :: 0 <= i < |lines| ==> LineTakes(db, book, lines[i])
  }

  /** A line as filed: on the account its reference names, the rest as given. */
  ghost predicate FiledAs(db: Db, book: nat, l: LineInput, out: Line) {
    && Refers(db, book, l.account, out.account)
    && out.entity == l.entity && out.dimensions == l.dimensions
    && out.amount == l.amount && out.functionalAmount == l.amount
    && out.currency == "USD" && out.functionalCurrency == "USD"
  }

  ghost predicate AllFiledAs(db: Db, book: nat, lines: seq<LineInput>, out: seq<Line>) {
    |out| == |lines| && forall i :: 0 <= i < |lines| ==> FiledAs(db, book, lines[i], out[i])
  }

  function Asked(): LineInput -> int {
    (l: LineInput) => l.amount
  }

  function Filed(): Line -> int {
    (l: Line) => l.amount
  }

  /** The period has the date and is open, or soft-closed and the caller may backdate. */
  ghost predicate PeriodTakes(db: Db, p: nat, book: nat, date: Date, allow: bool) {
    && p < |db.periods| && db.periods[p].book == book
    && Le(db.periods[p].startsOn, date) && Le(date, db.periods[p].endsOn)
    && (db.periods[p].status == Open || (db.periods[p].status == SoftClosed && allow))
  }

  ghost predicate SomePeriodTakes(db: Db, book: nat, date: Date, allow: bool) {
    exists p: nat :: PeriodTakes(db, p, book, date, allow)
  }

  ghost predicate NumberLeft(db: Db, book: nat) {
    book < |db.books| && 1 <= db.books[book].nextNumber <= 9007199254740991
  }

  ghost predicate NamesVersion(h: Header) {
    h.source == PostingRule <==> h.version.Some?
  }

  ghost predicate KeyTaken(db: Db, key: Option<PostingKey>) {
    key.Some? && exists i :: 0 <= i < |db.entries| && db.entries[i].header.key == key
  }

  ghost predicate DimensionsGiven(db: Db, book: nat, lines: seq<LineInput>) {
    forall i, d: nat :: 0 <= i < |lines| && (book, d) in db.required ==> d in lines[i].dimensions
  }

  ghost predicate DimensionsFiled(db: Db, book: nat, lines: seq<Line>) {
    forall i, d: nat :: 0 <= i < |lines| && (book, d) in db.required ==> d in lines[i].dimensions
  }

  /** All that a fresh posting needs. */
  ghost predicate PostTakes(db: Db, input: EntryInput, allow: bool) {
    && |input.lines| >= 2 && input.book.Some? && BookTakes(db, input.book.value)
    && LinesTake(db, input.book.value, input.lines) && Total(input.lines, Asked()) == 0
    && DimensionsGiven(db, input.book.value, input.lines)
    && SomePeriodTakes(db, input.book.value, input.date, allow) && NumberLeft(db, input.book.value)
    && NamesVersion(input.header)
  }

  // ----- What a call leaves -----

  /** Stamped on entry: posted, the book's next number, the period of the date, flagged when that is soft-closed. */
  ghost predicate StampedIn(db: Db, e: Entry, allow: bool) {
    && e.status == Posted && e.book < |db.books| && e.number == Some(db.books[e.book].nextNumber)
    && e.period.Some? && PeriodTakes(db, e.period.value, e.book, e.date, allow)
    && e.backdated == (db.periods[e.period.value].status == SoftClosed)
  }

  /** Accounts and periods as before, and of the books only the one's counter, one up. */
  ghost predicate OnlyCounts(db: Db, after: Db, book: nat) {
    && after.accounts == db.accounts && after.periods == db.periods && after.required == db.required
    && |after.books| == |db.books|
    && forall b :: 0 <= b < |db.books| ==>
         after.books[b] == if b == book then db.books[b].(nextNumber := db.books[b].nextNumber + 1) else db.books[b]
  }

  /** One more entry, the others as before. */
  ghost predicate OneMore(db: Db, after: Db) {
    |after.entries| == |db.entries| + 1 && forall i :: 0 <= i < |db.entries| ==> after.entries[i] == db.entries[i]
  }

  ghost predicate AllBut(db: Db, after: Db, id: nat) {
    |after.entries| == |db.entries| && forall i :: 0 <= i < |db.entries| && i != id ==> after.entries[i] == db.entries[i]
  }

  // ----- Lookups are what they look for -----

  lemma RefersExactly(db: Db, book: nat, ref: AccountRef)
    requires AccountsOk(db)
    ensures forall a: nat :: Refers(db, book, ref, a) <==> ResolveAccount(db, book, ref) == Some(a)
  {
    match ref
    case ById(_) =>
    case BySystemKey(key) =>
      var found := FindSystemKey(db.accounts, book, key);
      forall a: nat | Refers(db, book, ref, a) ensures found == Some(a) {
        if found.value != a {
          assert SameHandle(db.accounts[found.value], db.accounts[a]) && SameHandle(db.accounts[a], db.accounts[found.value]);
          assert false;
        }
      }
  }

  lemma TakesIsAccepted(db: Db, book: nat, l: LineInput)
    requires AccountsOk(db) && BookTakes(db, book)
    ensures LineTakes(db, book, l) <==> LineAccepted(db, book, l)
    ensures LineAccepted(db, book, l) ==> FiledAs(db, book, l, Accepted(db, book, l))
  {
    hide ResolveAccount, Refers, AccountsOk;
    RefersExactly(db, book, l.account);
  }

  lemma PeriodFound(db: Db, book: nat, date: Day)
    requires BooksOk(db) && PeriodsOk(db)
    ensures forall p: nat :: p < |db.periods| && Contains(db.periods[p], book, date) <==> FindPeriod(db.periods, book, date) == Some(p)
  {
    hide PeriodsOk, BooksOk;
    var found := FindPeriod(db.periods, book, date);
    forall p: nat | p < |db.periods| && Contains(db.periods[p], book, date) ensures found == Some(p) {
      PeriodIsLookup(db, p, found.value, book, date);
    }
  }

  lemma StampTaken(db: Db, book: nat, date: Day, allow: bool)
    requires BooksOk(db) && PeriodsOk(db) && book < |db.books|
    ensures var r := TakeStamp(db, book, date, allow);
            && (r.Ok? <==> SomePeriodTakes(db, book, date, allow) && NumberLeft(db, book))
            && (r.Ok? ==> && PeriodTakes(db, r.value.period, book, date, allow)
                          && r.value.backdated == (db.periods[r.value.period].status == SoftClosed)
                          && r.value.number == db.books[book].nextNumber)
            && (r.Err? ==> r.error == if SomePeriodTakes(db, book, date, allow) then Conflict else PeriodClosed)
  {
    hide PeriodsOk, BooksOk, FindPeriod;
    PeriodFound(db, book, date);
    var p := FindPeriod(db.periods, book, date);
    if p.Some? && p.value < |db.periods| {
      assert PeriodTakes(db, p.value, book, date, allow) <==>
        Contains(db.periods[p.value], book, date) && (db.periods[p.value].status == Open || (db.periods[p.value].status == SoftClosed && allow));
    }
  }

  lemma {:induction false} FiledTotals(lines: seq<Line>)
    requires forall i :: 0 <= i < |lines| ==> lines[i].currency == lines[i].functionalCurrency == "USD" && lines[i].functionalAmount == lines[i].amount
    ensures Total(lines, InCurrency("USD")) == Total(lines, Filed()) && Total(lines, InFunctional("USD")) == Total(lines, Filed())
  {
    TotalSame(lines, InCurrency("USD"), Filed());
    TotalSame(lines, InFunctional("USD"), Filed());
  }

  /** In one currency, balance is two lines and a zero sum. */
  lemma BalancedIsZeroSum(lines: seq<Line>)
    requires forall i :: 0 <= i < |lines| ==> lines[i].currency == lines[i].functionalCurrency == "USD" && lines[i].functionalAmount == lines[i].amount
    ensures Balanced(lines) <==> |lines| >= 2 && Total(lines, Filed()) == 0
  {
    FiledTotals(lines);
    if |lines| >= 2 {
      assert lines[0].currency == "USD";
    }
  }

  lemma {:induction false} AskedIsFiled(db: Db, book: nat, lines: seq<LineInput>, out: seq<Line>)
    requires AllFiledAs(db, book, lines, out)
    ensures Total(lines, Asked()) == Total(out, Filed())
  {
    hide Refers;
    if lines != [] {
      var k := |lines| - 1;
      assert FiledAs(db, book, lines[k], out[k]);
      AskedIsFiled(db, book, lines[..k], out[..k]);
    }
  }

  lemma ResolvesTo(db: Db, book: nat, lines: seq<LineInput>)
    requires AccountsOk(db) && BookTakes(db, book)
    ensures var r := ResolveLines(db, book, lines);
            && (r.Ok? <==> LinesTake(db, book, lines))
            && (r.Ok? ==> AllFiledAs(db, book, lines, r.value))
            && (r.Err? ==> FirstRefused(db, book, lines, r.error))
  {
    hide LineAccepted, ResolveLines, LineTakes, FiledAs, AccountsOk, ResolveLine, LineError;
    ResolvesExactly(db, book, lines);
    forall i | 0 <= i < |lines|
      ensures LineTakes(db, book, lines[i]) <==> LineAccepted(db, book, lines[i])
      ensures LineAccepted(db, book, lines[i]) ==> FiledAs(db, book, lines[i], Accepted(db, book, lines[i]))
      ensures !LineTakes(db, book, lines[i]) ==> ResolveLine(db, book, lines[i]) == Err(LineError(db, book, lines[i]))
    {
      TakesIsAccepted(db, book, lines[i]);
      RefusalOfLine(db, book, lines[i]);
    }
  }

  /** Why a line is refused: no such account, one that takes no postings, another currency, no amount. */
  ghost function LineError(db: Db, book: nat, l: LineInput): Error {
    if !exists a: nat :: Refers(db, book, l.account, a) then NotFound
    else if !exists a: nat :: Refers(db, book, l.account, a) && AccountTakes(db, book, a) then Validation
    else if l.currency.Some? && l.currency.value != "USD" then UnsupportedCurrency
    else Validation
  }

  lemma RefusalOfLine(db: Db, book: nat, l: LineInput)
    requires AccountsOk(db) && BookTakes(db, book)
    ensures !LineTakes(db, book, l) ==> ResolveLine(db, book, l) == Err(LineError(db, book, l))
  {
    hide ResolveAccount, Refers, AccountsOk;
    RefersExactly(db, book, l.account);
    var found := ResolveAccount(db, book, l.account);
    if found.Some? {
      assert Refers(db, book, l.account, found.value);
      ReferredIsThere(db, book, l.account, found.value);
    }
  }

  lemma ReferredIsThere(db: Db, book: nat, ref: AccountRef, a: nat)
    requires Refers(db, book, ref, a)
    ensures a < |db.accounts|
  {
  }

  ghost predicate FirstRefused(db: Db, book: nat, lines: seq<LineInput>, error: Error) {
    exists i :: && 0 <= i < |lines| && !LineTakes(db, book, lines[i]) && error == LineError(db, book, lines[i])
                && forall j :: 0 <= j < i ==> LineTakes(db, book, lines[j])
  }

  lemma DimensionsAgree(db: Db, book: nat, lines: seq<LineInput>, out: seq<Line>)
    requires AllFiledAs(db, book, lines, out)
    ensures DimensionsGiven(db, book, lines) <==> CarriesRequired(db, book, out)
  {
    hide Refers;
    forall i | 0 <= i < |lines| ensures out[i].dimensions == lines[i].dimensions {
      assert FiledAs(db, book, lines[i], out[i]);
    }
    CarriedIsFiled(db, book, out);
    assert DimensionsGiven(db, book, lines) <==> DimensionsFiled(db, book, out);
  }

  lemma CarriedIsFiled(db: Db, book: nat, lines: seq<Line>)
    ensures CarriesRequired(db, book, lines) <==> DimensionsFiled(db, book, lines)
  {
    if DimensionsFiled(db, book, lines) {
      forall i, r | 0 <= i < |lines| && r in db.required && r.0 == book ensures r.1 in lines[i].dimensions {
        assert (book, r.1) in db.required;
      }
    }
  }

  lemma FiledLinesAreDollars(db: Db, book: nat, lines: seq<LineInput>, out: seq<Line>)
    requires AllFiledAs(db, book, lines, out)
    ensures forall i :: 0 <= i < |out| ==> out[i].currency == out[i].functionalCurrency == "USD" && out[i].functionalAmount == out[i].amount
  {
    hide Refers;
    assert forall i :: 0 <= i < |out| ==> FiledAs(db, book, lines[i], out[i]);
  }

  lemma KeyFound(db: Db, key: PostingKey)
    ensures FindKey(db.entries, key).Some? <==> KeyTaken(db, Some(key))
  {
  }

  // ----- postEntry -----

  /** Which refusal comes first. */
  ghost predicate PostRefused(db: Db, input: EntryInput, allow: bool, error: Error) {
    if input.lines == [] then error == Validation
    else if input.book.None? then error == BookRouting
    else
      var book := input.book.value;
      if book >= |db.books| then error == NotFound
      else if !db.books[book].active then error == Validation
      else if db.books[book].currency != "USD" then error == UnsupportedCurrency
      else if !LinesTake(db, book, input.lines) then FirstRefused(db, book, input.lines, error)
      else if |input.lines| < 2 || Total(input.lines, Asked()) != 0 then error == Unbalanced
      else if !DimensionsGiven(db, book, input.lines) then error == Validation
      else if !SomePeriodTakes(db, book, input.date, allow) then error == PeriodClosed
      else if !NumberLeft(db, book) then error == Conflict
      else error == Validation
  }

  /** What the resolved lines are worth to the later guards. */
  lemma LinesJudged(db: Db, book: nat, lines: seq<LineInput>)
    requires AccountsOk(db) && BookTakes(db, book) && ResolveLines(db, book, lines).Ok?
    ensures var out := ResolveLines(db, book, lines).value;
            && LinesTake(db, book, lines) && AllFiledAs(db, book, lines, out)
            && (Balanced(out) <==> |lines| >= 2 && Total(lines, Asked()) == 0)
            && (CarriesRequired(db, book, out) <==> DimensionsGiven(db, book, lines))
  {
    hide Balanced, CarriesRequired, ResolveLines, LinesTake, AllFiledAs, DimensionsGiven;
    var out := ResolveLines(db, book, lines).value;
    ResolvesTo(db, book, lines);
    FiledLinesAreDollars(db, book, lines, out);
    BalancedIsZeroSum(out);
    AskedIsFiled(db, book, lines, out);
    DimensionsAgree(db, book, lines, out);
  }

  /**
   * `postEntry`: with lines and a key an entry carries, that entry, and nothing changes; else a fresh entry
   * exactly when everything asked for is in order, holding exactly what was given; else the first refusal.
   */
  lemma PostAnswers(db: Db, input: EntryInput, allow: bool)
    requires Inv(db)
    ensures var r, after := Decide(db, PostEntry(input, allow)), Apply(db, PostEntry(input, allow));
            if input.lines != [] && KeyTaken(db, input.header.key) then
              && r.Ok? && r.value.reused && r.value.id < |db.entries| && db.entries[r.value.id].header.key == input.header.key
              && after == db
            else
              && (r.Ok? <==> PostTakes(db, input, allow))
              && (r.Ok? ==> !r.value.reused && r.value.id == |db.entries| && PostedAs(db, after, input, allow))
              && (r.Err? ==> after == db && PostRefused(db, input, allow, r.error))
  {
    hide Balanced, CarriesRequired, ResolveLines, TakeStamp, LinesTake, AllFiledAs, DimensionsGiven, FirstRefused, SomePeriodTakes,
         PeriodTakes, AccountsOk, PeriodsOk, BooksOk, LinesOk, StampsOk, NumbersOk, KeysOk, ReversalsOk, FindKey;
    if input.header.key.Some? {
      KeyFound(db, input.header.key.value);
    }
    if input.book.Some? && BookTakes(db, input.book.value) {
      var book := input.book.value;
      ResolvesTo(db, book, input.lines);
      StampTaken(db, book, input.date, allow);
      if ResolveLines(db, book, input.lines).Ok? {
        LinesJudged(db, book, input.lines);
      }
    }
  }

  /** One entry more, with the input's book, date and header, its lines in their places, stamped in. */
  ghost predicate PostedAs(db: Db, after: Db, input: EntryInput, allow: bool) {
    && OneMore(db, after) && input.book.Some? && OnlyCounts(db, after, input.book.value)
    && var e := after.entries[|db.entries|];
       && e.book == input.book.value && e.date == input.date && e.header == input.header && e.reverses == None
       && AllFiledAs(db, e.book, input.lines, e.lines) && StampedIn(db, e, allow)
  }

  // ----- createDraft -----

  ghost predicate DraftTakes(db: Db, input: EntryInput) {
    && input.lines != [] && input.book.Some? && BookTakes(db, input.book.value)
    && LinesTake(db, input.book.value, input.lines) && NamesVersion(input.header) && !KeyTaken(db, input.header.key)
  }

  ghost predicate DraftRefused(db: Db, input: EntryInput, error: Error) {
    if input.lines == [] then error == Validation
    else if input.book.None? then error == BookRouting
    else
      var book := input.book.value;
      if book >= |db.books| then error == NotFound
      else if !db.books[book].active then error == Validation
      else if db.books[book].currency != "USD" then error == UnsupportedCurrency
      else if !LinesTake(db, book, input.lines) then FirstRefused(db, book, input.lines, error)
      else if !NamesVersion(input.header) then error == Validation
      else error == Conflict
  }

  /** Nothing but the entries changed. */
  ghost predicate OnlyEntries(db: Db, after: Db) {
    after.books == db.books && after.accounts == db.accounts && after.periods == db.periods && after.required == db.required
  }

  /** An entry not in the books: no number, period or flag. */
  ghost predicate Unstamped(e: Entry) {
    e.number.None? && e.period.None? && !e.backdated
  }

  /** `createDraft`: the same without balance, dimensions, period or number; a taken key is refused here. */
  lemma DraftAnswers(db: Db, input: EntryInput)
    requires Inv(db)
    ensures var r, after := Decide(db, CreateDraft(input)), Apply(db, CreateDraft(input));
            && (r.Ok? <==> DraftTakes(db, input))
            && (r.Ok? ==> && !r.value.reused && r.value.id == |db.entries| && OneMore(db, after) && OnlyEntries(db, after)
                          && var e := after.entries[|db.entries|];
                             && e.book == input.book.value && e.date == input.date && e.header == input.header
                             && e.reverses == None && e.status == Draft && Unstamped(e)
                             && AllFiledAs(db, e.book, input.lines, e.lines))
            && (r.Err? ==> after == db && DraftRefused(db, input, r.error))
  {
    hide Balanced, ResolveLines, LinesTake, AllFiledAs, FirstRefused, AccountsOk, PeriodsOk, BooksOk, LinesOk, StampsOk, NumbersOk, KeysOk,
         ReversalsOk, FindKey;
    if input.header.key.Some? {
      KeyFound(db, input.header.key.value);
    }
    if input.book.Some? && BookTakes(db, input.book.value) {
      ResolvesTo(db, input.book.value, input.lines);
    }
  }

  // ----- postDraft -----

  ghost predicate IsDraft(db: Db, id: nat) {
    id < |db.entries| && db.entries[id].status == Draft
  }

  ghost predicate ZeroSum(lines: seq<Line>) {
    |lines| >= 2 && Total(lines, Filed()) == 0
  }

  ghost predicate PostDraftTakes(db: Db, id: nat, allow: bool) {
    && IsDraft(db, id) && BookTakes(db, db.entries[id].book) && ZeroSum(db.entries[id].lines)
    && DimensionsFiled(db, db.entries[id].book, db.entries[id].lines)
    && SomePeriodTakes(db, db.entries[id].book, db.entries[id].date, allow) && NumberLeft(db, db.entries[id].book)
  }

  ghost predicate PostDraftRefused(db: Db, id: nat, allow: bool, error: Error) {
    if id >= |db.entries| then error == NotFound
    else if db.entries[id].status != Draft then error == Immutable
    else
      var e := db.entries[id];
      if e.book >= |db.books| then error == NotFound
      else if !db.books[e.book].active then error == Validation
      else if db.books[e.book].currency != "USD" then error == UnsupportedCurrency
      else if !ZeroSum(e.lines) then error == Unbalanced
      else if !DimensionsFiled(db, e.book, e.lines) then error == Validation
      else if !SomePeriodTakes(db, e.book, e.date, allow) then error == PeriodClosed
      else error == Conflict
  }

  lemma LinesAreDollars(db: Db, id: nat)
    requires LinesOk(db) && id < |db.entries| && BookTakes(db, db.entries[id].book)
    ensures var lines := db.entries[id].lines;
            forall i :: 0 <= i < |lines| ==> lines[i].currency == lines[i].functionalCurrency == "USD" && lines[i].functionalAmount == lines[i].amount
  {
    assert LinesFit(db, db.entries[id]);
  }

  /** `postDraft`: a draft that sums to zero, in an open period, is stamped in as it stands. */
  lemma PostDraftAnswers(db: Db, id: nat, allow: bool)
    requires Inv(db)
    ensures var r, after := Decide(db, PostDraft(id, allow)), Apply(db, PostDraft(id, allow));
            && (r.Ok? <==> PostDraftTakes(db, id, allow))
            && (r.Ok? ==> && !r.value.reused && r.value.id == id && AllBut(db, after, id) && OnlyCounts(db, after, db.entries[id].book)
                          && var e, d := after.entries[id], db.entries[id];
                             && e.book == d.book && e.date == d.date && e.header == d.header && e.reverses == d.reverses && e.lines == d.lines
                             && StampedIn(db, e, allow))
            && (r.Err? ==> after == db && PostDraftRefused(db, id, allow, r.error))
  {
    hide Balanced, CarriesRequired, TakeStamp, DimensionsFiled, SomePeriodTakes, PeriodTakes, AccountsOk, PeriodsOk, BooksOk, LinesOk,
         StampsOk, NumbersOk, KeysOk, ReversalsOk;
    if id < |db.entries| && BookTakes(db, db.entries[id].book) {
      var d := db.entries[id];
      LinesAreDollars(db, id);
      BalancedIsZeroSum(d.lines);
      CarriedIsFiled(db, d.book, d.lines);
      StampTaken(db, d.book, d.date, allow);
    }
  }

  /** `voidDraft`: a draft becomes void, a void entry stays so, any other entry refuses. */
  lemma VoidAnswers(db: Db, id: nat)
    ensures var r, after := Decide(db, VoidDraft(id)), Apply(db, VoidDraft(id));
            && (r.Ok? <==> id < |db.entries| && (db.entries[id].status == Draft || db.entries[id].status == Void))
            && (r.Ok? ==> && r.value.id == id && r.value.reused == (db.entries[id].status == Void)
                          && AllBut(db, after, id) && OnlyEntries(db, after) && after.entries[id] == db.entries[id].(status := Void))
            && (r.Err? ==> after == db && r.error == if id < |db.entries| then Immutable else NotFound)
  {
  }

  // ----- reverseEntry -----

  /** The line with its two amounts turned round. */
  ghost predicate Mirrors(l: Line, out: Line) {
    && out.account == l.account && out.entity == l.entity && out.dimensions == l.dimensions
    && out.currency == l.currency && out.functionalCurrency == l.functionalCurrency
    && out.amount == -l.amount && out.functionalAmount == -l.functionalAmount
  }

  ghost predicate AllMirror(lines: seq<Line>, out: seq<Line>) {
    |out| == |lines| && forall i :: 0 <= i < |lines| ==> Mirrors(lines[i], out[i])
  }

  ghost predicate DerivedKey(key: Option<PostingKey>, derived: Option<PostingKey>) {
    if key.None? then derived.None? else derived == Some(RevKey(key.value))
  }

  function ReversalDate(e: Entry, date: Option<Day>): Day {
    if date.Some? then date.value else e.date
  }

  ghost predicate DerivedTaken(db: Db, key: Option<PostingKey>) {
    key.Some? && KeyTaken(db, Some(RevKey(key.value)))
  }

  ghost predicate ReverseTakes(db: Db, id: nat, date: Option<Day>, allow: bool) {
    && id < |db.entries| && db.entries[id].status == Posted && db.entries[id].reverses.None?
    && BookTakes(db, db.entries[id].book) && SomePeriodTakes(db, db.entries[id].book, ReversalDate(db.entries[id], date), allow)
    && NumberLeft(db, db.entries[id].book) && !DerivedTaken(db, db.entries[id].header.key)
  }

  ghost predicate ReverseRefused(db: Db, id: nat, date: Option<Day>, allow: bool, error: Error) {
    if id >= |db.entries| then error == NotFound
    else
      var e := db.entries[id];
      if e.status == Draft || e.status == Void || e.reverses.Some? then error == Immutable
      else if e.book >= |db.books| then error == NotFound
      else if !db.books[e.book].active then error == Validation
      else if db.books[e.book].currency != "USD" then error == UnsupportedCurrency
      else if !SomePeriodTakes(db, e.book, ReversalDate(e, date), allow) then error == PeriodClosed
      else error == Conflict
  }

  /** The original is marked and nothing else of it changes; the reversal mirrors it under its own date and the derived key. */
  ghost predicate ReversedAs(db: Db, after: Db, id: nat, date: Option<Day>, allow: bool)
    requires id < |db.entries|
  {
    var o := db.entries[id];
    && |after.entries| == |db.entries| + 1 && OnlyCounts(db, after, o.book)
    && (forall i :: 0 <= i < |db.entries| ==> after.entries[i] == if i == id then o.(status := Reversed) else db.entries[i])
    && var e := after.entries[|db.entries|];
       && e.book == o.book && e.date == ReversalDate(o, date) && e.reverses == Some(id)
       && e.header.source == o.header.source && e.header.version == o.header.version && e.header.fact == o.header.fact
       && e.header.fingerprint == o.header.fingerprint && DerivedKey(o.header.key, e.header.key)
       && AllMirror(o.lines, e.lines) && StampedIn(db, e, allow)
  }

  lemma EntryInBooks(db: Db, id: nat)
    requires LinesOk(db) && StampsOk(db) && id < |db.entries|
    ensures db.entries[id].book < |db.books|
    ensures InBooks(db.entries[id]) ==> db.entries[id].lines != []
  {
    assert LinesFit(db, db.entries[id]) && StampFits(db, db.entries[id]);
  }

  /**
   * `reverseEntry`: an entry reversed before gives the reversal there is, and nothing changes; else a posted
   * original whose chosen date and book take an entry is mirrored and marked.
   */
  lemma ReverseAnswers(db: Db, id: nat, date: Option<Day>, allow: bool)
    requires Inv(db)
    ensures var r, after := Decide(db, ReverseEntry(id, date, allow)), Apply(db, ReverseEntry(id, date, allow));
            if id < |db.entries| && db.entries[id].status == Reversed then
              && r.Ok? && r.value.reused && r.value.id < |db.entries| && db.entries[r.value.id].reverses == Some(id) && after == db
            else
              && (r.Ok? <==> ReverseTakes(db, id, date, allow))
              && (r.Ok? ==> !r.value.reused && r.value.id == |db.entries| && ReversedAs(db, after, id, date, allow))
              && (r.Err? ==> after == db && ReverseRefused(db, id, date, allow, r.error))
  {
    hide DecideReverse, ReverseTakes, ReverseRefused, ReversedAs, Inv, Commit;
    ReverseDecided(db, id, date, allow);
    var r := DecideReverse(db, id, date, allow);
    if r.Ok? && !r.value.reused {
      ReverseFiles(db, id, date, allow);
    } else {
      NothingCommitted(db);
    }
  }

  lemma NothingCommitted(db: Db)
    ensures Commit(db, Nothing) == db
  {
  }

  lemma ReverseDecided(db: Db, id: nat, date: Option<Day>, allow: bool)
    requires Inv(db)
    ensures var r := DecideReverse(db, id, date, allow);
            if id < |db.entries| && db.entries[id].status == Reversed then
              && r.Ok? && r.value.reused && r.value.id < |db.entries| && db.entries[r.value.id].reverses == Some(id) && r.value.change == Nothing
            else
              && (r.Ok? <==> ReverseTakes(db, id, date, allow)) && (r.Ok? ==> !r.value.reused && r.value.id == |db.entries|)
              && (r.Err? ==> ReverseRefused(db, id, date, allow, r.error))
  {
    hide TakeStamp, SomePeriodTakes, PeriodTakes, AccountsOk, PeriodsOk, BooksOk, LinesOk, StampsOk, NumbersOk, ReversalsOk, FindKey,
         FindReversal, Balanced, DerivedTaken, KeysOk, Negated, NumberLeft;
    if id < |db.entries| {
      EntryInBooks(db, id);
      HeaderNamesVersion(db, id);
      var e := db.entries[id];
      if InBooks(e) {
        ReversedOrNot(db, id);
        if e.status == Reversed {
          ReversedIsOriginal(db, id);
        }
      }
      if e.header.key.Some? {
        KeyFound(db, RevKey(e.header.key.value));
        DerivedFound(db, e.header.key.value);
      } else {
        NoKeyNoneDerived(db);
      }
      StampTaken(db, e.book, ReversalDate(e, date), allow);
    }
  }

  lemma ReverseFiles(db: Db, id: nat, date: Option<Day>, allow: bool)
    requires Inv(db) && DecideReverse(db, id, date, allow).Ok? && !DecideReverse(db, id, date, allow).value.reused
    ensures id < |db.entries| && ReversedAs(db, Commit(db, DecideReverse(db, id, date, allow).value.change), id, date, allow)
  {
    hide TakeStamp, PeriodTakes, AccountsOk, PeriodsOk, BooksOk, LinesOk, StampsOk, NumbersOk, ReversalsOk, KeysOk, FindReversal, CheckHeader,
         AllMirror, Negated;
    EntryInBooks(db, id);
    StampTaken(db, db.entries[id].book, ReversalDate(db.entries[id], date), allow);
    NegatedMirrors(db.entries[id].lines);
  }

  lemma NegatedMirrors(lines: seq<Line>)
    ensures AllMirror(lines, Negated(lines))
  {
  }

  lemma DerivedFound(db: Db, key: PostingKey)
    ensures DerivedTaken(db, Some(key)) <==> KeyTaken(db, Some(RevKey(key)))
  {
  }

  lemma NoKeyNoneDerived(db: Db)
    ensures !DerivedTaken(db, None)
  {
  }

  lemma HeaderNamesVersion(db: Db, id: nat)
    requires KeysOk(db) && id < |db.entries|
    ensures NamesVersion(db.entries[id].header)
  {
  }

  /** A reversed entry is no reversal: a reversal stays posted. */
  lemma ReversedIsOriginal(db: Db, id: nat)
    requires ReversalsOk(db) && id < |db.entries| && db.entries[id].status == Reversed
    ensures db.entries[id].reverses.None?
  {
    assert db.entries[id].reverses.Some? ==> IsReversal(db.entries, id);
  }

  // ----- Periods, chart, books -----

  /** Nothing but the periods changed. */
  ghost predicate OnlyPeriods(db: Db, after: Db) {
    after.books == db.books && after.accounts == db.accounts && after.entries == db.entries && after.required == db.required
  }

  ghost predicate OnlyAccounts(db: Db, after: Db) {
    after.books == db.books && after.periods == db.periods && after.entries == db.entries && after.required == db.required
  }

  ghost predicate OnlyBooks(db: Db, after: Db) {
    after.accounts == db.accounts && after.periods == db.periods && after.entries == db.entries && after.required == db.required
  }

  /** `setStatus`: the status asked for, on that period only, unless the period is locked and asked for another. */
  lemma StatusAnswers(db: Db, id: nat, status: PeriodStatus)
    ensures var r, after := Decide(db, SetPeriodStatus(id, status)), Apply(db, SetPeriodStatus(id, status));
            && (r.Ok? <==> id < |db.periods| && (db.periods[id].status == Locked ==> status == Locked))
            && (r.Ok? ==> && r.value.id == id && r.value.reused == (db.periods[id].status == status) && OnlyPeriods(db, after)
                          && |after.periods| == |db.periods|
                          && forall p :: 0 <= p < |db.periods| ==> after.periods[p] == if p == id then db.periods[p].(status := status) else db.periods[p])
            && (r.Err? ==> after == db && r.error == if id < |db.periods| then Immutable else NotFound)
  {
  }

  ghost predicate SlotTaken(periods: seq<Period>, book: nat, year: int, n: nat) {
    exists p :: 0 <= p < |periods| && periods[p].book == book && periods[p].fiscalYear == year && periods[p].sequence == n
  }

  /** A new month: the `n`-th of the year, open, from its start to the day before the next one's. */
  ghost predicate IsNewMonth(db: Db, p: Period, book: nat, year: int, n: nat)
    requires book < |db.books|
  {
    var start := FiscalYearStart(year, db.books[book].anchor);
    && n >= 1 && p.book == book && p.fiscalYear == year && p.sequence == n && p.status == Open
    && p.startsOn == AddMonths(start, n - 1) && p.endsOn == PreviousDay(AddMonths(start, n))
  }

  /** The periods after a generation: the old ones, then each month from 1 to `count` that was missing, once. */
  ghost predicate GeneratedAs(db: Db, after: seq<Period>, book: nat, year: int, count: nat)
    requires book < |db.books|
  {
    && db.periods <= after
    && (forall p :: |db.periods| <= p < |after| ==>
          1 <= after[p].sequence <= count && !SlotTaken(db.periods, book, year, after[p].sequence) && IsNewMonth(db, after[p], book, year, after[p].sequence))
    && (forall p, q :: |db.periods| <= p < q < |after| ==> after[p].sequence < after[q].sequence)
    && (forall n: nat :: 1 <= n <= count ==> SlotTaken(after, book, year, n))
  }

  lemma {:induction false} NewMonths(db: Db, book: nat, year: int, count: nat, added: seq<Period>)
    requires book < |db.books| && NewPeriods(db.periods, book, year, count, db.books[book].anchor) == Ok(added)
    ensures GeneratedAs(db, db.periods + added, book, year, count)
  {
    hide GeneratedAs, Generated, Overlaps, SlotTaken, SameSlot;
    var a := db.books[book].anchor;
    if count == 0 {
      assert db.periods + [] == db.periods;
      NoMonths(db, book, year);
    } else {
      var init := NewPeriods(db.periods, book, year, count - 1, a).value;
      NewMonths(db, book, year, count - 1, init);
      var p := Generated(book, year, count - 1, a);
      MonthIs(db, p, book, year, count);
      SlotIs(db.periods + init, p, book, year, count);
      if exists q :: q in db.periods + init && SameSlot(p, q) {
        SkippedMonth(db, db.periods + init, book, year, count);
      } else {
        assert db.periods + (init + [p]) == (db.periods + init) + [p];
        AddedMonth(db, db.periods + init, p, book, year, count);
      }
    }
  }

  lemma NoMonths(db: Db, book: nat, year: int)
    requires book < |db.books|
    ensures GeneratedAs(db, db.periods, book, year, 0)
  {
  }

  lemma SlotIs(periods: seq<Period>, p: Period, book: nat, year: int, n: nat)
    requires p.book == book && p.fiscalYear == year && p.sequence == n
    ensures (exists q :: q in periods && SameSlot(p, q)) <==> SlotTaken(periods, book, year, n)
  {
    if SlotTaken(periods, book, year, n) {
      var k :| 0 <= k < |periods| && periods[k].book == book && periods[k].fiscalYear == year && periods[k].sequence == n;
      assert periods[k] in periods && SameSlot(p, periods[k]);
    }
  }

  lemma SkippedMonth(db: Db, before: seq<Period>, book: nat, year: int, count: nat)
    requires book < |db.books| && count >= 1 && GeneratedAs(db, before, book, year, count - 1) && SlotTaken(before, book, year, count)
    ensures GeneratedAs(db, before, book, year, count)
  {
    hide IsNewMonth, SlotTaken;
  }

  lemma AddedMonth(db: Db, before: seq<Period>, p: Period, book: nat, year: int, count: nat)
    requires book < |db.books| && count >= 1 && GeneratedAs(db, before, book, year, count - 1) && !SlotTaken(before, book, year, count)
    requires IsNewMonth(db, p, book, year, count)
    ensures GeneratedAs(db, before + [p], book, year, count)
  {
    hide IsNewMonth, SlotTaken;
    NewMonthIs(db, p, book, year, count);
    OneMoreSlot(before, p, book, year);
    NotTakenBefore(db.periods, before, book, year, count);
  }

  lemma NewMonthIs(db: Db, p: Period, book: nat, year: int, n: nat)
    requires book < |db.books| && IsNewMonth(db, p, book, year, n)
    ensures p.book == book && p.fiscalYear == year && p.sequence == n
  {
  }

  lemma NotTakenBefore(periods: seq<Period>, more: seq<Period>, book: nat, year: int, n: nat)
    requires periods <= more && !SlotTaken(more, book, year, n)
    ensures !SlotTaken(periods, book, year, n)
  {
    forall k | 0 <= k < |periods| ensures periods[k] == more[k] {
    }
  }

  lemma OneMoreSlot(periods: seq<Period>, p: Period, book: nat, year: int)
    requires p.book == book && p.fiscalYear == year
    ensures forall n: nat :: SlotTaken(periods, book, year, n) || n == p.sequence ==> SlotTaken(periods + [p], book, year, n)
  {
    forall n: nat | SlotTaken(periods, book, year, n) || n == p.sequence ensures SlotTaken(periods + [p], book, year, n) {
      if SlotTaken(periods, book, year, n) {
        var k :| 0 <= k < |periods| && periods[k].book == book && periods[k].fiscalYear == year && periods[k].sequence == n;
        assert (periods + [p])[k] == periods[k];
      } else {
        assert (periods + [p])[|periods|] == p;
      }
    }
  }

  lemma MonthIs(db: Db, p: Period, book: nat, year: int, count: nat)
    requires book < |db.books| && count >= 1 && p == Generated(book, year, count - 1, db.books[book].anchor)
    ensures IsNewMonth(db, p, book, year, count)
  {
  }

  /** `generateFiscalYear`: the missing months of a year from 1900 to 9999; a reachable ledger never refuses them. */
  lemma GenerateAnswers(db: Db, book: nat, year: int, count: nat)
    requires Inv(db)
    ensures var r, after := Decide(db, GenerateFiscalYear(book, year, count)), Apply(db, GenerateFiscalYear(book, year, count));
            && (r.Ok? <==> 1900 <= year <= 9999 && 1 <= count <= 12 && book < |db.books|)
            && (r.Ok? ==> && OnlyPeriods(db, after) && GeneratedAs(db, after.periods, book, year, count)
                          && r.value.id == |after.periods| - |db.periods| && r.value.reused == (r.value.id == 0))
            && (r.Err? ==> after == db && r.error == if 1900 <= year <= 9999 && 1 <= count <= 12 then NotFound else Validation)
  {
    hide NewPeriods, AccountsOk, PeriodsOk, BooksOk, LinesOk, StampsOk, NumbersOk, KeysOk, ReversalsOk, GeneratedAs;
    if 1900 <= year <= 9999 && 1 <= count <= 12 && book < |db.books| {
      GenerationNeverConflicts(db, book, year, count);
      NewMonths(db, book, year, count, NewPeriods(db.periods, book, year, count, db.books[book].anchor).value);
    }
  }

  /** `createBook`: active, at number one, with the currency and anchor given. */
  lemma BookAnswers(db: Db, currency: string, anchor: Anchor)
    ensures var r, after := Decide(db, CreateBook(currency, anchor)), Apply(db, CreateBook(currency, anchor));
            && (r.Ok? <==> 1 <= anchor.month <= 12 && 1 <= anchor.day <= 31 && currency == "USD")
            && (r.Ok? ==> r.value.id == |db.books| && !r.value.reused && OnlyBooks(db, after) && after.books == db.books + [Book(true, currency, anchor, 1)])
            && (r.Err? ==> after == db
                           && r.error == if 1 <= anchor.month <= 12 && 1 <= anchor.day <= 31 then UnsupportedCurrency else Validation)
  {
  }

  lemma ArchiveAnswers(db: Db, book: nat)
    ensures var r, after := Decide(db, ArchiveBook(book)), Apply(db, ArchiveBook(book));
            && (r.Ok? <==> book < |db.books|)
            && (r.Ok? ==> && r.value.id == book && r.value.reused == !db.books[book].active && OnlyBooks(db, after)
                          && |after.books| == |db.books|
                          && forall b :: 0 <= b < |db.books| ==> after.books[b] == if b == book then db.books[b].(active := false) else db.books[b])
            && (r.Err? ==> after == db && r.error == NotFound)
  {
  }

  ghost predicate CodeTaken(db: Db, book: nat, code: string) {
    exists a :: 0 <= a < |db.accounts| && db.accounts[a].book == book && db.accounts[a].code == code
  }

  ghost predicate HandleTaken(db: Db, book: nat, key: Option<string>) {
    key.Some? && exists a :: 0 <= a < |db.accounts| && db.accounts[a].book == book && db.accounts[a].systemKey == key
  }

  /** `createAccount`: the account as given, active; its code and system key are new in the book, its parent of the book. */
  lemma AccountAnswers(db: Db, book: nat, code: string, kind: AccountType, postable: bool, key: Option<string>, parent: Option<nat>)
    ensures var op := CreateAccount(book, code, kind, postable, key, parent);
            var r, after := Decide(db, op), Apply(db, op);
            && (r.Ok? <==> && book < |db.books| && (parent.Some? ==> parent.value < |db.accounts| && db.accounts[parent.value].book == book)
                           && !CodeTaken(db, book, code) && !HandleTaken(db, book, key))
            && (r.Ok? ==> && r.value.id == |db.accounts| && !r.value.reused && OnlyAccounts(db, after)
                          && after.accounts == db.accounts + [Account(book, code, kind, postable, true, key, parent)])
            && (r.Err? ==> after == db
                           && r.error == if book >= |db.books| || (parent.Some? && parent.value >= |db.accounts|) then NotFound
                                         else if parent.Some? && db.accounts[parent.value].book != book then Validation
                                         else Conflict)
  {
  }

  ghost predicate OneAccount(db: Db, after: Db, id: nat, a: Account) {
    && OnlyAccounts(db, after) && |after.accounts| == |db.accounts|
    && forall i :: 0 <= i < |db.accounts| ==> after.accounts[i] == if i == id then a else db.accounts[i]
  }

  ghost predicate HasLines(db: Db, id: nat) {
    exists i, j :: 0 <= i < |db.entries| && 0 <= j < |db.entries[i].lines| && db.entries[i].lines[j].account == id
  }

  lemma PostableAnswers(db: Db, id: nat, postable: bool)
    ensures var r, after := Decide(db, UpdatePostable(id, postable)), Apply(db, UpdatePostable(id, postable));
            && (r.Ok? <==> id < |db.accounts| && (HasLines(db, id) ==> postable))
            && (r.Ok? ==> r.value.id == id && OneAccount(db, after, id, db.accounts[id].(postable := postable)))
            && (r.Err? ==> after == db && r.error == if id < |db.accounts| then Validation else NotFound)
  {
  }

  lemma ActiveAnswers(db: Db, id: nat, active: bool)
    ensures var r, after := Decide(db, UpdateActive(id, active)), Apply(db, UpdateActive(id, active));
            && (r.Ok? <==> id < |db.accounts| && (db.accounts[id].systemKey.Some? ==> active))
            && (r.Ok? ==> r.value.id == id && r.value.reused == (db.accounts[id].active == active) && OneAccount(db, after, id, db.accounts[id].(active := active)))
            && (r.Err? ==> after == db && r.error == if id < |db.accounts| then Immutable else NotFound)
  {
  }

  /** Opening a book: the book, and with periods asked for, the twelve months of the fiscal year of its opening day if the year can be generated. */
  lemma OpenAnswers(db: Db, currency: string, anchor: Anchor, openedOn: Day, generate: bool)
    requires Inv(db)
    ensures var after, year := LedgerService.Opened(db, currency, anchor, openedOn, generate), FiscalYearFor(openedOn, anchor);
            if !(1 <= anchor.month <= 12 && 1 <= anchor.day <= 31 && currency == "USD") then after == db
            else
              var withBook := db.(books := db.books + [Book(true, currency, anchor, 1)]);
              && OnlyPeriods(withBook, after)
              && if generate && 1900 <= year <= 9999 then GeneratedAs(withBook, after.periods, |db.books|, year, 12) else after.periods == db.periods
  {
    hide Inv, Decide, Apply, GeneratedAs, FiscalYearFor;
    var op := CreateBook(currency, anchor);
    var withBook := Apply(db, op);
    StepKeeps(db, op);
    BookAnswers(db, currency, anchor);
    GenerateAnswers(withBook, |db.books|, FiscalYearFor(openedOn, anchor), 12);
    OpenedIs(db, currency, anchor, openedOn, generate);
  }

  lemma OpenedIs(db: Db, currency: string, anchor: Anchor, openedOn: Day, generate: bool)
    ensures var withBook, year := Apply(db, CreateBook(currency, anchor)), FiscalYearFor(openedOn, anchor);
            LedgerService.Opened(db, currency, anchor, openedOn, generate)
            == if generate && Decide(db, CreateBook(currency, anchor)).Ok? then Apply(withBook, GenerateFiscalYear(|db.books|, year, 12)) else withBook
  {
    hide Apply;
  }
}
