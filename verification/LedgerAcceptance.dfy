/** Exactly when the journal's transactions succeed: each guard, and no other. */
module LedgerAcceptance {
  import opened Prelude
  import opened Calendar
  import opened Ledger
  import opened LedgerInvariants

  /** A line resolves: its account exists in the book, takes postings, and the amount is in the book's currency. */
  predicate LineAccepted(db: Db, book: nat, l: LineInput)
    requires book < |db.books|
  {
    var found := ResolveAccount(db, book, l.account);
    && found.Some? && found.value < |db.accounts|
    && var account := db.accounts[found.value];
       && account.book == book && account.postable && account.active && l.amount != 0
       && SupportedCurrency(db.books[book].currency)
       && (l.currency.Some? ==> l.currency.value == db.books[book].currency)
  }

  function Accepted(db: Db, book: nat, l: LineInput): Line
    requires book < |db.books| && LineAccepted(db, book, l)
  {
    var currency := db.books[book].currency;
    Line(ResolveAccount(db, book, l.account).value, l.entity, currency, l.amount, currency, l.amount, l.dimensions)
  }

  lemma LineResolvesExactly(db: Db, book: nat, l: LineInput)
    requires book < |db.books|
    ensures ResolveLine(db, book, l).Ok? <==> LineAccepted(db, book, l)
    ensures LineAccepted(db, book, l) ==> ResolveLine(db, book, l) == Ok(Accepted(db, book, l))
  {
  }

  /** All lines resolve exactly when each does, each in its place; otherwise the first refusal is the error. */
  lemma {:induction false} ResolvesExactly(db: Db, book: nat, lines: seq<LineInput>)
    requires book < |db.books|
    ensures var r := ResolveLines(db, book, lines);
            && (r.Ok? <==> forall i :: 0 <= i < |lines| ==> LineAccepted(db, book, lines[i]))
            && (r.Ok? ==> forall i :: 0 <= i < |lines| ==> r.value[i] == Accepted(db, book, lines[i]))
            && (r.Err? ==> exists i :: && 0 <= i < |lines| && !LineAccepted(db, book, lines[i])
                                       && r.error == ResolveLine(db, book, lines[i]).error
                                       && forall j :: 0 <= j < i ==> LineAccepted(db, book, lines[j]))
  {
    hide LineAccepted, ResolveLine;
    if lines != [] {
      var k := |lines| - 1;
      ResolvesExactly(db, book, lines[..k]);
      LineResolvesExactly(db, book, lines[k]);
    }
  }

  /** The period of the date takes the posting, flagged or not, and the book has a number to give. */
  predicate PeriodAccepts(db: Db, book: nat, date: Day, allowBackdated: bool) {
    var p := FindPeriod(db.periods, book, date);
    && p.Some? && p.value < |db.periods| && book < |db.books| && Usable(db.books[book].nextNumber)
    && (db.periods[p.value].status == Open || (db.periods[p.value].status == SoftClosed && allowBackdated))
  }

  predicate BookAccepts(db: Db, book: nat) {
    book < |db.books| && db.books[book].active && SupportedCurrency(db.books[book].currency)
  }

  predicate HeaderAccepted(db: Db, h: Header) {
    (h.source == PostingRule <==> h.version.Some?) && (h.key.Some? ==> FindKey(db.entries, h.key.value).None?)
  }

  lemma StampExactly(db: Db, book: nat, date: Day, allowBackdated: bool)
    requires book < |db.books|
    ensures TakeStamp(db, book, date, allowBackdated).Ok? <==> PeriodAccepts(db, book, date, allowBackdated)
    ensures PeriodAccepts(db, book, date, allowBackdated) ==>
              var p := FindPeriod(db.periods, book, date).value;
              TakeStamp(db, book, date, allowBackdated)
              == Ok(Stamp(p, db.periods[p].status == SoftClosed, db.books[book].nextNumber))
  {
  }

  /**
   * A posting files a fresh entry exactly when its key is new, its book is routed, active and
   * supported, every line resolves, they balance and carry the required dimensions, the period
   * takes the date, and only a rule's entry names a version.
   */
  lemma PostsFreshExactly(db: Db, input: EntryInput, allowBackdated: bool)
    ensures (DecidePost(db, input, allowBackdated).Ok? && !DecidePost(db, input, allowBackdated).value.reused)
            <==> && input.lines != [] && HeaderAccepted(db, input.header)
                 && input.book.Some? && BookAccepts(db, input.book.value)
                 && (forall i :: 0 <= i < |input.lines| ==> LineAccepted(db, input.book.value, input.lines[i]))
                 && var lines := seq(|input.lines|, i requires 0 <= i < |input.lines| => Accepted(db, input.book.value, input.lines[i]));
                    && Balanced(lines) && CarriesRequired(db, input.book.value, lines)
                    && PeriodAccepts(db, input.book.value, input.date, allowBackdated)
  {
    hide Balanced, CarriesRequired, LineAccepted, Accepted, ResolveLines, TakeStamp, PeriodAccepts;
    if input.book.Some? && input.book.value < |db.books| {
      var book := input.book.value;
      ResolvesExactly(db, book, input.lines);
      StampExactly(db, book, input.date, allowBackdated);
      if ResolveLines(db, book, input.lines).Ok? {
        assert ResolveLines(db, book, input.lines).value
               == seq(|input.lines|, i requires 0 <= i < |input.lines| => Accepted(db, book, input.lines[i]));
      }
    }
  }

  /** And it reuses an entry exactly when it has lines and one carries its key. */
  lemma PostReusesExactly(db: Db, input: EntryInput, allowBackdated: bool)
    ensures (DecidePost(db, input, allowBackdated).Ok? && DecidePost(db, input, allowBackdated).value.reused)
            <==> input.lines != [] && input.header.key.Some?
                 && exists i :: 0 <= i < |db.entries| && db.entries[i].header.key == input.header.key
  {
    hide Balanced, CarriesRequired, ResolveLines, TakeStamp, CheckHeader;
  }

  /**
   * In a reachable ledger a reversal succeeds exactly on an entry that is in the books and is not
   * itself a reversal, and that either has been reversed already or whose book and chosen period
   * take a posting and whose reversal key is free.
   */
  lemma ReversesExactly(db: Db, id: nat, date: Option<Day>, allowBackdated: bool)
    requires Inv(db) && id < |db.entries|
    ensures DecideReverse(db, id, date, allowBackdated).Ok?
            <==> && InBooks(db.entries[id]) && db.entries[id].reverses.None?
                 && (db.entries[id].status == Reversed
                     || (&& BookAccepts(db, db.entries[id].book)
                         && PeriodAccepts(db, db.entries[id].book, if date.Some? then date.value else db.entries[id].date, allowBackdated)
                         && HeaderAccepted(db, ReversalHeader(db.entries[id].header))))
  {
    hide PeriodAccepts, TakeStamp, AccountsOk, PeriodsOk, LinesOk, NumbersOk, Negated;
    var e := db.entries[id];
    assert StampFits(db, e);
    if InBooks(e) && e.reverses.None? {
      ReversedOrNot(db, id);
      assert e.lines != [] by { BalancedHasLines(e.lines); }
      if e.book < |db.books| {
        StampExactly(db, e.book, if date.Some? then date.value else e.date, allowBackdated);
      }
    }
  }

  lemma BalancedHasLines(lines: seq<Line>)
    requires Balanced(lines)
    ensures lines != []
  {
  }

  lemma ReversedOrNot(db: Db, id: nat)
    requires ReversalsOk(db) && id < |db.entries| && InBooks(db.entries[id])
    ensures FindReversal(db.entries, id).Some? <==> db.entries[id].status == Reversed
  {
    hide Undoes;
    var r := FindReversal(db.entries, id);
    assert r.Some? ==> IsReversal(db.entries, r.value);
    assert db.entries[id].status == Reversed ==> IsReversed(db.entries, id);
  }
}
