/**
 * A concrete history on which the protocol fails to converge: an order synced at 100, re-synced at
 * 200, and re-synced at 100 again ends with nothing in the books, because the third posting finds
 * its own earlier, reversed entry under the same key.
 */
module ReturningFact {
  import opened Prelude
  import opened Sums
  import opened Rounding
  import opened Calendar
  import opened Facts
  import opened Ledger
  import opened Templates
  import opened PostingEngine
  import opened Convergence

  function OpenMonth(): Period {
    Period(0, 2026, 1, Date(2026, 1, 1), Date(2026, 1, 31), Open)
  }

  function ReceivableAccount(): Account {
    Account(0, "1200", Asset, true, true, None, None)
  }

  function RevenueAccount(): Account {
    Account(0, "4000", Revenue, true, true, None, None)
  }

  /** One book, two accounts, one open month, and the given entries. */
  function Example(entries: seq<Entry>, next: nat): Db {
    Db([Book(true, "USD", Anchor(1, 1), next)],
       [ReceivableAccount(), RevenueAccount()],
       [OpenMonth()], entries, {})
  }

  function DebitLine(): RuleLine {
    RuleLine(ById(0), TotalAmount, MICRO, true, None)
  }

  function CreditLine(): RuleLine {
    RuleLine(ById(1), TotalAmount, -MICRO, true, None)
  }

  function Rule(): ResolvedRule {
    ResolvedRule("order_total", 0, 1, {}, [DebitLine(), CreditLine()])
  }

  function Ref(): FactRef {
    FactRef(Order, 7)
  }

  /** An order of goods only, with every amount its reader supplies. */
  function Reading(amount: int): SourceFact {
    SourceFact(Ref(), Date(2026, 1, 15), None, "USD",
               map[TotalAmount := amount, Subtotal := amount, Net := amount, Shipping := 0, Discount := 0, Tax := 0,
                   Fee := 0, Refund := 0],
               map[Provider := "woocommerce", Channel := "web"], amount, [], false)
  }

  /** The reader can produce it: the identities hold, and there is nothing in the total beyond the components. */
  lemma ReadingIsReadable(amount: int)
    ensures ReaderShaped(Reading(amount)) && Gap(Reading(amount)) == 0
  {
  }

  /** The rule passes the save-time check. */
  lemma RuleIsAccepted()
    ensures Cancels(Order, Rule().lines) && Authorable(Order, Rule().lines)
  {
    hide Coefficient;
    var lines := Rule().lines;
    forall c: Component ensures Total(lines, LineCoefficient(Order, c)) == 0 {
      TotalOfTwo(lines[0], lines[1], LineCoefficient(Order, c));
    }
  }

  function Call(amount: int): Evaluation {
    Evaluation(Ref(), Some(Reading(amount)), Some(0), Some(Rule()), false)
  }

  function Built(amount: int): seq<BuiltLine> {
    [BuiltLine(ById(0), amount, None, None), BuiltLine(ById(1), -amount, None, None)]
  }

  function Posted2(amount: int): seq<Line> {
    [Line(0, None, "USD", amount, "USD", amount, map[]), Line(1, None, "USD", -amount, "USD", -amount, map[])]
  }

  lemma PlainSnoc(fact: SourceFact, init: seq<RuleLine>, l: RuleLine, built: seq<BuiltLine>)
    requires Plain(fact, init) == Ok(built) && l.source != Remainder && l.source in fact.amounts
    requires MulRound(fact.amounts[l.source], l.multiplier) != 0
    ensures Plain(fact, init + [l])
            == Ok(built + [TemplateLine(fact, l, MulRound(fact.amounts[l.source], l.multiplier))])
  {
    assert (init + [l])[..|init|] == init;
  }

  lemma NothingPlain(fact: SourceFact)
    ensures Plain(fact, []) == Ok([])
  {
  }

  lemma BuildsTwoLines(amount: int)
    requires amount > 0
    ensures BuildLines(Reading(amount), Rule()) == Ok(Built(amount))
  {
    hide MulRound, Plain;
    var fact := Reading(amount);
    MulRoundExact(amount, 1);
    MulRoundExact(amount, -1);
    NothingPlain(fact);
    PlainSnoc(fact, [], DebitLine(), []);
    assert [] + [DebitLine()] == [DebitLine()] && [] + [Built(amount)[0]] == [Built(amount)[0]];
    PlainSnoc(fact, [DebitLine()], CreditLine(), [Built(amount)[0]]);
    assert [DebitLine()] + [CreditLine()] == Rule().lines;
    assert [Built(amount)[0]] + [Built(amount)[1]] == Built(amount);
    assert Named(fact.allocations) == [];
    NoPlug(Rule().lines);
  }

  lemma ResolveSnoc(db: Db, init: seq<LineInput>, l: LineInput, lines: seq<Line>, line: Line)
    requires |db.books| > 0 && ResolveLines(db, 0, init) == Ok(lines) && ResolveLine(db, 0, l) == Ok(line)
    ensures ResolveLines(db, 0, init + [l]) == Ok(lines + [line])
  {
    assert (init + [l])[..|init|] == init;
  }

  lemma ResolvesEach(entries: seq<Entry>, next: nat, amount: int, k: nat)
    requires amount > 0 && k < 2
    ensures ResolveLine(Example(entries, next), 0, JournalLine(Reading(amount), Built(amount)[k])) == Ok(Posted2(amount)[k])
  {
  }

  lemma Resolves(entries: seq<Entry>, next: nat, amount: int)
    requires amount > 0
    ensures ResolveLines(Example(entries, next), 0, JournalLines(Reading(amount), Built(amount))) == Ok(Posted2(amount))
  {
    hide ResolveLine, ResolveLines, JournalLine;
    var db, inputs, lines := Example(entries, next), JournalLines(Reading(amount), Built(amount)), Posted2(amount);
    ResolvesEach(entries, next, amount, 0);
    ResolvesEach(entries, next, amount, 1);
    NothingResolves(db);
    ResolveSnoc(db, [], inputs[0], [], lines[0]);
    assert [] + [inputs[0]] == [inputs[0]] && [] + [lines[0]] == [lines[0]];
    ResolveSnoc(db, [inputs[0]], inputs[1], [lines[0]], lines[1]);
    assert [inputs[0]] + [inputs[1]] == inputs && [lines[0]] + [lines[1]] == lines;
  }

  lemma NothingResolves(db: Db)
    requires |db.books| > 0
    ensures ResolveLines(db, 0, []) == Ok([])
  {
  }

  lemma TwoLinesBalance(amount: int)
    ensures Balanced(Posted2(amount))
  {
    var lines := Posted2(amount);
    TotalOfTwo(lines[0], lines[1], InCurrency("USD"));
    TotalOfTwo(lines[0], lines[1], InFunctional("USD"));
  }

  function EntryFor(amount: int, number: nat): Entry {
    Entry(0, Date(2026, 1, 15), Posted, Some(number), Some(0), false, RuleHeader(Reading(amount), Rule()), None, Posted2(amount))
  }

  lemma Stamps(entries: seq<Entry>, next: nat)
    requires Usable(next)
    ensures TakeStamp(Example(entries, next), 0, Date(2026, 1, 15), false) == Ok(Stamp(0, false, next))
  {
    var db := Example(entries, next);
    assert db.periods[..0] == [];
    assert FindPeriod(db.periods, 0, Date(2026, 1, 15)) == Some(0);
  }

  /** A posting whose key is new succeeds when its lines resolve and balance and its date is open. */
  lemma PostSucceeds(db: Db, fact: SourceFact, rule: ResolvedRule, built: seq<BuiltLine>, lines: seq<Line>, stamp: Stamp)
    requires BuildLines(fact, rule) == Ok(built) && built != []
    requires FindKey(db.entries, MintKey(fact, rule)).None?
    requires LoadBook(db, 0).Ok? && ResolveLines(db, 0, JournalLines(fact, built)) == Ok(lines)
    requires Balanced(lines) && db.required == {} && TakeStamp(db, 0, fact.date, false) == Ok(stamp)
    ensures Post(db, fact, rule, 0, false)
            == Ok(Outcome(AddPosted(Stamped(DraftOf(0, PostInput(fact, rule, 0, built), lines), stamp)), |db.entries|, false))
  {
    hide Balanced, TakeStamp, ResolveLines, BuildLines, FingerprintFact;
  }

  lemma ReverseSucceeds(db: Db, i: nat, date: Day, stamp: Stamp)
    requires i < |db.entries| && db.entries[i].status == Posted && db.entries[i].reverses.None?
    requires FindReversal(db.entries, i).None?
    requires LoadBook(db, db.entries[i].book).Ok? && db.entries[i].lines != []
    requires TakeStamp(db, db.entries[i].book, date, false) == Ok(stamp)
    requires CheckHeader(db, ReversalHeader(db.entries[i].header)).Ok?
    ensures DecideReverse(db, i, Some(date), false)
            == Ok(Outcome(AddReversal(i, Stamped(ReversalOf(db.entries[i], i, date), stamp)), |db.entries|, false))
  {
    hide TakeStamp, LoadBook, CheckHeader, ReversalHeader, Negated;
  }

  lemma KeyIsFree(entries: seq<Entry>, key: PostingKey)
    requires forall i :: 0 <= i < |entries| ==> entries[i].header.key != Some(key)
    ensures FindKey(entries, key).None?
  {
  }

  function Stamp1(next: nat): Stamp {
    Stamp(0, false, next)
  }

  lemma PostsAfresh(entries: seq<Entry>, next: nat, amount: int)
    requires amount > 0 && Usable(next) && FindKey(entries, MintKey(Reading(amount), Rule())).None?
    ensures Post(Example(entries, next), Reading(amount), Rule(), 0, false)
            == Ok(Outcome(AddPosted(EntryFor(amount, next)), |entries|, false))
  {
    hide Balanced, TakeStamp, ResolveLines, BuildLines, FingerprintFact, Posted2, JournalLines, MintKey, Post, FindKey, RuleHeader;
    BuildsTwoLines(amount);
    Resolves(entries, next, amount);
    TwoLinesBalance(amount);
    Stamps(entries, next);
    PostSucceeds(Example(entries, next), Reading(amount), Rule(), Built(amount), Posted2(amount), Stamp1(next));
  }

  // ----- The history -----

  function Undone(amount: int, number: nat): Entry {
    EntryFor(amount, number).(status := Reversed)
  }

  /** The reversal of the entry numbered `number`, filed at `i`. */
  function Undoing(amount: int, i: nat, number: nat): Entry {
    Stamped(ReversalOf(EntryFor(amount, number), i, Date(2026, 1, 15)), Stamp1(number + 1))
  }

  lemma CommitsPosting(entries: seq<Entry>, next: nat, e: Entry)
    requires e.book == 0
    ensures Commit(Example(entries, next), AddPosted(e)) == Example(entries + [e], next + 1)
  {
  }

  /** Reversing the entry at `i`, whose fingerprint and key belong to `amount`. */
  lemma Reverses(entries: seq<Entry>, i: nat, next: nat, amount: int)
    requires Usable(next + 1) && i < |entries| && entries[i] == EntryFor(amount, next)
    requires forall j :: 0 <= j < |entries| ==> entries[j].reverses != Some(i)
    requires forall j :: 0 <= j < |entries| ==> entries[j].header.key != Some(RevKey(MintKey(Reading(amount), Rule())))
    ensures DecideReverse(Example(entries, next + 1), i, Some(Date(2026, 1, 15)), false)
            == Ok(Outcome(AddReversal(i, Undoing(amount, i, next)), |entries|, false))
    ensures Commit(Example(entries, next + 1), AddReversal(i, Undoing(amount, i, next)))
            == Example(entries[i := Undone(amount, next)] + [Undoing(amount, i, next)], next + 2)
  {
    hide TakeStamp, FindKey, Negated, MintKey, DecideReverse;
    var db := Example(entries, next + 1);
    Stamps(entries, next + 1);
    KeyIsFree(entries, RevKey(MintKey(Reading(amount), Rule())));
    ReverseSucceeds(db, i, Date(2026, 1, 15), Stamp1(next + 1));
  }

  lemma FingerprintsDiffer(a: int, b: int)
    requires a != b
    ensures FingerprintFact(Reading(a), Rule()) != FingerprintFact(Reading(b), Rule())
  {
    assert DebitLine() in Rule().lines;
    assert TotalAmount in Sources(Rule().lines);
    assert FingerprintFact(Reading(a), Rule()).amounts[TotalAmount] == a;
    assert FingerprintFact(Reading(b), Rule()).amounts[TotalAmount] == b;
  }

  function First(): seq<Entry> {
    [EntryFor(100, 1)]
  }

  function Second(): seq<Entry> {
    [Undone(100, 1), Undoing(100, 0, 1), EntryFor(200, 3)]
  }

  function Third(): seq<Entry> {
    [Undone(100, 1), Undoing(100, 0, 1), Undone(200, 3), Undoing(200, 2, 3)]
  }

  lemma FirstPosting()
    ensures Evaluate(Example([], 1), Call(100)) == (Example(First(), 2), PostedNew(0))
  {
    hide Post, BuildLines, EntryFor, MintKey, FindKey;
    BuildsTwoLines(100);
    KeyIsFree([], MintKey(Reading(100), Rule()));
    PostsAfresh([], 1, 100);
    EntryBasics(100, 1);
    CommitsPosting([], 1, EntryFor(100, 1));
    assert [] + [EntryFor(100, 1)] == First();
  }

  lemma EntryBasics(amount: int, number: nat)
    ensures var e := EntryFor(amount, number);
            && e.book == 0 && e.status == Posted && e.reverses.None? && Live(e, Ref())
            && e.header.key == Some(MintKey(Reading(amount), Rule()))
            && e.header.fingerprint == Some(FingerprintFact(Reading(amount), Rule()))
            && e.header.version == Some(0)
  {
    hide FingerprintFact, Posted2;
  }

  lemma UndoingBasics(amount: int, i: nat, number: nat)
    ensures var e := Undoing(amount, i, number);
            && e.book == 0 && e.status == Posted && e.reverses == Some(i) && !Live(e, Ref())
            && e.header.key == Some(RevKey(MintKey(Reading(amount), Rule())))
  {
    hide FingerprintFact, Posted2, Negated, MintKey;
  }

  lemma SecondPosting()
    ensures Evaluate(Example(First(), 2), Call(200)) == (Example(Second(), 4), Reposted(2, 1))
  {
    hide Post, BuildLines, EntryFor, Undoing, MintKey, FindKey, DecideReverse, Commit, FingerprintFact, Live;
    BuildsTwoLines(200);
    EntryBasics(100, 1);
    UndoingBasics(100, 0, 1);
    FingerprintsDiffer(100, 200);
    KeysDiffer(100, 200);
    Reverses(First(), 0, 1, 100);
    var between := [Undone(100, 1), Undoing(100, 0, 1)];
    assert First()[0 := Undone(100, 1)] + [Undoing(100, 0, 1)] == between;
    KeyIsFree(between, MintKey(Reading(200), Rule()));
    PostsAfresh(between, 3, 200);
    EntryBasics(200, 3);
    CommitsPosting(between, 3, EntryFor(200, 3));
    assert between + [EntryFor(200, 3)] == Second();
  }

  lemma KeysDiffer(a: int, b: int)
    requires a != b
    ensures MintKey(Reading(a), Rule()) != MintKey(Reading(b), Rule())
    ensures MintKey(Reading(a), Rule()).RuleKey? && MintKey(Reading(b), Rule()).RuleKey?
  {
    hide FingerprintFact;
    FingerprintsDiffer(a, b);
  }

  /** The third call reverses the correction, finds its first, reversed entry, and posts nothing. */
  lemma ThirdPosting()
    ensures Evaluate(Example(Second(), 4), Call(100)) == (Example(Third(), 5), Reposted(0, 3))
  {
    hide BuildLines, EntryFor, Undoing, MintKey, DecideReverse, Commit, FingerprintFact, Live, Post;
    BuildsTwoLines(100);
    EntryBasics(100, 1);
    EntryBasics(200, 3);
    UndoingBasics(100, 0, 1);
    UndoingBasics(200, 2, 3);
    FingerprintsDiffer(200, 100);
    KeysDiffer(200, 100);
    Reverses(Second(), 2, 3, 200);
    assert Second()[2 := Undone(200, 3)] + [Undoing(200, 2, 3)] == Third();
    PostIsReused();
  }

  lemma PostIsReused()
    ensures Post(Example(Third(), 5), Reading(100), Rule(), 0, false) == Ok(Outcome(Nothing, 0, true))
    ensures Commit(Example(Third(), 5), Nothing) == Example(Third(), 5)
  {
    hide BuildLines, EntryFor, Undoing, MintKey, FingerprintFact;
    BuildsTwoLines(100);
    EntryBasics(100, 1);
    EntryBasics(200, 3);
    UndoingBasics(100, 0, 1);
    UndoingBasics(200, 2, 3);
    KeysDiffer(200, 100);
    KeyIsFirst(Third(), MintKey(Reading(100), Rule()));
  }

  lemma KeyIsFirst(entries: seq<Entry>, key: PostingKey)
    requires entries != [] && entries[0].header.key == Some(key)
    requires forall i :: 1 <= i < |entries| ==> entries[i].header.key != Some(key)
    ensures FindKey(entries, key) == Some(0)
  {
  }

  // ----- From the empty ledger -----

  function Setup(): seq<Move> {
    [Service(CreateBook("USD", Anchor(1, 1))), Service(CreateAccount(0, "1200", Asset, true, None, None)),
     Service(CreateAccount(0, "4000", Revenue, true, None, None)), Service(GenerateFiscalYear(0, 2026, 1))]
  }

  function History(): seq<Move> {
    Setup() + [Evaluated(Call(100)), Evaluated(Call(200))]
  }

  function Rules(): RuleBook {
    map[0 := Rule()]
  }

  lemma MovesSnoc(db: Db, moves: seq<Move>, m: Move)
    ensures Moves(db, moves + [m]) == Step(Moves(db, moves), m)
  {
    assert (moves + [m])[..|moves|] == moves;
  }

  lemma JanuaryIsGenerated()
    ensures NewPeriods([], 0, 2026, 1, Anchor(1, 1)) == Ok([OpenMonth()])
  {
    hide Overlaps, SameSlot, Valid;
    var none: seq<Period> := [];
    assert NewPeriods(none, 0, 2026, 0, Anchor(1, 1)) == Ok(none);
    assert PeriodStart(2026, 0, Anchor(1, 1)) == Date(2026, 1, 1);
    assert PeriodStart(2026, 1, Anchor(1, 1)) == Date(2026, 2, 1);
    assert Generated(0, 2026, 0, Anchor(1, 1)) == OpenMonth();
    assert forall q :: q !in none + none;
    assert none + [OpenMonth()] == [OpenMonth()];
  }

  function Chart(accounts: seq<Account>, periods: seq<Period>): Db {
    Db([Book(true, "USD", Anchor(1, 1), 1)], accounts, periods, [], {})
  }

  lemma CreatesBook()
    ensures Step(Empty({}), Service(CreateBook("USD", Anchor(1, 1)))) == Chart([], [])
  {
  }

  lemma CreatesAccount(accounts: seq<Account>, code: string, kind: AccountType)
    requires FindCode(accounts, 0, code).None?
    ensures Step(Chart(accounts, []), Service(CreateAccount(0, code, kind, true, None, None)))
            == Chart(accounts + [Account(0, code, kind, true, true, None, None)], [])
  {
    hide FindCode;
  }

  lemma CodesAreFree()
    ensures FindCode([], 0, "1200").None? && FindCode([ReceivableAccount()], 0, "4000").None?
  {
    assert "1200"[0] == '1' && "4000"[0] == '4';
  }

  lemma GeneratesJanuary(accounts: seq<Account>)
    ensures Step(Chart(accounts, []), Service(GenerateFiscalYear(0, 2026, 1))) == Chart(accounts, [OpenMonth()])
  {
    hide NewPeriods, OpenMonth;
    JanuaryIsGenerated();
    var none: seq<Period> := [];
    assert none + [OpenMonth()] == [OpenMonth()];
  }

  lemma SetupReaches()
    ensures Moves(Empty({}), Setup()) == Example([], 1)
  {
    hide Step, OpenMonth;
    var s := Setup();
    var none: seq<Account> := [];
    var receivable, revenue := ReceivableAccount(), RevenueAccount();
    CreatesBook();
    CodesAreFree();
    CreatesAccount([], "1200", Asset);
    CreatesAccount([receivable], "4000", Revenue);
    GeneratesJanuary([receivable, revenue]);
    MovesSnoc(Empty({}), [], s[0]);
    MovesSnoc(Empty({}), [s[0]], s[1]);
    MovesSnoc(Empty({}), [s[0], s[1]], s[2]);
    MovesSnoc(Empty({}), [s[0], s[1], s[2]], s[3]);
    assert none + [receivable] == [receivable] && [receivable] + [revenue] == [receivable, revenue];
    assert [] + [s[0]] == [s[0]] && [s[0]] + [s[1]] == [s[0], s[1]];
    assert [s[0], s[1]] + [s[2]] == [s[0], s[1], s[2]] && [s[0], s[1], s[2]] + [s[3]] == s;
  }

  lemma HistoryReaches()
    ensures Moves(Empty({}), History()) == Example(Second(), 4)
  {
    hide Evaluate, Setup, Call, Second, First;
    SetupReaches();
    FirstPosting();
    SecondPosting();
    MovesSnoc(Empty({}), Setup(), Evaluated(Call(100)));
    MovesSnoc(Empty({}), Setup() + [Evaluated(Call(100))], Evaluated(Call(200)));
    assert Setup() + [Evaluated(Call(100))] + [Evaluated(Call(200))] == History();
  }

  /**
   * A reachable run on which the last call reports success and the books show nothing of the fact,
   * although the rule asks for 100 on the receivable account.
   */
  lemma ReturningFactIsLost()
    ensures ReaderShaped(Reading(100)) && ReaderShaped(Reading(200)) && Cancels(Order, Rule().lines)
    ensures HistoryOk(History(), Call(100).ref, 0, Rules()) && RuleBookOk(Rules())
    ensures EvaluationOk(Call(100), Call(100).ref, 0, Rules())
    ensures var called := Evaluate(Moves(Empty({}), History()), Call(100));
            && Settles(called.1)
            && Convergence.Net(called.0, Call(100).ref, Place(0, None)) == 0
            && BuildLines(Reading(100), Rule()).Ok?
            && Expected(called.0, 0, BuildLines(Reading(100), Rule()).value, Place(0, None)) == 100
  {
    hide Evaluate, BuildLines, Convergence.Net, Moves, MintKey, Expected, ReaderShaped, Cancels,
         EvaluationOk, HistoryOk, RuleBookOk, Spent;
    ReadingIsReadable(100);
    ReadingIsReadable(200);
    RuleIsAccepted();
    HistoryReaches();
    ThirdPosting();
    BuildsTwoLines(100);
    CallsAreOk();
    SpentByThen();
    Convergence.Convergence({}, History(), Call(100), 0, Rules());
    AsksFor(100);
  }

  lemma CallsAreOk()
    ensures HistoryOk(History(), Call(100).ref, 0, Rules()) && RuleBookOk(Rules())
    ensures EvaluationOk(Call(100), Call(100).ref, 0, Rules()) && EvaluationOk(Call(200), Call(100).ref, 0, Rules())
  {
  }

  lemma SpentByThen()
    ensures Spent(Example(Second(), 4).entries, MintKey(Reading(100), Rule()))
  {
    hide MintKey, EntryFor, Undoing;
    EntryBasics(100, 1);
    assert Second()[0].status == Reversed;
  }

  lemma AsksFor(amount: int)
    ensures Expected(Example(Third(), 5), 0, Built(amount), Place(0, None)) == amount
  {
    hide EntryFor, Undoing;
    var b := Built(amount);
    TotalOfTwo(b[0], b[1], BuiltAt(Example(Third(), 5), 0, Place(0, None)));
  }
}
