/**
 * A run on which a fee is counted twice: an order's fee of 100 is posted, the order is re-synced with
 * nothing changed, and the fee's new row is posted too.
 */
module ResyncRun {
  import opened Prelude
  import opened Sums
  import opened Rounding
  import opened Calendar
  import opened Facts
  import opened Ledger
  import opened Templates
  import opened PostingEngine
  import opened Convergence
  import opened DefaultRules
  import opened ShippedHistory
  import opened Resync
  import ReturningFact

  function Ref(id: nat): FactRef {
    FactRef(OrderFee, id)
  }

  /** A selling fee, with every amount its reader supplies. */
  function Fee100(id: nat): SourceFact {
    SourceFact(Ref(id), Date(2026, 1, 15), None, "USD", map[Fee := 100, TotalAmount := 100, Net := 100],
               map[Provider := "ebay", Channel := "ebay", FeeType := "final_value", FeeDirection := "seller_charge"], 100, [], false)
  }

  lemma FeeIsOrderFact(id: nat)
    ensures OrderFact(Fee100(id)) && Direction(Fee100(id)) == "seller_charge" && RuleIndex(Fee100(id)) == 1
    ensures ShippedVersion(Fee100(id)).lines == SellerChargeLines() && ShippedVersion(Fee100(id)).versionId == 1
  {
  }

  function FeesAccount(): Account {
    Account(0, "6100", Expense, true, true, Some("marketplace_fees"), None)
  }

  function ClearingAccount(): Account {
    Account(0, "1150", Asset, true, true, Some("marketplace_clearing"), None)
  }

  function Books(entries: seq<Entry>, next: nat): Db {
    Db([Book(true, "USD", Anchor(1, 1), next)], [FeesAccount(), ClearingAccount()], [ReturningFact.OpenMonth()], entries, {})
  }

  function Call(id: nat): Evaluation {
    Evaluation(Ref(id), Some(Fee100(id)), Some(0), Some(ShippedVersion(Fee100(id))), false)
  }

  /** The call on the deleted row. */
  function GoneCall(): Evaluation {
    Evaluation(Ref(0), None, None, None, false)
  }

  function Built(): seq<BuiltLine> {
    [BuiltLine(BySystemKey("marketplace_fees"), 100, None, None), BuiltLine(BySystemKey("marketplace_clearing"), -100, None, None)]
  }

  function Lines(): seq<Line> {
    [Line(0, None, "USD", 100, "USD", 100, map[]), Line(1, None, "USD", -100, "USD", -100, map[])]
  }

  lemma BuildsTwoLines(id: nat)
    ensures BuildLines(Fee100(id), ShippedVersion(Fee100(id))) == Ok(Built())
  {
    hide MulRound, Plain, ShippedVersion;
    FeeIsOrderFact(id);
    var fact, lines := Fee100(id), SellerChargeLines();
    MulRoundExact(100, 1);
    MulRoundExact(100, -1);
    ReturningFact.NothingPlain(fact);
    ReturningFact.PlainSnoc(fact, [], lines[0], []);
    assert [] + [lines[0]] == [lines[0]] && [] + [Built()[0]] == [Built()[0]];
    ReturningFact.PlainSnoc(fact, [lines[0]], lines[1], [Built()[0]]);
    assert [lines[0]] + [lines[1]] == lines && [Built()[0]] + [Built()[1]] == Built();
    assert Named(fact.allocations) == [];
    NoPlug(lines);
  }

  lemma KeysResolve(db: Db)
    requires db.accounts == [FeesAccount(), ClearingAccount()]
    ensures FindSystemKey(db.accounts, 0, "marketplace_fees") == Some(0)
    ensures FindSystemKey(db.accounts, 0, "marketplace_clearing") == Some(1)
  {
    assert "marketplace_fees"[12] == 'f' && "marketplace_clearing"[12] == 'c';
    KeyAt(db.accounts, "marketplace_fees", 0);
    KeyAt(db.accounts, "marketplace_clearing", 1);
  }

  lemma KeyAt(accounts: seq<Account>, key: string, i: nat)
    requires i < |accounts| && accounts[i].book == 0 && accounts[i].systemKey == Some(key)
    requires forall j :: 0 <= j < |accounts| && j != i ==> accounts[j].systemKey != Some(key)
    ensures FindSystemKey(accounts, 0, key) == Some(i)
  {
  }

  lemma ResolvesEach(entries: seq<Entry>, next: nat, id: nat, k: nat)
    requires k < 2
    ensures ResolveLine(Books(entries, next), 0, JournalLine(Fee100(id), Built()[k])) == Ok(Lines()[k])
  {
    hide FindSystemKey;
    KeysResolve(Books(entries, next));
  }

  lemma Resolves(entries: seq<Entry>, next: nat, id: nat)
    ensures ResolveLines(Books(entries, next), 0, JournalLines(Fee100(id), Built())) == Ok(Lines())
  {
    hide ResolveLine, ResolveLines, JournalLine;
    var db, inputs, lines := Books(entries, next), JournalLines(Fee100(id), Built()), Lines();
    ResolvesEach(entries, next, id, 0);
    ResolvesEach(entries, next, id, 1);
    ReturningFact.NothingResolves(db);
    ReturningFact.ResolveSnoc(db, [], inputs[0], [], lines[0]);
    assert [] + [inputs[0]] == [inputs[0]] && [] + [lines[0]] == [lines[0]];
    ReturningFact.ResolveSnoc(db, [inputs[0]], inputs[1], [lines[0]], lines[1]);
    assert [inputs[0]] + [inputs[1]] == inputs && [lines[0]] + [lines[1]] == lines;
  }

  lemma TwoLinesBalance()
    ensures Balanced(Lines())
  {
    var lines := Lines();
    TotalOfTwo(lines[0], lines[1], InCurrency("USD"));
    TotalOfTwo(lines[0], lines[1], InFunctional("USD"));
  }

  lemma Stamps(entries: seq<Entry>, next: nat)
    requires Usable(next)
    ensures TakeStamp(Books(entries, next), 0, Date(2026, 1, 15), false) == Ok(Stamp(0, false, next))
  {
    var db := Books(entries, next);
    assert db.periods[..0] == [];
    assert FindPeriod(db.periods, 0, Date(2026, 1, 15)) == Some(0);
  }

  function EntryFor(id: nat, number: nat): Entry {
    Entry(0, Date(2026, 1, 15), Posted, Some(number), Some(0), false, RuleHeader(Fee100(id), ShippedVersion(Fee100(id))), None, Lines())
  }

  lemma PostsAfresh(entries: seq<Entry>, next: nat, id: nat)
    requires Usable(next) && FindKey(entries, MintKey(Fee100(id), ShippedVersion(Fee100(id)))).None?
    ensures Post(Books(entries, next), Fee100(id), ShippedVersion(Fee100(id)), 0, false)
            == Ok(Outcome(AddPosted(EntryFor(id, next)), |entries|, false))
  {
    hide Balanced, TakeStamp, ResolveLines, BuildLines, FingerprintFact, Lines, JournalLines, MintKey, Post, FindKey, RuleHeader, ShippedVersion;
    BuildsTwoLines(id);
    Resolves(entries, next, id);
    TwoLinesBalance();
    Stamps(entries, next);
    ReturningFact.PostSucceeds(Books(entries, next), Fee100(id), ShippedVersion(Fee100(id)), Built(), Lines(), Stamp(0, false, next));
  }

  lemma EntryBasics(id: nat, number: nat)
    ensures var e := EntryFor(id, number);
            && e.book == 0 && e.status == Posted && e.header.key == Some(MintKey(Fee100(id), ShippedVersion(Fee100(id))))
            && forall f: FactRef :: Live(e, f) <==> f == Ref(id)
  {
    hide FingerprintFact, Lines, ShippedVersion;
  }

  lemma CommitsPosting(entries: seq<Entry>, next: nat, e: Entry)
    requires e.book == 0
    ensures Commit(Books(entries, next), AddPosted(e)) == Books(entries + [e], next + 1)
  {
  }

  /** A fee that has no entry, and whose key is new, is posted. */
  lemma CallPosts(entries: seq<Entry>, next: nat, id: nat)
    requires Usable(next) && FindKey(entries, MintKey(Fee100(id), ShippedVersion(Fee100(id)))).None?
    requires ExistingEntry(entries, Ref(id)).None?
    ensures Evaluate(Books(entries, next), Call(id)) == (Books(entries + [EntryFor(id, next)], next + 1), PostedNew(|entries|))
  {
    hide Post, BuildLines, EntryFor, MintKey, FindKey, ShippedVersion;
    BuildsTwoLines(id);
    PostsAfresh(entries, next, id);
    EntryBasics(id, next);
    CommitsPosting(entries, next, EntryFor(id, next));
  }

  lemma FirstCall()
    ensures Evaluate(Books([], 1), Call(0)) == (Books([EntryFor(0, 1)], 2), PostedNew(0))
  {
    hide MintKey, EntryFor, Evaluate, ShippedVersion;
    CallPosts([], 1, 0);
    assert [] + [EntryFor(0, 1)] == [EntryFor(0, 1)];
  }

  lemma KeysDiffer()
    ensures MintKey(Fee100(0), ShippedVersion(Fee100(0))) != MintKey(Fee100(1), ShippedVersion(Fee100(1)))
  {
    hide FingerprintFact, ShippedVersion;
  }

  lemma SecondCall()
    ensures Evaluate(Books([EntryFor(0, 1)], 2), Call(1)) == (Books([EntryFor(0, 1), EntryFor(1, 2)], 3), PostedNew(1))
  {
    hide MintKey, EntryFor, Evaluate, Live, ShippedVersion;
    EntryBasics(0, 1);
    KeysDiffer();
    ReturningFact.KeyIsFree([EntryFor(0, 1)], MintKey(Fee100(1), ShippedVersion(Fee100(1))));
    CallPosts([EntryFor(0, 1)], 2, 1);
    assert [EntryFor(0, 1)] + [EntryFor(1, 2)] == [EntryFor(0, 1), EntryFor(1, 2)];
  }

  // ----- The events -----

  function Setup(): seq<Move> {
    [Service(CreateBook("USD", Anchor(1, 1))), Service(CreateAccount(0, "6100", Expense, true, Some("marketplace_fees"), None)),
     Service(CreateAccount(0, "1150", Asset, true, Some("marketplace_clearing"), None)), Service(GenerateFiscalYear(0, 2026, 1))]
  }

  function SetupEvents(): seq<Event> {
    [Ledgered(Setup()[0]), Ledgered(Setup()[1]), Ledgered(Setup()[2]), Ledgered(Setup()[3])]
  }

  /** The provider sends the same fee both times. */
  function Sync(): Event {
    Synced(5, [Fee100(0)])
  }

  function BeforeFirst(): seq<Event> {
    SetupEvents() + [Sync()]
  }

  function BeforeSecond(): seq<Event> {
    BeforeFirst() + [Ledgered(Evaluated(Call(0)))] + [Sync()] + [Ledgered(Evaluated(GoneCall()))]
  }

  function Events(): seq<Event> {
    BeforeSecond() + [Ledgered(Evaluated(Call(1)))]
  }

  lemma Snoc(events: seq<Event>, e: Event)
    ensures TableAfter(events + [e]) == if e.Synced? then Rewrite(TableAfter(events), e.order, e.attachments) else TableAfter(events)
    ensures MovesOf(events + [e]) == MovesOf(events) + if e.Ledgered? then [e.move] else []
  {
    assert (events + [e])[..|events|] == events;
  }

  /** What a sync of this order makes of a table with at most its row. */
  lemma SyncMakes(t: Table)
    requires forall r :: r in t.rows ==> t.rows[r].order == 5
    ensures Rewrite(t, 5, [Fee100(0)]) == Table(map[Ref(t.next) := Attachment(5, Fee100(t.next))], t.next + 1)
  {
    var none: seq<SourceFact> := [];
    assert [Fee100(0)][..0] == none;
    assert Without(t, 5).rows == map[];
    assert Insert(Without(t, 5), 5, none) == Without(t, 5);
  }

  lemma SetupHasNoRows()
    ensures TableAfter(SetupEvents()) == Table(map[], 0) && MovesOf(SetupEvents()) == Setup()
  {
    var e, s := SetupEvents(), Setup();
    var none: seq<Event> := [];
    Snoc(none, e[0]);
    Snoc([e[0]], e[1]);
    Snoc([e[0], e[1]], e[2]);
    Snoc([e[0], e[1], e[2]], e[3]);
    assert none + [e[0]] == [e[0]] && [e[0]] + [e[1]] == [e[0], e[1]];
    assert [e[0], e[1]] + [e[2]] == [e[0], e[1], e[2]] && [e[0], e[1], e[2]] + [e[3]] == e;
  }

  function TableOf(id: nat): Table {
    Table(map[Ref(id) := Attachment(5, Fee100(id))], id + 1)
  }

  lemma FirstTable()
    ensures TableAfter(BeforeFirst()) == TableOf(0) && MovesOf(BeforeFirst()) == Setup()
  {
    hide TableAfter, MovesOf, Rewrite;
    SetupHasNoRows();
    Snoc(SetupEvents(), Sync());
    SyncMakes(Table(map[], 0));
  }

  lemma SecondTable()
    ensures TableAfter(BeforeFirst() + [Ledgered(Evaluated(Call(0)))]) == TableOf(0)
    ensures TableAfter(BeforeFirst() + [Ledgered(Evaluated(Call(0)))] + [Sync()]) == TableOf(1)
    ensures TableAfter(BeforeSecond()) == TableOf(1) && TableAfter(Events()) == TableOf(1)
    ensures MovesOf(BeforeSecond()) == Setup() + [Evaluated(Call(0))] + [Evaluated(GoneCall())]
    ensures MovesOf(Events()) == Setup() + [Evaluated(Call(0))] + [Evaluated(GoneCall())] + [Evaluated(Call(1))]
  {
    hide TableAfter, MovesOf, Rewrite, Call, BeforeFirst;
    FirstTable();
    Snoc(BeforeFirst(), Ledgered(Evaluated(Call(0))));
    Snoc(BeforeFirst() + [Ledgered(Evaluated(Call(0)))], Sync());
    SyncMakes(TableOf(0));
    Snoc(BeforeFirst() + [Ledgered(Evaluated(Call(0)))] + [Sync()], Ledgered(Evaluated(GoneCall())));
    Snoc(BeforeSecond(), Ledgered(Evaluated(Call(1))));
  }

  // ----- The journal along them -----

  function Chart(accounts: seq<Account>, periods: seq<Period>): Db {
    ReturningFact.Chart(accounts, periods)
  }

  lemma CreatesAccount(accounts: seq<Account>, code: string, kind: AccountType, key: string)
    requires FindCode(accounts, 0, code).None? && FindSystemKey(accounts, 0, key).None?
    ensures Step(Chart(accounts, []), Service(CreateAccount(0, code, kind, true, Some(key), None)))
            == Chart(accounts + [Account(0, code, kind, true, true, Some(key), None)], [])
  {
    hide FindCode, FindSystemKey;
  }

  lemma CodesAreFree()
    ensures FindCode([], 0, "6100").None? && FindCode([FeesAccount()], 0, "1150").None?
    ensures FindSystemKey([], 0, "marketplace_fees").None? && FindSystemKey([FeesAccount()], 0, "marketplace_clearing").None?
  {
    assert "6100"[0] == '6' && "1150"[0] == '1';
    assert "marketplace_fees"[12] == 'f' && "marketplace_clearing"[12] == 'c';
  }

  lemma SetupReaches()
    ensures Moves(Empty({}), Setup()) == Books([], 1)
  {
    hide Step, ReturningFact.OpenMonth;
    var s := Setup();
    var none: seq<Account> := [];
    var fees, clearing := FeesAccount(), ClearingAccount();
    ReturningFact.CreatesBook();
    CodesAreFree();
    CreatesAccount([], "6100", Expense, "marketplace_fees");
    CreatesAccount([fees], "1150", Asset, "marketplace_clearing");
    ReturningFact.GeneratesJanuary([fees, clearing]);
    ReturningFact.MovesSnoc(Empty({}), [], s[0]);
    ReturningFact.MovesSnoc(Empty({}), [s[0]], s[1]);
    ReturningFact.MovesSnoc(Empty({}), [s[0], s[1]], s[2]);
    ReturningFact.MovesSnoc(Empty({}), [s[0], s[1], s[2]], s[3]);
    assert none + [fees] == [fees] && [fees] + [clearing] == [fees, clearing];
    assert [] + [s[0]] == [s[0]] && [s[0]] + [s[1]] == [s[0], s[1]];
    assert [s[0], s[1]] + [s[2]] == [s[0], s[1], s[2]] && [s[0], s[1], s[2]] + [s[3]] == s;
  }

  lemma RunReaches()
    ensures Moves(Empty({}), MovesOf(BeforeFirst())) == Books([], 1)
    ensures Moves(Empty({}), MovesOf(BeforeSecond())) == Books([EntryFor(0, 1)], 2)
    ensures Moves(Empty({}), MovesOf(Events())) == Books([EntryFor(0, 1), EntryFor(1, 2)], 3)
  {
    hide Evaluate, Setup, Call, EntryFor, MovesOf, Moves, BeforeFirst, BeforeSecond, Events;
    FirstTable();
    SecondTable();
    SetupReaches();
    FirstCall();
    SecondCall();
    ReturningFact.MovesSnoc(Empty({}), Setup(), Evaluated(Call(0)));
    ReturningFact.MovesSnoc(Empty({}), Setup() + [Evaluated(Call(0))], Evaluated(GoneCall()));
    IdlingChangesNothing(Books([EntryFor(0, 1)], 2), GoneCall());
    ReturningFact.MovesSnoc(Empty({}), Setup() + [Evaluated(Call(0))] + [Evaluated(GoneCall())], Evaluated(Call(1)));
  }

  // ----- What the general theorem says of it -----

  lemma Prefixes()
    ensures |Events()| == 9
    ensures Events()[..5] == BeforeFirst() && Events()[5] == Ledgered(Evaluated(Call(0)))
    ensures Events()[..6] == BeforeFirst() + [Ledgered(Evaluated(Call(0)))] && Events()[6] == Sync()
    ensures Events()[..7] == BeforeFirst() + [Ledgered(Evaluated(Call(0)))] + [Sync()]
    ensures Events()[7] == Ledgered(Evaluated(GoneCall()))
    ensures Events()[..8] == BeforeSecond() && Events()[8] == Ledgered(Evaluated(Call(1)))
    ensures forall i :: 0 <= i < 4 ==> Events()[i] == Ledgered(Setup()[i])
    ensures Events()[4] == Sync()
  {
    hide Call, Setup;
  }

  lemma CallsReadRows()
    ensures ReadsRows(Events())
  {
    hide TableAfter, Events, BeforeFirst, BeforeSecond, Setup;
    Prefixes();
    FirstTable();
    SecondTable();
    SetupIsService();
    var events := Events();
    forall i | 0 <= i < |events| && events[i].Ledgered? ensures ReadsRow(TableAfter(events[..i]), events[i].move) {
      if i < 4 {
        assert events[i].move.Service?;
      }
    }
  }

  lemma SetupIsService()
    ensures |Setup()| == 4 && forall i :: 0 <= i < 4 ==> Setup()[i].Service? && !Setup()[i].op.PostEntry? && !Setup()[i].op.CreateDraft?
  {
  }

  lemma HistoriesOk(f: FactRef)
    requires f == Ref(0) || f == Ref(1)
    ensures HistoryOk(MovesOf(Events()), f, 0, RuleHistory.Versions(Shipped()))
  {
    hide MovesOf, Events, Setup, ShippedVersion, Shipped;
    SecondTable();
    SetupIsService();
    ShippedIsKnown(Fee100(0));
    ShippedIsKnown(Fee100(1));
  }

  lemma FirstSettles()
    ensures SettlesOn(Books([], 1), Call(0), 0, Fee100(0), ShippedVersion(Fee100(0)))
    ensures SettlesOn(Books([EntryFor(0, 1)], 2), Call(1), 0, Fee100(1), ShippedVersion(Fee100(1)))
  {
    hide Evaluate, MintKey, EntryFor, ShippedVersion;
    FirstCall();
    SecondCall();
    EntryBasics(0, 1);
  }

  lemma BothSettled()
    ensures |Events()| == 9 && SettledBy({}, Events(), 5, 0, Fee100(0)) && SettledBy({}, Events(), 8, 0, Fee100(1))
    ensures DeletedBy({}, Events(), 5, 6, Ref(0))
  {
    hide SettlesOn, Moves, TableAfter, EntryFor, Events, BeforeFirst, BeforeSecond, Books, ShippedVersion, Call;
    Prefixes();
    FirstSettles();
    RunReaches();
    SecondTable();
    FirstTable();
    CallNames(0);
    CallNames(1);
  }

  lemma CallNames(id: nat)
    ensures Call(id).ref == Ref(id)
  {
  }

  /**
   * From an empty ledger, every call reading the rows there are: one fee of 100 is left in the table, its
   * order was synced twice with nothing changed, and the clearing account has been credited 200 for it.
   */
  lemma FeeCountedTwice()
    ensures ReadsRows(Events()) && TableAfter(Events()).rows == map[Ref(1) := Attachment(5, Fee100(1))]
    ensures var db := Moves(Empty({}), MovesOf(Events()));
            && ResolveAccount(db, 0, BySystemKey("marketplace_clearing")) == Some(1)
            && NetOn(db, 1)(Fee100(0)) + NetOn(db, 1)(Fee100(1)) == -200
            && Owed()(Fee100(1)) == -100
  {
    hide ReadsRows, TableAfter, MovesOf, Moves, EntryFor, Events, SettledBy, DeletedBy, HistoryOk, NetOn, EffectOn, Shipped, OrderFact, ShippedVersion;
    CallsReadRows();
    SecondTable();
    RunReaches();
    BothSettled();
    HistoriesOk(Ref(0));
    HistoriesOk(Ref(1));
    FeeIsOrderFact(0);
    FeeIsOrderFact(1);
    FactPosts(Fee100(0));
    KeysResolve(Moves(Empty({}), MovesOf(Events())));
    assert Fee100(0).(ref := FactRef(Fee100(0).ref.kind, 1)) == Fee100(1);
    OwedForFee();
    ResyncCountsTwice({}, Events(), 5, 6, 8, 0, Fee100(0), 1, "marketplace_clearing", 1);
  }

  lemma OwedForFee()
    ensures Owed()(Fee100(0)) == -100 && Owed()(Fee100(1)) == -100
  {
  }
}
