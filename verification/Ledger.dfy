/**
 * The ledger's rows and every transaction that writes them (`journal.ts`, `periods.ts`,
 * `chart.ts`, `books.ts`).
 *
 * A transaction is split in two: a `Decide...` function walks the guards in the source's order
 * and yields either the error it throws or the `Change` it commits; `Commit` is the effect of a
 * change on the rows. An error leaves the rows as they were, which is the rollback.
 *
 * Rows are never deleted by any service method, so a row's id is its position.
 */
module Ledger {
  import opened Prelude
  import opened Sums
  import opened Calendar
  import opened Facts

  // ----- Rows -----

  datatype Book = Book(active: bool, currency: string, anchor: Anchor, nextNumber: nat)

  datatype AccountType = Asset | Liability | Equity | Revenue | Expense

  datatype Account = Account(
    book: nat,
    code: string,
    kind: AccountType,
    postable: bool,
    active: bool,
    systemKey: Option<string>,
    parent: Option<nat>)

  datatype PeriodStatus = Open | SoftClosed | Closed | Locked

  datatype Period = Period(book: nat, fiscalYear: int, sequence: nat, startsOn: Date, endsOn: Date, status: PeriodStatus)

  datatype Line = Line(
    account: nat,
    entity: Option<nat>,
    currency: string,
    amount: int,
    functionalCurrency: string,
    functionalAmount: int,
    dimensions: map<nat, nat>)

  datatype EntryStatus = Draft | Posted | Reversed | Void

  datatype EntrySource = PostingRule | Manual | Import | OpeningBalance

  datatype Entry = Entry(
    book: nat,
    date: Day,
    status: EntryStatus,
    number: Option<nat>,
    period: Option<nat>,
    backdated: bool,
    header: Header,
    reverses: Option<nat>,
    lines: seq<Line>)

  datatype Header = Header(
    source: EntrySource,
    version: Option<nat>,
    key: Option<PostingKey>,
    fact: Option<FactRef>,
    fingerprint: Option<Fingerprint>)

  /** `required` holds the (book, dimension) pairs every posted line of the book must carry. */
  datatype Db = Db(
    books: seq<Book>,
    accounts: seq<Account>,
    periods: seq<Period>,
    entries: seq<Entry>,
    required: set<(nat, nat)>)

  predicate InBooks(e: Entry) {
    e.status == Posted || e.status == Reversed
  }

  // ----- Changes -----

  datatype Change =
    | Nothing
    | AddBook(newBook: Book)
    | DeactivateBook(book: nat)
    | AddAccount(account: Account)
    | SetAccount(accountId: nat, account: Account)
    | AddPeriods(added: seq<Period>)
    | SetStatus(period: nat, status: PeriodStatus)
    | AddDraft(entry: Entry)
    | DropDraft(draft: nat)
    | AddPosted(entry: Entry)
    | PromoteDraft(draft: nat, entry: Entry)
    | AddReversal(original: nat, entry: Entry)

  function TakeNumber(db: Db, book: nat): Db
    requires book < |db.books|
  {
    var b := db.books[book];
    db.(books := db.books[book := b.(nextNumber := b.nextNumber + 1)])
  }

  /** The row operations of one committed transaction. Out-of-range ids never reach a commit. */
  function Commit(db: Db, c: Change): Db {
    match c
    case Nothing => db
    case AddBook(b) => db.(books := db.books + [b])
    case DeactivateBook(b) =>
      if b < |db.books| then db.(books := db.books[b := db.books[b].(active := false)]) else db
    case AddAccount(a) => db.(accounts := db.accounts + [a])
    case SetAccount(i, a) => if i < |db.accounts| then db.(accounts := db.accounts[i := a]) else db
    case AddPeriods(ps) => db.(periods := db.periods + ps)
    case SetStatus(p, s) =>
      if p < |db.periods| then db.(periods := db.periods[p := db.periods[p].(status := s)]) else db
    case AddDraft(e) => db.(entries := db.entries + [e])
    case DropDraft(i) =>
      if i < |db.entries| then db.(entries := db.entries[i := db.entries[i].(status := Void)]) else db
    case AddPosted(e) =>
      if e.book < |db.books| then TakeNumber(db, e.book).(entries := db.entries + [e]) else db
    case PromoteDraft(i, e) =>
      if e.book < |db.books| && i < |db.entries|
      then TakeNumber(db, e.book).(entries := db.entries[i := e]) else db
    case AddReversal(i, e) =>
      if e.book < |db.books| && i < |db.entries|
      then TakeNumber(db, e.book).(entries := db.entries[i := db.entries[i].(status := Reversed)] + [e])
      else db
  }

  /** What a service call returns: the committed change and the entry (or row) it names. */
  datatype Outcome = Outcome(change: Change, id: nat, reused: bool)

  // ----- Lookups -----

  function SupportedCurrency(currency: string): bool {
    currency == "USD"
  }

  function LoadBook(db: Db, book: nat): Result<Book> {
    if book >= |db.books| then Err(NotFound)
    else if !db.books[book].active then Err(Validation)
    else if !SupportedCurrency(db.books[book].currency) then Err(UnsupportedCurrency)
    else Ok(db.books[book])
  }

  function FindKey(entries: seq<Entry>, key: PostingKey): (r: Option<nat>)
    ensures r.Some? ==> r.value < |entries| && entries[r.value].header.key == Some(key)
    ensures r.None? ==> forall i :: 0 <= i < |entries| ==> entries[i].header.key != Some(key)
  {
    Find(entries, (e: Entry) => e.header.key == Some(key))
  }

  function FindReversal(entries: seq<Entry>, original: nat): (r: Option<nat>)
    ensures r.Some? ==> r.value < |entries| && entries[r.value].reverses == Some(original)
    ensures r.None? ==> forall i :: 0 <= i < |entries| ==> entries[i].reverses != Some(original)
  {
    Find(entries, (e: Entry) => e.reverses == Some(original))
  }

  function FindSystemKey(accounts: seq<Account>, book: nat, key: string): (r: Option<nat>)
    ensures r.Some? ==> r.value < |accounts|
                        && accounts[r.value].book == book && accounts[r.value].systemKey == Some(key)
    ensures r.None? ==> forall i :: 0 <= i < |accounts| ==>
                          !(accounts[i].book == book && accounts[i].systemKey == Some(key))
  {
    Find(accounts, (a: Account) => a.book == book && a.systemKey == Some(key))
  }

  function FindCode(accounts: seq<Account>, book: nat, code: string): (r: Option<nat>)
    ensures r.Some? ==> r.value < |accounts| && accounts[r.value].book == book && accounts[r.value].code == code
    ensures r.None? ==> forall i :: 0 <= i < |accounts| ==> !(accounts[i].book == book && accounts[i].code == code)
  {
    Find(accounts, (a: Account) => a.book == book && a.code == code)
  }

  predicate Contains(p: Period, book: nat, date: Date) {
    p.book == book && Le(p.startsOn, date) && Le(date, p.endsOn)
  }

  function FindPeriod(periods: seq<Period>, book: nat, date: Date): (r: Option<nat>)
    ensures r.Some? ==> r.value < |periods| && Contains(periods[r.value], book, date)
    ensures r.None? ==> forall i :: 0 <= i < |periods| ==> !Contains(periods[i], book, date)
  {
    Find(periods, (p: Period) => Contains(p, book, date))
  }

  predicate AccountUsed(entries: seq<Entry>, account: nat) {
    exists i, j :: 0 <= i < |entries| && 0 <= j < |entries[i].lines| && entries[i].lines[j].account == account
  }

  // ----- Lines -----

  datatype LineInput = LineInput(
    account: AccountRef,
    entity: Option<nat>,
    currency: Option<string>,
    amount: int,
    dimensions: map<nat, nat>)

  function ResolveAccount(db: Db, book: nat, ref: AccountRef): Option<nat> {
    match ref
    case ById(id) => if id < |db.accounts| then Some(id) else None
    case BySystemKey(key) => FindSystemKey(db.accounts, book, key)
  }

  function ResolveLine(db: Db, book: nat, line: LineInput): Result<Line>
    requires book < |db.books|
  {
    var found := ResolveAccount(db, book, line.account);
    if found.None? || found.value >= |db.accounts| then Err(NotFound)
    else
      var account := db.accounts[found.value];
      var functional := db.books[book].currency;
      var currency := if line.currency.Some? then line.currency.value else functional;
      if account.book != book then Err(Validation)
      else if !account.postable then Err(Validation)
      else if !account.active then Err(Validation)
      else if !SupportedCurrency(currency) then Err(UnsupportedCurrency)
      else if currency != functional then Err(UnsupportedCurrency)
      else if line.amount == 0 then Err(Validation)
      else Ok(Line(found.value, line.entity, currency, line.amount, functional, line.amount, line.dimensions))
  }

  /** All lines, or the error of the first one that fails. */
  function ResolveLines(db: Db, book: nat, lines: seq<LineInput>): (r: Result<seq<Line>>)
    requires book < |db.books|
    ensures r.Ok? ==> |r.value| == |lines|
  {
    if lines == [] then Ok([])
    else
      var init :- ResolveLines(db, book, lines[..|lines| - 1]);
      var last :- ResolveLine(db, book, lines[|lines| - 1]);
      Ok(init + [last])
  }

  function InCurrency(currency: string): Line -> int {
    (l: Line) => if l.currency == currency then l.amount else 0
  }

  function InFunctional(currency: string): Line -> int {
    (l: Line) => if l.functionalCurrency == currency then l.functionalAmount else 0
  }

  /** At least two lines, and zero in every transaction and every functional currency. */
  predicate Balanced(lines: seq<Line>) {
    && |lines| >= 2
    && (forall i :: 0 <= i < |lines| ==> Total(lines, InCurrency(lines[i].currency)) == 0)
    && (forall i :: 0 <= i < |lines| ==> Total(lines, InFunctional(lines[i].functionalCurrency)) == 0)
  }

  predicate CarriesRequired(db: Db, book: nat, lines: seq<Line>) {
    forall i, r :: 0 <= i < |lines| && r in db.required && r.0 == book ==> r.1 in lines[i].dimensions
  }

  // ----- Periods -----

  /** `assertPeriodAcceptsPosting`: the backdated flag, or a refusal. */
  function Accepts(status: PeriodStatus, allowBackdated: bool): Result<bool> {
    match status
    case Closed => Err(PeriodClosed)
    case Locked => Err(PeriodClosed)
    case SoftClosed => if allowBackdated then Ok(true) else Err(PeriodClosed)
    case Open => Ok(false)
  }

  // ----- Journal transactions -----

  /** `book` is the explicit book or the routed one; None when routing found nothing. */
  datatype EntryInput = EntryInput(book: Option<nat>, date: Day, header: Header, lines: seq<LineInput>)

  /** The stamp taken just before an entry enters the books: period, flag and number. */
  datatype Stamp = Stamp(period: nat, backdated: bool, number: nat)

  predicate Usable(counter: nat) {
    1 <= counter <= MAX_SAFE_INTEGER
  }

  function TakeStamp(db: Db, book: nat, date: Day, allowBackdated: bool): Result<Stamp>
    requires book < |db.books|
  {
    match FindPeriod(db.periods, book, date)
    case None => Err(PeriodClosed)
    case Some(p) =>
      var backdated :- Accepts(db.periods[p].status, allowBackdated);
      if !Usable(db.books[book].nextNumber) then Err(Conflict)
      else Ok(Stamp(p, backdated, db.books[book].nextNumber))
  }

  function Stamped(e: Entry, s: Stamp): Entry {
    e.(status := Posted, number := Some(s.number), period := Some(s.period), backdated := s.backdated)
  }

  /** `insertHeader`: a rule source names its version and no other source does; keys are unique. */
  function CheckHeader(db: Db, h: Header): Result<()> {
    if (h.source == PostingRule) != h.version.Some? then Err(Validation)
    else if h.key.Some? && FindKey(db.entries, h.key.value).Some? then Err(Conflict)
    else Ok(())
  }

  function DraftOf(book: nat, input: EntryInput, lines: seq<Line>): Entry {
    Entry(book, input.date, Draft, None, None, false, input.header, None, lines)
  }

  function DecidePost(db: Db, input: EntryInput, allowBackdated: bool): Result<Outcome> {
    if input.lines == [] then Err(Validation)
    else if input.header.key.Some? && FindKey(db.entries, input.header.key.value).Some? then
      Ok(Outcome(Nothing, FindKey(db.entries, input.header.key.value).value, true))
    else if input.book.None? then Err(BookRouting)
    else
      var book := input.book.value;
      var row :- LoadBook(db, book);
      var lines :- ResolveLines(db, book, input.lines);
      if !Balanced(lines) then Err(Unbalanced)
      else if !CarriesRequired(db, book, lines) then Err(Validation)
      else
        var stamp :- TakeStamp(db, book, input.date, allowBackdated);
        var ok :- CheckHeader(db, input.header);
        Ok(Outcome(AddPosted(Stamped(DraftOf(book, input, lines), stamp)), |db.entries|, false))
  }

  function DecideDraft(db: Db, input: EntryInput): Result<Outcome> {
    if input.lines == [] then Err(Validation)
    else if input.book.None? then Err(BookRouting)
    else
      var book := input.book.value;
      var row :- LoadBook(db, book);
      var lines :- ResolveLines(db, book, input.lines);
      var ok :- CheckHeader(db, input.header);
      Ok(Outcome(AddDraft(DraftOf(book, input, lines)), |db.entries|, false))
  }

  function DecidePostDraft(db: Db, id: nat, allowBackdated: bool): Result<Outcome> {
    if id >= |db.entries| then Err(NotFound)
    else
      var draft := db.entries[id];
      if draft.status != Draft then Err(Immutable)
      else
        var row :- LoadBook(db, draft.book);
        if !Balanced(draft.lines) then Err(Unbalanced)
        else if !CarriesRequired(db, draft.book, draft.lines) then Err(Validation)
        else
          var stamp :- TakeStamp(db, draft.book, draft.date, allowBackdated);
          Ok(Outcome(PromoteDraft(id, Stamped(draft, stamp)), id, false))
  }

  function DecideVoid(db: Db, id: nat): Result<Outcome> {
    if id >= |db.entries| then Err(NotFound)
    else if db.entries[id].status == Void then Ok(Outcome(Nothing, id, true))
    else if db.entries[id].status != Draft then Err(Immutable)
    else Ok(Outcome(DropDraft(id), id, false))
  }

  function NegatedLine(l: Line): Line {
    l.(amount := -l.amount, functionalAmount := -l.functionalAmount)
  }

  function Negated(lines: seq<Line>): seq<Line> {
    seq(|lines|, i requires 0 <= i < |lines| => NegatedLine(lines[i]))
  }

  function ReversalHeader(h: Header): Header {
    h.(key := if h.key.Some? then Some(RevKey(h.key.value)) else None)
  }

  function ReversalOf(original: Entry, id: nat, date: Day): Entry {
    Entry(original.book, date, Draft, None, None, false,
          ReversalHeader(original.header), Some(id), Negated(original.lines))
  }

  function DecideReverse(db: Db, id: nat, date: Option<Day>, allowBackdated: bool): Result<Outcome> {
    if id >= |db.entries| then Err(NotFound)
    else
      var original := db.entries[id];
      if original.status == Draft || original.status == Void then Err(Immutable)
      else if original.reverses.Some? then Err(Immutable)
      else if FindReversal(db.entries, id).Some? then
        Ok(Outcome(Nothing, FindReversal(db.entries, id).value, true))
      else
        var row :- LoadBook(db, original.book);
        if original.lines == [] then Err(Validation)
        else
          var on := if date.Some? then date.value else original.date;
          var stamp :- TakeStamp(db, original.book, on, allowBackdated);
          var reversal := ReversalOf(original, id, on);
          var ok :- CheckHeader(db, reversal.header);
          // The trigger on journal_entries permits posted -> reversed and nothing else.
          if original.status != Posted then Err(Immutable)
          else Ok(Outcome(AddReversal(id, Stamped(reversal, stamp)), |db.entries|, false))
  }

  // ----- Period, chart and book transactions -----

  function DecideStatus(db: Db, period: nat, status: PeriodStatus): Result<Outcome> {
    if period >= |db.periods| then Err(NotFound)
    else if db.periods[period].status == status then Ok(Outcome(Nothing, period, true))
    else if db.periods[period].status == Locked then Err(Immutable)
    else Ok(Outcome(SetStatus(period, status), period, false))
  }

  function Generated(book: nat, fiscalYear: int, i: nat, a: Anchor): Period {
    Period(book, fiscalYear, i + 1, PeriodStart(fiscalYear, i, a), PeriodEnd(fiscalYear, i, a), Open)
  }

  predicate SameSlot(p: Period, q: Period) {
    p.book == q.book && p.fiscalYear == q.fiscalYear && p.sequence == q.sequence
  }

  predicate Overlaps(p: Period, q: Period) {
    p.book == q.book && Le(p.startsOn, q.endsOn) && Le(q.startsOn, p.endsOn)
  }

  /** The rows inserted for sequences 1..count: an existing slot is skipped, an overlap raises. */
  function NewPeriods(periods: seq<Period>, book: nat, fiscalYear: int, count: nat, a: Anchor): Result<seq<Period>> {
    if count == 0 then Ok([])
    else
      var init :- NewPeriods(periods, book, fiscalYear, count - 1, a);
      var p := Generated(book, fiscalYear, count - 1, a);
      if exists q :: q in periods + init && SameSlot(p, q) then Ok(init)
      else if exists q :: q in periods + init && Overlaps(p, q) then Err(Conflict)
      else Ok(init + [p])
  }

  function DecideGenerate(db: Db, book: nat, fiscalYear: int, count: nat): Result<Outcome> {
    if !(1900 <= fiscalYear <= 9999 && 1 <= count <= 12) then Err(Validation)
    else if book >= |db.books| then Err(NotFound)
    else
      var added :- NewPeriods(db.periods, book, fiscalYear, count, db.books[book].anchor);
      Ok(Outcome(AddPeriods(added), |added|, added == []))
  }

  function DecideBook(db: Db, currency: string, anchor: Anchor): Result<Outcome> {
    if !ValidAnchor(anchor) then Err(Validation)
    else if !SupportedCurrency(currency) then Err(UnsupportedCurrency)
    else Ok(Outcome(AddBook(Book(true, currency, anchor, 1)), |db.books|, false))
  }

  function DecideArchiveBook(db: Db, book: nat): Result<Outcome> {
    if book >= |db.books| then Err(NotFound)
    else if !db.books[book].active then Ok(Outcome(Nothing, book, true))
    else Ok(Outcome(DeactivateBook(book), book, false))
  }

  function DecideAccount(db: Db, book: nat, code: string, kind: AccountType, postable: bool, systemKey: Option<string>,
                         parent: Option<nat>)
    : Result<Outcome>
  {
    if book >= |db.books| then Err(NotFound)
    else if parent.Some? && parent.value >= |db.accounts| then Err(NotFound)
    else if parent.Some? && db.accounts[parent.value].book != book then Err(Validation)
    else if FindCode(db.accounts, book, code).Some? then Err(Conflict)
    else if systemKey.Some? && FindSystemKey(db.accounts, book, systemKey.value).Some? then Err(Conflict)
    else Ok(Outcome(AddAccount(Account(book, code, kind, postable, true, systemKey, parent)), |db.accounts|, false))
  }

  /** `updateAccount`: an account that carries lines may not become a roll-up header. */
  function DecidePostable(db: Db, id: nat, postable: bool): Result<Outcome> {
    if id >= |db.accounts| then Err(NotFound)
    else if !postable && AccountUsed(db.entries, id) then Err(Validation)
    else Ok(Outcome(SetAccount(id, db.accounts[id].(postable := postable)), id, false))
  }

  function DecideActive(db: Db, id: nat, active: bool): Result<Outcome> {
    if id >= |db.accounts| then Err(NotFound)
    else if !active && db.accounts[id].systemKey.Some? then Err(Immutable)
    else if db.accounts[id].active == active then Ok(Outcome(Nothing, id, true))
    else Ok(Outcome(SetAccount(id, db.accounts[id].(active := active)), id, false))
  }

  // ----- Runs -----

  datatype Op =
    | CreateBook(currency: string, anchor: Anchor)
    | ArchiveBook(book: nat)
    | CreateAccount(book: nat, code: string, kind: AccountType, isPostable: bool, systemKey: Option<string>, parent: Option<nat>)
    | UpdatePostable(accountId: nat, isPostable: bool)
    | UpdateActive(accountId: nat, isActive: bool)
    | GenerateFiscalYear(book: nat, fiscalYear: int, count: nat)
    | SetPeriodStatus(periodId: nat, status: PeriodStatus)
    | CreateDraft(input: EntryInput)
    | PostDraft(entryId: nat, allowBackdated: bool)
    | VoidDraft(entryId: nat)
    | PostEntry(input: EntryInput, allowBackdated: bool)
    | ReverseEntry(entryId: nat, date: Option<Day>, allowBackdated: bool)

  function Decide(db: Db, op: Op): Result<Outcome> {
    match op
    case CreateBook(currency, anchor) => DecideBook(db, currency, anchor)
    case ArchiveBook(book) => DecideArchiveBook(db, book)
    case CreateAccount(book, code, kind, postable, key, parent) => DecideAccount(db, book, code, kind, postable, key, parent)
    case UpdatePostable(id, postable) => DecidePostable(db, id, postable)
    case UpdateActive(id, active) => DecideActive(db, id, active)
    case GenerateFiscalYear(book, year, count) => DecideGenerate(db, book, year, count)
    case SetPeriodStatus(p, s) => DecideStatus(db, p, s)
    case CreateDraft(input) => DecideDraft(db, input)
    case PostDraft(id, allow) => DecidePostDraft(db, id, allow)
    case VoidDraft(id) => DecideVoid(db, id)
    case PostEntry(input, allow) => DecidePost(db, input, allow)
    case ReverseEntry(id, date, allow) => DecideReverse(db, id, date, allow)
  }

  /** One transaction: its change, or nothing when it throws. */
  function Apply(db: Db, op: Op): Db {
    match Decide(db, op)
    case Ok(o) => Commit(db, o.change)
    case Err(_) => db
  }

  function Run(db: Db, ops: seq<Op>): Db {
    if ops == [] then db else Apply(Run(db, ops[..|ops| - 1]), ops[|ops| - 1])
  }

  function Empty(required: set<(nat, nat)>): Db {
    Db([], [], [], [], required)
  }
}
