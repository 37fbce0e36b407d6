/**
 * Convergence of the evaluation protocol: after any history of evaluations, crashes and other
 * ledger activity, a fact has at most one live entry, and its net effect on every account and
 * entity is what the current rule makes of the current fact, unless the very entry it needs was
 * posted and reversed before.
 */
module Convergence {
  import opened Prelude
  import opened Sums
  import opened Calendar
  import opened Facts
  import opened Ledger
  import opened LedgerInvariants
  import opened Templates
  import opened PostingEngine

  // ----- A fact's net effect -----

  predicate Mine(e: Entry, f: FactRef) {
    e.header.source == PostingRule && e.header.fact == Some(f)
  }

  /** An (account, entity) cell. */
  datatype Place = Place(account: nat, entity: Option<nat>)

  function At(p: Place): Line -> int {
    (l: Line) => if l.account == p.account && l.entity == p.entity then l.functionalAmount else 0
  }

  function NetWeight(f: FactRef, p: Place): Entry -> int {
    (e: Entry) => if Mine(e, f) && InBooks(e) then Total(e.lines, At(p)) else 0
  }

  /** Net over all posted and reversed entries stamped with the fact. */
  function Net(db: Db, f: FactRef, p: Place): int {
    Total(db.entries, NetWeight(f, p))
  }

  function LiveWeight(f: FactRef, p: Place): Entry -> int {
    (e: Entry) => if Live(e, f) then Total(e.lines, At(p)) else 0
  }

  function LiveNet(db: Db, f: FactRef, p: Place): int {
    Total(db.entries, LiveWeight(f, p))
  }

  // ----- What a rule makes of a fact, as journal lines -----

  predicate Names(db: Db, book: nat, ref: AccountRef, account: nat) {
    account < |db.accounts| &&
    match ref
    case ById(id) => account == id
    case BySystemKey(key) => db.accounts[account].book == book && db.accounts[account].systemKey == Some(key)
  }

  predicate RendersLine(db: Db, book: nat, l: Line, b: BuiltLine) {
    && Names(db, book, b.account, l.account)
    && l.entity == b.entity && l.amount == b.amount && l.functionalAmount == b.amount
  }

  predicate Renders(db: Db, book: nat, lines: seq<Line>, built: seq<BuiltLine>) {
    |lines| == |built| && forall k :: 0 <= k < |lines| ==> RendersLine(db, book, lines[k], built[k])
  }

  function BuiltAt(db: Db, book: nat, p: Place): BuiltLine -> int {
    (b: BuiltLine) =>
      if ResolveAccount(db, book, b.account) == Some(p.account) && b.entity == p.entity then b.amount else 0
  }

  /** The effect `buildLines` asks for at one place. */
  function Expected(db: Db, book: nat, built: seq<BuiltLine>, p: Place): int {
    Total(built, BuiltAt(db, book, p))
  }

  lemma NamesIsResolution(db: Db, book: nat, ref: AccountRef, account: nat)
    requires AccountsOk(db) && Names(db, book, ref, account)
    ensures ResolveAccount(db, book, ref) == Some(account)
  {
    match ref
    case ById(_) =>
    case BySystemKey(key) =>
      var found := FindSystemKey(db.accounts, book, key).value;
      assert SameHandle(db.accounts[found], db.accounts[account]);
      assert SameHandle(db.accounts[account], db.accounts[found]);
  }

  lemma {:induction false} RendersTotal(db: Db, book: nat, lines: seq<Line>, built: seq<BuiltLine>, p: Place)
    requires AccountsOk(db) && Renders(db, book, lines, built)
    ensures Total(lines, At(p)) == Expected(db, book, built, p)
  {
    hide ResolveAccount, Names, AccountsOk;
    if lines != [] {
      var k := |lines| - 1;
      RendersTotal(db, book, lines[..k], built[..k], p);
      assert RendersLine(db, book, lines[k], built[k]);
      NamesIsResolution(db, book, built[k].account, lines[k].account);
    }
  }

  // ----- The protocol's invariant for one fact -----

  /** Every version that ever existed, by id; (code, number) identifies a version. */
  type RuleBook = map<nat, ResolvedRule>

  ghost predicate RuleBookOk(rules: RuleBook) {
    && (forall v :: v in rules ==> rules[v].versionId == v)
    && (forall v, w | v in rules && w in rules ::
          rules[v].code == rules[w].code && rules[v].version == rules[w].version ==> v == w)
  }

  /** An original entry of the fact is explained by its own stamp. */
  ghost predicate Explained(db: Db, f: FactRef, book: nat, rules: RuleBook, e: Entry) {
    && e.book == book
    && e.header.version.Some? && e.header.version.value in rules
    && e.header.fingerprint.Some? && e.header.fingerprint.value.ref == f
    && var rule, fp := rules[e.header.version.value], e.header.fingerprint.value;
       && e.header.key == Some(RuleKey(rule.code, rule.version, f, fp))
       && BuildLines(FactOf(fp), rule).Ok?
       && Renders(db, book, e.lines, BuildLines(FactOf(fp), rule).value)
  }

  predicate MintedFor(key: Option<PostingKey>, f: FactRef) {
    key.Some? && key.value.RuleKey? && key.value.ref == f
  }

  ghost predicate EntryOk(db: Db, f: FactRef, book: nat, rules: RuleBook, e: Entry) {
    && (Mine(e, f) ==> InBooks(e))
    && (Mine(e, f) && e.reverses.None? ==> Explained(db, f, book, rules, e))
    && (MintedFor(e.header.key, f) ==> Mine(e, f) && e.reverses.None?)
  }

  ghost predicate OneLive(db: Db, f: FactRef) {
    forall i, j :: 0 <= i < j < |db.entries| && Live(db.entries[i], f) ==> !Live(db.entries[j], f)
  }

  ghost predicate ProtocolOk(db: Db, f: FactRef, book: nat, rules: RuleBook) {
    && (forall i :: 0 <= i < |db.entries| ==> EntryOk(db, f, book, rules, db.entries[i]))
    && OneLive(db, f)
    && (forall p: Place :: Net(db, f, p) == LiveNet(db, f, p))
  }

  // ----- Changes -----

  /** A new entry is foreign to the fact: it neither claims a rule made it nor uses its keys. */
  predicate ForeignHeader(h: Header, f: FactRef) {
    !(h.source == PostingRule && h.fact == Some(f)) && !MintedFor(h.key, f)
  }

  ghost predicate Fits(db: Db, c: Change, f: FactRef, book: nat, rules: RuleBook) {
    match c
    case AddDraft(e) => ForeignHeader(e.header, f)
    case AddPosted(e) =>
      ForeignHeader(e.header, f)
      || (Mine(e, f) && Explained(db, f, book, rules, e) && ExistingEntry(db.entries, f).None?)
    case _ => true
  }

  lemma RendersStays(db: Db, c: Change, book: nat, lines: seq<Line>, built: seq<BuiltLine>)
    requires Allowed(db, c) && Renders(db, book, lines, built)
    ensures Renders(Commit(db, c), book, lines, built)
  {
    hide Balanced, LinesFit, HeaderFresh, Undoes, IsGenerated, SameSlot, SameHandle, AccountUsed, Contains, Enters, IsReversed;
    var after := Commit(db, c);
    forall k | 0 <= k < |lines| ensures RendersLine(after, book, lines[k], built[k]) {
      assert RendersLine(db, book, lines[k], built[k]);
    }
  }

  lemma ExplainedStays(db: Db, c: Change, f: FactRef, book: nat, rules: RuleBook, e: Entry)
    requires Allowed(db, c) && Explained(db, f, book, rules, e)
    ensures Explained(Commit(db, c), f, book, rules, e)
  {
    hide Allowed, Commit, Renders, BuildLines;
    RendersStays(db, c, book, e.lines, BuildLines(FactOf(e.header.fingerprint.value), rules[e.header.version.value]).value);
  }

  lemma EntryOkStays(db: Db, c: Change, f: FactRef, book: nat, rules: RuleBook, i: nat)
    requires Allowed(db, c) && i < |db.entries| && EntryOk(db, f, book, rules, db.entries[i])
    ensures i < |Commit(db, c).entries| && EntryOk(Commit(db, c), f, book, rules, Commit(db, c).entries[i])
  {
    hide Allowed, Commit, Enters, Renders;
    RowStays(db, c, i);
    var e := db.entries[i];
    if Mine(e, f) && e.reverses.None? {
      ExplainedStays(db, c, f, book, rules, e);
    }
  }

  lemma NewEntryOk(db: Db, c: Change, f: FactRef, book: nat, rules: RuleBook)
    requires Allowed(db, c) && Fits(db, c, f, book, rules)
    requires forall k :: 0 <= k < |db.entries| ==> EntryOk(db, f, book, rules, db.entries[k])
    requires |Commit(db, c).entries| > |db.entries|
    ensures |Commit(db, c).entries| == |db.entries| + 1
    ensures EntryOk(Commit(db, c), f, book, rules, Commit(db, c).entries[|db.entries|])
  {
    hide Balanced, LinesFit, HeaderFresh, IsGenerated, SameSlot, SameHandle, AccountUsed, Contains, Explained, IsReversed;
    if c.AddPosted? && !ForeignHeader(c.entry.header, f) {
      ExplainedStays(db, c, f, book, rules, c.entry);
    } else if c.AddReversal? {
      assert EntryOk(db, f, book, rules, db.entries[c.original]);
    }
  }

  lemma OneLiveKept(db: Db, c: Change, f: FactRef, book: nat, rules: RuleBook)
    requires Allowed(db, c) && Fits(db, c, f, book, rules) && OneLive(db, f)
    requires forall k :: 0 <= k < |db.entries| ==> EntryOk(db, f, book, rules, db.entries[k])
    ensures OneLive(Commit(db, c), f)
  {
    hide Balanced, LinesFit, HeaderFresh, IsGenerated, SameSlot, SameHandle, AccountUsed, Contains, Explained, IsReversed, Undoes;
    var after := Commit(db, c);
    forall i | 0 <= i < |db.entries| ensures Live(after.entries[i], f) ==> Live(db.entries[i], f) {
      assert EntryOk(db, f, book, rules, db.entries[i]);
      RowStays(db, c, i);
    }
  }

  lemma AppendMoves(db: Db, e: Entry, f: FactRef, p: Place)
    ensures Total(db.entries + [e], NetWeight(f, p)) == Net(db, f, p) + NetWeight(f, p)(e)
    ensures Total(db.entries + [e], LiveWeight(f, p)) == LiveNet(db, f, p) + LiveWeight(f, p)(e)
  {
    TotalAppend(db.entries, e, NetWeight(f, p));
    TotalAppend(db.entries, e, LiveWeight(f, p));
  }

  lemma UpdateMoves(db: Db, i: nat, e: Entry, f: FactRef, p: Place)
    requires i < |db.entries|
    ensures Total(db.entries[i := e], NetWeight(f, p))
            == Net(db, f, p) - NetWeight(f, p)(db.entries[i]) + NetWeight(f, p)(e)
    ensures Total(db.entries[i := e], LiveWeight(f, p))
            == LiveNet(db, f, p) - LiveWeight(f, p)(db.entries[i]) + LiveWeight(f, p)(e)
  {
    TotalUpdate(db.entries, i, e, NetWeight(f, p));
    TotalUpdate(db.entries, i, e, LiveWeight(f, p));
  }

  lemma ReversalMoves(db: Db, i: nat, e: Entry, f: FactRef, p: Place)
    requires i < |db.entries| && db.entries[i].status == Posted && db.entries[i].reverses.None?
    requires e.status == Posted && e.reverses.Some? && Undoes(e, db.entries[i])
    requires Net(db, f, p) == LiveNet(db, f, p)
    ensures var rows := db.entries[i := db.entries[i].(status := Reversed)] + [e];
            Total(rows, NetWeight(f, p)) == Total(rows, LiveWeight(f, p))
  {
    hide Net, LiveNet;
    var marked := db.entries[i].(status := Reversed);
    UpdateMoves(db, i, marked, f, p);
    TotalAppend(db.entries[i := marked], e, NetWeight(f, p));
    TotalAppend(db.entries[i := marked], e, LiveWeight(f, p));
    NegatedTotal(db.entries[i].lines, At(p));
  }

  lemma AppendKeeps(db: Db, e: Entry, f: FactRef, p: Place)
    requires Net(db, f, p) == LiveNet(db, f, p) && (!Mine(e, f) || Live(e, f))
    ensures Total(db.entries + [e], NetWeight(f, p)) == Total(db.entries + [e], LiveWeight(f, p))
  {
    hide NetWeight, LiveWeight;
    AppendMoves(db, e, f, p);
    WeightsAgree(e, f, p);
  }

  lemma UpdateKeeps(db: Db, i: nat, e: Entry, f: FactRef, p: Place)
    requires Net(db, f, p) == LiveNet(db, f, p) && i < |db.entries|
    requires (!Mine(db.entries[i], f) || Live(db.entries[i], f)) && (!Mine(e, f) || Live(e, f))
    ensures Total(db.entries[i := e], NetWeight(f, p)) == Total(db.entries[i := e], LiveWeight(f, p))
  {
    hide NetWeight, LiveWeight;
    UpdateMoves(db, i, e, f, p);
    WeightsAgree(db.entries[i], f, p);
    WeightsAgree(e, f, p);
  }

  /** A draft row of the fact never exists. */
  lemma DraftIsForeign(db: Db, i: nat, f: FactRef, book: nat, rules: RuleBook)
    requires i < |db.entries| && EntryOk(db, f, book, rules, db.entries[i]) && db.entries[i].status == Draft
    ensures !Mine(db.entries[i], f)
  {
  }

  /** Every change moves the net and the live net of the fact by the same amount. */
  lemma NetKept(db: Db, c: Change, f: FactRef, book: nat, rules: RuleBook, p: Place)
    requires Allowed(db, c) && Fits(db, c, f, book, rules) && Net(db, f, p) == LiveNet(db, f, p)
    requires forall k :: 0 <= k < |db.entries| ==> EntryOk(db, f, book, rules, db.entries[k])
    ensures Net(Commit(db, c), f, p) == LiveNet(Commit(db, c), f, p)
  {
    hide Balanced, LinesFit, HeaderFresh, IsGenerated, SameSlot, SameHandle, AccountUsed, Contains, Explained, IsReversed,
         Undoes, LiveWeight, NetWeight, EntryOk;
    match c
    case AddDraft(e) => AppendKeeps(db, e, f, p);
    case AddPosted(e) => AppendKeeps(db, e, f, p);
    case DropDraft(i) =>
      DraftIsForeign(db, i, f, book, rules);
      UpdateKeeps(db, i, db.entries[i].(status := Void), f, p);
    case PromoteDraft(i, e) =>
      DraftIsForeign(db, i, f, book, rules);
      UpdateKeeps(db, i, e, f, p);
    case AddReversal(i, e) => ReversalMoves(db, i, e, f, p);
    case _ =>
  }

  /** The two weights differ only on a fact's reversed entries and reversals. */
  lemma WeightsAgree(e: Entry, f: FactRef, p: Place)
    requires !Mine(e, f) || Live(e, f)
    ensures NetWeight(f, p)(e) == LiveWeight(f, p)(e)
  {
  }

  lemma ProtocolKept(db: Db, c: Change, f: FactRef, book: nat, rules: RuleBook)
    requires Allowed(db, c) && Fits(db, c, f, book, rules) && ProtocolOk(db, f, book, rules)
    ensures ProtocolOk(Commit(db, c), f, book, rules)
  {
    hide Allowed, Commit, EntryOk, OneLive, Net, LiveNet, Fits;
    var after := Commit(db, c);
    forall i | 0 <= i < |after.entries| ensures EntryOk(after, f, book, rules, after.entries[i]) {
      if i < |db.entries| {
        EntryOkStays(db, c, f, book, rules, i);
      } else {
        NewEntryOk(db, c, f, book, rules);
      }
    }
    OneLiveKept(db, c, f, book, rules);
    forall p: Place ensures Net(after, f, p) == LiveNet(after, f, p) {
      NetKept(db, c, f, book, rules, p);
    }
  }

  // ----- Single calls -----

  /** The evaluation is of an existing fact; for `f` it routes to its book and uses a known version. */
  ghost predicate EvaluationOk(ev: Evaluation, f: FactRef, book: nat, rules: RuleBook) {
    && (ev.reading.Some? ==> ev.reading.value.ref == ev.ref)
    && (ev.ref == f ==>
          && (ev.route.Some? ==> ev.route.value == book)
          && (ev.rule.Some? ==> ev.rule.value.versionId in rules && rules[ev.rule.value.versionId] == ev.rule.value))
  }

  lemma ResolvedLineRenders(db: Db, book: nat, fact: SourceFact, b: BuiltLine)
    requires book < |db.books| && ResolveLine(db, book, JournalLine(fact, b)).Ok?
    ensures RendersLine(db, book, ResolveLine(db, book, JournalLine(fact, b)).value, b)
  {
  }

  lemma {:induction false} ResolvedRenders(db: Db, book: nat, fact: SourceFact, built: seq<BuiltLine>)
    requires book < |db.books| && ResolveLines(db, book, JournalLines(fact, built)).Ok?
    ensures Renders(db, book, ResolveLines(db, book, JournalLines(fact, built)).value, built)
  {
    hide ResolveLine, RendersLine, JournalLine;
    if built != [] {
      var k := |built| - 1;
      assert JournalLines(fact, built)[..k] == JournalLines(fact, built[..k]);
      ResolvedLineRenders(db, book, fact, built[k]);
      ResolvedRenders(db, book, fact, built[..k]);
    }
  }

  /** A posting for the fact is explained by its stamp; a posting for another fact is foreign. */
  lemma PostFits(db: Db, fact: SourceFact, rule: ResolvedRule, at: nat, allow: bool,
                 f: FactRef, book: nat, rules: RuleBook)
    requires Post(db, fact, rule, at, allow).Ok?
    requires fact.ref == f ==> at == book && rule.versionId in rules && rules[rule.versionId] == rule
                               && ExistingEntry(db.entries, f).None?
    ensures Fits(db, Post(db, fact, rule, at, allow).value.change, f, book, rules)
  {
    hide Balanced, CarriesRequired, TakeStamp, Renders, ResolveLines, BuildLines;
    var built := BuildLines(fact, rule).value;
    if Post(db, fact, rule, at, allow).value.change.AddPosted? && fact.ref == f {
      ResolvedRenders(db, at, fact, built);
      FingerprintSuffices(fact, rule);
    }
  }

  lemma PostKeeps(db: Db, fact: SourceFact, rule: ResolvedRule, at: nat, allow: bool,
                  f: FactRef, book: nat, rules: RuleBook)
    requires Inv(db) && ProtocolOk(db, f, book, rules) && Post(db, fact, rule, at, allow).Ok?
    requires fact.ref == f ==> at == book && rule.versionId in rules && rules[rule.versionId] == rule
                               && ExistingEntry(db.entries, f).None?
    ensures var after := Commit(db, Post(db, fact, rule, at, allow).value.change);
            Inv(after) && ProtocolOk(after, f, book, rules)
  {
    hide Inv, ProtocolOk, Allowed, Fits, Commit, DecidePost, BuildLines;
    var op := PostEntry(PostInput(fact, rule, at, BuildLines(fact, rule).value), allow);
    var c := Post(db, fact, rule, at, allow).value.change;
    assert Decide(db, op).value.change == c && Apply(db, op) == Commit(db, c);
    PostFits(db, fact, rule, at, allow, f, book, rules);
    DecisionAllowed(db, op);
    StepKeeps(db, op);
    ProtocolKept(db, c, f, book, rules);
  }

  lemma ReverseKeeps(db: Db, i: nat, date: Option<Day>, allow: bool, f: FactRef, book: nat, rules: RuleBook)
    requires Inv(db) && ProtocolOk(db, f, book, rules) && DecideReverse(db, i, date, allow).Ok?
    ensures var after := Commit(db, DecideReverse(db, i, date, allow).value.change);
            Inv(after) && ProtocolOk(after, f, book, rules)
  {
    hide Inv, ProtocolOk, Allowed, Commit;
    var op := ReverseEntry(i, date, allow);
    var c := DecideReverse(db, i, date, allow).value.change;
    DecisionAllowed(db, op);
    StepKeeps(db, op);
    ProtocolKept(db, c, f, book, rules);
  }

  lemma PostedHasNoReversal(db: Db, i: nat)
    requires ReversalsOk(db) && i < |db.entries| && db.entries[i].status == Posted
    ensures FindReversal(db.entries, i).None?
  {
    hide Undoes, IsReversed;
    var r := FindReversal(db.entries, i);
    assert r.Some? ==> IsReversal(db.entries, r.value);
  }

  /** Reversing a live entry really writes a reversal. */
  lemma LiveReversalAdds(db: Db, i: nat, date: Option<Day>, allow: bool, g: FactRef)
    requires Inv(db) && i < |db.entries| && Live(db.entries[i], g) && DecideReverse(db, i, date, allow).Ok?
    ensures var c := DecideReverse(db, i, date, allow).value.change;
            c.AddReversal? && c.original == i && Allowed(db, c)
  {
    hide BooksOk, AccountsOk, PeriodsOk, LinesOk, StampsOk, NumbersOk, KeysOk, TakeStamp, LoadBook, CheckHeader, Allowed, Negated;
    DecisionAllowed(db, ReverseEntry(i, date, allow));
    PostedHasNoReversal(db, i);
  }

  /** And it leaves the fact with none live. */
  lemma ReversalLeavesNoneLive(db: Db, c: Change, i: nat, g: FactRef)
    requires Allowed(db, c) && c.AddReversal? && c.original == i && i < |db.entries| && Live(db.entries[i], g)
    ensures OneLive(db, g) ==> ExistingEntry(Commit(db, c).entries, g).None?
    ensures |Commit(db, c).books| == |db.books|
    ensures forall b :: 0 <= b < |db.books| ==> Commit(db, c).books[b].active == db.books[b].active
  {
    hide Enters, Undoes, HeaderFresh, IsReversed;
    if OneLive(db, g) {
      var after := Commit(db, c).entries;
      NewReversal(db, c);
      OthersNotLive(db, g, i);
      forall k | 0 <= k < |after| ensures !Live(after[k], g) {
        if k < |db.entries| {
          RowStays(db, c, k);
        }
      }
    }
  }

  lemma LiveIsReversed(db: Db, i: nat, date: Option<Day>, allow: bool, g: FactRef)
    requires Inv(db) && i < |db.entries| && Live(db.entries[i], g) && DecideReverse(db, i, date, allow).Ok?
    ensures var c := DecideReverse(db, i, date, allow).value.change;
            && c.AddReversal? && c.original == i
            && Allowed(db, c)
            && (OneLive(db, g) ==> ExistingEntry(Commit(db, c).entries, g).None?)
            && |Commit(db, c).books| == |db.books|
            && (forall b :: 0 <= b < |db.books| ==> Commit(db, c).books[b].active == db.books[b].active)
  {
    hide Inv, Allowed, Commit, DecideReverse, OneLive, ExistingEntry;
    LiveReversalAdds(db, i, date, allow, g);
    ReversalLeavesNoneLive(db, DecideReverse(db, i, date, allow).value.change, i, g);
  }

  lemma EvaluateKeeps(db: Db, ev: Evaluation, f: FactRef, book: nat, rules: RuleBook)
    requires Inv(db) && ProtocolOk(db, f, book, rules) && EvaluationOk(ev, f, book, rules)
    ensures Inv(Evaluate(db, ev).0) && ProtocolOk(Evaluate(db, ev).0, f, book, rules)
    ensures Inv(CrashAfterReversal(db, ev)) && ProtocolOk(CrashAfterReversal(db, ev), f, book, rules)
  {
    hide Inv, ProtocolOk, Commit, DecideReverse, Post, BuildLines, UpToDate;
    ProtocolHasOneLive(db, f, book, rules);
    if ev.reading.Some? {
      var fact, allow := ev.reading.value, ev.allowBackdated;
      var existing := ExistingEntry(db.entries, fact.ref);
      var screened := Screen(db, ev);
      if existing.None? {
        if screened.None? && Post(db, fact, ev.rule.value, ev.route.value, allow).Ok? {
          PostKeeps(db, fact, ev.rule.value, ev.route.value, allow, f, book, rules);
        }
      } else if DecideReverse(db, existing.value, Some(fact.date), allow).Ok? {
        var rows := Commit(db, DecideReverse(db, existing.value, Some(fact.date), allow).value.change);
        ReverseKeeps(db, existing.value, Some(fact.date), allow, f, book, rules);
        LiveIsReversed(db, existing.value, Some(fact.date), allow, fact.ref);
        if screened.None? && Post(rows, fact, ev.rule.value, ev.route.value, allow).Ok? {
          PostKeeps(rows, fact, ev.rule.value, ev.route.value, allow, f, book, rules);
        }
      }
    }
  }

  lemma ProtocolHasOneLive(db: Db, f: FactRef, book: nat, rules: RuleBook)
    requires ProtocolOk(db, f, book, rules)
    ensures OneLive(db, f)
  {
  }

  // ----- The fact's live entry carries its net -----

  lemma NoneLiveNoNet(db: Db, f: FactRef, book: nat, rules: RuleBook, p: Place)
    requires ProtocolOk(db, f, book, rules) && ExistingEntry(db.entries, f).None?
    ensures Net(db, f, p) == 0
  {
    hide EntryOk, OneLive, Net;
    TotalZero(db.entries, LiveWeight(f, p));
  }

  lemma {:induction false} OnlyLive(entries: seq<Entry>, f: FactRef, i: nat, p: Place)
    requires i < |entries| && Live(entries[i], f)
    requires forall k :: 0 <= k < |entries| && k != i ==> !Live(entries[k], f)
    ensures Total(entries, LiveWeight(f, p)) == Total(entries[i].lines, At(p))
  {
    var n := |entries| - 1;
    if i == n {
      TotalZero(entries[..n], LiveWeight(f, p));
    } else {
      OnlyLive(entries[..n], f, i, p);
    }
  }

  lemma OthersNotLive(db: Db, f: FactRef, i: nat)
    requires OneLive(db, f) && i < |db.entries| && Live(db.entries[i], f)
    ensures forall k :: 0 <= k < |db.entries| && k != i ==> !Live(db.entries[k], f)
  {
  }

  /** The live entry's lines are what its own stamp builds, and they are the fact's whole net. */
  lemma LiveNetIsExpected(db: Db, f: FactRef, book: nat, rules: RuleBook, i: nat, p: Place)
    requires AccountsOk(db) && ProtocolOk(db, f, book, rules) && i < |db.entries| && Live(db.entries[i], f)
    ensures Explained(db, f, book, rules, db.entries[i])
    ensures Net(db, f, p)
            == Expected(db, book, BuildLines(FactOf(db.entries[i].header.fingerprint.value),
                                             rules[db.entries[i].header.version.value]).value, p)
  {
    hide BuildLines, Renders, AccountsOk, Net, Expected;
    assert EntryOk(db, f, book, rules, db.entries[i]);
    OthersNotLive(db, f, i);
    OnlyLive(db.entries, f, i, p);
    RendersTotal(db, book, db.entries[i].lines,
                 BuildLines(FactOf(db.entries[i].header.fingerprint.value),
                            rules[db.entries[i].header.version.value]).value, p);
  }

  // ----- Convergence -----

  /** The exact entry the evaluation needs was posted before and has since been reversed. */
  predicate Spent(entries: seq<Entry>, key: PostingKey) {
    exists i :: 0 <= i < |entries| && entries[i].header.key == Some(key) && entries[i].status == Reversed
  }

  predicate Settles(v: Verdict) {
    v.PostedNew? || v.Unchanged? || v.Reposted?
  }

  /** The ledger shows, at every place, the given lines and nothing else of the fact. */
  ghost predicate ShowsExactly(db: Db, f: FactRef, book: nat, built: seq<BuiltLine>) {
    forall p: Place :: Net(db, f, p) == Expected(db, book, built, p)
  }

  ghost predicate ShowsNothing(db: Db, f: FactRef) {
    forall p: Place :: Net(db, f, p) == 0
  }

  /** An up-to-date live entry already shows the current lines, and its key was never spent. */
  lemma UnchangedShows(db: Db, fact: SourceFact, rule: ResolvedRule, book: nat, rules: RuleBook, i: nat)
    requires Inv(db) && ProtocolOk(db, fact.ref, book, rules) && RuleBookOk(rules)
    requires rule.versionId in rules && rules[rule.versionId] == rule && BuildLines(fact, rule).Ok?
    requires i < |db.entries| && Live(db.entries[i], fact.ref) && UpToDate(db.entries[i], fact, rule)
    ensures ShowsExactly(db, fact.ref, book, BuildLines(fact, rule).value)
    ensures !Spent(db.entries, MintKey(fact, rule))
  {
    hide BooksOk, AccountsOk, PeriodsOk, LinesOk, StampsOk, NumbersOk, ReversalsOk, ProtocolOk, Net, Expected, Renders,
         BuildLines;
    forall p: Place ensures Net(db, fact.ref, p) == Expected(db, book, BuildLines(fact, rule).value, p) {
      LiveNetIsExpected(db, fact.ref, book, rules, i, p);
      FingerprintSuffices(fact, rule);
    }
    LiveNetIsExpected(db, fact.ref, book, rules, i, Place(0, None));
    assert db.entries[i].header.key == Some(MintKey(fact, rule));
    forall k | 0 <= k < |db.entries| && db.entries[k].header.key == Some(MintKey(fact, rule))
      ensures db.entries[k].status == Posted
    {
      KeyIsUnique(db, i, k);
    }
  }

  lemma KeyIsUnique(db: Db, i: nat, k: nat)
    requires KeysOk(db) && i < |db.entries| && k < |db.entries|
    requires db.entries[i].header.key.Some? && db.entries[i].header.key == db.entries[k].header.key
    ensures i == k
  {
  }

  /** With nothing live, a successful posting shows the lines exactly when its key is unspent. */
  lemma PostShows(db: Db, fact: SourceFact, rule: ResolvedRule, book: nat, allow: bool, rules: RuleBook)
    requires Inv(db) && ProtocolOk(db, fact.ref, book, rules) && RuleBookOk(rules)
    requires rule.versionId in rules && rules[rule.versionId] == rule
    requires ExistingEntry(db.entries, fact.ref).None? && Post(db, fact, rule, book, allow).Ok?
    ensures var o := Post(db, fact, rule, book, allow).value;
            var after := Commit(db, o.change);
            && (o.reused <==> Spent(db.entries, MintKey(fact, rule)))
            && (o.reused ==> after == db && ShowsNothing(after, fact.ref))
            && (!o.reused ==> ShowsExactly(after, fact.ref, book, BuildLines(fact, rule).value))
  {
    hide BooksOk, AccountsOk, PeriodsOk, LinesOk, StampsOk, NumbersOk, KeysOk, ReversalsOk, ProtocolOk, Net, Expected,
         BuildLines, TakeStamp, LoadBook, CheckHeader, ResolveLines, Balanced, CarriesRequired, FingerprintFact;
    var key := MintKey(fact, rule);
    var o := Post(db, fact, rule, book, allow).value;
    var after := Commit(db, o.change);
    if o.reused {
      MintedIsReversed(db, fact.ref, book, rules, o.id);
      forall p: Place ensures Net(db, fact.ref, p) == 0 {
        NoneLiveNoNet(db, fact.ref, book, rules, p);
      }
    } else {
      PostKeeps(db, fact, rule, book, allow, fact.ref, book, rules);
      FreshEntryIsLive(db, fact, rule, book, allow);
      UnchangedShows(after, fact, rule, book, rules, |db.entries|);
    }
  }

  lemma MintedIsReversed(db: Db, f: FactRef, book: nat, rules: RuleBook, i: nat)
    requires ProtocolOk(db, f, book, rules) && i < |db.entries|
    requires MintedFor(db.entries[i].header.key, f) && ExistingEntry(db.entries, f).None?
    ensures db.entries[i].status == Reversed
  {
    hide Explained, Net, LiveNet, OneLive;
    assert EntryOk(db, f, book, rules, db.entries[i]);
  }

  lemma FreshEntryIsLive(db: Db, fact: SourceFact, rule: ResolvedRule, book: nat, allow: bool)
    requires Post(db, fact, rule, book, allow).Ok? && !Post(db, fact, rule, book, allow).value.reused
    ensures var after := Commit(db, Post(db, fact, rule, book, allow).value.change).entries;
            && |after| == |db.entries| + 1
            && Live(after[|db.entries|], fact.ref) && UpToDate(after[|db.entries|], fact, rule)
  {
    hide TakeStamp, CheckHeader, ResolveLines, Balanced, CarriesRequired, FingerprintFact, BuildLines;
  }

  /** Reversing a stale entry does not change whether the current key is spent. */
  lemma StaleKeyDiffers(db: Db, fact: SourceFact, rule: ResolvedRule, book: nat, rules: RuleBook, i: nat, c: Change)
    requires ProtocolOk(db, fact.ref, book, rules) && RuleBookOk(rules)
    requires rule.versionId in rules && rules[rule.versionId] == rule
    requires i < |db.entries| && Live(db.entries[i], fact.ref) && !UpToDate(db.entries[i], fact, rule)
    requires Allowed(db, c) && c.AddReversal? && c.original == i
    ensures Spent(Commit(db, c).entries, MintKey(fact, rule)) <==> Spent(db.entries, MintKey(fact, rule))
  {
    hide Net, LiveNet, OneLive, Renders, BuildLines, FingerprintFact, Allowed, Enters;
    var key, after := MintKey(fact, rule), Commit(db, c).entries;
    assert EntryOk(db, fact.ref, book, rules, db.entries[i]);
    assert db.entries[i].header.key != Some(key);
    NewReversal(db, c);
    forall k | 0 <= k < |db.entries| && db.entries[k].header.key == Some(key)
      ensures after[k].header.key == Some(key) && after[k].status == Reversed <==> db.entries[k].status == Reversed
    {
      RowStays(db, c, k);
    }
    forall k | 0 <= k < |db.entries| ensures after[k].header.key == db.entries[k].header.key {
      RowStays(db, c, k);
    }
  }

  /**
   * Whenever the call settles on posted, unchanged or reposted, the fact's net is the current
   * lines if the current key was unspent before the call, and zero if it was spent.
   */
  lemma Converges(db: Db, ev: Evaluation, book: nat, rules: RuleBook)
    requires Inv(db) && ProtocolOk(db, ev.ref, book, rules) && RuleBookOk(rules)
    requires EvaluationOk(ev, ev.ref, book, rules)
    requires Settles(Evaluate(db, ev).1) && BuildLines(ev.reading.value, ev.rule.value).Ok?
    ensures var after := Evaluate(db, ev).0;
            var fact, rule := ev.reading.value, ev.rule.value;
            if Spent(db.entries, MintKey(fact, rule)) then ShowsNothing(after, ev.ref)
            else ShowsExactly(after, ev.ref, book, BuildLines(fact, rule).value)
  {
    hide Inv, ProtocolOk, Commit, DecideReverse, Post, BuildLines, UpToDate, RuleBookOk, Spent, Allowed, MintKey,
         ShowsExactly, ShowsNothing;
    var fact, rule, allow := ev.reading.value, ev.rule.value, ev.allowBackdated;
    ProtocolHasOneLive(db, ev.ref, book, rules);
    var existing := ExistingEntry(db.entries, fact.ref);
    if existing.None? {
      PostShows(db, fact, rule, book, allow, rules);
    } else if UpToDate(db.entries[existing.value], fact, rule) {
      UnchangedShows(db, fact, rule, book, rules, existing.value);
    } else {
      var c := DecideReverse(db, existing.value, Some(fact.date), allow).value.change;
      ReverseKeeps(db, existing.value, Some(fact.date), allow, ev.ref, book, rules);
      LiveIsReversed(db, existing.value, Some(fact.date), allow, fact.ref);
      StaleKeyDiffers(db, fact, rule, book, rules, existing.value, c);
      PostShows(Commit(db, c), fact, rule, book, allow, rules);
    }
  }

  /** Once the fact is ineligible, a call that says so leaves nothing of it in the books. */
  lemma IneligibleShowsNothing(db: Db, ev: Evaluation, book: nat, rules: RuleBook)
    requires Inv(db) && ProtocolOk(db, ev.ref, book, rules) && EvaluationOk(ev, ev.ref, book, rules)
    requires Evaluate(db, ev).1 == Unpostable(FactIneligible)
    ensures ShowsNothing(Evaluate(db, ev).0, ev.ref)
  {
    hide Inv, ProtocolOk, Commit, DecideReverse, Post, BuildLines, UpToDate, Net;
    var fact := ev.reading.value;
    var existing := ExistingEntry(db.entries, fact.ref);
    ProtocolHasOneLive(db, ev.ref, book, rules);
    if existing.Some? {
      ReverseKeeps(db, existing.value, Some(fact.date), ev.allowBackdated, ev.ref, book, rules);
      LiveIsReversed(db, existing.value, Some(fact.date), ev.allowBackdated, fact.ref);
    }
    EvaluateKeeps(db, ev, ev.ref, book, rules);
    forall p: Place ensures Net(Evaluate(db, ev).0, ev.ref, p) == 0 {
      NoneLiveNoNet(Evaluate(db, ev).0, ev.ref, book, rules, p);
    }
  }

  /**
   * What the other verdicts leave: a call that finds no fact, no route or no rule leaves every row
   * alone, so an entry the fact already has stands; nothing to post means nothing of it is shown; and
   * a call that throws either changed nothing or stopped right after its reversal, showing nothing.
   */
  lemma VerdictLeaves(db: Db, ev: Evaluation, book: nat, rules: RuleBook)
    requires Inv(db) && ProtocolOk(db, ev.ref, book, rules) && EvaluationOk(ev, ev.ref, book, rules)
    ensures var after, verdict := Evaluate(db, ev).0, Evaluate(db, ev).1;
            && (verdict in {Unpostable(FactNotFound), Unpostable(NoRoute), Unpostable(NoRule)} ==> after == db)
            && (verdict == Unpostable(NothingToPost) ==> after == db && ShowsNothing(after, ev.ref))
            && (verdict.Threw? ==> after == db || (after == CrashAfterReversal(db, ev) && ShowsNothing(after, ev.ref)))
  {
    hide Inv, ProtocolOk, Commit, DecideReverse, Post, BuildLines, UpToDate, Net;
    ProtocolHasOneLive(db, ev.ref, book, rules);
    if ev.reading.Some? {
      var fact := ev.reading.value;
      var existing := ExistingEntry(db.entries, fact.ref);
      if existing.None? {
        forall p: Place ensures Net(db, ev.ref, p) == 0 {
          NoneLiveNoNet(db, ev.ref, book, rules, p);
        }
      } else if DecideReverse(db, existing.value, Some(fact.date), ev.allowBackdated).Ok? {
        var rows := Commit(db, DecideReverse(db, existing.value, Some(fact.date), ev.allowBackdated).value.change);
        ReverseKeeps(db, existing.value, Some(fact.date), ev.allowBackdated, ev.ref, book, rules);
        LiveIsReversed(db, existing.value, Some(fact.date), ev.allowBackdated, fact.ref);
        forall p: Place ensures Net(rows, ev.ref, p) == 0 {
          NoneLiveNoNet(rows, ev.ref, book, rules, p);
        }
      }
    }
  }

  // ----- Crashes -----

  lemma ShortPostNeverAdds(db: Db, fact: SourceFact, rule: ResolvedRule, book: nat, allow: bool)
    requires BuildLines(fact, rule).Ok? && |BuildLines(fact, rule).value| < 2
    requires Post(db, fact, rule, book, allow).Ok?
    ensures Commit(db, Post(db, fact, rule, book, allow).value.change) == db
  {
    hide TakeStamp, CheckHeader, CarriesRequired, FingerprintFact, BuildLines, ResolveLine;
  }

  /** Dying between the two transactions costs nothing: calling again reaches the same rows. */
  lemma CrashRecovers(db: Db, ev: Evaluation, book: nat, rules: RuleBook)
    requires Inv(db) && ProtocolOk(db, ev.ref, book, rules) && EvaluationOk(ev, ev.ref, book, rules)
    ensures Evaluate(CrashAfterReversal(db, ev), ev).0 == Evaluate(db, ev).0
  {
    hide Inv, ProtocolOk, Commit, DecideReverse, Post, BuildLines, UpToDate;
    var crashed := CrashAfterReversal(db, ev);
    if crashed != db {
      var fact := ev.reading.value;
      var existing := ExistingEntry(db.entries, fact.ref);
      ProtocolHasOneLive(db, ev.ref, book, rules);
      LiveIsReversed(db, existing.value, Some(fact.date), ev.allowBackdated, fact.ref);
      assert ExistingEntry(crashed.entries, fact.ref).None?;
      assert Screen(crashed, ev) == Screen(db, ev);
      if !fact.ineligible {
        var rule, at := ev.rule.value, ev.route.value;
        if BuildLines(fact, rule).Err? {
          FailedBuildFails(crashed, fact, rule, at, ev.allowBackdated);
        } else if |BuildLines(fact, rule).value| < 2 && Post(crashed, fact, rule, at, ev.allowBackdated).Ok? {
          ShortPostNeverAdds(crashed, fact, rule, at, ev.allowBackdated);
        }
      }
    }
  }

  lemma FailedBuildFails(db: Db, fact: SourceFact, rule: ResolvedRule, book: nat, allow: bool)
    requires BuildLines(fact, rule).Err?
    ensures Post(db, fact, rule, book, allow).Err?
  {
  }

  // ----- Whole histories -----

  /** Other callers may do anything but post or draft rule entries for the fact or take its keys. */
  ghost predicate MoveOk(m: Move, f: FactRef, book: nat, rules: RuleBook) {
    match m
    case Service(PostEntry(input, _)) => ForeignHeader(input.header, f)
    case Service(CreateDraft(input)) => ForeignHeader(input.header, f)
    case Service(_) => true
    case Evaluated(ev) => EvaluationOk(ev, f, book, rules)
    case Crashed(ev) => EvaluationOk(ev, f, book, rules)
  }

  lemma ServiceFits(db: Db, op: Op, f: FactRef, book: nat, rules: RuleBook)
    requires MoveOk(Service(op), f, book, rules) && Decide(db, op).Ok?
    ensures Fits(db, Decide(db, op).value.change, f, book, rules)
  {
    hide Explained, ForeignHeader, TakeStamp, CheckHeader, ResolveLines, Balanced, CarriesRequired, NewPeriods;
  }

  lemma StepKeepsProtocol(db: Db, m: Move, f: FactRef, book: nat, rules: RuleBook)
    requires Inv(db) && ProtocolOk(db, f, book, rules) && MoveOk(m, f, book, rules)
    ensures Inv(Step(db, m)) && ProtocolOk(Step(db, m), f, book, rules)
  {
    hide Inv, ProtocolOk, Decide, Commit, Fits, Evaluate, CrashAfterReversal, Allowed;
    match m
    case Service(op) =>
      StepKeeps(db, op);
      if Decide(db, op).Ok? {
        DecisionAllowed(db, op);
        ServiceFits(db, op, f, book, rules);
        ProtocolKept(db, Decide(db, op).value.change, f, book, rules);
      }
    case Evaluated(ev) => EvaluateKeeps(db, ev, f, book, rules);
    case Crashed(ev) => EvaluateKeeps(db, ev, f, book, rules);
  }

  ghost predicate HistoryOk(moves: seq<Move>, f: FactRef, book: nat, rules: RuleBook) {
    forall i :: 0 <= i < |moves| ==> MoveOk(moves[i], f, book, rules)
  }

  lemma {:induction false} HistoryKeeps(required: set<(nat, nat)>, moves: seq<Move>, f: FactRef, book: nat, rules: RuleBook)
    requires HistoryOk(moves, f, book, rules)
    ensures Inv(Moves(Empty(required), moves)) && ProtocolOk(Moves(Empty(required), moves), f, book, rules)
  {
    hide Inv, MoveOk, Step;
    if moves == [] {
      EmptyOk(required);
    } else {
      var k := |moves| - 1;
      HistoryKeeps(required, moves[..k], f, book, rules);
      StepKeepsProtocol(Moves(Empty(required), moves[..k]), moves[k], f, book, rules);
    }
  }

  lemma EvaluateKeepsInv(db: Db, ev: Evaluation)
    requires Inv(db)
    ensures Inv(Evaluate(db, ev).0) && Inv(CrashAfterReversal(db, ev))
  {
    hide Inv, Commit, DecideReverse, DecidePost, BuildLines, UpToDate, Live, PostInput;
    if ev.reading.Some? {
      var fact, allow := ev.reading.value, ev.allowBackdated;
      var existing := ExistingEntry(db.entries, fact.ref);
      var rows := db;
      if existing.Some? {
        StepKeeps(db, ReverseEntry(existing.value, Some(fact.date), allow));
        rows := Apply(db, ReverseEntry(existing.value, Some(fact.date), allow));
      }
      if Screen(db, ev).None? && BuildLines(fact, ev.rule.value).Ok? {
        StepKeeps(rows, PostEntry(PostInput(fact, ev.rule.value, ev.route.value, BuildLines(fact, ev.rule.value).value), allow));
      }
    }
  }

  /** The ledger's invariant needs no assumption on the moves. */
  lemma {:induction false} MovesKeepInv(required: set<(nat, nat)>, moves: seq<Move>)
    ensures Inv(Moves(Empty(required), moves))
  {
    hide Inv;
    if moves == [] {
      EmptyOk(required);
    } else {
      var k := |moves| - 1;
      var before := Moves(Empty(required), moves[..k]);
      MovesKeepInv(required, moves[..k]);
      match moves[k]
      case Service(op) => StepKeeps(before, op);
      case Evaluated(ev) => EvaluateKeepsInv(before, ev);
      case Crashed(ev) => EvaluateKeepsInv(before, ev);
    }
  }

  /**
   * The convergence theorem. After any history of evaluations and crashes of any facts,
   * interleaved with other ledger activity, a fact has at most one live entry; and an evaluation
   * that settles shows exactly the current rule applied to the current fact, if and only if the
   * entry it calls for was not already posted and reversed (or asks for nothing anywhere).
   */
  lemma Convergence(required: set<(nat, nat)>, moves: seq<Move>, ev: Evaluation, book: nat, rules: RuleBook)
    requires HistoryOk(moves, ev.ref, book, rules) && RuleBookOk(rules) && EvaluationOk(ev, ev.ref, book, rules)
    requires Settles(Evaluate(Moves(Empty(required), moves), ev).1)
    requires BuildLines(ev.reading.value, ev.rule.value).Ok?
    ensures var db := Moves(Empty(required), moves);
            var after, built := Evaluate(db, ev).0, BuildLines(ev.reading.value, ev.rule.value).value;
            && OneLive(after, ev.ref)
            && (ShowsExactly(after, ev.ref, book, built)
                <==> !Spent(db.entries, MintKey(ev.reading.value, ev.rule.value))
                     || forall p: Place :: Expected(after, book, built, p) == 0)
            && (Spent(db.entries, MintKey(ev.reading.value, ev.rule.value)) ==> ShowsNothing(after, ev.ref))
  {
    hide Inv, ProtocolOk, Evaluate, BuildLines, Expected, Net, Spent, MintKey, HistoryOk, RuleBookOk, EvaluationOk, OneLive, Moves;
    var db := Moves(Empty(required), moves);
    HistoryKeeps(required, moves, ev.ref, book, rules);
    EvaluateKeeps(db, ev, ev.ref, book, rules);
    ProtocolHasOneLive(Evaluate(db, ev).0, ev.ref, book, rules);
    Converges(db, ev, book, rules);
  }

  /** A fact that changes and changes back is lost: its old entry is found reversed and reused. */
  lemma ReturningFactVanishes(db: Db, a: Evaluation, b: Evaluation, book: nat, rules: RuleBook)
    requires Inv(db) && ProtocolOk(db, a.ref, book, rules) && RuleBookOk(rules) && b.ref == a.ref
    requires EvaluationOk(a, a.ref, book, rules) && EvaluationOk(b, a.ref, book, rules)
    requires a.reading.Some? && a.rule.Some?
    requires Evaluate(db, a).1.PostedNew?
    requires Evaluate(Evaluate(db, a).0, b).1.Reposted?
    requires var back := Evaluate(Evaluate(Evaluate(db, a).0, b).0, a); Settles(back.1)
    requires BuildLines(a.reading.value, a.rule.value).Ok?
    ensures ShowsNothing(Evaluate(Evaluate(Evaluate(db, a).0, b).0, a).0, a.ref)
  {
    hide Inv, ProtocolOk, BuildLines, ShowsNothing, RuleBookOk, EvaluationOk;
    var one := Evaluate(db, a).0;
    var two := Evaluate(one, b).0;
    EvaluateKeeps(db, a, a.ref, book, rules);
    EvaluateKeeps(one, b, a.ref, book, rules);
    RepostSpends(db, a, b, book, rules);
    Converges(two, a, book, rules);
  }

  lemma RepostSpends(db: Db, a: Evaluation, b: Evaluation, book: nat, rules: RuleBook)
    requires Inv(db) && ProtocolOk(db, a.ref, book, rules) && b.ref == a.ref
    requires EvaluationOk(a, a.ref, book, rules) && EvaluationOk(b, a.ref, book, rules)
    requires a.reading.Some? && a.rule.Some?
    requires Evaluate(db, a).1.PostedNew? && Evaluate(Evaluate(db, a).0, b).1.Reposted?
    ensures Spent(Evaluate(Evaluate(db, a).0, b).0.entries, MintKey(a.reading.value, a.rule.value))
  {
    hide Inv, ProtocolOk, Allowed, FingerprintFact, DecideReverse, Undoes, IsReversal, Post, BuildLines;
    var fact, rule := a.reading.value, a.rule.value;
    var one := Evaluate(db, a).0;
    EvaluateKeeps(db, a, a.ref, book, rules);
    ProtocolHasOneLive(one, a.ref, book, rules);
    FreshEntryIsLive(db, fact, rule, a.route.value, a.allowBackdated);
    FreshEntryKey(db, fact, rule, a.route.value, a.allowBackdated);
    var i := |db.entries|;
    OthersNotLive(one, a.ref, i);
    assert ExistingEntry(one.entries, a.ref) == Some(i);
    var reverse := DecideReverse(one, i, Some(b.reading.value.date), b.allowBackdated);
    LiveIsReversed(one, i, Some(b.reading.value.date), b.allowBackdated, a.ref);
    NewReversal(one, reverse.value.change);
    var mid := Commit(one, reverse.value.change);
    RowStays(one, reverse.value.change, i);
    ReverseKeeps(one, i, Some(b.reading.value.date), b.allowBackdated, a.ref, book, rules);
    assert mid.entries[i].header.key == Some(MintKey(fact, rule)) && mid.entries[i].status == Reversed;
    PostOnlyAppends(mid, b.reading.value, b.rule.value, b.route.value, b.allowBackdated);
    var two := Evaluate(one, b).0;
    assert two.entries[i] == mid.entries[i];
  }

  lemma FreshEntryKey(db: Db, fact: SourceFact, rule: ResolvedRule, book: nat, allow: bool)
    requires Post(db, fact, rule, book, allow).Ok? && !Post(db, fact, rule, book, allow).value.reused
    ensures var after := Commit(db, Post(db, fact, rule, book, allow).value.change).entries;
            |after| == |db.entries| + 1 && after[|db.entries|].header.key == Some(MintKey(fact, rule))
  {
    hide TakeStamp, CheckHeader, ResolveLines, Balanced, CarriesRequired, FingerprintFact, BuildLines;
  }

  lemma PostOnlyAppends(db: Db, fact: SourceFact, rule: ResolvedRule, book: nat, allow: bool)
    requires Post(db, fact, rule, book, allow).Ok?
    ensures db.entries <= Commit(db, Post(db, fact, rule, book, allow).value.change).entries
  {
    hide TakeStamp, CheckHeader, ResolveLines, Balanced, CarriesRequired, FingerprintFact, BuildLines;
  }
}
