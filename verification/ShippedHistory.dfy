/**
 * The shipped order rules over whole histories: what the journal holds for every order, fee and
 * refund once each has settled, whatever else happened before, between and after.
 */
module ShippedHistory {
  import opened Prelude
  import opened Sums
  import opened Facts
  import opened Ledger
  import opened LedgerInvariants
  import opened Templates
  import opened PostingEngine
  import opened Convergence
  import opened Statements
  import opened FactTotals
  import opened DefaultRules
  import RuleHistory

  // ----- A settled fact stays settled -----

  /** The fact has a live entry that is up to date. */
  ghost predicate Settled(db: Db, fact: SourceFact, rule: ResolvedRule) {
    exists i :: 0 <= i < |db.entries| && SettledAt(db.entries[i], fact, rule)
  }

  predicate SettledAt(e: Entry, fact: SourceFact, rule: ResolvedRule) {
    Live(e, fact.ref) && UpToDate(e, fact, rule)
  }

  /** The call finds no fact, no route or no rule. */
  predicate Idles(db: Db, ev: Evaluation) {
    ev.reading.None? || (!ev.reading.value.ineligible && Screen(db, ev).Some?)
  }

  /** The move reverses no entry of the fact by hand, and evaluates it, if at all, without finding what it needs. */
  predicate Untouched(db: Db, m: Move, f: FactRef) {
    match m
    case Service(ReverseEntry(id, _, _)) => id < |db.entries| ==> !Mine(db.entries[id], f)
    case Service(_) => true
    case Evaluated(ev) => ev.ref != f || Idles(db, ev)
    case Crashed(ev) => ev.ref != f || Idles(db, ev)
  }

  lemma IdlingChangesNothing(db: Db, ev: Evaluation)
    requires Idles(db, ev)
    ensures Evaluate(db, ev).0 == db && CrashAfterReversal(db, ev) == db
  {
    hide DecideReverse, Post, BuildLines, UpToDate;
  }

  /** A call that settles on an unspent key leaves the fact settled. */
  lemma SettlingSettles(db: Db, ev: Evaluation, book: nat, rules: RuleBook)
    requires Inv(db) && ProtocolOk(db, ev.ref, book, rules) && RuleBookOk(rules) && EvaluationOk(ev, ev.ref, book, rules)
    requires Settles(Evaluate(db, ev).1) && !Spent(db.entries, MintKey(ev.reading.value, ev.rule.value))
    ensures Settled(Evaluate(db, ev).0, ev.reading.value, ev.rule.value)
  {
    hide Inv, ProtocolOk, Commit, DecideReverse, Post, BuildLines, UpToDate, RuleBookOk, Spent, Allowed, MintKey, Live;
    var fact, rule, allow := ev.reading.value, ev.rule.value, ev.allowBackdated;
    var existing := ExistingEntry(db.entries, fact.ref);
    ProtocolHasOneLive(db, ev.ref, book, rules);
    if existing.None? {
      FreshPostSettles(db, fact, rule, book, allow, rules);
    } else if UpToDate(db.entries[existing.value], fact, rule) {
      assert SettledAt(db.entries[existing.value], fact, rule);
    } else {
      var c := DecideReverse(db, existing.value, Some(fact.date), allow).value.change;
      ReverseKeeps(db, existing.value, Some(fact.date), allow, ev.ref, book, rules);
      LiveIsReversed(db, existing.value, Some(fact.date), allow, fact.ref);
      StaleKeyDiffers(db, fact, rule, book, rules, existing.value, c);
      FreshPostSettles(Commit(db, c), fact, rule, book, allow, rules);
    }
  }

  lemma FreshPostSettles(db: Db, fact: SourceFact, rule: ResolvedRule, book: nat, allow: bool, rules: RuleBook)
    requires Inv(db) && ProtocolOk(db, fact.ref, book, rules) && RuleBookOk(rules)
    requires rule.versionId in rules && rules[rule.versionId] == rule
    requires ExistingEntry(db.entries, fact.ref).None? && Post(db, fact, rule, book, allow).Ok?
    requires !Spent(db.entries, MintKey(fact, rule))
    ensures Settled(Commit(db, Post(db, fact, rule, book, allow).value.change), fact, rule)
  {
    hide Inv, ProtocolOk, Commit, Post, UpToDate, RuleBookOk, Spent, MintKey, Live;
    PostShows(db, fact, rule, book, allow, rules);
    FreshEntryIsLive(db, fact, rule, book, allow);
    var after := Commit(db, Post(db, fact, rule, book, allow).value.change);
    assert SettledAt(after.entries[|db.entries|], fact, rule);
  }

  /** A change that reverses no entry of the fact leaves it settled. */
  lemma ChangeKeepsSettled(db: Db, c: Change, fact: SourceFact, rule: ResolvedRule)
    requires Allowed(db, c) && Settled(db, fact, rule)
    requires c.AddReversal? && c.original < |db.entries| ==> !Mine(db.entries[c.original], fact.ref)
    ensures Settled(Commit(db, c), fact, rule)
  {
    hide Allowed, Commit, FingerprintFact;
    var i :| 0 <= i < |db.entries| && SettledAt(db.entries[i], fact, rule);
    RowStays(db, c, i);
    assert SettledAt(Commit(db, c).entries[i], fact, rule);
  }

  lemma ServiceKeepsSettled(db: Db, op: Op, fact: SourceFact, rule: ResolvedRule)
    requires Inv(db) && Settled(db, fact, rule) && Untouched(db, Service(op), fact.ref)
    ensures Settled(Apply(db, op), fact, rule)
  {
    hide Inv, Commit, Allowed, Settled, Decide;
    if Decide(db, op).Ok? {
      DecisionAllowed(db, op);
      OnlyReversalsReverse(db, op);
      ChangeKeepsSettled(db, Decide(db, op).value.change, fact, rule);
    }
  }

  lemma OnlyReversalsReverse(db: Db, op: Op)
    requires Decide(db, op).Ok?
    ensures Decide(db, op).value.change.AddReversal?
            ==> op.ReverseEntry? && Decide(db, op).value.change.original == op.entryId
  {
    hide ResolveLines, Balanced, CarriesRequired, TakeStamp, CheckHeader, NewPeriods, LoadBook;
  }

  /** Evaluating another fact reverses and posts that fact's entries only. */
  lemma OthersKeepSettled(db: Db, ev: Evaluation, book: nat, rules: RuleBook, fact: SourceFact, rule: ResolvedRule)
    requires Inv(db) && ProtocolOk(db, fact.ref, book, rules) && EvaluationOk(ev, fact.ref, book, rules)
    requires Settled(db, fact, rule) && ev.ref != fact.ref
    ensures Settled(Evaluate(db, ev).0, fact, rule) && Settled(CrashAfterReversal(db, ev), fact, rule)
  {
    hide Inv, ProtocolOk, Commit, DecideReverse, Post, BuildLines, UpToDate, Settled, Live, Allowed;
    if ev.reading.Some? {
      var other, allow := ev.reading.value, ev.allowBackdated;
      var existing := ExistingEntry(db.entries, other.ref);
      var rows := db;
      if existing.Some? && DecideReverse(db, existing.value, Some(other.date), allow).Ok? {
        var c := DecideReverse(db, existing.value, Some(other.date), allow).value.change;
        rows := Commit(db, c);
        LiveIsReversed(db, existing.value, Some(other.date), allow, other.ref);
        LiveIsOwn(db.entries[existing.value], other.ref, fact.ref);
        ChangeKeepsSettled(db, c, fact, rule);
        ReverseKeeps(db, existing.value, Some(other.date), allow, fact.ref, book, rules);
      }
      if Screen(db, ev).None? && Post(rows, other, ev.rule.value, ev.route.value, allow).Ok? {
        PostKeepsSettled(rows, other, ev.rule.value, ev.route.value, allow, fact, rule);
      }
    }
  }

  lemma LiveIsOwn(e: Entry, g: FactRef, f: FactRef)
    requires Live(e, g) && g != f
    ensures !Mine(e, f)
  {
  }

  lemma PostKeepsSettled(db: Db, other: SourceFact, rule: ResolvedRule, book: nat, allow: bool,
                         fact: SourceFact, own: ResolvedRule)
    requires Settled(db, fact, own) && Post(db, other, rule, book, allow).Ok?
    ensures Settled(Commit(db, Post(db, other, rule, book, allow).value.change), fact, own)
  {
    hide Post, Commit, SettledAt;
    PostOnlyAppends(db, other, rule, book, allow);
    var after := Commit(db, Post(db, other, rule, book, allow).value.change);
    var i :| 0 <= i < |db.entries| && SettledAt(db.entries[i], fact, own);
    assert after.entries[i] == db.entries[i];
  }

  lemma MoveKeepsSettled(db: Db, m: Move, book: nat, rules: RuleBook, fact: SourceFact, rule: ResolvedRule)
    requires Inv(db) && ProtocolOk(db, fact.ref, book, rules) && MoveOk(m, fact.ref, book, rules)
    requires Settled(db, fact, rule) && Untouched(db, m, fact.ref)
    ensures Settled(Step(db, m), fact, rule)
  {
    hide Inv, ProtocolOk, Settled, Apply, Evaluate, CrashAfterReversal;
    match m
    case Service(op) => ServiceKeepsSettled(db, op, fact, rule);
    case Evaluated(ev) =>
      if ev.ref == fact.ref {
        IdlingChangesNothing(db, ev);
      } else {
        OthersKeepSettled(db, ev, book, rules, fact, rule);
      }
    case Crashed(ev) =>
      if ev.ref == fact.ref {
        IdlingChangesNothing(db, ev);
      } else {
        OthersKeepSettled(db, ev, book, rules, fact, rule);
      }
  }

  // ----- A fact with nothing live stays so -----

  ghost predicate Dormant(db: Db, f: FactRef) {
    forall i :: 0 <= i < |db.entries| ==> !Live(db.entries[i], f)
  }

  /** Only a posting of the fact's own wakes it. */
  lemma ForeignKeepsDormant(db: Db, c: Change, f: FactRef, book: nat, rules: RuleBook)
    requires Allowed(db, c) && ProtocolOk(db, f, book, rules) && Dormant(db, f)
    requires c.AddPosted? ==> ForeignHeader(c.entry.header, f)
    ensures Dormant(Commit(db, c), f)
  {
    hide Balanced, LinesFit, HeaderFresh, IsGenerated, SameSlot, SameHandle, AccountUsed, Contains, Explained, IsReversed, Undoes;
    var after := Commit(db, c).entries;
    forall i | 0 <= i < |db.entries| ensures !Live(after[i], f) {
      assert EntryOk(db, f, book, rules, db.entries[i]);
      RowStays(db, c, i);
    }
  }

  lemma ServicePostsForeign(db: Db, op: Op, f: FactRef, book: nat, rules: RuleBook)
    requires MoveOk(Service(op), f, book, rules) && Decide(db, op).Ok?
    ensures var c := Decide(db, op).value.change; c.AddPosted? ==> ForeignHeader(c.entry.header, f)
  {
    hide ForeignHeader, TakeStamp, CheckHeader, ResolveLines, Balanced, CarriesRequired, NewPeriods;
  }

  lemma ServiceKeepsDormant(db: Db, op: Op, f: FactRef, book: nat, rules: RuleBook)
    requires Inv(db) && ProtocolOk(db, f, book, rules) && MoveOk(Service(op), f, book, rules) && Dormant(db, f)
    ensures Dormant(Apply(db, op), f)
  {
    hide Inv, ProtocolOk, MoveOk, Commit, Allowed, Dormant, Decide, ForeignHeader;
    if Decide(db, op).Ok? {
      DecisionAllowed(db, op);
      ServicePostsForeign(db, op, f, book, rules);
      ForeignKeepsDormant(db, Decide(db, op).value.change, f, book, rules);
    }
  }

  lemma PostKeepsDormant(db: Db, other: SourceFact, rule: ResolvedRule, book: nat, allow: bool, f: FactRef)
    requires Dormant(db, f) && other.ref != f && Post(db, other, rule, book, allow).Ok?
    ensures Dormant(Commit(db, Post(db, other, rule, book, allow).value.change), f)
  {
    hide TakeStamp, CheckHeader, ResolveLines, Balanced, CarriesRequired, FingerprintFact, BuildLines;
  }

  lemma OthersKeepDormant(db: Db, ev: Evaluation, book: nat, rules: RuleBook, f: FactRef)
    requires Inv(db) && ProtocolOk(db, f, book, rules) && EvaluationOk(ev, f, book, rules) && Dormant(db, f) && ev.ref != f
    ensures Dormant(Evaluate(db, ev).0, f) && Dormant(CrashAfterReversal(db, ev), f)
  {
    hide Inv, ProtocolOk, Commit, DecideReverse, Post, BuildLines, UpToDate, Dormant, Live, Allowed;
    if ev.reading.Some? {
      var other, allow := ev.reading.value, ev.allowBackdated;
      var existing := ExistingEntry(db.entries, other.ref);
      var rows := db;
      if existing.Some? && DecideReverse(db, existing.value, Some(other.date), allow).Ok? {
        var c := DecideReverse(db, existing.value, Some(other.date), allow).value.change;
        rows := Commit(db, c);
        LiveIsReversed(db, existing.value, Some(other.date), allow, other.ref);
        ForeignKeepsDormant(db, c, f, book, rules);
      }
      if Screen(db, ev).None? && Post(rows, other, ev.rule.value, ev.route.value, allow).Ok? {
        PostKeepsDormant(rows, other, ev.rule.value, ev.route.value, allow, f);
      }
    }
  }

  lemma MoveKeepsDormant(db: Db, m: Move, book: nat, rules: RuleBook, f: FactRef)
    requires Inv(db) && ProtocolOk(db, f, book, rules) && MoveOk(m, f, book, rules) && Dormant(db, f) && Untouched(db, m, f)
    ensures Dormant(Step(db, m), f)
  {
    hide Inv, ProtocolOk, Dormant, Apply, Evaluate, CrashAfterReversal;
    match m
    case Service(op) => ServiceKeepsDormant(db, op, f, book, rules);
    case Evaluated(ev) =>
      if ev.ref == f {
        IdlingChangesNothing(db, ev);
      } else {
        OthersKeepDormant(db, ev, book, rules, f);
      }
    case Crashed(ev) =>
      if ev.ref == f {
        IdlingChangesNothing(db, ev);
      } else {
        OthersKeepDormant(db, ev, book, rules, f);
      }
  }

  // ----- Over a history -----

  /** No move after move `k` touched the fact. */
  ghost predicate UntouchedSince(required: set<(nat, nat)>, moves: seq<Move>, k: nat, f: FactRef) {
    forall j :: k < j < |moves| ==> Untouched(Moves(Empty(required), moves[..j]), moves[j], f)
  }

  /** Move `k` evaluated the fact under the rule, settled on an unspent key, and no later move touched it. */
  ghost predicate LastSettled(required: set<(nat, nat)>, moves: seq<Move>, k: nat, book: nat, fact: SourceFact, rule: ResolvedRule) {
    && k < |moves| && moves[k].Evaluated?
    && SettlesOn(Moves(Empty(required), moves[..k]), moves[k].ev, book, fact, rule)
    && UntouchedSince(required, moves, k, fact.ref)
  }

  /** Move `k` found nothing to post in the fact, and no later move touched it. */
  ghost predicate LastEmpty(required: set<(nat, nat)>, moves: seq<Move>, k: nat, book: nat, fact: SourceFact, rule: ResolvedRule) {
    && k < |moves| && moves[k].Evaluated? && Calls(moves[k].ev, book, fact, rule)
    && Evaluate(Moves(Empty(required), moves[..k]), moves[k].ev).1 == Unpostable(NothingToPost)
    && UntouchedSince(required, moves, k, fact.ref)
  }

  predicate Calls(ev: Evaluation, book: nat, fact: SourceFact, rule: ResolvedRule) {
    ev.ref == fact.ref && ev.reading == Some(fact) && ev.rule == Some(rule) && ev.route == Some(book)
  }

  ghost predicate SettlesOn(before: Db, ev: Evaluation, book: nat, fact: SourceFact, rule: ResolvedRule) {
    && Calls(ev, book, fact, rule)
    && Settles(Evaluate(before, ev).1) && !Spent(before.entries, MintKey(fact, rule))
  }

  lemma {:induction false} HistoryIsDormant(required: set<(nat, nat)>, moves: seq<Move>, k: nat, book: nat, rules: RuleBook,
                                            fact: SourceFact, rule: ResolvedRule, n: nat)
    requires HistoryOk(moves, fact.ref, book, rules) && LastEmpty(required, moves, k, book, fact, rule)
    requires k < n <= |moves|
    ensures Dormant(Moves(Empty(required), moves[..n]), fact.ref)
  {
    hide Inv, ProtocolOk, Dormant, Evaluate, Untouched, MoveOk;
    var m := n - 1;
    var before := Moves(Empty(required), moves[..m]);
    assert moves[..n][..m] == moves[..m] && moves[..n][m] == moves[m];
    HistoryPrefix(moves, fact.ref, book, rules, m);
    HistoryKeeps(required, moves[..m], fact.ref, book, rules);
    if m == k {
      EmptyIsDormant(before, moves[k].ev, fact);
    } else {
      HistoryIsDormant(required, moves, k, book, rules, fact, rule, m);
      MoveKeepsDormant(before, moves[m], book, rules, fact.ref);
    }
  }

  lemma EmptyIsDormant(db: Db, ev: Evaluation, fact: SourceFact)
    requires ev.reading == Some(fact) && Evaluate(db, ev).1 == Unpostable(NothingToPost)
    ensures Dormant(Evaluate(db, ev).0, fact.ref)
    ensures ev.rule.Some? && BuildLines(fact, ev.rule.value).Ok? && |BuildLines(fact, ev.rule.value).value| < 2
  {
    hide DecideReverse, Post, BuildLines, UpToDate, Live;
  }

  /** So at the end the journal shows nothing of it, and its rule asks for nothing. */
  lemma HistoryShowsNothing(required: set<(nat, nat)>, moves: seq<Move>, k: nat, book: nat, rules: RuleBook, fact: SourceFact, rule: ResolvedRule)
    requires HistoryOk(moves, fact.ref, book, rules) && LastEmpty(required, moves, k, book, fact, rule)
    ensures Inv(Moves(Empty(required), moves)) && ShowsNothing(Moves(Empty(required), moves), fact.ref)
    ensures BuildLines(fact, rule).Ok? && |BuildLines(fact, rule).value| < 2
  {
    hide Inv, ProtocolOk, BuildLines, Live, HistoryOk, Evaluate, UntouchedSince, Convergence.Net;
    assert moves[..|moves|] == moves;
    HistoryIsDormant(required, moves, k, book, rules, fact, rule, |moves|);
    HistoryKeeps(required, moves, fact.ref, book, rules);
    EmptyIsDormant(Moves(Empty(required), moves[..k]), moves[k].ev, fact);
    var db := Moves(Empty(required), moves);
    forall p: Place ensures Convergence.Net(db, fact.ref, p) == 0 {
      NoneLiveNoNet(db, fact.ref, book, rules, p);
    }
  }

  lemma {:induction false} HistorySettles(required: set<(nat, nat)>, moves: seq<Move>, k: nat, book: nat, rules: RuleBook,
                                          fact: SourceFact, rule: ResolvedRule, n: nat)
    requires HistoryOk(moves, fact.ref, book, rules) && RuleBookOk(rules) && LastSettled(required, moves, k, book, fact, rule)
    requires k < n <= |moves|
    ensures Settled(Moves(Empty(required), moves[..n]), fact, rule)
  {
    hide Inv, ProtocolOk, Settled, Evaluate, MintKey, Spent, RuleBookOk, Untouched, MoveOk;
    var m := n - 1;
    var before := Moves(Empty(required), moves[..m]);
    assert moves[..n][..m] == moves[..m] && moves[..n][m] == moves[m];
    HistoryPrefix(moves, fact.ref, book, rules, m);
    HistoryKeeps(required, moves[..m], fact.ref, book, rules);
    if m == k {
      EvaluatedIsOk(moves, fact.ref, book, rules, k);
      SettlingSettles(before, moves[k].ev, book, rules);
    } else {
      HistorySettles(required, moves, k, book, rules, fact, rule, m);
      MoveKeepsSettled(before, moves[m], book, rules, fact, rule);
    }
  }

  lemma HistoryPrefix(moves: seq<Move>, f: FactRef, book: nat, rules: RuleBook, m: nat)
    requires HistoryOk(moves, f, book, rules) && m < |moves|
    ensures HistoryOk(moves[..m], f, book, rules) && MoveOk(moves[m], f, book, rules)
  {
  }

  lemma EvaluatedIsOk(moves: seq<Move>, f: FactRef, book: nat, rules: RuleBook, k: nat)
    requires HistoryOk(moves, f, book, rules) && k < |moves| && moves[k].Evaluated?
    ensures EvaluationOk(moves[k].ev, f, book, rules)
  {
    assert MoveOk(moves[k], f, book, rules);
  }

  /** So at the end the journal shows the fact's lines at every account and entity, and nothing else of it. */
  lemma HistoryShows(required: set<(nat, nat)>, moves: seq<Move>, k: nat, book: nat, rules: RuleBook, fact: SourceFact, rule: ResolvedRule)
    requires HistoryOk(moves, fact.ref, book, rules) && RuleBookOk(rules) && LastSettled(required, moves, k, book, fact, rule)
    requires rule.versionId in rules && rules[rule.versionId] == rule && BuildLines(fact, rule).Ok?
    ensures Inv(Moves(Empty(required), moves))
    ensures ShowsExactly(Moves(Empty(required), moves), fact.ref, book, BuildLines(fact, rule).value)
  {
    hide Inv, ProtocolOk, BuildLines, ShowsExactly, Live, UpToDate, HistoryOk, RuleBookOk;
    assert moves[..|moves|] == moves;
    HistorySettles(required, moves, k, book, rules, fact, rule, |moves|);
    HistoryKeeps(required, moves, fact.ref, book, rules);
    var db := Moves(Empty(required), moves);
    var i :| 0 <= i < |db.entries| && SettledAt(db.entries[i], fact, rule);
    UnchangedShows(db, fact, rule, book, rules, i);
  }

  // ----- The shipped rules -----

  /** The net of a fact on an account, under the fact's entity. */
  function NetOn(db: Db, account: nat): SourceFact -> int {
    (f: SourceFact) => Convergence.Net(db, f.ref, Place(account, f.entity))
  }

  lemma ShippedIsKnown(fact: SourceFact)
    ensures ShippedVersion(fact).versionId in RuleHistory.Versions(Shipped())
    ensures RuleHistory.Versions(Shipped())[ShippedVersion(fact).versionId] == ShippedVersion(fact)
  {
    hide OrderSaleLines, SellerChargeLines, BuyerSurchargeLines, RefundLines;
  }

  lemma ShippedUsesKeys(fact: SourceFact)
    ensures forall k :: 0 <= k < |ShippedVersion(fact).lines| ==> ShippedVersion(fact).lines[k].account.BySystemKey?
  {
  }

  lemma BuiltUsesKeys(fact: SourceFact, i: nat)
    requires fact.ref.kind != ExpenseFact && BuildLines(fact, ShippedVersion(fact)).Ok?
    requires i < |BuildLines(fact, ShippedVersion(fact)).value|
    ensures BuildLines(fact, ShippedVersion(fact)).value[i].account.BySystemKey?
  {
    hide ShippedVersion, Plain, Plug;
    var rule := ShippedVersion(fact);
    ShippedUsesKeys(fact);
    PlugFound(rule.lines);
    if i < |Plain(fact, rule.lines).value| {
      var k := PlainAccount(fact, rule.lines, i);
    } else {
      var k :| 0 <= k < |rule.lines| && rule.lines[k] == Plug(rule.lines).value;
    }
  }

  /** In the journal's terms: what is expected on the account carrying a key is what was built on the key. */
  lemma ExpectedOnKey(db: Db, book: nat, fact: SourceFact, key: string, account: nat)
    requires fact.ref.kind != ExpenseFact && BuildLines(fact, ShippedVersion(fact)).Ok?
    requires ResolveAccount(db, book, BySystemKey(key)) == Some(account)
    ensures Expected(db, book, BuildLines(fact, ShippedVersion(fact)).value, Place(account, fact.entity))
            == Total(BuildLines(fact, ShippedVersion(fact)).value, On(fact, key))
  {
    hide BuildLines, ShippedVersion;
    var built := BuildLines(fact, ShippedVersion(fact)).value;
    forall i | 0 <= i < |built|
      ensures BuiltAt(db, book, Place(account, fact.entity))(built[i]) == On(fact, key)(built[i])
    {
      BuiltUsesKeys(fact, i);
    }
    TotalSame(built, BuiltAt(db, book, Place(account, fact.entity)), On(fact, key));
  }

  /** The fact was last evaluated under its shipped rule, and settled on an unspent key or had nothing to post. */
  ghost predicate Concluded(required: set<(nat, nat)>, moves: seq<Move>, k: nat, book: nat, fact: SourceFact) {
    && HistoryOk(moves, fact.ref, book, RuleHistory.Versions(Shipped()))
    && (LastSettled(required, moves, k, book, fact, ShippedVersion(fact)) || LastEmpty(required, moves, k, book, fact, ShippedVersion(fact)))
  }

  ghost predicate AllConcluded(required: set<(nat, nat)>, moves: seq<Move>, book: nat, facts: seq<SourceFact>, settled: seq<nat>) {
    && |settled| == |facts|
    && forall n :: 0 <= n < |facts| ==> OrderFact(facts[n]) && Concluded(required, moves, settled[n], book, facts[n])
  }

  /**
   * After any history in which each of the given order, fee and refund facts was concluded: over the
   * accounts that carry the keys, what the facts show is surcharges minus gaps on suspense, hence zero
   * exactly when surcharges explain the gaps, and totals minus seller charges minus refunds on clearing.
   */
  lemma SuspenseInTheBooks(required: set<(nat, nat)>, moves: seq<Move>, book: nat, facts: seq<SourceFact>, settled: seq<nat>,
                           suspense: nat, clearing: nat)
    requires AllConcluded(required, moves, book, facts, settled)
    requires ResolveAccount(Moves(Empty(required), moves), book, BySystemKey("suspense")) == Some(suspense)
    requires ResolveAccount(Moves(Empty(required), moves), book, BySystemKey("marketplace_clearing")) == Some(clearing)
    ensures var db := Moves(Empty(required), moves);
            && Total(facts, NetOn(db, suspense)) == Total(facts, Surcharge()) - Total(facts, GapOf())
            && (Total(facts, NetOn(db, suspense)) == 0 <==> Total(facts, Surcharge()) == Total(facts, GapOf()))
            && Total(facts, NetOn(db, clearing)) == Total(facts, Owed())
  {
    hide OrderFact, Concluded, ResolveAccount, EffectOn, Surcharge, GapOf, Owed, Moves, NetOn;
    var db := Moves(Empty(required), moves);
    forall n | 0 <= n < |facts|
      ensures NetOn(db, suspense)(facts[n]) == EffectOn("suspense")(facts[n])
      ensures NetOn(db, clearing)(facts[n]) == EffectOn("marketplace_clearing")(facts[n])
    {
      FactNets(required, moves, book, facts[n], settled[n], "suspense", suspense);
      FactNets(required, moves, book, facts[n], settled[n], "marketplace_clearing", clearing);
    }
    TotalSame(facts, NetOn(db, suspense), EffectOn("suspense"));
    TotalSame(facts, NetOn(db, clearing), EffectOn("marketplace_clearing"));
    SuspenseClears(facts);
  }

  /** A concluded fact shows its effect under its own entity, and nothing under any other. */
  lemma FactNets(required: set<(nat, nat)>, moves: seq<Move>, book: nat, fact: SourceFact, k: nat, key: string, account: nat)
    requires OrderFact(fact) && Concluded(required, moves, k, book, fact)
    requires ResolveAccount(Moves(Empty(required), moves), book, BySystemKey(key)) == Some(account)
    ensures Inv(Moves(Empty(required), moves))
    ensures NetOn(Moves(Empty(required), moves), account)(fact) == EffectOn(key)(fact)
    ensures forall x: Option<nat> :: x != fact.entity ==> Convergence.Net(Moves(Empty(required), moves), fact.ref, Place(account, x)) == 0
  {
    hide Inv, HistoryOk, LastSettled, LastEmpty, ResolveAccount, BuildLines, ShippedVersion, Shipped, Effect, Expected, Convergence.Net, Moves,
         RuleBookOk, OrderFact;
    ShippedOk();
    RuleHistory.VersionsIdentify(Shipped(), []);
    ShippedIsKnown(fact);
    BuiltIsEffect(fact, key);
    var rules, rule, db := RuleHistory.Versions(Shipped()), ShippedVersion(fact), Moves(Empty(required), moves);
    if LastSettled(required, moves, k, book, fact, rule) {
      HistoryShows(required, moves, k, book, rules, fact, rule);
      ExpectedOnKey(db, book, fact, key, account);
      forall x: Option<nat> | x != fact.entity ensures Convergence.Net(db, fact.ref, Place(account, x)) == 0 {
        NothingElsewhere(db, book, fact, account, x);
      }
    } else {
      HistoryShowsNothing(required, moves, k, book, rules, fact, rule);
      FewLinesNoEffect(fact, key);
    }
  }

  lemma FewLinesNoEffect(fact: SourceFact, key: string)
    requires BuildLines(fact, ShippedVersion(fact)).Ok? && |BuildLines(fact, ShippedVersion(fact)).value| < 2
    ensures EffectOn(key)(fact) == 0
  {
    hide BuildLines, ShippedVersion;
  }

  lemma BuiltUnderEntity(fact: SourceFact, i: nat)
    requires fact.ref.kind != ExpenseFact && BuildLines(fact, ShippedVersion(fact)).Ok?
    requires i < |BuildLines(fact, ShippedVersion(fact)).value|
    ensures BuildLines(fact, ShippedVersion(fact)).value[i].entity == fact.entity
  {
    hide ShippedVersion, Plain, Plug;
    var rule := ShippedVersion(fact);
    ShippedInherits(fact);
    PlugFound(rule.lines);
    if i < |Plain(fact, rule.lines).value| {
      var k := PlainAccount(fact, rule.lines, i);
    } else {
      var k :| 0 <= k < |rule.lines| && rule.lines[k] == Plug(rule.lines).value;
    }
  }

  lemma ShippedInherits(fact: SourceFact)
    ensures forall k :: 0 <= k < |ShippedVersion(fact).lines| ==> ShippedVersion(fact).lines[k].inheritEntity
  {
  }

  lemma NothingElsewhere(db: Db, book: nat, fact: SourceFact, account: nat, x: Option<nat>)
    requires fact.ref.kind != ExpenseFact && BuildLines(fact, ShippedVersion(fact)).Ok? && x != fact.entity
    ensures Expected(db, book, BuildLines(fact, ShippedVersion(fact)).value, Place(account, x)) == 0
  {
    hide BuildLines, ShippedVersion;
    var built := BuildLines(fact, ShippedVersion(fact)).value;
    forall i | 0 <= i < |built| ensures BuiltAt(db, book, Place(account, x))(built[i]) == 0 {
      BuiltUnderEntity(fact, i);
    }
    TotalZero(built, BuiltAt(db, book, Place(account, x)));
  }

  // ----- The accounts themselves -----

  function Refs(facts: seq<SourceFact>): seq<FactRef> {
    if facts == [] then [] else Refs(facts[..|facts| - 1]) + [facts[|facts| - 1].ref]
  }

  lemma {:induction false} RefsTotal(facts: seq<SourceFact>, w: FactRef -> int, v: SourceFact -> int)
    requires forall n :: 0 <= n < |facts| ==> v(facts[n]) == w(facts[n].ref)
    ensures Total(Refs(facts), w) == Total(facts, v)
  {
    if facts != [] {
      var k := |facts| - 1;
      RefsTotal(facts[..k], w, v);
      TotalAppend(Refs(facts[..k]), facts[k].ref, w);
    }
  }

  lemma KeyAccountIsInBook(db: Db, book: nat, key: string, account: nat)
    requires ResolveAccount(db, book, BySystemKey(key)) == Some(account)
    ensures account < |db.accounts| && db.accounts[account].book == book
  {
  }

  /** An account carrying a key, with nothing on it but the facts': its balance is their effects. */
  lemma AccountHoldsEffects(required: set<(nat, nat)>, moves: seq<Move>, book: nat, facts: seq<SourceFact>, settled: seq<nat>,
                            key: string, account: nat)
    requires AllConcluded(required, moves, book, facts, settled)
    requires ResolveAccount(Moves(Empty(required), moves), book, BySystemKey(key)) == Some(account)
    requires Distinct(Refs(facts)) && OnlyTheirs(Moves(Empty(required), moves), account, Refs(facts))
    ensures RowAmount(Moves(Empty(required), moves), book, AllTime(), Signed())(account) == Total(facts, EffectOn(key))
  {
    hide OrderFact, Concluded, ResolveAccount, EffectOn, Moves, RowAmount, NetOnAccount, Distinct, OnlyTheirs, Convergence.Net, Refs;
    var db := Moves(Empty(required), moves);
    forall n | 0 <= n < |facts|
      ensures EffectOn(key)(facts[n]) == NetOnAccount(db, account)(facts[n].ref)
    {
      FactNets(required, moves, book, facts[n], settled[n], key, account);
      ShownUnderOne(db, facts[n].ref, account, facts[n].entity);
    }
    MovesKeepInv(required, moves);
    KeyAccountIsInBook(db, book, key, account);
    AccountIsItsFacts(db, book, account, Refs(facts));
    RefsTotal(facts, NetOnAccount(db, account), EffectOn(key));
  }

  /**
   * So when nothing else was ever put on them, the suspense account's balance is surcharges minus gaps,
   * and zero exactly when surcharges explain the gaps, and the clearing account's is what is owed.
   */
  lemma SuspenseBalance(required: set<(nat, nat)>, moves: seq<Move>, book: nat, facts: seq<SourceFact>, settled: seq<nat>,
                        suspense: nat, clearing: nat)
    requires AllConcluded(required, moves, book, facts, settled) && Distinct(Refs(facts))
    requires ResolveAccount(Moves(Empty(required), moves), book, BySystemKey("suspense")) == Some(suspense)
    requires ResolveAccount(Moves(Empty(required), moves), book, BySystemKey("marketplace_clearing")) == Some(clearing)
    requires OnlyTheirs(Moves(Empty(required), moves), suspense, Refs(facts))
    requires OnlyTheirs(Moves(Empty(required), moves), clearing, Refs(facts))
    ensures var balance := RowAmount(Moves(Empty(required), moves), book, AllTime(), Signed());
            && balance(suspense) == Total(facts, Surcharge()) - Total(facts, GapOf())
            && (balance(suspense) == 0 <==> Total(facts, Surcharge()) == Total(facts, GapOf()))
            && balance(clearing) == Total(facts, Owed())
  {
    hide AllConcluded, ResolveAccount, EffectOn, Surcharge, GapOf, Owed, Moves, RowAmount, Distinct, OnlyTheirs, Refs;
    AccountHoldsEffects(required, moves, book, facts, settled, "suspense", suspense);
    AccountHoldsEffects(required, moves, book, facts, settled, "marketplace_clearing", clearing);
    OrderFacts(required, moves, book, facts, settled);
    SuspenseClears(facts);
  }

  lemma OrderFacts(required: set<(nat, nat)>, moves: seq<Move>, book: nat, facts: seq<SourceFact>, settled: seq<nat>)
    requires AllConcluded(required, moves, book, facts, settled)
    ensures forall n :: 0 <= n < |facts| ==> OrderFact(facts[n])
  {
    hide OrderFact, Concluded;
  }

  /** With rows that are gone among the facts, the clearing account is off by what was owed for them. */
  lemma ClearingIsOff(required: set<(nat, nat)>, moves: seq<Move>, book: nat, current: seq<SourceFact>, gone: seq<SourceFact>,
                      settled: seq<nat>, clearing: nat)
    requires AllConcluded(required, moves, book, current + gone, settled) && Distinct(Refs(current + gone))
    requires ResolveAccount(Moves(Empty(required), moves), book, BySystemKey("marketplace_clearing")) == Some(clearing)
    requires OnlyTheirs(Moves(Empty(required), moves), clearing, Refs(current + gone))
    ensures RowAmount(Moves(Empty(required), moves), book, AllTime(), Signed())(clearing) - Total(current, Owed()) == Total(gone, Owed())
  {
    hide AllConcluded, ResolveAccount, EffectOn, Owed, Moves, RowAmount, Distinct, OnlyTheirs, Refs;
    AccountHoldsEffects(required, moves, book, current + gone, settled, "marketplace_clearing", clearing);
    OrderFacts(required, moves, book, current + gone, settled);
    SuspenseClears(current + gone);
    TotalConcat(current, gone, Owed());
  }

  // ----- Facts that vanish -----

  /** A settled fact whose row is deleted afterwards: every later call finds nothing, and its entry stands. */
  lemma VanishedFactStands(required: set<(nat, nat)>, moves: seq<Move>, k: nat, book: nat, rules: RuleBook,
                           fact: SourceFact, rule: ResolvedRule, ev: Evaluation)
    requires HistoryOk(moves, fact.ref, book, rules) && RuleBookOk(rules) && LastSettled(required, moves, k, book, fact, rule)
    requires rule.versionId in rules && rules[rule.versionId] == rule && BuildLines(fact, rule).Ok?
    requires ev.ref == fact.ref && ev.reading.None?
    ensures var called := Evaluate(Moves(Empty(required), moves), ev);
            called.1 == Unpostable(FactNotFound) && ShowsExactly(called.0, fact.ref, book, BuildLines(fact, rule).value)
  {
    hide BuildLines, ShowsExactly, HistoryOk, RuleBookOk, LastSettled;
    HistoryShows(required, moves, k, book, rules, fact, rule);
  }

  /** A fee or refund and a copy of it under another id show twice its effect. */
  lemma CopiesAddUp(required: set<(nat, nat)>, moves: seq<Move>, book: nat, fee: SourceFact, id: nat, j: nat, k: nat,
                          key: string, account: nat)
    requires OrderFact(fee) && fee.ref.kind != Order && id != fee.ref.id
    requires var copy := fee.(ref := FactRef(fee.ref.kind, id));
             Concluded(required, moves, j, book, fee) && Concluded(required, moves, k, book, copy)
    requires ResolveAccount(Moves(Empty(required), moves), book, BySystemKey(key)) == Some(account)
    ensures var copy, db := fee.(ref := FactRef(fee.ref.kind, id)), Moves(Empty(required), moves);
            NetOn(db, account)(fee) + NetOn(db, account)(copy) == 2 * EffectOn(key)(fee)
  {
    hide Concluded, ResolveAccount, Moves, NetOn;
    var copy := fee.(ref := FactRef(fee.ref.kind, id));
    FactNets(required, moves, book, fee, j, key, account);
    FactNets(required, moves, book, copy, k, key, account);
    CopyHasSameEffect(fee, id, key);
  }

  lemma CopyHasSameEffect(fee: SourceFact, id: nat, key: string)
    requires OrderFact(fee) && fee.ref.kind != Order
    ensures OrderFact(fee.(ref := FactRef(fee.ref.kind, id)))
    ensures EffectOn(key)(fee.(ref := FactRef(fee.ref.kind, id))) == EffectOn(key)(fee)
  {
    hide EffectOn;
    var copy := fee.(ref := FactRef(fee.ref.kind, id));
    KeysOfTransfersDiffer();
    DirectionsDiffer();
    if fee.ref.kind == OrderRefund {
      MovedFactPosts(fee, "sales_returns", "marketplace_clearing", Refund);
      MovedFactPosts(copy, "sales_returns", "marketplace_clearing", Refund);
    } else if Direction(fee) == "seller_charge" {
      MovedFactPosts(fee, "marketplace_fees", "marketplace_clearing", Fee);
      MovedFactPosts(copy, "marketplace_fees", "marketplace_clearing", Fee);
    } else {
      MovedFactPosts(fee, "suspense", "buyer_fee_income", Fee);
      MovedFactPosts(copy, "suspense", "buyer_fee_income", Fee);
    }
  }
}
