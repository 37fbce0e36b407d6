/**
 * Which verdict `evaluateFact` gives, and what each leaves (`posting-engine.ts`): said from the reading, the
 * route, the book, the rule, the fact's entry in the books and the journal's own answers.
 */
module EngineAnswers {
  import opened Prelude
  import opened Facts
  import opened Ledger
  import opened LedgerInvariants
  import opened Templates
  import opened PostingEngine
  import opened Convergence

  /** The fact's entry: posted by a rule for it, not reversed, itself no reversal. */
  ghost predicate Stands(db: Db, i: nat, f: FactRef) {
    && i < |db.entries| && db.entries[i].header.source == PostingRule && db.entries[i].header.fact == Some(f)
    && db.entries[i].status == Posted && db.entries[i].reverses == None
  }

  ghost predicate NoneStands(db: Db, f: FactRef) {
    forall i: nat :: !Stands(db, i, f)
  }

  /** The entry carries the stamp of this version on this reading. */
  ghost predicate Current(e: Entry, fact: SourceFact, rule: ResolvedRule) {
    e.header.fingerprint == Some(FingerprintFact(fact, rule)) && e.header.version == Some(rule.versionId)
  }

  /** What the journal is asked to post. */
  function Input(fact: SourceFact, rule: ResolvedRule, book: nat, built: seq<BuiltLine>): EntryInput {
    var stamp := FingerprintFact(fact, rule);
    EntryInput(Some(book), fact.date,
               Header(PostingRule, Some(rule.versionId), Some(RuleKey(rule.code, rule.version, fact.ref, stamp)), Some(fact.ref), Some(stamp)),
               seq(|built|, i requires 0 <= i < |built| => LineInput(built[i].account, built[i].entity, Some(fact.currency), built[i].amount, map[])))
  }

  /** The reading is there and may post. */
  ghost predicate Eligible(ev: Evaluation) {
    ev.reading.Some? && !ev.reading.value.ineligible
  }

  ghost predicate Routed(db: Db, ev: Evaluation) {
    ev.route.Some? && ev.route.value < |db.books| && db.books[ev.route.value].active
  }

  /** A route to a book that is archived counts as none. */
  ghost predicate Unrouted(db: Db, ev: Evaluation) {
    ev.route.None? || (ev.route.value < |db.books| && !db.books[ev.route.value].active)
  }

  /** Reading, route and rule are there. */
  ghost predicate Ready(db: Db, ev: Evaluation) {
    Eligible(ev) && Routed(db, ev) && ev.rule.Some?
  }

  lemma StandsIsLive(db: Db, f: FactRef)
    requires OneLive(db, f)
    ensures forall i: nat :: Stands(db, i, f) <==> ExistingEntry(db.entries, f) == Some(i)
  {
    var found := ExistingEntry(db.entries, f);
    forall i: nat | Stands(db, i, f) ensures found == Some(i) {
      assert Live(db.entries[i], f);
    }
  }

  lemma InputIsPosted(fact: SourceFact, rule: ResolvedRule, book: nat, built: seq<BuiltLine>)
    ensures PostInput(fact, rule, book, built) == Input(fact, rule, book, built)
  {
  }

  lemma PostIsDecided(db: Db, fact: SourceFact, rule: ResolvedRule, book: nat, allow: bool)
    ensures Post(db, fact, rule, book, allow)
            == match BuildLines(fact, rule)
               case Err(e) => Err(e)
               case Ok(built) => Decide(db, PostEntry(Input(fact, rule, book, built), allow))
  {
    hide DecidePost, BuildLines, PostInput, Input;
    if BuildLines(fact, rule).Ok? {
      InputIsPosted(fact, rule, book, BuildLines(fact, rule).value);
    }
  }

  // ----- Early ends -----

  /** No reading, no route, no rule: exactly these verdicts, and nothing changes. */
  lemma MissingExactly(db: Db, ev: Evaluation)
    ensures var (after, verdict) := Evaluate(db, ev);
            && (verdict == Unpostable(FactNotFound) <==> ev.reading.None?)
            && (verdict == Unpostable(NoRoute) <==> Eligible(ev) && Unrouted(db, ev))
            && (verdict == Unpostable(NoRule) <==> Eligible(ev) && Routed(db, ev) && ev.rule.None?)
            && (ev.reading.None? || (Eligible(ev) && !Ready(db, ev)) ==> after == db)
            && (Eligible(ev) && ev.route.Some? && ev.route.value >= |db.books| ==> verdict == Threw(NotFound))
  {
    hide DecideReverse, Post, BuildLines, UpToDate, ExistingEntry;
  }

  /**
   * An ineligible reading: whatever the fact has in the books is reversed, on the fact's date, and nothing of it
   * is shown; unless the reversal is refused, and then the call throws that refusal and changes nothing.
   */
  lemma IneligibleExactly(db: Db, ev: Evaluation, book: nat, rules: RuleBook)
    requires Inv(db) && ProtocolOk(db, ev.ref, book, rules) && EvaluationOk(ev, ev.ref, book, rules)
    requires ev.reading.Some? && ev.reading.value.ineligible
    ensures var (after, verdict) := Evaluate(db, ev);
            if NoneStands(db, ev.ref) then
              verdict == Unpostable(FactIneligible) && after == db && ShowsNothing(after, ev.ref)
            else
              exists i: nat :: && Stands(db, i, ev.ref)
                               && var undo := ReverseEntry(i, Some(ev.reading.value.date), ev.allowBackdated);
                                  if Decide(db, undo).Ok? then
                                    && verdict == Unpostable(FactIneligible) && after == Apply(db, undo)
                                    && NoneStands(after, ev.ref) && ShowsNothing(after, ev.ref)
                                  else
                                    verdict == Threw(Decide(db, undo).error) && after == db
    ensures Evaluate(db, ev).1.Unpostable? ==> Evaluate(db, ev).1 == Unpostable(FactIneligible)
  {
    hide Inv, ProtocolOk, Commit, DecideReverse, Post, BuildLines, UpToDate, Convergence.Net, OneLive, Stands;
    var fact := ev.reading.value;
    ProtocolHasOneLive(db, ev.ref, book, rules);
    StandsIsLive(db, ev.ref);
    var existing := ExistingEntry(db.entries, ev.ref);
    if existing.None? {
      forall p: Place ensures Convergence.Net(db, ev.ref, p) == 0 {
        NoneLiveNoNet(db, ev.ref, book, rules, p);
      }
    } else {
      var i := existing.value;
      assert Stands(db, i, ev.ref);
      if DecideReverse(db, i, Some(fact.date), ev.allowBackdated).Ok? {
        var after := Commit(db, DecideReverse(db, i, Some(fact.date), ev.allowBackdated).value.change);
        ReverseKeeps(db, i, Some(fact.date), ev.allowBackdated, ev.ref, book, rules);
        LiveIsReversed(db, i, Some(fact.date), ev.allowBackdated, ev.ref);
        ProtocolHasOneLive(after, ev.ref, book, rules);
        StandsIsLive(after, ev.ref);
        forall p: Place ensures Convergence.Net(after, ev.ref, p) == 0 {
          NoneLiveNoNet(after, ev.ref, book, rules, p);
        }
      }
    }
  }

  /** A call says ineligible of an ineligible reading only. */
  lemma IneligibleOnly(db: Db, ev: Evaluation)
    ensures Evaluate(db, ev).1 == Unpostable(FactIneligible) ==> ev.reading.Some? && ev.reading.value.ineligible
  {
    hide DecideReverse, Post, BuildLines, UpToDate, ExistingEntry;
  }

  // ----- An eligible, routed, ruled fact -----

  /** With nothing of it in the books: built lines, then the journal's answer to exactly these lines. */
  lemma FirstTimeExactly(db: Db, ev: Evaluation, book: nat, rules: RuleBook)
    requires Inv(db) && ProtocolOk(db, ev.ref, book, rules) && EvaluationOk(ev, ev.ref, book, rules)
    requires Ready(db, ev) && NoneStands(db, ev.ref)
    ensures var (after, verdict) := Evaluate(db, ev);
            var fact, rule := ev.reading.value, ev.rule.value;
            match BuildLines(fact, rule)
            case Err(e) => verdict == Threw(e) && after == db
            case Ok(built) =>
              var post := PostEntry(Input(fact, rule, ev.route.value, built), ev.allowBackdated);
              if |built| < 2 then verdict == Unpostable(NothingToPost) && after == db
              else match Decide(db, post)
                case Err(e) => verdict == Threw(e) && after == db
                case Ok(o) => after == Apply(db, post) && verdict == if o.reused then Unchanged(o.id) else PostedNew(o.id)
  {
    hide Inv, ProtocolOk, Commit, DecidePost, BuildLines, UpToDate, OneLive, Input, Post;
    ProtocolHasOneLive(db, ev.ref, book, rules);
    StandsIsLive(db, ev.ref);
    PostIsDecided(db, ev.reading.value, ev.rule.value, ev.route.value, ev.allowBackdated);
  }

  /**
   * With its entry in the books: unchanged exactly when the entry carries the current stamp; else reversed on the
   * fact's date and posted again, each with the journal's answer, a refusal of the second leaving the first done.
   */
  lemma StandingExactly(db: Db, ev: Evaluation, book: nat, rules: RuleBook, i: nat)
    requires Inv(db) && ProtocolOk(db, ev.ref, book, rules) && EvaluationOk(ev, ev.ref, book, rules)
    requires Ready(db, ev) && Stands(db, i, ev.ref)
    ensures var (after, verdict) := Evaluate(db, ev);
            var fact, rule := ev.reading.value, ev.rule.value;
            var undo := ReverseEntry(i, Some(fact.date), ev.allowBackdated);
            && (verdict == Unchanged(i) <==> Current(db.entries[i], fact, rule))
            && (verdict.Unchanged? ==> verdict.entry == i && after == db)
            && (!Current(db.entries[i], fact, rule) ==>
                  match Decide(db, undo)
                  case Err(e) => verdict == Threw(e) && after == db
                  case Ok(undone) =>
                    var mid := Apply(db, undo);
                    match BuildLines(fact, rule)
                    case Err(e) => verdict == Threw(e) && after == mid
                    case Ok(built) =>
                      var post := PostEntry(Input(fact, rule, ev.route.value, built), ev.allowBackdated);
                      match Decide(mid, post)
                      case Err(e) => verdict == Threw(e) && after == mid
                      case Ok(o) => verdict == Reposted(o.id, undone.id) && after == Apply(mid, post))
  {
    hide Inv, ProtocolOk, Commit, DecidePost, DecideReverse, BuildLines, OneLive, Input, Post, FingerprintFact;
    ProtocolHasOneLive(db, ev.ref, book, rules);
    StandsIsLive(db, ev.ref);
    var undo := ReverseEntry(i, Some(ev.reading.value.date), ev.allowBackdated);
    PostIsDecided(Apply(db, undo), ev.reading.value, ev.rule.value, ev.route.value, ev.allowBackdated);
  }

  /** Which verdicts an eligible, routed and ruled fact can get, and when: one for one. */
  lemma VerdictExactly(db: Db, ev: Evaluation, book: nat, rules: RuleBook)
    requires Inv(db) && ProtocolOk(db, ev.ref, book, rules) && EvaluationOk(ev, ev.ref, book, rules)
    ensures var verdict := Evaluate(db, ev).1;
            && (verdict.PostedNew? <==>
                  && Ready(db, ev) && NoneStands(db, ev.ref) && Builds(ev) && |Lines(ev)| >= 2
                  && Posts(db, ev).Ok? && !Posts(db, ev).value.reused)
            && (verdict == Unpostable(NothingToPost) <==> Ready(db, ev) && NoneStands(db, ev.ref) && Builds(ev) && |Lines(ev)| < 2)
            && (verdict.Unchanged? <==>
                  && Ready(db, ev)
                  && ((exists i: nat :: Stands(db, i, ev.ref) && Current(db.entries[i], ev.reading.value, ev.rule.value))
                      || (NoneStands(db, ev.ref) && Builds(ev) && |Lines(ev)| >= 2 && Posts(db, ev).Ok? && Posts(db, ev).value.reused)))
            && (verdict.Reposted? <==>
                  && Ready(db, ev) && Builds(ev)
                  && exists i: nat :: && Stands(db, i, ev.ref) && !Current(db.entries[i], ev.reading.value, ev.rule.value)
                                      && var undo := ReverseEntry(i, Some(ev.reading.value.date), ev.allowBackdated);
                                         Decide(db, undo).Ok? && Posts(Apply(db, undo), ev).Ok?)
  {
    hide Inv, ProtocolOk, Evaluate, BuildLines, Input, Stands, Current, Decide, Apply;
    if Ready(db, ev) {
      if NoneStands(db, ev.ref) {
        FirstTimeExactly(db, ev, book, rules);
      } else {
        var i: nat :| Stands(db, i, ev.ref);
        StandingExactly(db, ev, book, rules, i);
        OnlyOneStands(db, ev.ref, book, rules, i);
      }
    } else {
      NotReady(db, ev);
    }
  }

  ghost predicate Builds(ev: Evaluation) {
    ev.reading.Some? && ev.rule.Some? && BuildLines(ev.reading.value, ev.rule.value).Ok?
  }

  function Lines(ev: Evaluation): seq<BuiltLine>
    requires Builds(ev)
  {
    BuildLines(ev.reading.value, ev.rule.value).value
  }

  /** The journal's answer to the lines built. */
  function Posts(db: Db, ev: Evaluation): Result<Outcome>
    requires Builds(ev) && ev.route.Some?
  {
    Decide(db, PostEntry(Input(ev.reading.value, ev.rule.value, ev.route.value, Lines(ev)), ev.allowBackdated))
  }

  lemma NotReady(db: Db, ev: Evaluation)
    requires !Ready(db, ev)
    ensures var verdict := Evaluate(db, ev).1;
            !verdict.PostedNew? && verdict != Unpostable(NothingToPost) && !verdict.Unchanged? && !verdict.Reposted?
  {
    hide DecideReverse, Post, BuildLines, UpToDate, ExistingEntry;
  }

  lemma OnlyOneStands(db: Db, f: FactRef, book: nat, rules: RuleBook, i: nat)
    requires ProtocolOk(db, f, book, rules) && Stands(db, i, f)
    ensures forall j: nat :: Stands(db, j, f) ==> j == i
  {
    hide Convergence.Net, LiveNet, EntryOk;
    StandsIsLive(db, f);
  }

  /** Dying after the first transaction leaves the reversal the call makes, if it makes one, and nothing else. */
  lemma CrashExactly(db: Db, ev: Evaluation, book: nat, rules: RuleBook)
    requires Inv(db) && ProtocolOk(db, ev.ref, book, rules) && EvaluationOk(ev, ev.ref, book, rules)
    ensures forall i: nat :: Reverses(db, ev, i) ==>
              CrashAfterReversal(db, ev) == Apply(db, ReverseEntry(i, Some(ev.reading.value.date), ev.allowBackdated))
    ensures (forall i: nat :: !Reverses(db, ev, i)) ==> CrashAfterReversal(db, ev) == db
  {
    hide Inv, ProtocolOk, Commit, DecideReverse, FingerprintFact, ExistingEntry, Stands;
    StandsIsFound(db, ev.ref, book, rules);
    if ev.reading.Some? && ExistingEntry(db.entries, ev.ref).Some? {
      var i := ExistingEntry(db.entries, ev.ref).value;
      assert Stands(db, i, ev.ref);
      assert Reverses(db, ev, i) || CrashAfterReversal(db, ev) == db;
    }
  }

  lemma StandsIsFound(db: Db, f: FactRef, book: nat, rules: RuleBook)
    requires Inv(db) && ProtocolOk(db, f, book, rules)
    ensures forall i: nat :: Stands(db, i, f) <==> ExistingEntry(db.entries, f) == Some(i)
  {
    hide Inv, ProtocolOk, OneLive;
    ProtocolHasOneLive(db, f, book, rules);
    StandsIsLive(db, f);
  }

  /** The fact's entry is to be reversed: the fact is ineligible, or ready and its entry not current. */
  ghost predicate Reverses(db: Db, ev: Evaluation, i: nat) {
    && ev.reading.Some? && Stands(db, i, ev.ref)
    && (ev.reading.value.ineligible || (Ready(db, ev) && !Current(db.entries[i], ev.reading.value, ev.rule.value)))
  }
}
