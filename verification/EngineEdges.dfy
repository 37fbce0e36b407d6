/**
 * Edges of the protocol (`posting-engine.ts`): a changed fact whose new lines are too few, a date
 * no period contains, and what a rule's lines do not carry into the journal.
 */
module EngineEdges {
  import opened Prelude
  import opened Facts
  import opened Ledger
  import opened LedgerInvariants
  import opened LedgerAcceptance
  import opened Templates
  import opened PostingEngine
  import Convergence
  import ReturningFact
  import opened Rounding

  /** Fewer than two lines are posted only in the sense that an entry with their key is found. */
  lemma ShortPost(db: Db, fact: SourceFact, rule: ResolvedRule, book: nat, allow: bool)
    requires BuildLines(fact, rule).Ok? && |BuildLines(fact, rule).value| < 2
    ensures Post(db, fact, rule, book, allow).Ok?
            <==> BuildLines(fact, rule).value != [] && FindKey(db.entries, MintKey(fact, rule)).Some?
    ensures Post(db, fact, rule, book, allow).Ok? ==> Commit(db, Post(db, fact, rule, book, allow).value.change) == db
  {
    hide BuildLines, FingerprintFact, TakeStamp, CheckHeader, CarriesRequired, ResolveLine;
  }

  /** A reversal takes no rule key. */
  lemma ReversalTakesNoRuleKey(db: Db, c: Change, key: PostingKey)
    requires Allowed(db, c) && c.AddReversal? && key.RuleKey?
    ensures FindKey(Commit(db, c).entries, key).Some? <==> FindKey(db.entries, key).Some?
  {
    hide Enters, Negated, HeaderFresh, IsReversed;
    var after := Commit(db, c).entries;
    NewReversal(db, c);
    forall i | 0 <= i < |db.entries| ensures after[i].header.key == db.entries[i].header.key {
      RowStays(db, c, i);
    }
    if FindKey(db.entries, key).Some? {
      assert after[FindKey(db.entries, key).value].header.key == Some(key);
    }
  }

  /**
   * A posted fact that changed so that fewer than two lines remain: the reversal is committed, the
   * call throws (unless an entry with the new key is found), and the next call changes nothing and
   * reports nothing to post.
   */
  lemma ReversesThenThrows(db: Db, ev: Evaluation, book: nat, rules: Convergence.RuleBook)
    requires Inv(db) && Convergence.ProtocolOk(db, ev.ref, book, rules) && Convergence.EvaluationOk(ev, ev.ref, book, rules)
    requires ev.reading.Some? && !ev.reading.value.ineligible && Screen(db, ev).None?
    requires var fact, rule := ev.reading.value, ev.rule.value;
             var existing := ExistingEntry(db.entries, fact.ref);
             && existing.Some? && !UpToDate(db.entries[existing.value], fact, rule)
             && BuildLines(fact, rule).Ok? && |BuildLines(fact, rule).value| < 2
             && DecideReverse(db, existing.value, Some(fact.date), ev.allowBackdated).Ok?
    ensures var fact, rule := ev.reading.value, ev.rule.value;
            var existing := ExistingEntry(db.entries, fact.ref).value;
            var first := Evaluate(db, ev);
            && first.0 == Commit(db, DecideReverse(db, existing, Some(fact.date), ev.allowBackdated).value.change)
            && (first.1.Threw? <==> BuildLines(fact, rule).value == [] || FindKey(db.entries, MintKey(fact, rule)).None?)
            && Evaluate(first.0, ev) == (first.0, Unpostable(NothingToPost))
  {
    hide Inv, Convergence.ProtocolOk, Commit, DecideReverse, Post, BuildLines, UpToDate, Allowed, FingerprintFact, FindKey;
    var fact, rule := ev.reading.value, ev.rule.value;
    var existing := ExistingEntry(db.entries, fact.ref).value;
    var c := DecideReverse(db, existing, Some(fact.date), ev.allowBackdated).value.change;
    Convergence.ProtocolHasOneLive(db, ev.ref, book, rules);
    Convergence.LiveIsReversed(db, existing, Some(fact.date), ev.allowBackdated, fact.ref);
    ReversalTakesNoRuleKey(db, c, MintKey(fact, rule));
    ShortPost(Commit(db, c), fact, rule, ev.route.value, ev.allowBackdated);
  }

  /** For instance an order of 100 that a re-sync brings to nothing. */
  lemma SyncedToNothing()
    ensures ReaderShaped(ReturningFact.Reading(100)) && ReaderShaped(ReturningFact.Reading(0))
    ensures var db, ev := ReturningFact.Example(ReturningFact.First(), 2), ReturningFact.Call(0);
            var undone := ReturningFact.Example([ReturningFact.Undone(100, 1), ReturningFact.Undoing(100, 0, 1)], 3);
            && Evaluate(db, ev) == (undone, Threw(Validation))
            && Evaluate(undone, ev) == (undone, Unpostable(NothingToPost))
  {
    hide BuildLines, ReturningFact.EntryFor, ReturningFact.Undoing, MintKey, FindKey, DecideReverse, Commit, FingerprintFact, Live, Post,
         ReaderShaped;
    ReturningFact.ReadingIsReadable(100);
    ReturningFact.ReadingIsReadable(0);
    NothingBuilds();
    UndoneIsNotLive(100, 1);
    EmptyPost(ReturningFact.Example([ReturningFact.Undone(100, 1), ReturningFact.Undoing(100, 0, 1)], 3),
              ReturningFact.Reading(0), ReturningFact.Rule(), 0, false);
    ReturningFact.EntryBasics(100, 1);
    ReturningFact.UndoingBasics(100, 0, 1);
    ReturningFact.FingerprintsDiffer(100, 0);
    ReturningFact.KeysDiffer(100, 0);
    ReturningFact.Reverses(ReturningFact.First(), 0, 1, 100);
    assert ReturningFact.First()[0 := ReturningFact.Undone(100, 1)] + [ReturningFact.Undoing(100, 0, 1)]
           == [ReturningFact.Undone(100, 1), ReturningFact.Undoing(100, 0, 1)];
  }

  lemma UndoneIsNotLive(amount: int, number: nat)
    ensures !Live(ReturningFact.Undone(amount, number), ReturningFact.Ref())
  {
    hide ReturningFact.Posted2, FingerprintFact;
  }

  lemma EmptyPost(db: Db, fact: SourceFact, rule: ResolvedRule, book: nat, allow: bool)
    requires BuildLines(fact, rule) == Ok([])
    ensures Post(db, fact, rule, book, allow) == Err(Validation)
  {
    hide BuildLines, FingerprintFact;
    assert JournalLines(fact, []) == [];
  }

  lemma NothingBuilds()
    ensures BuildLines(ReturningFact.Reading(0), ReturningFact.Rule()) == Ok([])
  {
    hide MulRound;
    var fact, lines := ReturningFact.Reading(0), ReturningFact.Rule().lines;
    MulRoundZero(lines[0].multiplier);
    MulRoundZero(lines[1].multiplier);
    assert lines[..1] == [lines[0]] && lines[..1][..0] == [] && lines[..2] == lines;
    assert Plain(fact, lines[..1]) == Ok([]);
    assert Plain(fact, lines) == Ok([]);
    NoPlug(lines);
  }

  /** A date no period contains is an error thrown, not a verdict: everything else may be in order. */
  lemma NoPeriodThrows(db: Db, ev: Evaluation)
    requires ev.reading.Some? && !ev.reading.value.ineligible && Screen(db, ev).None?
    requires ExistingEntry(db.entries, ev.reading.value.ref).None?
    requires BuildLines(ev.reading.value, ev.rule.value).Ok? && |BuildLines(ev.reading.value, ev.rule.value).value| >= 2
    requires var fact, rule, book := ev.reading.value, ev.rule.value, ev.route.value;
             var inputs := JournalLines(fact, BuildLines(fact, rule).value);
             && FindKey(db.entries, MintKey(fact, rule)).None? && BookAccepts(db, book)
             && ResolveLines(db, book, inputs).Ok? && Balanced(ResolveLines(db, book, inputs).value)
             && CarriesRequired(db, book, ResolveLines(db, book, inputs).value)
             && FindPeriod(db.periods, book, fact.date).None?
    ensures Evaluate(db, ev) == (db, Threw(PeriodClosed))
  {
    hide BuildLines, ResolveLines, Balanced, CarriesRequired, FingerprintFact;
  }

  /** Whatever dimension a rule line or an allocation names, the entry's lines carry none. */
  lemma NoDimensionArrives(db: Db, fact: SourceFact, rule: ResolvedRule, book: nat, allow: bool)
    requires Post(db, fact, rule, book, allow).Ok? && Post(db, fact, rule, book, allow).value.change.AddPosted?
    ensures var lines := Post(db, fact, rule, book, allow).value.change.entry.lines;
            forall i :: 0 <= i < |lines| ==> lines[i].dimensions == map[]
  {
    hide BuildLines, Balanced, CarriesRequired, FingerprintFact, TakeStamp, CheckHeader, ResolveLines, LineAccepted;
    ResolvesExactly(db, book, JournalLines(fact, BuildLines(fact, rule).value));
  }
}
