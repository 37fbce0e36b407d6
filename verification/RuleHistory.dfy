/**
 * Where the rule service and the engine meet: the versions a run of rule edits leaves behind are
 * the rule book the convergence theorem speaks of, and what was accepted at save time is what makes
 * the built entry balance.
 */
module RuleHistory {
  import opened Prelude
  import opened Sums
  import opened Rounding
  import opened Facts
  import opened Templates
  import opened TemplateExactness
  import opened PostingRules
  import Convergence
  import Ledger
  import LedgerInvariants
  import PostingEngine

  /** A stored version, in the shape the engine resolves it to. */
  function ResolvedVersion(s: Store, v: nat): ResolvedRule
    requires v < |s.versions| && s.versions[v].rule < |s.rules|
  {
    var version := s.versions[v];
    ResolvedRule(s.rules[version.rule].code, v, version.number, version.predicates.attributes.Keys, version.lines)
  }

  function Versions(s: Store): Convergence.RuleBook {
    map v: nat | v < |s.versions| && s.versions[v].rule < |s.rules| :: ResolvedVersion(s, v)
  }

  /** A rule code and a version number name one text, now and after any further edits. */
  lemma VersionsIdentify(s: Store, ops: seq<RuleOp>)
    requires StoreOk(s)
    ensures Convergence.RuleBookOk(Versions(s))
    ensures forall v: nat :: v in Versions(s) ==> v in Versions(Run(s, ops)) && Versions(Run(s, ops))[v] == Versions(s)[v]
  {
    hide CurrentOk, TextsOk, Run;
    RunKeeps(s, ops);
    var book := Versions(s);
    forall v, w | v in book && w in book && book[v].code == book[w].code && book[v].version == book[w].version
      ensures v == w
    {
      NumbersIdentify(s, v, w);
    }
  }

  lemma NumbersIdentify(s: Store, v: nat, w: nat)
    requires NamesOk(s) && v < |s.versions| && w < |s.versions|
    requires s.rules[s.versions[v].rule].code == s.rules[s.versions[w].rule].code
    requires s.versions[v].number == s.versions[w].number
    ensures v == w
  {
    assert s.versions[v].rule == s.versions[w].rule;
    assert SameNumber(s.versions[v], s.versions[w]) && SameNumber(s.versions[w], s.versions[v]);
  }

  /**
   * From save time to posting time: the rule that fires builds an entry that sums to zero if it has
   * a plug, and otherwise one that misses zero by exactly what the template reads of the order's gap
   * and gains by rounding. An even rule gains nothing; any other stays within half a micro-unit a line.
   */
  lemma SavedRuleBalances(s: Store, fact: SourceFact, book: nat, r: nat)
    requires StoreOk(s) && ReaderShaped(fact) && r < |s.rules| && ResolveForFact(s, fact, book) == Some(r)
    ensures Fires(s, r, fact, book).Some? && Fires(s, r, fact, book).value in Versions(s)
    ensures var rule := Versions(s)[Fires(s, r, fact, book).value];
            && BuildLines(fact, rule).Ok?
            && var sum := Total(BuildLines(fact, rule).value, Amount());
               var gapless := Gap(fact) == 0 || Total(rule.lines, TotalMultiplier(fact.ref.kind)) == 0;
               if HasPlug(rule.lines) then sum == 0
               else && MICRO * sum == Miss(fact, rule.lines)
                    && (sum == 0 <==> Miss(fact, rule.lines) == 0)
                    && (Even(fact.ref.kind, rule.lines) ==> (sum == 0 <==> gapless))
                    && (gapless ==> 2 * Abs(sum) <= |rule.lines|)
  {
    hide ReaderShaped, Gap, VersionMatches, BuildLines, Cancels, TotalMultiplier, AllowedSources, FirstFiring, Ordered, Precedes, AllowedAttributes, Even, Miss;
    ResolveIsLeast(s, fact, book);
    var v := Fires(s, r, fact, book).value;
    var rule := ResolvedVersion(s, v);
    assert s.versions[v].rule == r && ValidTemplate(fact.ref.kind, s.versions[v].predicates, rule.lines);
    if HasPlug(rule.lines) {
      PluggedBalances(fact, rule);
    } else {
      PlugFreeIsAuthorable(fact.ref.kind, rule.lines);
      EntryMissesBy(fact, rule);
      PlugFreeBuilds(fact, rule);
      if Even(fact.ref.kind, rule.lines) {
        EvenBalances(fact, rule);
      }
    }
  }

  /** A version as saved balances on every gapless fact of its type if and only if it has a plug or is even. */
  lemma SavedVersionAlwaysBalances(s: Store, v: nat)
    requires StoreOk(s) && v < |s.versions|
    ensures s.versions[v].rule < |s.rules|
    ensures AlwaysBalances(s.rules[s.versions[v].rule].kind, ResolvedVersion(s, v))
            <==> HasPlug(s.versions[v].lines) || Even(s.rules[s.versions[v].rule].kind, s.versions[v].lines)
  {
    hide ReaderShaped, Gap, BuildLines, Cancels, AllowedSources, AllowedAttributes, Even, CurrentOk, HasPlug, LineAllowed;
    var kind, rule := s.rules[s.versions[v].rule].kind, ResolvedVersion(s, v);
    if HasPlug(rule.lines) {
      forall fact: SourceFact | fact.ref.kind == kind && ReaderShaped(fact) && Gap(fact) == 0
        ensures BuildLines(fact, rule).Ok? && Total(BuildLines(fact, rule).value, Amount()) == 0
      {
        PluggedBalances(fact, rule);
      }
    } else {
      PlugFreeIsAuthorable(kind, rule.lines);
      AlwaysBalancesExactly(kind, rule);
    }
  }

  lemma PluggedBalances(fact: SourceFact, rule: ResolvedRule)
    requires ReaderShaped(fact) && HasPlug(rule.lines)
    requires forall l :: l in rule.lines ==> LineAllowed(fact.ref.kind, l)
    ensures BuildLines(fact, rule).Ok? && Total(BuildLines(fact, rule).value, Amount()) == 0
  {
    hide AllowedSources, SystemKeys;
    PlainReads(fact, rule.lines);
    PlugFound(rule.lines);
    PlugBalances(fact, rule);
  }

  lemma PlugFreeIsAuthorable(kind: FactType, lines: seq<RuleLine>)
    requires !HasPlug(lines) && forall l :: l in lines ==> LineAllowed(kind, l)
    ensures Authorable(kind, lines)
  {
    hide AllowedSources, SystemKeys;
  }

  lemma PlugFreeBuilds(fact: SourceFact, rule: ResolvedRule)
    requires ReaderShaped(fact) && Authorable(fact.ref.kind, rule.lines) && Cancels(fact.ref.kind, rule.lines)
    ensures BuildLines(fact, rule).Ok?
    ensures Gap(fact) == 0 || Total(rule.lines, TotalMultiplier(fact.ref.kind)) == 0
            ==> 2 * Abs(Total(BuildLines(fact, rule).value, Amount())) <= |rule.lines|
  {
    hide ReaderShaped, Gap, BuildLines, AllowedSources, Cancels;
    BuiltTotal(fact, rule);
    if Gap(fact) == 0 || Total(rule.lines, TotalMultiplier(fact.ref.kind)) == 0 {
      AcceptedNearlyBalances(fact, rule);
    }
  }

  // ----- In the journal -----

  /** In one currency the journal's sums are the rule's sum. */
  lemma {:induction false} RenderedTotal(db: Ledger.Db, book: nat, lines: seq<Ledger.Line>, built: seq<BuiltLine>)
    requires book < |db.books| && Convergence.Renders(db, book, lines, built)
    requires forall j :: 0 <= j < |lines| ==> LedgerInvariants.LineFits(db, book, lines[j])
    ensures Total(lines, Ledger.InCurrency(db.books[book].currency)) == Total(built, Amount())
    ensures Total(lines, Ledger.InFunctional(db.books[book].currency)) == Total(built, Amount())
  {
    hide Convergence.Names;
    if lines != [] {
      var k := |lines| - 1;
      RenderedTotal(db, book, lines[..k], built[..k]);
      assert Convergence.RendersLine(db, book, lines[k], built[k]) && LedgerInvariants.LineFits(db, book, lines[k]);
    }
  }

  /** So `assertBalanced` accepts the resolved lines exactly when the built ones sum to zero. */
  lemma JournalBalanceIsRuleBalance(db: Ledger.Db, book: nat, fact: SourceFact, built: seq<BuiltLine>)
    requires book < |db.books| && Ledger.ResolveLines(db, book, PostingEngine.JournalLines(fact, built)).Ok?
    ensures Ledger.Balanced(Ledger.ResolveLines(db, book, PostingEngine.JournalLines(fact, built)).value)
            <==> |built| >= 2 && Total(built, Amount()) == 0
  {
    hide Ledger.ResolveLines, Convergence.Renders, LedgerInvariants.LineFits;
    var lines := Ledger.ResolveLines(db, book, PostingEngine.JournalLines(fact, built)).value;
    Convergence.ResolvedRenders(db, book, fact, built);
    LedgerInvariants.ResolvedLinesFit(db, book, PostingEngine.JournalLines(fact, built));
    RenderedTotal(db, book, lines, built);
    SingleCurrency(db, book, lines);
    SameLength(db, book, lines, built);
  }

  lemma SameLength(db: Ledger.Db, book: nat, lines: seq<Ledger.Line>, built: seq<BuiltLine>)
    requires Convergence.Renders(db, book, lines, built)
    ensures |lines| == |built|
  {
  }

  lemma SingleCurrency(db: Ledger.Db, book: nat, lines: seq<Ledger.Line>)
    requires book < |db.books| && forall j :: 0 <= j < |lines| ==> LedgerInvariants.LineFits(db, book, lines[j])
    ensures forall j :: 0 <= j < |lines| ==>
              lines[j].currency == db.books[book].currency && lines[j].functionalCurrency == db.books[book].currency
  {
  }

  /**
   * A rule that fires and built two lines is never refused for balance if it was saved with a plug or
   * misses by nothing (for an even one: the fact has no gap that it reads); a plug-free one that misses
   * never gets a fresh entry; and fewer than two lines never make one.
   */
  lemma SavedRulePosts(db: Ledger.Db, s: Store, fact: SourceFact, book: nat, r: nat, allow: bool)
    requires StoreOk(s) && ReaderShaped(fact) && r < |s.rules| && ResolveForFact(s, fact, book) == Some(r)
    ensures Fires(s, r, fact, book).Some? && Fires(s, r, fact, book).value in Versions(s)
    ensures var rule := Versions(s)[Fires(s, r, fact, book).value];
            var gapless := Gap(fact) == 0 || Total(rule.lines, TotalMultiplier(fact.ref.kind)) == 0;
            var posted := PostingEngine.Post(db, fact, rule, book, allow);
            && BuildLines(fact, rule).Ok?
            && (|BuildLines(fact, rule).value| >= 2 && (HasPlug(rule.lines) || Miss(fact, rule.lines) == 0)
                ==> posted != Err(Unbalanced))
            && (!HasPlug(rule.lines) && Miss(fact, rule.lines) != 0 ==> posted.Err? || posted.value.reused)
            && (!HasPlug(rule.lines) && Even(fact.ref.kind, rule.lines) ==> (Miss(fact, rule.lines) == 0 <==> gapless))
            && (|BuildLines(fact, rule).value| < 2 ==> posted.Err? || posted.value.reused)
  {
    hide StoreOk, ReaderShaped, Gap, ResolveForFact, Fires, HasPlug, Even, Miss, BuildLines, Ledger.Balanced, Ledger.ResolveLines,
         Ledger.TakeStamp, Ledger.CheckHeader, Ledger.CarriesRequired, FingerprintFact, TotalMultiplier, PostingEngine.JournalLines, Versions;
    SavedRuleBalances(s, fact, book, r);
    var rule := Versions(s)[Fires(s, r, fact, book).value];
    var built := BuildLines(fact, rule).value;
    NotUnbalancedElsewhere(db, fact, rule, book, built, allow);
    if book < |db.books| && Ledger.ResolveLines(db, book, PostingEngine.JournalLines(fact, built)).Ok? {
      JournalBalanceIsRuleBalance(db, book, fact, built);
    }
  }

  /** Posting is refused as unbalanced only by the balance check, and succeeds only past it. */
  lemma NotUnbalancedElsewhere(db: Ledger.Db, fact: SourceFact, rule: ResolvedRule, book: nat, built: seq<BuiltLine>, allow: bool)
    requires BuildLines(fact, rule) == Ok(built)
    ensures var posted, inputs := PostingEngine.Post(db, fact, rule, book, allow), PostingEngine.JournalLines(fact, built);
            && (posted == Err(Unbalanced) ==>
                  book < |db.books| && Ledger.ResolveLines(db, book, inputs).Ok?
                  && !Ledger.Balanced(Ledger.ResolveLines(db, book, inputs).value))
            && (posted.Ok? && !posted.value.reused ==>
                  book < |db.books| && Ledger.ResolveLines(db, book, inputs).Ok?
                  && Ledger.Balanced(Ledger.ResolveLines(db, book, inputs).value))
  {
    hide BuildLines, Ledger.Balanced, Ledger.CarriesRequired, FingerprintFact, PostingEngine.JournalLines, Ledger.ResolveLine;
    if book < |db.books| {
      ResolutionNeverUnbalanced(db, book, PostingEngine.JournalLines(fact, built));
    }
  }

  lemma {:induction false} ResolutionNeverUnbalanced(db: Ledger.Db, book: nat, lines: seq<Ledger.LineInput>)
    requires book < |db.books|
    ensures Ledger.ResolveLines(db, book, lines) != Err(Unbalanced)
  {
    if lines != [] {
      ResolutionNeverUnbalanced(db, book, lines[..|lines| - 1]);
    }
  }
}
