/**
 * `evaluateFact` as it runs (`posting-engine.ts`): a sequence of separate journal transactions on
 * the service's rows, proved to be the protocol of `PostingEngine`.
 */
module EngineService {
  import opened Prelude
  import opened Facts
  import opened Ledger
  import opened LedgerInvariants
  import opened LedgerService
  import opened Templates
  import opened PostingEngine
  import BookLinks
  import Links = BookLinksService
  import Convergence
  import PostingRules
  import Rules = PostingRulesService
  import RuleHistory
  import LinkAnswers
  import RuleAnswers

  /** A service method that does what was decided takes the step the run lemmas speak of. */
  lemma ServiceSteps(op: Op, before: Db, after: Db, r: Result<Receipt>)
    requires Did(Decide(before, op), before, after, r)
    ensures after == Apply(before, op)
    ensures Inv(before) ==> Inv(after)
  {
    hide Inv, Decide, Commit;
    if Inv(before) {
      StepKeeps(before, op);
    }
  }

  /** `routeBook`: the fact's own book if it names one, else what the links and the default say. */
  function RouteOf(links: BookLinks.Store, fact: SourceFact, override: Option<nat>, default: Option<nat>): Option<nat> {
    if override.Some? then override
    else
      var routing := BookLinks.ResolveBook(links, fact.entity, fact.date, default);
      if routing.Some? then Some(routing.value.book) else None
  }

  /** The active version of the rule the resolver found. */
  function VersionOf(rules: PostingRules.Store, r: Option<nat>, fact: SourceFact, book: nat): Option<ResolvedRule> {
    if r.None? || r.value >= |rules.rules| then None
    else
      var v := PostingRules.Fires(rules, r.value, fact, book);
      if v.None? || v.value >= |rules.versions| || rules.versions[v.value].rule >= |rules.rules| then None
      else Some(RuleHistory.ResolvedVersion(rules, v.value))
  }

  function RuleOf(rules: PostingRules.Store, fact: SourceFact, book: nat): Option<ResolvedRule> {
    VersionOf(rules, PostingRules.ResolveForFact(rules, fact, book), fact, book)
  }

  /** What the router and the rule resolver answer about a reading. */
  function EvaluationOf(links: BookLinks.Store, rules: PostingRules.Store, ref: FactRef, reading: Option<SourceFact>,
                        override: Option<nat>, default: Option<nat>, allow: bool): Evaluation {
    if reading.None? then Evaluation(ref, None, None, None, allow)
    else
      var route := RouteOf(links, reading.value, override, default);
      Evaluation(ref, reading, route, if route.Some? then RuleOf(rules, reading.value, route.value) else None,
                 allow)
  }

  /** Such an evaluation is one the convergence theorem speaks of, over the versions the store holds. */
  lemma EvaluationOfIsOk(links: BookLinks.Store, rules: PostingRules.Store, ref: FactRef, reading: Option<SourceFact>,
                         override: Option<nat>, default: Option<nat>, allow: bool, book: nat)
    requires reading.Some? ==> reading.value.ref == ref
    requires reading.Some? && RouteOf(links, reading.value, override, default).Some?
             ==> RouteOf(links, reading.value, override, default) == Some(book)
    ensures Convergence.EvaluationOk(EvaluationOf(links, rules, ref, reading, override, default, allow), ref, book,
                                     RuleHistory.Versions(rules))
  {
    hide PostingRules.ResolveForFact, PostingRules.Fires, RouteOf;
  }

  /** The fact's own book if it names one; else that of the nearest link at or above its entity on its date; else the default. */
  lemma RouteExactly(links: BookLinks.Store, depth: seq<nat>, fact: SourceFact, override: Option<nat>, default: Option<nat>)
    requires BookLinks.Acyclic(links.parents, depth) && BookLinks.LinksOk(links) && (fact.entity.Some? ==> fact.entity.value < |links.parents|)
    ensures var route := RouteOf(links, fact, override, default);
            && (override.Some? ==> route == override)
            && (override.None? && (fact.entity.None? || LinkAnswers.NoneUp(links, fact.entity.value, fact.date)) ==> route == default)
            && (forall n: nat, i: nat :: override.None? && fact.entity.Some? && LinkAnswers.NearestUp(links, fact.entity.value, fact.date, n, i)
                  ==> i < |links.links| && route == Some(links.links[i].book))
  {
    hide BookLinks.ResolveBook, LinkAnswers.NearestUp, LinkAnswers.NoneUp;
    LinkAnswers.ResolveAnswers(links, depth, fact.entity, fact.date, default);
  }

  /** The rule handed on is the one that answers ahead of all others, with its current version's number, attributes and lines. */
  lemma RuleExactly(rules: PostingRules.Store, fact: SourceFact, book: nat)
    requires PostingRules.StoreOk(rules)
    ensures match RuleOf(rules, fact, book)
            case None => forall q: nat, v: nat :: !RuleAnswers.Answers(rules, q, fact, book, v)
            case Some(rule) => exists r: nat, v: nat :: IsChosen(rules, fact, book, r, v, rule)
  {
    hide PostingRules.ResolveForFact, PostingRules.Fires, RuleAnswers.Answers, PostingRules.StoreOk, IsChosen;
    RuleAnswers.ResolveAnswers(rules, fact, book);
    var r := PostingRules.ResolveForFact(rules, fact, book);
    if r.Some? {
      var v: nat :| RuleAnswers.Answers(rules, r.value, fact, book, v);
      RuleAnswers.AnswersInside(rules, r.value, fact, book, v);
      RuleAnswers.FiresExactly(rules, r.value, fact, book);
      VersionInside(rules, r.value, fact, book, v);
      Chosen(rules, fact, book, r.value, v);
    }
  }

  lemma Chosen(rules: PostingRules.Store, fact: SourceFact, book: nat, r: nat, v: nat)
    requires RuleAnswers.Answers(rules, r, fact, book, v) && r < |rules.rules| && v < |rules.versions| && rules.versions[v].rule == r
    requires forall q: nat, w: nat :: q != r && RuleAnswers.Answers(rules, q, fact, book, w) ==>
               q < |rules.rules| && RuleAnswers.Ahead(rules.rules[r], rules.rules[q])
    ensures IsChosen(rules, fact, book, r, v, RuleHistory.ResolvedVersion(rules, v))
  {
    hide RuleAnswers.Answers, RuleAnswers.Ahead;
  }

  /** Version `v` of rule `r`, which answers for the fact ahead of every other rule that does. */
  ghost predicate IsChosen(rules: PostingRules.Store, fact: SourceFact, book: nat, r: nat, v: nat, rule: ResolvedRule) {
    && RuleAnswers.Answers(rules, r, fact, book, v) && IsVersion(rules, r, v, rule)
    && forall q: nat, w: nat :: q != r && RuleAnswers.Answers(rules, q, fact, book, w) ==> IsAhead(rules, r, q)
  }

  ghost predicate IsAhead(rules: PostingRules.Store, r: nat, q: nat) {
    r < |rules.rules| && q < |rules.rules| && RuleAnswers.Ahead(rules.rules[r], rules.rules[q])
  }

  ghost predicate IsVersion(rules: PostingRules.Store, r: nat, v: nat, rule: ResolvedRule) {
    && r < |rules.rules| && v < |rules.versions|
    && rule.code == rules.rules[r].code && rule.versionId == v && rule.version == rules.versions[v].number
    && rule.matchedAttributes == rules.versions[v].predicates.attributes.Keys && rule.lines == rules.versions[v].lines
  }

  lemma VersionInside(rules: PostingRules.Store, r: nat, fact: SourceFact, book: nat, v: nat)
    requires PostingRules.StoreOk(rules) && RuleAnswers.Answers(rules, r, fact, book, v)
    ensures r < |rules.rules| && v < |rules.versions| && rules.versions[v].rule == r
  {
    hide PostingRules.TextsOk, RuleAnswers.Suits;
  }

  /** Route and rule as above, of the fact that was read; nothing of a fact that was not. */
  lemma EvaluationExactly(links: BookLinks.Store, depth: seq<nat>, rules: PostingRules.Store, ref: FactRef, reading: Option<SourceFact>,
                          override: Option<nat>, default: Option<nat>, allow: bool)
    requires BookLinks.Acyclic(links.parents, depth) && BookLinks.LinksOk(links) && PostingRules.StoreOk(rules)
    requires reading.Some? && reading.value.entity.Some? ==> reading.value.entity.value < |links.parents|
    ensures var ev := EvaluationOf(links, rules, ref, reading, override, default, allow);
            && ev.ref == ref && ev.reading == reading && ev.allowBackdated == allow
            && (reading.None? ==> ev.route.None? && ev.rule.None?)
            && (reading.Some? ==> RoutedAs(links, reading.value, override, default, ev.route))
            && (reading.Some? && ev.route.Some? && ev.rule.Some? ==>
                  exists r: nat, v: nat :: IsChosen(rules, reading.value, ev.route.value, r, v, ev.rule.value))
            && (reading.Some? && ev.route.Some? && ev.rule.None? ==> forall q: nat, v: nat :: !RuleAnswers.Answers(rules, q, reading.value, ev.route.value, v))
            && (ev.route.None? ==> ev.rule.None?)
  {
    hide RouteOf, RuleOf, IsChosen, RuleAnswers.Answers, LinkAnswers.NearestUp, LinkAnswers.NoneUp;
    if reading.Some? {
      RouteExactly(links, depth, reading.value, override, default);
      var route := RouteOf(links, reading.value, override, default);
      if route.Some? {
        RuleExactly(rules, reading.value, route.value);
      }
    }
  }

  ghost predicate RoutedAs(links: BookLinks.Store, fact: SourceFact, override: Option<nat>, default: Option<nat>, route: Option<nat>) {
    && (override.Some? ==> route == override)
    && (override.None? && (fact.entity.None? || LinkAnswers.NoneUp(links, fact.entity.value, fact.date)) ==> route == default)
    && (forall n: nat, i: nat :: override.None? && fact.entity.Some? && LinkAnswers.NearestUp(links, fact.entity.value, fact.date, n, i)
          ==> i < |links.links| && route == Some(links.links[i].book))
  }

  class Engine {
    const ledger: LedgerService
    const rules: Rules.PostingRulesService
    const links: Links.BookLinksService

    constructor (ledger: LedgerService, rules: Rules.PostingRulesService, links: Links.BookLinksService)
      ensures this.ledger == ledger && this.rules == rules && this.links == links
    {
      this.ledger, this.rules, this.links := ledger, rules, links;
    }

    /** `post`: instantiate the template, then post in one transaction. */
    method PostFact(fact: SourceFact, rule: ResolvedRule, book: nat, allow: bool) returns (r: Result<Receipt>)
      modifies ledger
      ensures Did(Post(old(ledger.View()), fact, rule, book, allow), old(ledger.View()), ledger.View(), r)
    {
      hide DecidePost, BuildLines, Commit;
      var built := BuildInLoop(fact, rule);
      if built.Err? {
        return Err(built.error);
      }
      r := ledger.PostEntry(PostInput(fact, rule, book, built.value), allow);
    }

    /** The whole call, from a reading: route it, resolve its rule, then post, leave or repost. */
    method EvaluateFact(ref: FactRef, reading: Option<SourceFact>, override: Option<nat>, default: Option<nat>, allow: bool)
      returns (v: Verdict)
      modifies ledger
      ensures (ledger.View(), v)
              == Evaluate(old(ledger.View()), EvaluationOf(links.View(), rules.View(), ref, reading, override, default, allow))
      ensures rules.View() == old(rules.View()) && links.View() == old(links.View())
    {
      hide Evaluate, PostingRules.ResolveForFact, PostingRules.Fires, BookLinks.ResolveBook;
      if reading.None? {
        v := EvaluateReading(Evaluation(ref, None, None, None, allow));
        return;
      }
      var fact := reading.value;
      var route := override;
      if override.None? {
        var routing := links.ResolveBookForEntity(fact.entity, fact.date, default);
        if routing.Some? {
          route := Some(routing.value.book);
        }
      }
      var rule: Option<ResolvedRule> := None;
      if route.Some? {
        var found := rules.FindRule(fact, route.value);
        rule := VersionOf(rules.View(), found, fact, route.value);
      }
      v := EvaluateReading(Evaluation(ref, reading, route, rule, allow));
    }

    method EvaluateReading(ev: Evaluation) returns (v: Verdict)
      modifies ledger
      ensures (ledger.View(), v) == Evaluate(old(ledger.View()), ev)
    {
      hide DecideReverse, BuildLines, Commit, Post, UpToDate;
      if ev.reading.None? {
        return Unpostable(FactNotFound);
      }
      var fact := ev.reading.value;
      var existing := ExistingEntry(ledger.entries, fact.ref);
      if fact.ineligible {
        if existing.Some? {
          var undone := ledger.ReverseEntry(existing.value, Some(fact.date), ev.allowBackdated);
          if undone.Err? {
            return Threw(undone.error);
          }
        }
        return Unpostable(FactIneligible);
      }
      var screened := Screen(ledger.View(), ev);
      if screened.Some? {
        return screened.value;
      }
      if existing.Some? {
        if UpToDate(ledger.entries[existing.value], fact, ev.rule.value) {
          return Unchanged(existing.value);
        }
        var undone := ledger.ReverseEntry(existing.value, Some(fact.date), ev.allowBackdated);
        if undone.Err? {
          return Threw(undone.error);
        }
        var again := PostFact(fact, ev.rule.value, ev.route.value, ev.allowBackdated);
        return if again.Ok? then Reposted(again.value.id, undone.value.id) else Threw(again.error);
      }
      var built := BuildInLoop(fact, ev.rule.value);
      if built.Err? {
        return Threw(built.error);
      }
      if |built.value| < 2 {
        return Unpostable(NothingToPost);
      }
      var posted := PostFact(fact, ev.rule.value, ev.route.value, ev.allowBackdated);
      v := if posted.Err? then Threw(posted.error)
      else if posted.value.reused then Unchanged(posted.value.id)
      else PostedNew(posted.value.id);
    }
  }
}
