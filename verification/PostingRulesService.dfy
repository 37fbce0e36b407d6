/** The posting-rule service as it runs: row updates inside a transaction, and the two loops that read. */
module PostingRulesService {
  import opened Prelude
  import opened Facts
  import opened PostingRules

  /** The call committed what was decided, or threw and left every row alone. */
  ghost predicate Did(decision: Result<Store>, before: Store, after: Store, r: Result<nat>) {
    match decision
    case Ok(t) => r.Ok? && after == t
    case Err(e) => r == Err(e) && after == before
  }

  class PostingRulesService {
    var rules: seq<Rule>
    var versions: seq<Version>

    function View(): Store
      reads this
    {
      Store(rules, versions)
    }

    constructor ()
      ensures View() == Store([], [])
    {
      rules, versions := [], [];
    }

    /** Three updates: retire the active version, activate this one, point the rule at it. */
    method ActivateRow(v: nat)
      requires v < |versions| && versions[v].rule < |rules|
      modifies this
      ensures View() == Activate(old(View()), v)
    {
      var r := versions[v].rule;
      ghost var before := versions;
      for i := 0 to |versions|
        invariant |versions| == |before|
        invariant forall k :: 0 <= k < i ==> versions[k] == Retire(before, r, v)[k]
        invariant forall k :: i <= k < |before| ==> versions[k] == before[k]
        invariant rules == old(rules)
      {
        if versions[i].rule == r && i != v && versions[i].status == ActiveVersion {
          versions := versions[i := versions[i].(status := Superseded)];
        }
      }
      assert versions == Retire(before, r, v);
      versions := versions[v := versions[v].(status := ActiveVersion)];
      rules := rules[r := rules[r].(current := Some(v), status := ActiveRule)];
    }

    /** `insertVersion`, then activate it if asked; the table's range checks may refuse it. */
    method InsertVersion(v: Version, activate: bool) returns (r: Result<nat>)
      requires v.rule < |rules|
      modifies this
      ensures if RangesFit(v.predicates) then r == Ok(|old(versions)|) && View() == WithVersion(old(View()), v, activate)
              else r == Err(Conflict) && View() == old(View())
    {
      if !RangesFit(v.predicates) {
        return Err(Conflict);
      }
      versions := versions + [v];
      if activate {
        ActivateRow(|versions| - 1);
      }
      r := Ok(|versions| - 1);
    }

    method CreateRule(code: string, kind: FactType, book: Option<nat>, priority: int,
                      predicates: Predicates, lines: seq<RuleLine>, activate: bool)
      returns (r: Result<nat>)
      modifies this
      ensures Did(Decide(old(View()), PostingRules.CreateRule(code, kind, book, priority, predicates, lines, activate)),
                  old(View()), View(), r)
    {
      hide ValidTemplate, Activate, WithVersion;
      if |lines| < 2 {
        return Err(Validation);
      }
      var valid := ValidatePostingRuleTemplate(kind, predicates, lines);
      if valid.Err? {
        return Err(Validation);
      }
      if exists q :: q in rules && q.code == code {
        return Err(Conflict);
      }
      var before := rules;
      rules := rules + [Rule(code, kind, book, priority, DraftRule, None)];
      r := InsertVersion(Version(|rules| - 1, 1, DraftVersion, predicates, lines), activate);
      if r.Err? {
        rules := before;
      }
    }

    method AddVersion(rule: nat, predicates: Predicates, lines: seq<RuleLine>, activate: bool) returns (r: Result<nat>)
      modifies this
      ensures Did(Decide(old(View()), PostingRules.AddVersion(rule, predicates, lines, activate)), old(View()), View(), r)
    {
      hide ValidTemplate, Activate, WithVersion;
      if |lines| < 2 {
        return Err(Validation);
      }
      if rule >= |rules| {
        return Err(NotFound);
      }
      var valid := ValidatePostingRuleTemplate(rules[rule].kind, predicates, lines);
      if valid.Err? {
        return Err(Validation);
      }
      r := InsertVersion(Version(rule, LastNumber(versions, rule) + 1, DraftVersion, predicates, lines), activate);
    }

    method ActivateVersion(v: nat) returns (r: Result<nat>)
      modifies this
      ensures Did(Decide(old(View()), PostingRules.ActivateVersion(v)), old(View()), View(), r)
    {
      if v >= |versions| || versions[v].rule >= |rules| {
        return Err(NotFound);
      }
      if versions[v].status == Superseded {
        return Err(Immutable);
      }
      ActivateRow(v);
      r := Ok(v);
    }

    method SetRuleStatus(rule: nat, status: RuleStatus) returns (r: Result<nat>)
      modifies this
      ensures Did(Decide(old(View()), PostingRules.SetRuleStatus(rule, status)), old(View()), View(), r)
    {
      if rule >= |rules| {
        return Err(NotFound);
      }
      if status == ActiveRule && rules[rule].current.None? {
        return Err(Validation);
      }
      rules := rules[rule := rules[rule].(status := status)];
      r := Ok(rule);
    }

    /** Walk the ordered rules and stop at the first whose active version matches. */
    method FindRule(fact: SourceFact, book: nat) returns (r: Option<nat>)
      ensures r == ResolveForFact(View(), fact, book)
    {
      var ids := Ordered(rules, fact.ref.kind, |rules|);
      for k := 0 to |ids|
        invariant FirstFiring(View(), ids, fact, book) == FirstFiring(View(), ids[k..], fact, book)
      {
        if Fires(View(), ids[k], fact, book).Some? {
          return Some(ids[k]);
        }
        assert ids[k..][1..] == ids[k + 1..];
      }
      r := None;
    }

    /** Walk the same rules and report on every one. */
    method ExplainRules(fact: SourceFact, book: nat) returns (candidates: seq<Candidate>)
      ensures candidates == CandidatesForFact(View(), fact, book)
    {
      var ids := Ordered(rules, fact.ref.kind, |rules|);
      candidates := [];
      for k := 0 to |ids|
        invariant candidates + CandidatesOf(View(), ids[k..], fact, book) == CandidatesOf(View(), ids, fact, book)
      {
        assert ids[k..][1..] == ids[k + 1..];
        candidates := candidates + [Judge(View(), ids[k], fact, book)];
      }
    }
  }
}
