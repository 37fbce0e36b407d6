/**
 * What the rule service's calls answer and leave, and which version fires for a fact (`posting-rules.ts`), said
 * from the rows and the fact.
 */
module RuleAnswers {
  import opened Prelude
  import opened Calendar
  import opened Facts
  import opened Templates
  import opened PostingRules

  // ----- What a template may say -----

  /** The attributes a fact type can be selected on. */
  predicate Selects(kind: FactType, a: Attribute) {
    match a
    case Provider => kind == Order || kind == OrderFee || kind == OrderRefund
    case Channel => kind == Order || kind == OrderFee || kind == OrderRefund
    case FeeType => kind == OrderFee
    case FeeDirection => kind == OrderFee
    case MovementKind => kind == InventoryMovement
    case SourceKind => kind == AcquisitionCost || kind == InventoryMovement
    case ExpenseCategory => kind == ExpenseFact
    case Capitalize => kind == AcquisitionCost
  }

  /** The amounts a fact type has; the plug suits every type. */
  predicate Has(kind: FactType, s: AmountSource) {
    match s
    case TotalAmount => true
    case Subtotal => kind == Order
    case Shipping => kind == Order
    case Discount => kind == Order
    case Tax => kind == Order || kind == ExpenseFact
    case Fee => kind == Order || kind == OrderFee
    case Refund => kind == Order || kind == OrderRefund
    case Net => kind != InventoryMovement
    case CostBasis => kind == InventoryMovement
    case QuantityTimesBasis => kind == InventoryMovement
    case Remainder => true
  }

  ghost predicate TemplateFits(kind: FactType, p: Predicates, lines: seq<RuleLine>) {
    && (forall a :: a in p.attributes ==> Selects(kind, a))
    && (forall i :: 0 <= i < |lines| ==> Has(kind, lines[i].source))
    && (forall i :: 0 <= i < |lines| && lines[i].source != Remainder && lines[i].account.BySystemKey? ==> lines[i].account.key in SystemKeys())
    && (forall i, j :: 0 <= i < |lines| && 0 <= j < |lines| && lines[i].source == Remainder && lines[j].source == Remainder ==> i == j)
    && ((forall i :: 0 <= i < |lines| ==> lines[i].source != Remainder) ==> forall v: Assignment :: UnroundedSum(kind, lines, v) == 0)
  }

  lemma SelectsExactly(kind: FactType, a: Attribute)
    ensures Selects(kind, a) <==> a in AllowedAttributes(kind)
  {
  }

  lemma HasExactly(kind: FactType, s: AmountSource)
    ensures Has(kind, s) <==> s in AllowedSources(kind)
  {
  }

  /** The save-time check, clause by clause. */
  lemma ValidExactly(kind: FactType, p: Predicates, lines: seq<RuleLine>)
    ensures ValidTemplate(kind, p, lines) <==> TemplateFits(kind, p, lines)
  {
    hide AllowedAttributes, AllowedSources, SystemKeys, Cancels, Selects, Has, UnroundedSum;
    forall a: Attribute ensures Selects(kind, a) <==> a in AllowedAttributes(kind) {
      SelectsExactly(kind, a);
    }
    forall s: AmountSource ensures Has(kind, s) <==> s in AllowedSources(kind) {
      HasExactly(kind, s);
    }
    RemainderSuits(kind);
    ValidatorExact(kind, lines);
    LinesExactly(kind, lines);
    PlugsExactly(lines);
  }

  lemma RemainderSuits(kind: FactType)
    ensures Has(kind, Remainder)
  {
  }

  lemma LinesExactly(kind: FactType, lines: seq<RuleLine>)
    requires forall s: AmountSource :: Has(kind, s) <==> s in AllowedSources(kind)
    requires Has(kind, Remainder)
    ensures (forall l :: l in lines ==> LineAllowed(kind, l))
            <==> (forall i :: 0 <= i < |lines| ==> Has(kind, lines[i].source))
                 && (forall i :: 0 <= i < |lines| && lines[i].source != Remainder && lines[i].account.BySystemKey? ==> lines[i].account.key in SystemKeys())
  {
    hide AllowedSources, SystemKeys, Has;
    forall i | 0 <= i < |lines| ensures lines[i] in lines {
    }
  }

  lemma PlugsExactly(lines: seq<RuleLine>)
    ensures AtMostOnePlug(lines)
            <==> forall i, j :: 0 <= i < |lines| && 0 <= j < |lines| && lines[i].source == Remainder && lines[j].source == Remainder ==> i == j
    ensures !HasPlug(lines) <==> forall i :: 0 <= i < |lines| ==> lines[i].source != Remainder
  {
  }

  predicate RangesInOrder(p: Predicates) {
    && (p.effectiveFrom.Some? && p.effectiveTo.Some? ==> Le(p.effectiveFrom.value, p.effectiveTo.value))
    && (p.minAmount.Some? && p.maxAmount.Some? ==> p.minAmount.value <= p.maxAmount.value)
  }

  ghost predicate CodeTaken(s: Store, code: string) {
    exists r :: 0 <= r < |s.rules| && s.rules[r].code == code
  }

  // ----- Creating, adding, activating, switching -----

  /** `createRule`: the rule as given with its text as version one; both active when asked for. */
  lemma CreateAnswers(s: Store, code: string, kind: FactType, book: Option<nat>, priority: int, p: Predicates, lines: seq<RuleLine>, activate: bool)
    requires StoreOk(s)
    ensures var r := Decide(s, CreateRule(code, kind, book, priority, p, lines, activate));
            && (r.Ok? <==> |lines| >= 2 && TemplateFits(kind, p, lines) && !CodeTaken(s, code) && RangesInOrder(p))
            && (r.Ok? ==>
                  && r.value.rules == s.rules + [Rule(code, kind, book, priority, if activate then ActiveRule else DraftRule,
                                                      if activate then Some(|s.versions|) else None)]
                  && r.value.versions == s.versions + [Version(|s.rules|, 1, if activate then ActiveVersion else DraftVersion, p, lines)])
            && (r.Err? ==> r.error == if |lines| < 2 || !TemplateFits(kind, p, lines) then Validation else Conflict)
  {
    hide ValidTemplate, TemplateFits, CurrentOk, TextsOk;
    ValidExactly(kind, p, lines);
    if CodeTaken(s, code) {
      var r :| 0 <= r < |s.rules| && s.rules[r].code == code;
      assert s.rules[r] in s.rules;
    }
    if activate {
      NewRuleActivates(s, Rule(code, kind, book, priority, DraftRule, None), Version(|s.rules|, 1, DraftVersion, p, lines));
    }
  }

  lemma NewRuleActivates(s: Store, rule: Rule, v: Version)
    requires NamesOk(s) && v.rule == |s.rules| && v.status == DraftVersion
    ensures var t := WithVersion(s.(rules := s.rules + [rule]), v, true);
            && t.rules == s.rules + [rule.(current := Some(|s.versions|), status := ActiveRule)]
            && t.versions == s.versions + [v.(status := ActiveVersion)]
  {
  }

  /** Only the rule points at the version and is switched on; of its versions only that one is active. */
  ghost predicate ActivatedAs(before: seq<Version>, s: Store, after: Store, v: nat) {
    && v < |before| && before[v].rule < |s.rules| && |after.rules| == |s.rules| && |after.versions| == |before|
    && (forall r :: 0 <= r < |s.rules| ==>
          after.rules[r] == if r == before[v].rule then s.rules[r].(current := Some(v), status := ActiveRule) else s.rules[r])
    && (forall w :: 0 <= w < |before| ==>
          after.versions[w] == if w == v then before[w].(status := ActiveVersion)
                               else if before[w].rule == before[v].rule && before[w].status == ActiveVersion then before[w].(status := Superseded)
                               else before[w])
  }

  /** The next number of a rule's versions: one more than the largest there is. */
  ghost predicate NextNumber(s: Store, rule: nat, n: nat) {
    && n >= 1 && (forall w :: 0 <= w < |s.versions| && s.versions[w].rule == rule ==> s.versions[w].number < n)
    && (n == 1 || exists w :: 0 <= w < |s.versions| && s.versions[w].rule == rule && s.versions[w].number == n - 1)
  }

  lemma {:induction false} LastIsThere(versions: seq<Version>, rule: nat)
    ensures LastNumber(versions, rule) == 0 || exists w :: 0 <= w < |versions| && versions[w].rule == rule && versions[w].number == LastNumber(versions, rule)
  {
    if versions != [] {
      var k := |versions| - 1;
      LastIsThere(versions[..k], rule);
      if w :| 0 <= w < k && versions[..k][w].rule == rule && versions[..k][w].number == LastNumber(versions[..k], rule) {
        assert versions[w].rule == rule && versions[w].number == LastNumber(versions[..k], rule);
      }
    }
  }

  /** `addVersion`: the text as given under the next number, the others untouched unless it is activated at once. */
  lemma AddAnswers(s: Store, rule: nat, p: Predicates, lines: seq<RuleLine>, activate: bool)
    ensures var r := Decide(s, AddVersion(rule, p, lines, activate));
            && (r.Ok? <==> |lines| >= 2 && rule < |s.rules| && TemplateFits(s.rules[rule].kind, p, lines) && RangesInOrder(p))
            && (r.Ok? ==>
                  exists n: nat ::
                    && NextNumber(s, rule, n)
                    && var added := s.versions + [Version(rule, n, DraftVersion, p, lines)];
                       if activate then ActivatedAs(added, s, r.value, |s.versions|) else r.value.rules == s.rules && r.value.versions == added)
            && (r.Err? ==> r.error == if |lines| < 2 then Validation else if rule >= |s.rules| then NotFound
                                      else if !TemplateFits(s.rules[rule].kind, p, lines) then Validation else Conflict)
  {
    hide ValidTemplate, TemplateFits, ActivatedAs;
    if rule < |s.rules| {
      ValidExactly(s.rules[rule].kind, p, lines);
      LastIsThere(s.versions, rule);
      var n := LastNumber(s.versions, rule) + 1;
      assert NextNumber(s, rule, n);
      var added := s.versions + [Version(rule, n, DraftVersion, p, lines)];
      ActivationIs(s.(versions := added), |s.versions|);
      SameRules(added, s.(versions := added), s, Activate(s.(versions := added), |s.versions|), |s.versions|);
    }
  }

  lemma ActivationIs(s: Store, v: nat)
    requires v < |s.versions| && s.versions[v].rule < |s.rules|
    ensures ActivatedAs(s.versions, s, Activate(s, v), v)
  {
  }

  lemma SameRules(before: seq<Version>, s: Store, t: Store, after: Store, v: nat)
    requires s.rules == t.rules
    ensures ActivatedAs(before, s, after, v) <==> ActivatedAs(before, t, after, v)
  {
  }

  /** `activateVersion`: any version but a superseded one. */
  lemma ActivateAnswers(s: Store, v: nat)
    requires NamesOk(s)
    ensures var r := Decide(s, ActivateVersion(v));
            && (r.Ok? <==> v < |s.versions| && s.versions[v].status != Superseded)
            && (r.Ok? ==> ActivatedAs(s.versions, s, r.value, v))
            && (r.Err? ==> r.error == if v < |s.versions| then Immutable else NotFound)
  {
    hide ActivatedAs;
    if v < |s.versions| {
      ActivationIs(s, v);
    }
  }

  /** `setRuleStatus`: any status, but on only with a current version. */
  lemma SwitchAnswers(s: Store, rule: nat, status: RuleStatus)
    ensures var r := Decide(s, SetRuleStatus(rule, status));
            && (r.Ok? <==> rule < |s.rules| && (status == ActiveRule ==> s.rules[rule].current.Some?))
            && (r.Ok? ==> && r.value.versions == s.versions && |r.value.rules| == |s.rules|
                          && forall q :: 0 <= q < |s.rules| ==> r.value.rules[q] == if q == rule then s.rules[q].(status := status) else s.rules[q])
            && (r.Err? ==> r.error == if rule < |s.rules| then Validation else NotFound)
  {
  }

  // ----- Which version fires -----

  /** Every predicate that is set holds of the fact. */
  ghost predicate Suits(p: Predicates, fact: SourceFact) {
    && (p.effectiveFrom.Some? ==> Le(p.effectiveFrom.value, fact.date)) && (p.effectiveTo.Some? ==> Le(fact.date, p.effectiveTo.value))
    && (forall a :: a in p.attributes ==> a in fact.attributes && fact.attributes[a] == p.attributes[a])
    && (p.entity.Some? ==> fact.entity == p.entity) && (p.currency.Some? ==> fact.currency == p.currency.value)
    && (p.minAmount.Some? ==> fact.matchAmount >= p.minAmount.value) && (p.maxAmount.Some? ==> fact.matchAmount <= p.maxAmount.value)
  }

  /** The rule is on, for the fact's type and the book or any, and its current, active version suits the fact. */
  ghost predicate Answers(s: Store, r: nat, fact: SourceFact, book: nat, v: nat) {
    && r < |s.rules| && s.rules[r].kind == fact.ref.kind && s.rules[r].status == ActiveRule
    && (s.rules[r].book.None? || s.rules[r].book == Some(book))
    && s.rules[r].current == Some(v) && v < |s.versions| && s.versions[v].status == ActiveVersion
    && Suits(s.versions[v].predicates, fact)
  }

  /** Earlier in the alphabet: at the first difference, or by being a beginning. */
  ghost predicate Earlier(a: string, b: string) {
    exists k: nat :: k <= |a| && k <= |b| && a[..k] == b[..k] && k < |b| && (k == |a| || a[k] < b[k])
  }

  ghost predicate Ahead(a: Rule, b: Rule) {
    a.priority < b.priority || (a.priority == b.priority && Earlier(a.code, b.code))
  }

  lemma SameBeginning(a: string, b: string, k: nat)
    requires k <= |a| && k <= |b| && a[..k] == b[..k]
    ensures k > 0 ==> a[0] == b[0]
  {
    assert k > 0 ==> a[..k][0] == a[0] && b[..k][0] == b[0];
  }

  lemma {:induction false} EarlierExactly(a: string, b: string)
    ensures Before(a, b) <==> Earlier(a, b)
  {
    if b == "" {
    } else if a == "" {
      assert a[..0] == b[..0];
    } else if a[0] != b[0] {
      if a[0] < b[0] {
        assert a[..0] == b[..0];
      }
      forall k: nat | k <= |a| && k <= |b| && a[..k] == b[..k] ensures k > 0 ==> a[0] == b[0] {
        SameBeginning(a, b, k);
      }
    } else {
      EarlierExactly(a[1..], b[1..]);
      if Earlier(a[1..], b[1..]) {
        var k: nat :| k <= |a[1..]| && k <= |b[1..]| && a[1..][..k] == b[1..][..k] && k < |b[1..]| && (k == |a[1..]| || a[1..][k] < b[1..][k]);
        assert a[..k + 1] == [a[0]] + a[1..][..k] && b[..k + 1] == [b[0]] + b[1..][..k];
      }
      if Earlier(a, b) {
        var k: nat :| k <= |a| && k <= |b| && a[..k] == b[..k] && k < |b| && (k == |a| || a[k] < b[k]);
        if k > 0 {
          assert a[1..][..k - 1] == a[..k][1..] && b[1..][..k - 1] == b[..k][1..];
        }
      }
    }
  }

  lemma FiresExactly(s: Store, r: nat, fact: SourceFact, book: nat)
    requires r < |s.rules|
    ensures forall v: nat :: Answers(s, r, fact, book, v) <==> Selected(s.rules[r], fact.ref.kind) && Fires(s, r, fact, book) == Some(v)
  {
  }

  /** `resolveForFact`: the one that answers and is ahead of all others that do, by priority and then code; none exactly when none answers. */
  lemma ResolveAnswers(s: Store, fact: SourceFact, book: nat)
    requires StoreOk(s)
    ensures match ResolveForFact(s, fact, book)
            case None => forall q: nat, v: nat :: !Answers(s, q, fact, book, v)
            case Some(r) =>
              && (exists v: nat :: Answers(s, r, fact, book, v))
              && forall q: nat, v: nat :: q != r && Answers(s, q, fact, book, v) ==> r < |s.rules| && q < |s.rules| && Ahead(s.rules[r], s.rules[q])
  {
    hide Fires, ResolveForFact, Answers, StoreOk, Selected;
    ResolveIsLeast(s, fact, book);
    forall q: nat | q < |s.rules|
      ensures forall v: nat :: Answers(s, q, fact, book, v) <==> Selected(s.rules[q], fact.ref.kind) && Fires(s, q, fact, book) == Some(v)
    {
      FiresExactly(s, q, fact, book);
    }
    forall q: nat, v: nat | Answers(s, q, fact, book, v)
      ensures q < |s.rules| && Selected(s.rules[q], fact.ref.kind) && Fires(s, q, fact, book) == Some(v)
    {
      AnswersInside(s, q, fact, book, v);
    }
    forall a: string, b: string ensures Before(a, b) <==> Earlier(a, b) {
      EarlierExactly(a, b);
    }
  }

  lemma AnswersInside(s: Store, q: nat, fact: SourceFact, book: nat, v: nat)
    requires Answers(s, q, fact, book, v)
    ensures q < |s.rules|
  {
  }

  // ----- Why a rule does not fire -----

  /** The order in which attributes are compared. */
  function Turn(a: Attribute): nat {
    match a
    case Provider => 0 case Channel => 1 case FeeType => 2 case FeeDirection => 3
    case MovementKind => 4 case SourceKind => 5 case ExpenseCategory => 6 case Capitalize => 7
  }

  ghost predicate Mismatch(p: Predicates, fact: SourceFact, a: Attribute) {
    a in p.attributes && (a in fact.attributes ==> fact.attributes[a] != p.attributes[a])
  }

  ghost predicate TooEarly(p: Predicates, fact: SourceFact) {
    p.effectiveFrom.Some? && Lt(fact.date, p.effectiveFrom.value)
  }

  ghost predicate TooLate(p: Predicates, fact: SourceFact) {
    p.effectiveTo.Some? && Lt(p.effectiveTo.value, fact.date)
  }

  ghost predicate ElsewhereOwned(p: Predicates, fact: SourceFact) {
    p.entity.Some? && fact.entity != p.entity
  }

  /** No mismatch among the attributes compared before the `n`-th. */
  ghost predicate AgreesBefore(p: Predicates, fact: SourceFact, n: nat) {
    forall a: Attribute :: Turn(a) < n ==> !Mismatch(p, fact, a)
  }

  /** The reason is the first failing predicate: dates, the first two attributes, entity, the other attributes, currency, amount. */
  ghost predicate FirstReason(p: Predicates, fact: SourceFact, why: Why) {
    match why
    case Predates => TooEarly(p, fact)
    case Postdates => !TooEarly(p, fact) && TooLate(p, fact)
    case AttributeDiffers(a) =>
      && !TooEarly(p, fact) && !TooLate(p, fact) && Mismatch(p, fact, a) && AgreesBefore(p, fact, Turn(a))
      && (Turn(a) >= 2 ==> !ElsewhereOwned(p, fact))
    case OtherEntity => !TooEarly(p, fact) && !TooLate(p, fact) && AgreesBefore(p, fact, 2) && ElsewhereOwned(p, fact)
    case OtherCurrency =>
      && !TooEarly(p, fact) && !TooLate(p, fact) && AgreesBefore(p, fact, 8) && !ElsewhereOwned(p, fact)
      && p.currency.Some? && fact.currency != p.currency.value
    case BelowMinimum =>
      && !TooEarly(p, fact) && !TooLate(p, fact) && AgreesBefore(p, fact, 8) && !ElsewhereOwned(p, fact)
      && (p.currency.Some? ==> fact.currency == p.currency.value) && p.minAmount.Some? && fact.matchAmount < p.minAmount.value
    case AboveMaximum =>
      && !TooEarly(p, fact) && !TooLate(p, fact) && AgreesBefore(p, fact, 8) && !ElsewhereOwned(p, fact)
      && (p.currency.Some? ==> fact.currency == p.currency.value) && (p.minAmount.Some? ==> fact.matchAmount >= p.minAmount.value)
      && p.maxAmount.Some? && fact.matchAmount > p.maxAmount.value
    case EveryPredicateHolds => Suits(p, fact)
    case _ => false
  }

  lemma FirstTwo(p: Predicates, fact: SourceFact)
    ensures var r := FirstDifference(p, fact, [Provider, Channel]);
            && (r.None? <==> AgreesBefore(p, fact, 2))
            && (r.Some? ==> Turn(r.value) < 2 && Mismatch(p, fact, r.value) && AgreesBefore(p, fact, Turn(r.value)))
  {
    var order := [Provider, Channel];
    assert order[1..] == [Channel] && order[1..][1..] == [];
  }

  lemma OtherSix(p: Predicates, fact: SourceFact)
    requires AgreesBefore(p, fact, 2)
    ensures var r := FirstDifference(p, fact, [FeeType, FeeDirection, MovementKind, SourceKind, ExpenseCategory, Capitalize]);
            && (r.None? <==> AgreesBefore(p, fact, 8))
            && (r.Some? ==> 2 <= Turn(r.value) && Mismatch(p, fact, r.value) && AgreesBefore(p, fact, Turn(r.value)))
  {
    var order := [FeeType, FeeDirection, MovementKind, SourceKind, ExpenseCategory, Capitalize];
    InTurn(p, fact, order, 2);
  }

  /** Along attributes whose turns count up, the first difference is the first in turn. */
  lemma {:induction false} InTurn(p: Predicates, fact: SourceFact, order: seq<Attribute>, n: nat)
    requires AgreesBefore(p, fact, n) && forall i :: 0 <= i < |order| ==> Turn(order[i]) == n + i
    ensures var r := FirstDifference(p, fact, order);
            && (r.None? <==> AgreesBefore(p, fact, n + |order|))
            && (r.Some? ==> n <= Turn(r.value) && Mismatch(p, fact, r.value) && AgreesBefore(p, fact, Turn(r.value)))
  {
    if order != [] {
      if Mismatch(p, fact, order[0]) {
        assert Turn(order[0]) == n;
      } else {
        OneMoreTurn(p, fact, order[0], n);
        InTurn(p, fact, order[1..], n + 1);
      }
    }
  }

  lemma OneMoreTurn(p: Predicates, fact: SourceFact, a: Attribute, n: nat)
    requires AgreesBefore(p, fact, n) && Turn(a) == n && !Mismatch(p, fact, a)
    ensures AgreesBefore(p, fact, n + 1)
  {
  }

  /** The explainer's reason is the first there is. */
  lemma ReasonExactly(p: Predicates, fact: SourceFact)
    ensures FirstReason(p, fact, Explain(p, fact))
  {
    hide FirstDifference, Turn, Mismatch, AgreesBefore, Rank, VersionMatches;
    FirstTwo(p, fact);
    if AgreesBefore(p, fact, 2) {
      OtherSix(p, fact);
    }
    if Explain(p, fact) == EveryPredicateHolds {
      ExplainsExactly(p, fact);
      MatchingSuits(p, fact);
    }
  }

  lemma MatchingSuits(p: Predicates, fact: SourceFact)
    ensures VersionMatches(p, fact) <==> Suits(p, fact)
  {
  }

  /** A rule on for the fact's type. */
  ghost predicate IsOn(s: Store, r: nat, fact: SourceFact) {
    r < |s.rules| && s.rules[r].kind == fact.ref.kind && s.rules[r].status == ActiveRule
  }

  /** Why a rule fires or not: its book, a version to look at, then that version's first failing predicate. */
  ghost predicate Judged(s: Store, c: Candidate, fact: SourceFact, book: nat)
    requires c.rule < |s.rules|
  {
    var rule := s.rules[c.rule];
    && c.matched == (c.why == EveryPredicateHolds)
    && if rule.book.Some? && rule.book != Some(book) then c.why == NarrowedToAnotherBook
       else if rule.current.None? then c.why == NoActiveVersion
       else if rule.current.value >= |s.versions| then c.why == VersionIsMissing
       else FirstReason(s.versions[rule.current.value].predicates, fact, c.why)
  }

  lemma {:induction false} CandidatesFollow(s: Store, ids: seq<nat>, fact: SourceFact, book: nat)
    requires Within(ids, |s.rules|)
    ensures var c := CandidatesOf(s, ids, fact, book);
            |c| == |ids| && forall i :: 0 <= i < |c| ==> c[i].rule == ids[i] && Judged(s, c[i], fact, book)
  {
    hide FirstReason, Explain;
    if ids != [] {
      CandidatesFollow(s, ids[1..], fact, book);
      var rule := s.rules[ids[0]];
      if rule.current.Some? && rule.current.value < |s.versions| {
        ReasonExactly(s.versions[rule.current.value].predicates, fact);
      }
    }
  }

  /** `explainForFact`: every rule that is on for the type, once, in order, each with its reason. */
  lemma ExplainAnswers(s: Store, fact: SourceFact, book: nat)
    requires StoreOk(s)
    ensures var c := CandidatesForFact(s, fact, book);
            && (forall i :: 0 <= i < |c| ==> IsOn(s, c[i].rule, fact) && Judged(s, c[i], fact, book))
            && (forall r: nat :: IsOn(s, r, fact) ==> exists i :: 0 <= i < |c| && c[i].rule == r)
            && (forall i, j :: 0 <= i < j < |c| ==> Ahead(s.rules[c[i].rule], s.rules[c[j].rule]))
  {
    hide Judged, CandidatesOf, Precedes, Ahead, CurrentOk, TextsOk;
    var ids := Ordered(s.rules, fact.ref.kind, |s.rules|);
    CandidatesFollow(s, ids, fact, book);
    OrderedSorted(s.rules, fact.ref.kind, |s.rules|);
    var c := CandidatesForFact(s, fact, book);
    forall i | 0 <= i < |c| ensures IsOn(s, c[i].rule, fact) {
      assert ids[i] in ids;
    }
    forall r: nat | IsOn(s, r, fact) ensures exists i :: 0 <= i < |c| && c[i].rule == r {
      assert r in ids;
      var i :| 0 <= i < |ids| && ids[i] == r;
      assert c[i].rule == r;
    }
    forall i, j | 0 <= i < j < |c| ensures Ahead(s.rules[c[i].rule], s.rules[c[j].rule]) {
      AheadExactly(s.rules[ids[i]], s.rules[ids[j]]);
    }
  }

  lemma AheadExactly(a: Rule, b: Rule)
    ensures Precedes(a, b) <==> Ahead(a, b)
  {
    EarlierExactly(a.code, b.code);
  }
}
