/**
 * Posting rules and their immutable versions (`posting-rules.ts`): what may be saved, which version
 * of a rule is the active one, and which rule fires for a fact.
 */
module PostingRules {
  import opened Prelude
  import opened Calendar
  import opened Facts
  import opened Templates

  // ----- Rows -----

  datatype Predicates = Predicates(
    effectiveFrom: Option<Day>,
    effectiveTo: Option<Day>,
    attributes: map<Attribute, string>,
    entity: Option<nat>,
    currency: Option<string>,
    minAmount: Option<int>,
    maxAmount: Option<int>)

  datatype VersionStatus = DraftVersion | ActiveVersion | Superseded

  datatype Version = Version(
    rule: nat, number: nat, status: VersionStatus, predicates: Predicates, lines: seq<RuleLine>)

  datatype RuleStatus = DraftRule | ActiveRule | DisabledRule

  datatype Rule = Rule(
    code: string, kind: FactType, book: Option<nat>, priority: int, status: RuleStatus, current: Option<nat>)

  datatype Store = Store(rules: seq<Rule>, versions: seq<Version>)

  // ----- What may be saved -----

  function SystemKeys(): set<string> {
    {"marketplace_clearing", "undeposited_funds", "inventory", "sales_tax_payable", "facilitator_tax_clearing",
     "sales_revenue", "sales_returns", "shipping_income", "buyer_fee_income", "cogs", "marketplace_fees",
     "payment_processing_fees", "shipping_expense", "fx_gain_loss", "opening_balance_equity", "suspense"}
  }

  /** The attributes a fact type can be selected on; entity, currency and amount suit every type. */
  function AllowedAttributes(kind: FactType): set<Attribute> {
    match kind
    case Order => {Provider, Channel}
    case OrderFee => {Provider, Channel, FeeType, FeeDirection}
    case OrderRefund => {Provider, Channel}
    case ExpenseFact => {ExpenseCategory}
    case AcquisitionCost => {Capitalize, SourceKind}
    case InventoryMovement => {MovementKind, SourceKind}
  }

  predicate LineAllowed(kind: FactType, l: RuleLine) {
    l.source == Remainder
    || (l.source in AllowedSources(kind) && (l.account.BySystemKey? ==> l.account.key in SystemKeys()))
  }

  predicate AtMostOnePlug(lines: seq<RuleLine>) {
    forall i, j :: 0 <= i < j < |lines| && lines[i].source == Remainder ==> lines[j].source != Remainder
  }

  predicate HasPlug(lines: seq<RuleLine>) {
    exists l :: l in lines && l.source == Remainder
  }

  /** Everything a version must satisfy before it is written. */
  ghost predicate ValidTemplate(kind: FactType, predicates: Predicates, lines: seq<RuleLine>) {
    && predicates.attributes.Keys <= AllowedAttributes(kind)
    && (forall l :: l in lines ==> LineAllowed(kind, l))
    && AtMostOnePlug(lines)
    && (!HasPlug(lines) ==> Cancels(kind, lines))
  }

  lemma SecondPlug(lines: seq<RuleLine>, k: nat)
    requires k < |lines| && lines[k].source == Remainder && HasPlug(lines[..k])
    ensures !AtMostOnePlug(lines)
  {
    var l :| l in lines[..k] && l.source == Remainder;
    var i :| 0 <= i < k && lines[i] == l;
    assert lines[i].source == Remainder && lines[k].source == Remainder;
  }

  /** `validatePostingRuleTemplate`: count the plugs while walking the lines. */
  method ValidatePostingRuleTemplate(kind: FactType, predicates: Predicates, lines: seq<RuleLine>) returns (r: Result<()>)
    ensures r.Ok? <==> ValidTemplate(kind, predicates, lines)
    ensures r.Err? ==> r.error == Validation
  {
    hide Cancels, SystemKeys, AllowedSources, AllowedAttributes;
    if exists a :: a in predicates.attributes && a !in AllowedAttributes(kind) {
      return Err(Validation);
    }
    assert predicates.attributes.Keys <= AllowedAttributes(kind);
    var remainders := 0;
    for k := 0 to |lines|
      invariant forall i :: 0 <= i < k ==> LineAllowed(kind, lines[i])
      invariant AtMostOnePlug(lines[..k])
      invariant remainders == if HasPlug(lines[..k]) then 1 else 0
    {
      var l := lines[k];
      assert lines[..k + 1] == lines[..k] + [l];
      assert l in lines;
      if l.source == Remainder {
        if remainders == 1 {
          SecondPlug(lines, k);
          return Err(Validation);
        }
        remainders := remainders + 1;
        assert l in lines[..k + 1];
      } else if l.source !in AllowedSources(kind) || (l.account.BySystemKey? && l.account.key !in SystemKeys()) {
        assert l in lines && !LineAllowed(kind, l);
        return Err(Validation);
      }
    }
    assert lines[..|lines|] == lines;
    if remainders == 0 {
      r := AssertTemplateBalances(kind, lines);
    } else {
      r := Ok(());
    }
  }

  /** The range checks the table makes. */
  predicate RangesFit(p: Predicates) {
    && (p.effectiveFrom.Some? && p.effectiveTo.Some? ==> Le(p.effectiveFrom.value, p.effectiveTo.value))
    && (p.minAmount.Some? && p.maxAmount.Some? ==> p.minAmount.value <= p.maxAmount.value)
  }

  // ----- The version machine -----

  /** `activate`: retire the rule's active version, activate this one and point the rule at it. */
  function Retire(versions: seq<Version>, rule: nat, keep: nat): seq<Version> {
    seq(|versions|, i requires 0 <= i < |versions| =>
      if versions[i].rule == rule && i != keep && versions[i].status == ActiveVersion
      then versions[i].(status := Superseded) else versions[i])
  }

  function Activate(s: Store, v: nat): Store
    requires v < |s.versions| && s.versions[v].rule < |s.rules|
  {
    var r := s.versions[v].rule;
    Store(s.rules[r := s.rules[r].(current := Some(v), status := ActiveRule)],
          Retire(s.versions, r, v)[v := s.versions[v].(status := ActiveVersion)])
  }

  function LastNumber(versions: seq<Version>, rule: nat): (n: nat)
    ensures forall i :: 0 <= i < |versions| && versions[i].rule == rule ==> versions[i].number <= n
  {
    if versions == [] then 0
    else
      var init := LastNumber(versions[..|versions| - 1], rule);
      var v := versions[|versions| - 1];
      if v.rule == rule && v.number > init then v.number else init
  }

  datatype RuleOp =
    | CreateRule(code: string, kind: FactType, book: Option<nat>, priority: int,
                 predicates: Predicates, lines: seq<RuleLine>, activate: bool)
    | AddVersion(rule: nat, predicates: Predicates, lines: seq<RuleLine>, activate: bool)
    | ActivateVersion(version: nat)
    | SetRuleStatus(rule: nat, status: RuleStatus)

  function WithVersion(s: Store, v: Version, activate: bool): Store
    requires v.rule < |s.rules|
  {
    var added := s.(versions := s.versions + [v]);
    if activate then Activate(added, |s.versions|) else added
  }

  ghost function Decide(s: Store, op: RuleOp): Result<Store> {
    match op
    case CreateRule(code, kind, book, priority, predicates, lines, activate) =>
      if |lines| < 2 || !ValidTemplate(kind, predicates, lines) then Err(Validation)
      else if exists r :: r in s.rules && r.code == code then Err(Conflict)
      else if !RangesFit(predicates) then Err(Conflict)
      else
        var rule := Rule(code, kind, book, priority, DraftRule, None);
        Ok(WithVersion(s.(rules := s.rules + [rule]), Version(|s.rules|, 1, DraftVersion, predicates, lines), activate))
    case AddVersion(rule, predicates, lines, activate) =>
      if |lines| < 2 then Err(Validation)
      else if rule >= |s.rules| then Err(NotFound)
      else if !ValidTemplate(s.rules[rule].kind, predicates, lines) then Err(Validation)
      else if !RangesFit(predicates) then Err(Conflict)
      else
        var number := LastNumber(s.versions, rule) + 1;
        Ok(WithVersion(s, Version(rule, number, DraftVersion, predicates, lines), activate))
    case ActivateVersion(v) =>
      if v >= |s.versions| || s.versions[v].rule >= |s.rules| then Err(NotFound)
      else if s.versions[v].status == Superseded then Err(Immutable)
      else Ok(Activate(s, v))
    case SetRuleStatus(rule, status) =>
      if rule >= |s.rules| then Err(NotFound)
      else if status == ActiveRule && s.rules[rule].current.None? then Err(Validation)
      else Ok(s.(rules := s.rules[rule := s.rules[rule].(status := status)]))
  }

  ghost function Apply(s: Store, op: RuleOp): Store {
    match Decide(s, op)
    case Ok(t) => t
    case Err(_) => s
  }

  ghost function Run(s: Store, ops: seq<RuleOp>): Store {
    if ops == [] then s else Apply(Run(s, ops[..|ops| - 1]), ops[|ops| - 1])
  }

  // ----- What every run keeps -----

  predicate SameNumber(v: Version, w: Version) {
    v.rule == w.rule && v.number == w.number
  }

  /** A rule's current version and its only active version are the same thing. */
  ghost predicate CurrentOk(s: Store) {
    && (forall r :: 0 <= r < |s.rules| && s.rules[r].current.Some? ==>
          var v := s.rules[r].current.value;
          v < |s.versions| && s.versions[v].rule == r && s.versions[v].status == ActiveVersion)
    && (forall v :: 0 <= v < |s.versions| && s.versions[v].status == ActiveVersion ==>
          s.versions[v].rule < |s.rules| && s.rules[s.versions[v].rule].current == Some(v))
    && (forall r :: 0 <= r < |s.rules| && s.rules[r].status == ActiveRule ==> s.rules[r].current.Some?)
  }

  ghost predicate NamesOk(s: Store) {
    && (forall v :: 0 <= v < |s.versions| ==> s.versions[v].rule < |s.rules|)
    && (forall v, w :: 0 <= v < w < |s.versions| ==> !SameNumber(s.versions[v], s.versions[w]))
    && (forall r, q :: 0 <= r < q < |s.rules| ==> s.rules[r].code != s.rules[q].code)
  }

  ghost predicate TextsOk(s: Store) {
    forall v :: 0 <= v < |s.versions| && s.versions[v].rule < |s.rules| ==>
      ValidTemplate(s.rules[s.versions[v].rule].kind, s.versions[v].predicates, s.versions[v].lines)
  }

  ghost predicate StoreOk(s: Store) {
    CurrentOk(s) && NamesOk(s) && TextsOk(s)
  }

  /** Rules and versions keep their identity and text; a superseded version stays superseded. */
  ghost predicate Later(s: Store, t: Store) {
    && |s.rules| <= |t.rules| && |s.versions| <= |t.versions|
    && (forall r :: 0 <= r < |s.rules| ==> t.rules[r].(status := s.rules[r].status, current := s.rules[r].current) == s.rules[r])
    && (forall v :: 0 <= v < |s.versions| ==> t.versions[v].(status := s.versions[v].status) == s.versions[v])
    && (forall v :: 0 <= v < |s.versions| && s.versions[v].status == Superseded ==> t.versions[v].status == Superseded)
  }

  lemma ActivateKeepsCurrent(s: Store, v: nat)
    requires CurrentOk(s) && v < |s.versions| && s.versions[v].rule < |s.rules|
    ensures CurrentOk(Activate(s, v))
  {
  }

  lemma ActivateKeepsNames(s: Store, v: nat)
    requires NamesOk(s) && v < |s.versions|
    ensures NamesOk(Activate(s, v))
  {
    var t := Activate(s, v);
    forall i, j | 0 <= i < j < |t.versions| ensures !SameNumber(t.versions[i], t.versions[j]) {
      assert !SameNumber(s.versions[i], s.versions[j]);
    }
  }

  lemma ActivateKeeps(s: Store, v: nat)
    requires StoreOk(s) && v < |s.versions| && s.versions[v].status != Superseded
    ensures StoreOk(Activate(s, v)) && Later(s, Activate(s, v))
  {
    hide ValidTemplate, CurrentOk, SameNumber;
    ActivateKeepsCurrent(s, v);
    ActivateKeepsNames(s, v);
  }

  lemma WithVersionKeeps(s: Store, v: Version, activate: bool)
    requires StoreOk(s) && v.rule < |s.rules| && v.status == DraftVersion
    requires ValidTemplate(s.rules[v.rule].kind, v.predicates, v.lines)
    requires forall w :: 0 <= w < |s.versions| ==> !SameNumber(s.versions[w], v)
    ensures StoreOk(WithVersion(s, v, activate)) && Later(s, WithVersion(s, v, activate))
  {
    hide ValidTemplate, SameNumber, Activate;
    var added := s.(versions := s.versions + [v]);
    assert StoreOk(added) && Later(s, added);
    if activate {
      ActivateKeeps(added, |s.versions|);
    }
  }

  lemma CreateKeeps(s: Store, rule: Rule, v: Version, activate: bool)
    requires StoreOk(s) && rule.status == DraftRule && rule.current.None?
    requires forall r :: r in s.rules ==> r.code != rule.code
    requires v.rule == |s.rules| && v.status == DraftVersion && ValidTemplate(rule.kind, v.predicates, v.lines)
    ensures var t := WithVersion(s.(rules := s.rules + [rule]), v, activate); StoreOk(t) && Later(s, t)
  {
    hide ValidTemplate, SameNumber, WithVersion;
    var grown := s.(rules := s.rules + [rule]);
    assert StoreOk(grown);
    FirstIsFresh(s, v);
    WithVersionKeeps(grown, v, activate);
  }

  lemma StepKeeps(s: Store, op: RuleOp)
    requires StoreOk(s)
    ensures StoreOk(Apply(s, op)) && Later(s, Apply(s, op))
  {
    hide ValidTemplate, WithVersion, Activate, RangesFit, StoreOk, Later;
    if Decide(s, op).Err? {
      NothingKeeps(s);
    } else {
      match op
      case CreateRule(code, kind, book, priority, predicates, lines, activate) =>
        CreateKeeps(s, Rule(code, kind, book, priority, DraftRule, None),
                    Version(|s.rules|, 1, DraftVersion, predicates, lines), activate);
      case AddVersion(rule, predicates, lines, activate) =>
        var v := Version(rule, LastNumber(s.versions, rule) + 1, DraftVersion, predicates, lines);
        NextIsFresh(s, v);
        WithVersionKeeps(s, v, activate);
      case ActivateVersion(v) => ActivateKeeps(s, v);
      case SetRuleStatus(rule, status) => StatusKeeps(s, rule, status);
    }
  }

  lemma NothingKeeps(s: Store)
    ensures Later(s, s)
  {
  }

  lemma StatusKeeps(s: Store, rule: nat, status: RuleStatus)
    requires StoreOk(s) && rule < |s.rules| && (status == ActiveRule ==> s.rules[rule].current.Some?)
    ensures var t := s.(rules := s.rules[rule := s.rules[rule].(status := status)]); StoreOk(t) && Later(s, t)
  {
    hide ValidTemplate, SameNumber;
  }

  lemma FirstIsFresh(s: Store, v: Version)
    requires NamesOk(s) && v.rule == |s.rules|
    ensures forall w :: 0 <= w < |s.versions| ==> !SameNumber(s.versions[w], v)
  {
  }

  lemma NextIsFresh(s: Store, v: Version)
    requires v.number == LastNumber(s.versions, v.rule) + 1
    ensures forall w :: 0 <= w < |s.versions| ==> !SameNumber(s.versions[w], v)
  {
  }

  /** At most one active version per rule, the current one; retired text never returns. */
  lemma {:induction false} RunKeeps(s: Store, ops: seq<RuleOp>)
    requires StoreOk(s)
    ensures StoreOk(Run(s, ops)) && Later(s, Run(s, ops))
  {
    hide StoreOk, Apply;
    if ops != [] {
      RunKeeps(s, ops[..|ops| - 1]);
      StepKeeps(Run(s, ops[..|ops| - 1]), ops[|ops| - 1]);
    }
  }

  /** No run ever has two active versions of one rule. */
  lemma OneActiveVersion(ops: seq<RuleOp>, v: nat, w: nat)
    requires var s := Run(Store([], []), ops);
             && v < |s.versions| && w < |s.versions| && s.versions[v].rule == s.versions[w].rule
             && s.versions[v].status == ActiveVersion && s.versions[w].status == ActiveVersion
    ensures v == w
  {
    hide Run;
    RunKeeps(Store([], []), ops);
  }

  // ----- Which rule fires -----

  /** `versionMatches`: every predicate the version sets holds for the fact. */
  predicate VersionMatches(p: Predicates, fact: SourceFact) {
    && (p.effectiveFrom.Some? ==> Le(p.effectiveFrom.value, fact.date))
    && (p.effectiveTo.Some? ==> Le(fact.date, p.effectiveTo.value))
    && (forall a :: a in p.attributes ==> a in fact.attributes && fact.attributes[a] == p.attributes[a])
    && (p.entity.Some? ==> p.entity == fact.entity)
    && (p.currency.Some? ==> p.currency.value == fact.currency)
    && (p.minAmount.Some? ==> p.minAmount.value <= fact.matchAmount)
    && (p.maxAmount.Some? ==> fact.matchAmount <= p.maxAmount.value)
  }

  /** Code order; the database's collation is taken to be by character. */
  predicate Before(a: string, b: string) {
    b != "" && (a == "" || a[0] < b[0] || (a[0] == b[0] && Before(a[1..], b[1..])))
  }

  predicate Precedes(a: Rule, b: Rule) {
    a.priority < b.priority || (a.priority == b.priority && Before(a.code, b.code))
  }

  predicate Selected(rule: Rule, kind: FactType) {
    rule.kind == kind && rule.status == ActiveRule
  }

  predicate Within(ids: seq<nat>, n: nat) {
    forall k :: 0 <= k < |ids| ==> ids[k] < n
  }

  function Insert(rules: seq<Rule>, ids: seq<nat>, r: nat): seq<nat>
    requires r < |rules| && Within(ids, |rules|)
  {
    if ids == [] || Precedes(rules[r], rules[ids[0]]) then [r] + ids
    else [ids[0]] + Insert(rules, ids[1..], r)
  }

  /** The rules of a fact type that are switched on, by priority and then code. */
  function Ordered(rules: seq<Rule>, kind: FactType, n: nat): (ids: seq<nat>)
    requires n <= |rules|
    ensures Within(ids, |rules|)
    ensures forall i: nat :: i in ids <==> i < n && Selected(rules[i], kind)
  {
    if n == 0 then []
    else
      var ids := Ordered(rules, kind, n - 1);
      if Selected(rules[n - 1], kind) then InsertHolds(rules, ids, n - 1); Insert(rules, ids, n - 1) else ids
  }

  lemma {:induction false} InsertHolds(rules: seq<Rule>, ids: seq<nat>, r: nat)
    requires r < |rules| && Within(ids, |rules|)
    ensures forall i: nat :: i in Insert(rules, ids, r) <==> i == r || i in ids
    ensures Within(Insert(rules, ids, r), |rules|)
  {
    if ids != [] && !Precedes(rules[r], rules[ids[0]]) {
      InsertHolds(rules, ids[1..], r);
      assert ids == [ids[0]] + ids[1..];
    }
  }

  predicate InBook(rule: Rule, book: nat) {
    rule.book.None? || rule.book == Some(book)
  }

  /** The version of a rule that fires for a fact routed to a book. */
  function Fires(s: Store, r: nat, fact: SourceFact, book: nat): Option<nat>
    requires r < |s.rules|
  {
    var rule := s.rules[r];
    if !InBook(rule, book) || rule.current.None? || rule.current.value >= |s.versions| then None
    else
      var version := s.versions[rule.current.value];
      if version.status == ActiveVersion && VersionMatches(version.predicates, fact) then rule.current else None
  }

  function FirstFiring(s: Store, ids: seq<nat>, fact: SourceFact, book: nat): Option<nat>
    requires Within(ids, |s.rules|)
  {
    if ids == [] then None
    else if Fires(s, ids[0], fact, book).Some? then Some(ids[0])
    else FirstFiring(s, ids[1..], fact, book)
  }

  function ResolveForFact(s: Store, fact: SourceFact, book: nat): Option<nat> {
    FirstFiring(s, Ordered(s.rules, fact.ref.kind, |s.rules|), fact, book)
  }

  /** The reason the explainer gives. */
  datatype Why =
    | EveryPredicateHolds
    | NarrowedToAnotherBook | NoActiveVersion | VersionIsMissing
    | Predates | Postdates | AttributeDiffers(attribute: Attribute) | OtherEntity | OtherCurrency
    | BelowMinimum | AboveMaximum

  predicate Differs(p: Predicates, fact: SourceFact, a: Attribute) {
    a in p.attributes && !(a in fact.attributes && fact.attributes[a] == p.attributes[a])
  }

  function FirstDifference(p: Predicates, fact: SourceFact, order: seq<Attribute>): (r: Option<Attribute>)
    ensures r.Some? ==> r.value in order && Differs(p, fact, r.value)
    ensures r.None? ==> forall i :: 0 <= i < |order| ==> !Differs(p, fact, order[i])
  {
    if order == [] then None
    else if Differs(p, fact, order[0]) then Some(order[0])
    else FirstDifference(p, fact, order[1..])
  }

  /** `versionMatches` with its reason: the first predicate that fails, in the order they are checked. */
  function Explain(p: Predicates, fact: SourceFact): Why {
    var before := FirstDifference(p, fact, [Provider, Channel]);
    var after := FirstDifference(p, fact, [FeeType, FeeDirection, MovementKind, SourceKind, ExpenseCategory, Capitalize]);
    if p.effectiveFrom.Some? && Lt(fact.date, p.effectiveFrom.value) then Predates
    else if p.effectiveTo.Some? && Lt(p.effectiveTo.value, fact.date) then Postdates
    else if before.Some? then AttributeDiffers(before.value)
    else if p.entity.Some? && p.entity != fact.entity then OtherEntity
    else if after.Some? then AttributeDiffers(after.value)
    else if p.currency.Some? && p.currency.value != fact.currency then OtherCurrency
    else if p.minAmount.Some? && fact.matchAmount < p.minAmount.value then BelowMinimum
    else if p.maxAmount.Some? && fact.matchAmount > p.maxAmount.value then AboveMaximum
    else EveryPredicateHolds
  }

  /** The reason is that everything holds exactly when the version matches. */
  lemma ExplainsExactly(p: Predicates, fact: SourceFact)
    ensures Explain(p, fact) == EveryPredicateHolds <==> VersionMatches(p, fact)
  {
    hide Rank;
    var first, second := [Provider, Channel], [FeeType, FeeDirection, MovementKind, SourceKind, ExpenseCategory, Capitalize];
    forall a: Attribute ensures Explain(p, fact) == EveryPredicateHolds ==> !Differs(p, fact, a) {
      match a
      case Provider => assert first[0] == a;
      case Channel => assert first[1] == a;
      case FeeType => assert second[0] == a;
      case FeeDirection => assert second[1] == a;
      case MovementKind => assert second[2] == a;
      case SourceKind => assert second[3] == a;
      case ExpenseCategory => assert second[4] == a;
      case Capitalize => assert second[5] == a;
    }
    DatesExactly(p, fact);
    assert VersionMatches(p, fact) ==> forall a: Attribute :: !Differs(p, fact, a);
    if Explain(p, fact) == EveryPredicateHolds {
      forall a | a in p.attributes ensures a in fact.attributes && fact.attributes[a] == p.attributes[a] {
        assert !Differs(p, fact, a);
      }
    }
  }

  lemma DatesExactly(p: Predicates, fact: SourceFact)
    ensures p.effectiveFrom.Some? ==> (Lt(fact.date, p.effectiveFrom.value) <==> !Le(p.effectiveFrom.value, fact.date))
    ensures p.effectiveTo.Some? ==> (Lt(p.effectiveTo.value, fact.date) <==> !Le(fact.date, p.effectiveTo.value))
  {
  }

  datatype Candidate = Candidate(rule: nat, matched: bool, why: Why)

  /** The explainer judges a rule the same way, but does not look at the version's status. */
  function Judge(s: Store, r: nat, fact: SourceFact, book: nat): Candidate
    requires r < |s.rules|
  {
    var rule := s.rules[r];
    var why :=
      if !InBook(rule, book) then NarrowedToAnotherBook
      else if rule.current.None? then NoActiveVersion
      else if rule.current.value >= |s.versions| then VersionIsMissing
      else Explain(s.versions[rule.current.value].predicates, fact);
    Candidate(r, why == EveryPredicateHolds, why)
  }

  function CandidatesOf(s: Store, ids: seq<nat>, fact: SourceFact, book: nat): seq<Candidate>
    requires Within(ids, |s.rules|)
  {
    if ids == [] then [] else [Judge(s, ids[0], fact, book)] + CandidatesOf(s, ids[1..], fact, book)
  }

  function CandidatesForFact(s: Store, fact: SourceFact, book: nat): seq<Candidate> {
    CandidatesOf(s, Ordered(s.rules, fact.ref.kind, |s.rules|), fact, book)
  }

  function FirstMatched(candidates: seq<Candidate>): Option<nat> {
    if candidates == [] then None
    else if candidates[0].matched then Some(candidates[0].rule)
    else FirstMatched(candidates[1..])
  }

  /** The rule that fires is the first candidate the explainer reports as matched. */
  lemma ExplainerAgrees(ops: seq<RuleOp>, fact: SourceFact, book: nat)
    ensures var s := Run(Store([], []), ops); ResolveForFact(s, fact, book) == FirstMatched(CandidatesForFact(s, fact, book))
  {
    hide Run, CurrentOk, NamesOk, TextsOk, CandidatesOf, FirstFiring, Ordered;
    var s := Run(Store([], []), ops);
    EmptyStoreOk();
    RunKeeps(Store([], []), ops);
    FirstsAgree(s, Ordered(s.rules, fact.ref.kind, |s.rules|), fact, book);
  }

  lemma EmptyStoreOk()
    ensures StoreOk(Store([], []))
  {
  }

  lemma {:induction false} FirstsAgree(s: Store, ids: seq<nat>, fact: SourceFact, book: nat)
    requires CurrentOk(s) && Within(ids, |s.rules|)
    ensures FirstFiring(s, ids, fact, book) == FirstMatched(CandidatesOf(s, ids, fact, book))
  {
    hide VersionMatches, Explain;
    if ids != [] {
      FirstsAgree(s, ids[1..], fact, book);
      if s.rules[ids[0]].current.Some? {
        ExplainsExactly(s.versions[s.rules[ids[0]].current.value].predicates, fact);
      }
      assert Judge(s, ids[0], fact, book).matched <==> Fires(s, ids[0], fact, book).Some?;
    }
  }

  // ----- First match wins -----

  lemma {:induction false} BeforeTotal(a: string, b: string)
    requires a != b
    ensures Before(a, b) || Before(b, a)
  {
    if a != "" && b != "" && a[0] == b[0] {
      assert a == [a[0]] + a[1..] && b == [b[0]] + b[1..];
      BeforeTotal(a[1..], b[1..]);
    }
  }

  lemma {:induction false} BeforeTransitive(a: string, b: string, c: string)
    requires Before(a, b) && Before(b, c)
    ensures Before(a, c)
  {
    if a != "" && a[0] == b[0] == c[0] {
      BeforeTransitive(a[1..], b[1..], c[1..]);
    }
  }

  ghost predicate Sorted(rules: seq<Rule>, ids: seq<nat>)
    requires Within(ids, |rules|)
  {
    forall i, j :: 0 <= i < j < |ids| ==> Precedes(rules[ids[i]], rules[ids[j]])
  }

  lemma {:induction false} InsertSorts(rules: seq<Rule>, ids: seq<nat>, r: nat)
    requires r < |rules| && Within(ids, |rules|) && Sorted(rules, ids)
    requires forall k :: 0 <= k < |ids| ==> rules[ids[k]].code != rules[r].code
    ensures Within(Insert(rules, ids, r), |rules|) && Sorted(rules, Insert(rules, ids, r))
  {
    InsertHolds(rules, ids, r);
    if ids == [] {
    } else if Precedes(rules[r], rules[ids[0]]) {
      forall j | 0 <= j < |ids| ensures Precedes(rules[r], rules[ids[j]]) {
        if j > 0 {
          PrecedesTransitive(rules[r], rules[ids[0]], rules[ids[j]]);
        }
      }
    } else {
      BeforeTotal(rules[ids[0]].code, rules[r].code);
      InsertSorts(rules, ids[1..], r);
      InsertHolds(rules, ids[1..], r);
      var rest := Insert(rules, ids[1..], r);
      forall j | 0 <= j < |rest| ensures Precedes(rules[ids[0]], rules[rest[j]]) {
        assert rest[j] in rest;
        if rest[j] != r {
          assert rest[j] in ids[1..];
        }
      }
    }
  }

  lemma PrecedesTransitive(a: Rule, b: Rule, c: Rule)
    requires Precedes(a, b) && Precedes(b, c)
    ensures Precedes(a, c)
  {
    if Before(a.code, b.code) && Before(b.code, c.code) {
      BeforeTransitive(a.code, b.code, c.code);
    }
  }

  lemma {:induction false} OrderedSorted(rules: seq<Rule>, kind: FactType, n: nat)
    requires n <= |rules| && forall r, q :: 0 <= r < q < |rules| ==> rules[r].code != rules[q].code
    ensures Sorted(rules, Ordered(rules, kind, n))
  {
    hide Precedes, Before, Insert;
    if n > 0 {
      OrderedSorted(rules, kind, n - 1);
      if Selected(rules[n - 1], kind) {
        InsertSorts(rules, Ordered(rules, kind, n - 1), n - 1);
      }
    }
  }

  lemma {:induction false} FirstIsLeast(s: Store, ids: seq<nat>, fact: SourceFact, book: nat)
    requires Within(ids, |s.rules|) && Sorted(s.rules, ids)
    ensures match FirstFiring(s, ids, fact, book)
            case None => forall q: nat :: q in ids && q < |s.rules| ==> Fires(s, q, fact, book).None?
            case Some(r) => && r in ids && r < |s.rules| && Fires(s, r, fact, book).Some?
                            && forall q: nat :: q in ids && q < |s.rules| && q != r && Fires(s, q, fact, book).Some? ==> Precedes(s.rules[r], s.rules[q])
  {
    hide Precedes, Fires;
    if ids != [] {
      FirstIsLeast(s, ids[1..], fact, book);
      assert ids == [ids[0]] + ids[1..];
    }
  }

  /**
   * First match wins, stated without the loop: among the switched-on rules of the fact's type whose
   * current version fires, the one least by priority and code; none exactly when none fires.
   */
  lemma ResolveIsLeast(s: Store, fact: SourceFact, book: nat)
    requires StoreOk(s)
    ensures match ResolveForFact(s, fact, book)
            case None => forall q :: 0 <= q < |s.rules| && Selected(s.rules[q], fact.ref.kind) ==> Fires(s, q, fact, book).None?
            case Some(r) =>
              && r < |s.rules| && Selected(s.rules[r], fact.ref.kind) && Fires(s, r, fact, book).Some?
              && forall q | 0 <= q < |s.rules| && q != r && Selected(s.rules[q], fact.ref.kind) ::
                   Fires(s, q, fact, book).Some? ==> Precedes(s.rules[r], s.rules[q])
  {
    hide Fires, FirstFiring, Precedes, CurrentOk, TextsOk;
    OrderedSorted(s.rules, fact.ref.kind, |s.rules|);
    FirstIsLeast(s, Ordered(s.rules, fact.ref.kind, |s.rules|), fact, book);
  }
}
