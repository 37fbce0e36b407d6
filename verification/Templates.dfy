/**
 * Line templates: how a rule version turns a fact into lines (`posting-engine.ts`), what the
 * fingerprint keeps of the fact, and the save-time balance check (`posting-rules.ts`).
 */
module Templates {
  import opened Prelude
  import opened Sums
  import opened Rounding
  import opened Facts

  datatype BuiltLine = BuiltLine(account: AccountRef, amount: int, entity: Option<nat>, dimension: Option<nat>)

  function Amount(): BuiltLine -> int {
    (l: BuiltLine) => l.amount
  }

  // ----- Building lines -----

  function TemplateLine(fact: SourceFact, line: RuleLine, amount: int): BuiltLine {
    BuiltLine(line.account, amount, if line.inheritEntity then fact.entity else None, line.dimension)
  }

  /** The non-plug lines; a zero amount is dropped, a missing source throws. */
  function Plain(fact: SourceFact, lines: seq<RuleLine>): Result<seq<BuiltLine>> {
    if lines == [] then Ok([])
    else
      var init :- Plain(fact, lines[..|lines| - 1]);
      var line := lines[|lines| - 1];
      if line.source == Remainder then Ok(init)
      else if line.source !in fact.amounts then Err(Validation)
      else
        var amount := MulRound(fact.amounts[line.source], line.multiplier);
        if amount == 0 then Ok(init) else Ok(init + [TemplateLine(fact, line, amount)])
  }

  lemma {:induction false} PlainReads(fact: SourceFact, lines: seq<RuleLine>)
    requires forall l :: l in lines ==> l.source == Remainder || l.source in fact.amounts
    ensures Plain(fact, lines).Ok?
  {
    if lines != [] {
      PlainReads(fact, lines[..|lines| - 1]);
    }
  }

  lemma {:induction false} PlainNonZero(fact: SourceFact, lines: seq<RuleLine>)
    requires Plain(fact, lines).Ok?
    ensures forall i :: 0 <= i < |Plain(fact, lines).value| ==> Plain(fact, lines).value[i].amount != 0
  {
    hide MulRound;
    if lines != [] {
      PlainNonZero(fact, lines[..|lines| - 1]);
    }
  }

  /** Each line is filed where some template line says. */
  lemma {:induction false} PlainAccount(fact: SourceFact, lines: seq<RuleLine>, i: nat) returns (k: nat)
    requires Plain(fact, lines).Ok? && i < |Plain(fact, lines).value|
    ensures k < |lines| && lines[k].account == Plain(fact, lines).value[i].account
    ensures Plain(fact, lines).value[i].entity == if lines[k].inheritEntity then fact.entity else None
  {
    hide MulRound;
    var init := lines[..|lines| - 1];
    if i < |Plain(fact, init).value| {
      k := PlainAccount(fact, init, i);
    } else {
      k := |init|;
    }
  }

  /** The last `remainder` line, if the template has one. */
  function Plug(lines: seq<RuleLine>): Option<RuleLine> {
    if lines == [] then None
    else if lines[|lines| - 1].source == Remainder then Some(lines[|lines| - 1])
    else Plug(lines[..|lines| - 1])
  }

  function Named(allocations: seq<Allocation>): (r: seq<Allocation>)
    ensures forall i :: 0 <= i < |r| ==> r[i].account.Some?
  {
    if allocations == [] then []
    else Named(allocations[..|allocations| - 1])
         + if allocations[|allocations| - 1].account.Some? then [allocations[|allocations| - 1]] else []
  }

  function Debits(lines: seq<BuiltLine>): (r: seq<nat>)
    ensures forall i :: 0 <= i < |r| ==> r[i] < |lines|
  {
    if lines == [] then []
    else Debits(lines[..|lines| - 1]) + if lines[|lines| - 1].amount >= 0 then [|lines| - 1] else []
  }

  function AllocationLine(target: BuiltLine, a: Allocation): BuiltLine
    requires a.account.Some?
  {
    BuiltLine(ById(a.account.value), a.amount, if a.entity.Some? then a.entity else target.entity, a.dimension)
  }

  function Allocated(): Allocation -> int {
    (a: Allocation) => a.amount
  }

  /** An expense with named allocations and one debit that can hold them. */
  predicate Splits(fact: SourceFact, lines: seq<BuiltLine>) {
    var named, debits := Named(fact.allocations), Debits(lines);
    && fact.ref.kind == ExpenseFact && named != [] && |debits| == 1
    && var stated, target := Total(named, Allocated()), lines[debits[0]].amount;
       (stated < 0) == (target < 0) && Abs(stated) <= Abs(target)
  }

  /** The single debit is replaced by one line per named allocation plus what they leave over. */
  function SplitByAllocations(fact: SourceFact, lines: seq<BuiltLine>): seq<BuiltLine> {
    if !Splits(fact, lines) then lines
    else
      var named, t := Named(fact.allocations), Debits(lines)[0];
      var target := lines[t];
      var parts := seq(|named|, i requires 0 <= i < |named| => AllocationLine(target, named[i]));
      var leftover := target.amount - Total(named, Allocated());
      lines[..t] + lines[t + 1..] + parts + if leftover != 0 then [target.(amount := leftover)] else []
  }

  function BuildLines(fact: SourceFact, rule: ResolvedRule): Result<seq<BuiltLine>> {
    var plain :- Plain(fact, rule.lines);
    var split := SplitByAllocations(fact, plain);
    var residue := -Total(split, Amount());
    var plug := Plug(rule.lines);
    if plug.Some? && residue != 0 then Ok(split + [TemplateLine(fact, plug.value, residue)]) else Ok(split)
  }

  /** The engine's loop: push each line, remember the plug, split, then plug what is left. */
  method BuildInLoop(fact: SourceFact, rule: ResolvedRule) returns (r: Result<seq<BuiltLine>>)
    ensures r == BuildLines(fact, rule)
  {
    var built: seq<BuiltLine> := [];
    var plug: Option<RuleLine> := None;
    for k := 0 to |rule.lines|
      invariant Plain(fact, rule.lines[..k]) == Ok(built)
      invariant Plug(rule.lines[..k]) == plug
    {
      var line := rule.lines[k];
      assert rule.lines[..k + 1][..k] == rule.lines[..k];
      if line.source == Remainder {
        plug := Some(line);
      } else if line.source !in fact.amounts {
        FirstErrorWins(fact, rule.lines, k + 1);
        return Err(Validation);
      } else {
        var amount := MulRound(fact.amounts[line.source], line.multiplier);
        if amount != 0 {
          built := built + [TemplateLine(fact, line, amount)];
        }
      }
    }
    assert rule.lines[..|rule.lines|] == rule.lines;
    var split := SplitByAllocations(fact, built);
    var residue := -Total(split, Amount());
    if plug.Some? && residue != 0 {
      split := split + [TemplateLine(fact, plug.value, residue)];
    }
    r := Ok(split);
  }

  lemma {:induction false} FirstErrorWins(fact: SourceFact, lines: seq<RuleLine>, k: nat)
    requires k <= |lines| && Plain(fact, lines[..k]) == Err(Validation)
    ensures Plain(fact, lines) == Err(Validation)
  {
    if k == |lines| {
      assert lines[..k] == lines;
    } else {
      assert lines[..|lines| - 1][..k] == lines[..k];
      FirstErrorWins(fact, lines[..|lines| - 1], k);
    }
  }

  // ----- Conservation -----

  lemma {:induction false} SolePositive(lines: seq<BuiltLine>, k: nat)
    requires k < |lines|
    ensures k in Debits(lines) <==> lines[k].amount >= 0
  {
    var n := |lines| - 1;
    if k < n {
      assert lines[..n][k] == lines[k];
      SolePositive(lines[..n], k);
    } else {
      assert forall d :: d in Debits(lines[..n]) ==> d < n;
    }
  }

  /** Splitting moves the debit between accounts and never changes the total, on every path. */
  lemma SplitPreservesTotal(fact: SourceFact, lines: seq<BuiltLine>)
    ensures Total(SplitByAllocations(fact, lines), Amount()) == Total(lines, Amount())
  {
    var named, debits := Named(fact.allocations), Debits(lines);
    if Splits(fact, lines) {
      var t := debits[0];
      var target := lines[t];
      var parts := seq(|named|, i requires 0 <= i < |named| => AllocationLine(target, named[i]));
      var rest := lines[..t] + lines[t + 1..];
      var leftover := target.amount - Total(named, Allocated());
      TotalRemove(lines, t, Amount());
      PartsTotal(target, named);
      TotalConcat(rest, parts, Amount());
      if leftover != 0 {
        TotalAppend(rest + parts, target.(amount := leftover), Amount());
        assert SplitByAllocations(fact, lines) == rest + parts + [target.(amount := leftover)];
      } else {
        assert SplitByAllocations(fact, lines) == rest + parts;
      }
    }
  }

  lemma {:induction false} PartsTotal(target: BuiltLine, named: seq<Allocation>)
    requires forall i :: 0 <= i < |named| ==> named[i].account.Some?
    ensures Total(seq(|named|, i requires 0 <= i < |named| => AllocationLine(target, named[i])), Amount())
            == Total(named, Allocated())
  {
    var parts := seq(|named|, i requires 0 <= i < |named| => AllocationLine(target, named[i]));
    if named != [] {
      var k := |named| - 1;
      PartsTotal(target, named[..k]);
      assert parts[..k] == seq(k, i requires 0 <= i < k => AllocationLine(target, named[..k][i]));
    }
  }

  /** One account and entity of the built lines. */
  function OnPlace(account: AccountRef, entity: Option<nat>): BuiltLine -> int {
    (l: BuiltLine) => if l.account == account && l.entity == entity then l.amount else 0
  }

  // ----- Where a template puts a fact -----

  /** The entity a template line is filed under. */
  function LineEntity(fact: SourceFact, l: RuleLine): Option<nat> {
    if l.inheritEntity then fact.entity else None
  }

  function Asked(fact: SourceFact, account: AccountRef, entity: Option<nat>): RuleLine -> int {
    (l: RuleLine) =>
      if l.source == Remainder || l.account != account || LineEntity(fact, l) != entity then 0
      else MulRound(AmountOrZero(fact, l.source), l.multiplier)
  }

  lemma {:induction false} PlainPlaces(fact: SourceFact, lines: seq<RuleLine>, account: AccountRef, entity: Option<nat>)
    requires Plain(fact, lines).Ok?
    ensures Total(Plain(fact, lines).value, OnPlace(account, entity)) == Total(lines, Asked(fact, account, entity))
  {
    hide MulRound;
    if lines != [] {
      var k := |lines| - 1;
      var line := lines[k];
      PlainPlaces(fact, lines[..k], account, entity);
      if line.source != Remainder {
        TotalAppend(Plain(fact, lines[..k]).value, TemplateLine(fact, line, MulRound(fact.amounts[line.source], line.multiplier)),
                    OnPlace(account, entity));
      }
    }
  }

  lemma {:induction false} PlugFound(lines: seq<RuleLine>)
    ensures Plug(lines).Some? <==> exists l :: l in lines && l.source == Remainder
    ensures Plug(lines).Some? ==> Plug(lines).value in lines && Plug(lines).value.source == Remainder
  {
    if lines != [] {
      var init, last := lines[..|lines| - 1], lines[|lines| - 1];
      PlugFound(init);
      assert lines == init + [last];
    }
  }

  /** A template with a plug always balances to the micro-unit, whatever was rounded or split. */
  lemma PlugBalances(fact: SourceFact, rule: ResolvedRule)
    requires Plug(rule.lines).Some? && BuildLines(fact, rule).Ok?
    ensures Total(BuildLines(fact, rule).value, Amount()) == 0
  {
    hide SplitByAllocations, Plain, Plug, Total;
    var split := SplitByAllocations(fact, Plain(fact, rule.lines).value);
    var residue := -Total(split, Amount());
    if residue != 0 {
      TotalAppend(split, TemplateLine(fact, Plug(rule.lines).value, residue), Amount());
    }
  }

  // ----- The fingerprint -----

  function Sources(lines: seq<RuleLine>): set<AmountSource> {
    set l | l in lines && l.source != Remainder :: l.source
  }

  /** `remainder` names no amount. */
  function AmountOrZero(fact: SourceFact, s: AmountSource): int {
    if s != Remainder && s in fact.amounts then fact.amounts[s] else 0
  }

  /** An attribute as text; an absent one prints as null. */
  function Attributed(fact: SourceFact, a: Attribute): string {
    if a in fact.attributes then fact.attributes[a] else "null"
  }

  function FingerprintFact(fact: SourceFact, rule: ResolvedRule): Fingerprint {
    Fingerprint(
      fact.ref, fact.date, fact.entity, fact.currency,
      map s | s in Sources(rule.lines) :: AmountOrZero(fact, s),
      map a | a in rule.matchedAttributes :: Attributed(fact, a),
      fact.allocations)
  }

  /** A fact rebuilt from nothing but its fingerprint. */
  function FactOf(fp: Fingerprint): SourceFact {
    SourceFact(fp.ref, fp.date, fp.entity, fp.currency, fp.amounts, map[], 0, fp.allocations, false)
  }

  lemma {:induction false} PlainReadsSourcesOnly(fact: SourceFact, other: SourceFact, lines: seq<RuleLine>)
    requires other.entity == fact.entity
    requires forall l :: l in lines && l.source != Remainder && l.source in fact.amounts ==>
               l.source in other.amounts && other.amounts[l.source] == fact.amounts[l.source]
    requires Plain(fact, lines).Ok?
    ensures Plain(other, lines) == Plain(fact, lines)
  {
    if lines != [] {
      PlainReadsSourcesOnly(fact, other, lines[..|lines| - 1]);
    }
  }

  lemma SplitReadsAllocationsOnly(fact: SourceFact, other: SourceFact, lines: seq<BuiltLine>)
    requires other.ref == fact.ref && other.allocations == fact.allocations
    ensures SplitByAllocations(other, lines) == SplitByAllocations(fact, lines)
  {
  }

  /**
   * The fingerprint is adequate: everything the engine builds can be rebuilt from it. The entry's
   * date and currency are in the tuple itself.
   */
  lemma FingerprintSuffices(fact: SourceFact, rule: ResolvedRule)
    requires BuildLines(fact, rule).Ok?
    ensures BuildLines(FactOf(FingerprintFact(fact, rule)), rule) == BuildLines(fact, rule)
  {
    hide SplitByAllocations, Plain;
    PlainReadsSourcesOnly(fact, FactOf(FingerprintFact(fact, rule)), rule.lines);
    SplitReadsAllocationsOnly(fact, FactOf(FingerprintFact(fact, rule)), Plain(fact, rule.lines).value);
  }

  /** The two facts agree on everything a rule version consumes. */
  predicate SameConsumed(a: SourceFact, b: SourceFact, rule: ResolvedRule) {
    && a.ref == b.ref && a.date == b.date && a.entity == b.entity && a.currency == b.currency
    && a.allocations == b.allocations
    && (forall s :: s in Sources(rule.lines) ==> AmountOrZero(a, s) == AmountOrZero(b, s))
    && (forall t :: t in rule.matchedAttributes ==> Attributed(a, t) == Attributed(b, t))
  }

  /** And it is no finer: a field no rule read cannot change it. */
  lemma FingerprintExact(a: SourceFact, b: SourceFact, rule: ResolvedRule)
    ensures FingerprintFact(a, rule) == FingerprintFact(b, rule) <==> SameConsumed(a, b, rule)
  {
    var f, g := FingerprintFact(a, rule), FingerprintFact(b, rule);
    if f == g {
      forall s | s in Sources(rule.lines) ensures AmountOrZero(a, s) == AmountOrZero(b, s) {
        assert f.amounts[s] == g.amounts[s];
      }
      forall t | t in rule.matchedAttributes ensures Attributed(a, t) == Attributed(b, t) {
        assert f.matched[t] == g.matched[t];
      }
    }
  }

  /** Hence equal fingerprints mean equal entries, and the "unchanged" branch leaves nothing stale. */
  lemma EqualFingerprintsEqualEntries(a: SourceFact, b: SourceFact, rule: ResolvedRule)
    requires BuildLines(a, rule).Ok? && BuildLines(b, rule).Ok?
    requires FingerprintFact(a, rule) == FingerprintFact(b, rule)
    ensures BuildLines(a, rule) == BuildLines(b, rule) && a.date == b.date && a.currency == b.currency
  {
    FingerprintSuffices(a, rule);
    FingerprintSuffices(b, rule);
  }

  // ----- The save-time balance check -----

  /** The independent components the validator expands amounts into. */
  datatype Component =
    | CSubtotal | CShipping | CTax | CDiscount | CFee | CRefund | CNet | CAmount | CBasis

  /** The validator's table; an absent source is skipped. */
  function Basis(kind: FactType, source: AmountSource): seq<(Component, int)> {
    match (kind, source)
    case (Order, TotalAmount) => [(CSubtotal, 1), (CShipping, 1), (CTax, 1), (CDiscount, -1)]
    case (Order, Subtotal) => [(CSubtotal, 1)]
    case (Order, Shipping) => [(CShipping, 1)]
    case (Order, Tax) => [(CTax, 1)]
    case (Order, Discount) => [(CDiscount, 1)]
    case (Order, Fee) => [(CFee, 1)]
    case (Order, Refund) => [(CRefund, 1)]
    case (Order, Net) => [(CSubtotal, 1), (CShipping, 1), (CTax, 1), (CDiscount, -1), (CRefund, -1)]
    case (OrderFee, Fee) => [(CFee, 1)]
    case (OrderFee, TotalAmount) => [(CFee, 1)]
    case (OrderFee, Net) => [(CFee, 1)]
    case (OrderRefund, Refund) => [(CRefund, 1)]
    case (OrderRefund, TotalAmount) => [(CRefund, 1)]
    case (OrderRefund, Net) => [(CRefund, 1)]
    case (ExpenseFact, TotalAmount) => [(CNet, 1), (CTax, 1)]
    case (ExpenseFact, Tax) => [(CTax, 1)]
    case (ExpenseFact, Net) => [(CNet, 1)]
    case (AcquisitionCost, TotalAmount) => [(CAmount, 1)]
    case (AcquisitionCost, Net) => [(CAmount, 1)]
    case (InventoryMovement, CostBasis) => [(CBasis, 1)]
    case (InventoryMovement, QuantityTimesBasis) => [(CBasis, 1)]
    case (InventoryMovement, TotalAmount) => [(CBasis, 1)]
    case (_, _) => []
  }

  /** The amounts a rule of each fact type may name (`AMOUNT_SOURCES_BY_FACT_TYPE`). */
  function AllowedSources(kind: FactType): set<AmountSource> {
    match kind
    case Order => {TotalAmount, Subtotal, Shipping, Discount, Tax, Fee, Refund, Net, Remainder}
    case OrderFee => {Fee, TotalAmount, Net, Remainder}
    case OrderRefund => {Refund, TotalAmount, Net, Remainder}
    case ExpenseFact => {TotalAmount, Tax, Net, Remainder}
    case AcquisitionCost => {TotalAmount, Net, Remainder}
    case InventoryMovement => {CostBasis, QuantityTimesBasis, TotalAmount, Remainder}
  }

  function Weigh(c: Component): ((Component, int)) -> int {
    (p: (Component, int)) => if p.0 == c then p.1 else 0
  }

  /** How often a component occurs in an amount. */
  function Coefficient(kind: FactType, source: AmountSource, c: Component): int {
    Total(Basis(kind, source), Weigh(c))
  }

  function LineCoefficient(kind: FactType, c: Component): RuleLine -> int {
    (l: RuleLine) => l.multiplier * Coefficient(kind, l.source, c)
  }

  /** The validator's verdict: every component's coefficients cancel. */
  ghost predicate Cancels(kind: FactType, lines: seq<RuleLine>) {
    forall c: Component :: Total(lines, LineCoefficient(kind, c)) == 0
  }

  /** `assertTemplateBalances`: accumulate coefficients in a map, then look for a non-zero one. */
  method AssertTemplateBalances(kind: FactType, lines: seq<RuleLine>) returns (r: Result<()>)
    ensures r.Ok? <==> Cancels(kind, lines)
    ensures r.Err? ==> r.error == Validation
  {
    var totals: map<Component, int> := map[];
    for i := 0 to |lines|
      invariant forall c: Component :: Entry(totals, c) == Total(lines[..i], LineCoefficient(kind, c))
    {
      totals := AddDecomposition(totals, Basis(kind, lines[i].source), lines[i].multiplier);
      forall c: Component ensures Entry(totals, c) == Total(lines[..i + 1], LineCoefficient(kind, c)) {
        assert lines[..i + 1] == lines[..i] + [lines[i]];
        TotalAppend(lines[..i], lines[i], LineCoefficient(kind, c));
      }
    }
    assert lines[..|lines|] == lines;
    if exists c :: c in totals && totals[c] != 0 {
      ghost var c :| c in totals && totals[c] != 0;
      assert Entry(totals, c) != 0;
      r := Err(Validation);
    } else {
      assert forall c: Component :: Entry(totals, c) == 0;
      r := Ok(());
    }
  }

  method AddDecomposition(start: map<Component, int>, decomposition: seq<(Component, int)>, multiplier: int)
    returns (totals: map<Component, int>)
    ensures forall c: Component ::
              Entry(totals, c) == Entry(start, c) + multiplier * Total(decomposition, Weigh(c))
  {
    totals := start;
    for j := 0 to |decomposition|
      invariant forall c: Component ::
        Entry(totals, c) == Entry(start, c) + multiplier * Total(decomposition[..j], Weigh(c))
    {
      var (component, coefficient) := decomposition[j];
      ghost var before := totals;
      totals := totals[component := Entry(totals, component) + coefficient * multiplier];
      assert decomposition[..j + 1] == decomposition[..j] + [decomposition[j]];
      forall c: Component
        ensures Entry(totals, c) == Entry(start, c) + multiplier * Total(decomposition[..j + 1], Weigh(c))
      {
        TotalAppend(decomposition[..j], decomposition[j], Weigh(c));
        var step := Weigh(c)(decomposition[j]);
        assert Entry(totals, c) == Entry(before, c) + step * multiplier;
        DistributeSum(multiplier, Total(decomposition[..j], Weigh(c)), step);
      }
    }
    assert decomposition[..|decomposition|] == decomposition;
  }

  function Entry(totals: map<Component, int>, c: Component): int {
    if c in totals then totals[c] else 0
  }

  lemma DistributeSum(m: int, a: int, b: int)
    ensures m * (a + b) == m * a + b * m
  {
  }

  // ----- What the verdict means -----

  /** One choice of the independent components. */
  datatype Assignment = Assignment(
    subtotal: int, shipping: int, tax: int, discount: int, fee: int, refund: int, net: int, amount: int, basis: int)

  /** What each amount is worth when the readers' identities hold. */
  function Value(kind: FactType, source: AmountSource, v: Assignment): int {
    match kind
    case Order => (
      var total := v.subtotal + v.shipping + v.tax - v.discount;
      match source
      case TotalAmount => total
      case Subtotal => v.subtotal
      case Shipping => v.shipping
      case Tax => v.tax
      case Discount => v.discount
      case Fee => v.fee
      case Refund => v.refund
      case Net => total - v.refund
      case _ => 0)
    case OrderFee => if source in {Fee, TotalAmount, Net} then v.fee else 0
    case OrderRefund => if source in {Refund, TotalAmount, Net} then v.refund else 0
    case ExpenseFact =>
      if source == TotalAmount then v.net + v.tax else if source == Tax then v.tax else if source == Net then v.net else 0
    case AcquisitionCost => if source in {TotalAmount, Net} then v.amount else 0
    case InventoryMovement => if source in {CostBasis, QuantityTimesBasis, TotalAmount} then v.basis else 0
  }

  function LineValue(kind: FactType, v: Assignment): RuleLine -> int {
    (l: RuleLine) => l.multiplier * Value(kind, l.source, v)
  }

  /** The un-rounded sum of the lines, in millionths of a micro-unit. */
  function UnroundedSum(kind: FactType, lines: seq<RuleLine>, v: Assignment): int {
    Total(lines, LineValue(kind, v))
  }

  function Zero(): Assignment {
    Assignment(0, 0, 0, 0, 0, 0, 0, 0, 0)
  }

  function Unit(c: Component): Assignment {
    match c
    case CSubtotal => Zero().(subtotal := 1)
    case CShipping => Zero().(shipping := 1)
    case CTax => Zero().(tax := 1)
    case CDiscount => Zero().(discount := 1)
    case CFee => Zero().(fee := 1)
    case CRefund => Zero().(refund := 1)
    case CNet => Zero().(net := 1)
    case CAmount => Zero().(amount := 1)
    case CBasis => Zero().(basis := 1)
  }

  function Part(v: Assignment, c: Component): int {
    match c
    case CSubtotal => v.subtotal
    case CShipping => v.shipping
    case CTax => v.tax
    case CDiscount => v.discount
    case CFee => v.fee
    case CRefund => v.refund
    case CNet => v.net
    case CAmount => v.amount
    case CBasis => v.basis
  }

  function PartWeight(v: Assignment): ((Component, int)) -> int {
    (p: (Component, int)) => p.1 * Part(v, p.0)
  }

  lemma SumOfFive<T>(s: seq<T>, w: T -> int)
    requires |s| <= 5
    ensures Total(s, w) == (if |s| > 0 then w(s[0]) else 0) + (if |s| > 1 then w(s[1]) else 0)
                           + (if |s| > 2 then w(s[2]) else 0) + (if |s| > 3 then w(s[3]) else 0)
                           + (if |s| > 4 then w(s[4]) else 0)
  {
    if |s| > 0 {
      SumOfFive(s[..|s| - 1], w);
    }
  }

  /** The validator's table says of each amount exactly what the readers make of it. */
  lemma TableMatchesReaders(kind: FactType, source: AmountSource, v: Assignment)
    ensures Total(Basis(kind, source), PartWeight(v)) == Value(kind, source, v)
  {
    SumOfFive(Basis(kind, source), PartWeight(v));
  }

  lemma PartOfUnit(c: Component, d: Component)
    ensures Part(Unit(c), d) == if d == c then 1 else 0
  {
  }

  lemma CoefficientIsUnitValue(kind: FactType, source: AmountSource, c: Component)
    ensures Coefficient(kind, source, c) == Value(kind, source, Unit(c))
  {
    hide Basis, Value, Unit, Part;
    TableMatchesReaders(kind, source, Unit(c));
    forall i | 0 <= i < |Basis(kind, source)|
      ensures Weigh(c)(Basis(kind, source)[i]) == PartWeight(Unit(c))(Basis(kind, source)[i])
    {
      PartOfUnit(c, Basis(kind, source)[i].0);
    }
    TotalSame(Basis(kind, source), Weigh(c), PartWeight(Unit(c)));
  }

  function Sum9(f: Component -> int): int {
    f(CSubtotal) + f(CShipping) + f(CTax) + f(CDiscount) + f(CFee) + f(CRefund) + f(CNet) + f(CAmount) + f(CBasis)
  }

  lemma Sum9Combine(f: Component -> int, m: int, g: Component -> int, h: Component -> int)
    requires forall c: Component :: h(c) == f(c) + m * g(c)
    ensures Sum9(h) == Sum9(f) + m * Sum9(g)
  {
  }

  function Times(v: Assignment, f: Component -> int): Component -> int {
    (c: Component) => Part(v, c) * f(c)
  }

  function EntryCoefficients(entries: seq<(Component, int)>): Component -> int {
    (c: Component) => Total(entries, Weigh(c))
  }

  function Own(p: (Component, int)): Component -> int {
    (c: Component) => if p.0 == c then p.1 else 0
  }

  lemma OnlyOwnComponent(p: (Component, int), v: Assignment)
    ensures Sum9(Times(v, Own(p))) == PartWeight(v)(p)
  {
    hide Part;
    forall c: Component ensures Times(v, Own(p))(c) == if c == p.0 then PartWeight(v)(p) else 0 {
    }
    match p.0
    case CSubtotal => case CShipping => case CTax => case CDiscount => case CFee =>
    case CRefund => case CNet => case CAmount => case CBasis =>
  }

  /** A decomposition is worth its components weighted by their coefficients. */
  lemma {:induction false} EntriesAreLinear(entries: seq<(Component, int)>, v: Assignment)
    ensures Total(entries, PartWeight(v)) == Sum9(Times(v, EntryCoefficients(entries)))
  {
    hide Part, Sum9;
    if entries == [] {
      Sum9Combine(Times(v, EntryCoefficients([])), 1, Times(v, EntryCoefficients([])), Times(v, EntryCoefficients([])));
    } else {
      var k := |entries| - 1;
      var last := entries[k];
      EntriesAreLinear(entries[..k], v);
      OnlyOwnComponent(last, v);
      forall c: Component
        ensures Times(v, EntryCoefficients(entries))(c)
                == Times(v, EntryCoefficients(entries[..k]))(c) + 1 * Times(v, Own(last))(c)
      {
        ScaledStep(Part(v, c), Total(entries[..k], Weigh(c)), 1, Weigh(c)(last));
      }
      Sum9Combine(Times(v, EntryCoefficients(entries[..k])), 1, Times(v, Own(last)), Times(v, EntryCoefficients(entries)));
    }
  }

  function LineCoefficients(kind: FactType, lines: seq<RuleLine>): Component -> int {
    (c: Component) => Total(lines, LineCoefficient(kind, c))
  }

  lemma NoLinesSum(kind: FactType, v: Assignment)
    ensures UnroundedSum(kind, [], v) == Sum9(Times(v, LineCoefficients(kind, [])))
  {
    var none := Times(v, LineCoefficients(kind, []));
    Sum9Combine(none, 1, none, none);
  }

  lemma {:induction false} UnroundedIsLinear(kind: FactType, lines: seq<RuleLine>, v: Assignment)
    ensures UnroundedSum(kind, lines, v) == Sum9(Times(v, LineCoefficients(kind, lines)))
  {
    hide Basis, Value, Sum9, Times, EntryCoefficients;
    if lines == [] {
      NoLinesSum(kind, v);
    } else {
      var k := |lines| - 1;
      var entries := Basis(kind, lines[k].source);
      UnroundedIsLinear(kind, lines[..k], v);
      TableMatchesReaders(kind, lines[k].source, v);
      EntriesAreLinear(entries, v);
      forall c: Component
        ensures Times(v, LineCoefficients(kind, lines))(c)
                == Times(v, LineCoefficients(kind, lines[..k]))(c) + lines[k].multiplier * Times(v, EntryCoefficients(entries))(c)
      {
        OneMoreLine(kind, lines, v, c);
      }
      Sum9Combine(Times(v, LineCoefficients(kind, lines[..k])), lines[k].multiplier,
                  Times(v, EntryCoefficients(entries)), Times(v, LineCoefficients(kind, lines)));
    }
  }

  lemma OneMoreLine(kind: FactType, lines: seq<RuleLine>, v: Assignment, c: Component)
    requires lines != []
    ensures var k := |lines| - 1;
            Times(v, LineCoefficients(kind, lines))(c)
            == Times(v, LineCoefficients(kind, lines[..k]))(c)
               + lines[k].multiplier * Times(v, EntryCoefficients(Basis(kind, lines[k].source)))(c)
  {
    hide Basis, Part;
    var k := |lines| - 1;
    ScaledStep(Part(v, c), Total(lines[..k], LineCoefficient(kind, c)), lines[k].multiplier,
               Coefficient(kind, lines[k].source, c));
  }

  lemma ScaledStep(p: int, t: int, m: int, u: int)
    ensures p * (t + m * u) == p * t + m * (p * u)
  {
  }

  /** Soundness and completeness: accepted exactly when the sum is zero for every assignment. */
  lemma ValidatorExact(kind: FactType, lines: seq<RuleLine>)
    ensures Cancels(kind, lines) <==> forall v: Assignment :: UnroundedSum(kind, lines, v) == 0
  {
    hide Value, Coefficient, UnroundedSum, Unit, LineCoefficient, Basis, Part;
    forall v: Assignment ensures Cancels(kind, lines) ==> UnroundedSum(kind, lines, v) == 0 {
      UnroundedIsLinear(kind, lines, v);
    }
    forall c: Component ensures UnroundedSum(kind, lines, Unit(c)) == Total(lines, LineCoefficient(kind, c)) {
      UnitPicksCoefficient(kind, lines, c);
    }
  }

  lemma {:induction false} UnitPicksCoefficient(kind: FactType, lines: seq<RuleLine>, c: Component)
    ensures UnroundedSum(kind, lines, Unit(c)) == Total(lines, LineCoefficient(kind, c))
  {
    hide Value, Coefficient, Unit, Basis;
    forall i | 0 <= i < |lines| ensures LineValue(kind, Unit(c))(lines[i]) == LineCoefficient(kind, c)(lines[i]) {
      CoefficientIsUnitValue(kind, lines[i].source, c);
    }
    TotalSame(lines, LineValue(kind, Unit(c)), LineCoefficient(kind, c));
  }

  // ----- What happens once rounding is in play -----

  /** The readers' identities, for every fact type; an order's provider-asserted total is free. */
  predicate ReaderShaped(fact: SourceFact) {
    && AllowedSources(fact.ref.kind) - {Remainder} <= fact.amounts.Keys
    && match fact.ref.kind
       case Order => fact.amounts[Net] == fact.amounts[TotalAmount] - fact.amounts[Refund]
       case OrderFee => fact.amounts[TotalAmount] == fact.amounts[Net] == fact.amounts[Fee]
       case OrderRefund => fact.amounts[TotalAmount] == fact.amounts[Net] == fact.amounts[Refund]
       case ExpenseFact => fact.amounts[Net] == fact.amounts[TotalAmount] - fact.amounts[Tax]
       case AcquisitionCost => fact.amounts[TotalAmount] == fact.amounts[Net]
       case InventoryMovement =>
         fact.amounts[CostBasis] == fact.amounts[QuantityTimesBasis] == fact.amounts[TotalAmount]
  }

  /** What an order's total carries beyond the components the reader knows. */
  function Gap(fact: SourceFact): int
    requires ReaderShaped(fact)
  {
    if fact.ref.kind != Order then 0
    else fact.amounts[TotalAmount]
         - (fact.amounts[Subtotal] + fact.amounts[Shipping] + fact.amounts[Tax] - fact.amounts[Discount])
  }

  function ComponentsOf(fact: SourceFact): Assignment {
    Assignment(AmountOrZero(fact, Subtotal), AmountOrZero(fact, Shipping), AmountOrZero(fact, Tax),
               AmountOrZero(fact, Discount), AmountOrZero(fact, Fee), AmountOrZero(fact, Refund),
               AmountOrZero(fact, Net), AmountOrZero(fact, Net), AmountOrZero(fact, CostBasis))
  }

  predicate Authorable(kind: FactType, lines: seq<RuleLine>) {
    forall l :: l in lines ==> l.source in AllowedSources(kind) - {Remainder}
  }

  predicate ReadsTotal(kind: FactType, l: RuleLine) {
    kind == Order && (l.source == TotalAmount || l.source == Net)
  }

  function TotalMultiplier(kind: FactType): RuleLine -> int {
    (l: RuleLine) => if ReadsTotal(kind, l) then l.multiplier else 0
  }

  function RawProduct(fact: SourceFact): RuleLine -> int {
    (l: RuleLine) => AmountOrZero(fact, l.source) * l.multiplier
  }

  function RoundedProduct(fact: SourceFact): RuleLine -> int {
    (l: RuleLine) => MulRound(AmountOrZero(fact, l.source), l.multiplier)
  }

  lemma AmountIsValue(fact: SourceFact, source: AmountSource)
    requires ReaderShaped(fact) && source in AllowedSources(fact.ref.kind) - {Remainder}
    ensures AmountOrZero(fact, source)
            == Value(fact.ref.kind, source, ComponentsOf(fact))
               + if fact.ref.kind == Order && (source == TotalAmount || source == Net) then Gap(fact) else 0
  {
    match fact.ref.kind
    case Order => OrderAmountIsValue(fact, source);
    case ExpenseFact =>
    case OrderFee => OneAmountIsValue(fact, source);
    case OrderRefund => OneAmountIsValue(fact, source);
    case AcquisitionCost => OneAmountIsValue(fact, source);
    case InventoryMovement => OneAmountIsValue(fact, source);
  }

  /** Facts of these types carry one amount under several names. */
  predicate OneAmount(kind: FactType) {
    kind != Order && kind != ExpenseFact
  }

  lemma OneAmountIsValue(fact: SourceFact, source: AmountSource)
    requires OneAmount(fact.ref.kind) && ReaderShaped(fact) && source in AllowedSources(fact.ref.kind) - {Remainder}
    ensures AmountOrZero(fact, source) == Value(fact.ref.kind, source, ComponentsOf(fact))
  {
  }

  lemma OrderAmountIsValue(fact: SourceFact, source: AmountSource)
    requires fact.ref.kind == Order && ReaderShaped(fact) && source in AllowedSources(Order) - {Remainder}
    ensures AmountOrZero(fact, source)
            == Value(Order, source, ComponentsOf(fact)) + if source == TotalAmount || source == Net then Gap(fact) else 0
  {
  }

  /** The un-rounded sum of an accepted template is its total-multiplier times the order's gap. */
  lemma {:induction false} AcceptedLeavesGap(fact: SourceFact, lines: seq<RuleLine>)
    requires ReaderShaped(fact) && Authorable(fact.ref.kind, lines)
    ensures Total(lines, RawProduct(fact))
            == UnroundedSum(fact.ref.kind, lines, ComponentsOf(fact))
               + Total(lines, TotalMultiplier(fact.ref.kind)) * Gap(fact)
  {
    hide Value, ReaderShaped, AllowedSources, ComponentsOf, Gap;
    if lines != [] {
      var k := |lines| - 1;
      AcceptedLeavesGap(fact, lines[..k]);
      AmountIsValue(fact, lines[k].source);
      GapStep(lines[k].multiplier, Value(fact.ref.kind, lines[k].source, ComponentsOf(fact)), Gap(fact),
              Total(lines[..k], TotalMultiplier(fact.ref.kind)));
    }
  }

  lemma GapStep(m: int, value: int, gap: int, t: int)
    ensures (value + gap) * m + t * gap == m * value + (t + m) * gap
    ensures (value + 0) * m == m * value
  {
  }

  /** Dropping zero lines, and the plug, drops nothing from the sum. */
  lemma {:induction false} PlainTotal(fact: SourceFact, lines: seq<RuleLine>)
    requires Plain(fact, lines).Ok?
    ensures Total(Plain(fact, lines).value, Amount()) == Total(lines, RoundedProduct(fact))
  {
    hide MulRound;
    if lines != [] {
      var k := |lines| - 1;
      var line := lines[k];
      PlainTotal(fact, lines[..k]);
      if line.source == Remainder {
        MulRoundZero(line.multiplier);
      } else {
        TotalAppend(Plain(fact, lines[..k]).value, TemplateLine(fact, line, MulRound(fact.amounts[line.source], line.multiplier)), Amount());
      }
    }
  }

  /** Each rounded line is within half a micro-unit of its exact product. */
  lemma {:induction false} RoundingDrift(fact: SourceFact, lines: seq<RuleLine>)
    ensures -|lines| * MICRO <= 2 * (MICRO * Total(lines, RoundedProduct(fact)) - Total(lines, RawProduct(fact)))
            <= |lines| * MICRO
  {
    hide MulRound;
    if lines != [] {
      var k := |lines| - 1;
      RoundingDrift(fact, lines[..k]);
      MulRoundNearest(AmountOrZero(fact, lines[k].source), lines[k].multiplier);
    }
  }

  predicate Integral(lines: seq<RuleLine>) {
    forall l :: l in lines ==> l.multiplier % MICRO == 0
  }

  lemma ExactProduct(a: int, q: int)
    ensures MICRO * (a * q) == a * (q * MICRO)
  {
  }

  /**
   * An accepted, plug-free template on a reader-shaped fact: the built lines miss zero by at most
   * half a micro-unit a line beyond the order's gap.
   */
  lemma AcceptedNearlyBalances(fact: SourceFact, rule: ResolvedRule)
    requires ReaderShaped(fact) && Authorable(fact.ref.kind, rule.lines) && Cancels(fact.ref.kind, rule.lines)
    requires Gap(fact) == 0 || Total(rule.lines, TotalMultiplier(fact.ref.kind)) == 0
    ensures BuildLines(fact, rule).Ok?
    ensures 2 * Abs(Total(BuildLines(fact, rule).value, Amount())) <= |rule.lines|
  {
    hide ReaderShaped, AllowedSources, Gap, BuildLines, Cancels, UnroundedSum, Total, Authorable;
    BuiltTotal(fact, rule);
    ValidatorExact(fact.ref.kind, rule.lines);
    AcceptedLeavesGap(fact, rule.lines);
    RoundingDrift(fact, rule.lines);
  }

  lemma BuiltTotal(fact: SourceFact, rule: ResolvedRule)
    requires ReaderShaped(fact) && Authorable(fact.ref.kind, rule.lines)
    ensures BuildLines(fact, rule).Ok?
    ensures Total(BuildLines(fact, rule).value, Amount()) == Total(rule.lines, RoundedProduct(fact))
  {
    PlainReads(fact, rule.lines);
    PlainTotal(fact, rule.lines);
    NoPlug(rule.lines);
    SplitPreservesTotal(fact, Plain(fact, rule.lines).value);
  }

  lemma {:induction false} NoPlug(lines: seq<RuleLine>)
    requires forall l :: l in lines ==> l.source != Remainder
    ensures Plug(lines).None?
  {
    if lines != [] {
      NoPlug(lines[..|lines| - 1]);
    }
  }

  lemma ZeroProduct(a: int, b: int)
    ensures a * b == 0 <==> a == 0 || b == 0
  {
  }
}
