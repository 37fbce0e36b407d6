/**
 * Exactly which plug-free templates always balance. Rounding repeats with every whole unit of money
 * and is odd, so what a template does to all amounts shows in the amounts below one unit: a finite
 * test on its multipliers that can be made when the rule is saved (`posting-rules.ts`, `decimal.ts`).
 */
module TemplateExactness {
  import opened Prelude
  import opened Sums
  import opened Rounding
  import opened Calendar
  import opened Facts
  import opened Templates

  function RoundAt(x: int): RuleLine -> int {
    (l: RuleLine) => MulRound(x, l.multiplier)
  }

  function Multiplier(): RuleLine -> int {
    (l: RuleLine) => l.multiplier
  }

  /** What lines that all read `x` gain by rounding, in millionths of a micro-unit. */
  function Defect(lines: seq<RuleLine>, x: int): int {
    MICRO * Total(lines, RoundAt(x)) - x * Total(lines, Multiplier())
  }

  /** Lines that read one amount lose nothing to rounding, whatever amount below one unit they read. */
  predicate Exact(lines: seq<RuleLine>) {
    forall x :: 0 <= x < MICRO ==> Defect(lines, x) == 0
  }

  /** The lines that read an amount. */
  function Reading(lines: seq<RuleLine>, s: AmountSource): seq<RuleLine> {
    if lines == [] then []
    else Reading(lines[..|lines| - 1], s) + if lines[|lines| - 1].source == s then [lines[|lines| - 1]] else []
  }

  /** The finite test: exact as a whole for a one-amount type, and amount by amount for the others. */
  predicate Even(kind: FactType, lines: seq<RuleLine>) {
    if OneAmount(kind) then Exact(lines) else forall s: AmountSource :: Exact(Reading(lines, s))
  }

  // ----- Rounding repeats -----

  /** One more unit of money adds the multiplier, exactly. */
  lemma RoundShifts(x: int, m: int)
    requires x >= 0
    ensures MulRound(x + MICRO, m) == MulRound(x, m) + m
  {
    hide MulRound;
    var r := MulRound(x, m);
    MulRoundNearest(x, m);
    SignOfRound(x, m);
    ProductShift(x, m);
    MulRoundUnique(x + MICRO, m, r + m);
  }

  lemma ProductShift(x: int, m: int)
    requires x >= 0
    ensures (x + MICRO) * m == x * m + MICRO * m
    ensures m >= 0 ==> x * m >= 0
    ensures m <= 0 ==> x * m <= 0
  {
  }

  lemma SignOfRound(x: int, m: int)
    requires x >= 0
    ensures m >= 0 ==> MulRound(x, m) >= 0
    ensures m <= 0 ==> MulRound(x, m) <= 0
  {
    ProductShift(x, m);
    NearestNatural(Abs(x * m));
  }

  lemma NearestNatural(n: int)
    requires n >= 0
    ensures Nearest(n, MICRO) >= 0
  {
  }

  lemma TotalShifts(lines: seq<RuleLine>, x: int)
    requires x >= 0
    ensures Total(lines, RoundAt(x + MICRO)) == Total(lines, RoundAt(x)) + Total(lines, Multiplier())
  {
    hide MulRound;
    forall i | 0 <= i < |lines| ensures RoundAt(x + MICRO)(lines[i]) == RoundAt(x)(lines[i]) + Multiplier()(lines[i]) {
      RoundShifts(x, lines[i].multiplier);
    }
    TotalAdd(lines, RoundAt(x), Multiplier(), RoundAt(x + MICRO));
  }

  lemma TotalOdd(lines: seq<RuleLine>, x: int)
    ensures Total(lines, RoundAt(-x)) == -Total(lines, RoundAt(x))
  {
    hide MulRound;
    forall i | 0 <= i < |lines| ensures RoundAt(-x)(lines[i]) == -1 * RoundAt(x)(lines[i]) {
      MulRoundOdd(x, lines[i].multiplier);
    }
    TotalScale(lines, -1, RoundAt(x), RoundAt(-x));
  }

  lemma TotalAtZero(lines: seq<RuleLine>)
    ensures Total(lines, RoundAt(0)) == 0
  {
    TotalOdd(lines, 0);
  }

  /** The remainder below one unit, with the amount's sign. */
  function Below(x: int): int {
    if x < 0 then -(-x % MICRO) else x % MICRO
  }

  lemma DefectOdd(lines: seq<RuleLine>, x: int)
    ensures Defect(lines, -x) == -Defect(lines, x)
  {
    hide RoundAt, Multiplier;
    TotalOdd(lines, x);
  }

  /** Rounding gains on an amount what it gains on its remainder below one unit. */
  lemma {:induction false} DefectRepeats(lines: seq<RuleLine>, x: int)
    ensures Defect(lines, x) == Defect(lines, Below(x))
    decreases if x < 0 then 1 - x else x
  {
    hide RoundAt, Multiplier;
    if x < 0 {
      hide Defect;
      DefectRepeats(lines, -x);
      DefectOdd(lines, -x);
      DefectOdd(lines, Below(-x));
    } else if x >= MICRO {
      DefectRepeats(lines, x - MICRO);
      TotalShifts(lines, x - MICRO);
      assert Below(x - MICRO) == Below(x);
    }
  }

  /** The test below one unit decides for every amount. */
  lemma ExactEverywhere(lines: seq<RuleLine>, x: int)
    requires Exact(lines)
    ensures Defect(lines, x) == 0
  {
    hide Defect;
    DefectRepeats(lines, x);
    if x < 0 {
      DefectOdd(lines, -x % MICRO);
    }
  }

  /** A rounded sum that is additive is exact. */
  lemma AdditiveIsExact(lines: seq<RuleLine>)
    requires forall a: nat, b: nat :: Total(lines, RoundAt(a + b)) == Total(lines, RoundAt(a)) + Total(lines, RoundAt(b))
    ensures Exact(lines)
  {
    hide RoundAt, Multiplier;
    TotalAtZero(lines);
    TotalShifts(lines, 0);
    AdditiveIsLinear(lines, MICRO);
    forall x | 0 <= x < MICRO ensures MICRO * Total(lines, RoundAt(x)) == x * Total(lines, Multiplier()) {
      AdditiveIsLinear(lines, x);
      Reassociate(MICRO, x, Total(lines, RoundAt(1)));
    }
  }

  lemma Reassociate(a: int, x: int, u: int)
    ensures a * (x * u) == x * (a * u)
  {
  }

  lemma OneMoreTime(y: int, u: int)
    ensures (y + 1) * u == y * u + u
  {
  }

  lemma {:induction false} AdditiveIsLinear(lines: seq<RuleLine>, x: nat)
    requires forall a: nat, b: nat :: Total(lines, RoundAt(a + b)) == Total(lines, RoundAt(a)) + Total(lines, RoundAt(b))
    ensures Total(lines, RoundAt(x)) == x * Total(lines, RoundAt(1))
  {
    hide RoundAt, Total;
    if x == 0 {
      TotalAtZero(lines);
    } else {
      var y: nat := x - 1;
      AdditiveIsLinear(lines, y);
      assert Total(lines, RoundAt(y + 1)) == Total(lines, RoundAt(y)) + Total(lines, RoundAt(1));
      OneMoreTime(y, Total(lines, RoundAt(1)));
    }
  }

  // ----- Amount by amount -----

  function SumOfSources(f: AmountSource -> int): int {
    f(TotalAmount) + f(Subtotal) + f(Shipping) + f(Discount) + f(Tax) + f(Fee) + f(Refund) + f(Net)
    + f(CostBasis) + f(QuantityTimesBasis) + f(Remainder)
  }

  function PerSource(lines: seq<RuleLine>, w: RuleLine -> int): AmountSource -> int {
    (s: AmountSource) => Total(Reading(lines, s), w)
  }

  lemma SumGains(f: AmountSource -> int, g: AmountSource -> int, source: AmountSource, x: int)
    requires forall s: AmountSource :: f(s) == g(s) + if source == s then x else 0
    ensures SumOfSources(f) == SumOfSources(g) + x
  {
  }

  lemma {:induction false} SumBySource(lines: seq<RuleLine>, w: RuleLine -> int)
    ensures Total(lines, w) == SumOfSources(PerSource(lines, w))
  {
    hide SumOfSources, Reading;
    if lines == [] {
      NothingSums(w);
    } else {
      var k := |lines| - 1;
      SumBySource(lines[..k], w);
      forall s: AmountSource
        ensures PerSource(lines, w)(s) == PerSource(lines[..k], w)(s) + if lines[k].source == s then w(lines[k]) else 0
      {
        OneMoreReading(lines, w, s);
      }
      SumGains(PerSource(lines, w), PerSource(lines[..k], w), lines[k].source, w(lines[k]));
    }
  }

  lemma NothingSums(w: RuleLine -> int)
    ensures SumOfSources(PerSource([], w)) == 0
  {
  }

  lemma OneMoreReading(lines: seq<RuleLine>, w: RuleLine -> int, s: AmountSource)
    requires lines != []
    ensures var k := |lines| - 1;
            Total(Reading(lines, s), w) == Total(Reading(lines[..k], s), w) + if lines[k].source == s then w(lines[k]) else 0
  {
    var k := |lines| - 1;
    if lines[k].source == s {
      TotalAppend(Reading(lines[..k], s), lines[k], w);
    } else {
      assert Reading(lines[..k], s) + [] == Reading(lines[..k], s);
    }
  }

  lemma {:induction false} ReadingReads(lines: seq<RuleLine>, s: AmountSource)
    ensures forall i :: 0 <= i < |Reading(lines, s)| ==> Reading(lines, s)[i].source == s
  {
    if lines != [] {
      ReadingReads(lines[..|lines| - 1], s);
    }
  }

  lemma {:induction false} NothingReads(lines: seq<RuleLine>, s: AmountSource)
    requires forall l :: l in lines ==> l.source != s
    ensures Reading(lines, s) == []
  {
    if lines != [] {
      NothingReads(lines[..|lines| - 1], s);
    }
  }

  /** Lines that all read the amount `x` round to one sum of `x`. */
  lemma SameAmount(fact: SourceFact, lines: seq<RuleLine>, x: int)
    requires forall i :: 0 <= i < |lines| ==> AmountOrZero(fact, lines[i].source) == x
    ensures Total(lines, RoundedProduct(fact)) == Total(lines, RoundAt(x))
    ensures Total(lines, RawProduct(fact)) == x * Total(lines, Multiplier())
  {
    hide MulRound;
    TotalSame(lines, RoundedProduct(fact), RoundAt(x));
    TotalScale(lines, x, Multiplier(), RawProduct(fact));
  }

  /** A one-amount fact's amount. */
  function SoleAmount(fact: SourceFact): int {
    AmountOrZero(fact, if fact.ref.kind == InventoryMovement then CostBasis else TotalAmount)
  }

  lemma OneAmountReads(fact: SourceFact, lines: seq<RuleLine>)
    requires OneAmount(fact.ref.kind) && ReaderShaped(fact) && Authorable(fact.ref.kind, lines)
    ensures Total(lines, RoundedProduct(fact)) == Total(lines, RoundAt(SoleAmount(fact)))
    ensures Total(lines, RawProduct(fact)) == SoleAmount(fact) * Total(lines, Multiplier())
  {
    hide RoundedProduct, RawProduct;
    forall i | 0 <= i < |lines| ensures AmountOrZero(fact, lines[i].source) == SoleAmount(fact) {
      assert lines[i] in lines;
    }
    SameAmount(fact, lines, SoleAmount(fact));
  }

  // ----- What one fact's entry misses by -----

  function DefectAt(fact: SourceFact, lines: seq<RuleLine>): AmountSource -> int {
    (s: AmountSource) => Defect(Reading(lines, s), Below(AmountOrZero(fact, s)))
  }

  /** What rounding adds, read off the multipliers and each amount's remainder below one unit. */
  function RoundingGain(fact: SourceFact, lines: seq<RuleLine>): int {
    SumOfSources(DefectAt(fact, lines))
  }

  /** What an accepted template's entry misses zero by: the gap it reads, and rounding. */
  function Miss(fact: SourceFact, lines: seq<RuleLine>): int
    requires ReaderShaped(fact)
  {
    Total(lines, TotalMultiplier(fact.ref.kind)) * Gap(fact) + RoundingGain(fact, lines)
  }

  lemma SumCombines(f: AmountSource -> int, g: AmountSource -> int, h: AmountSource -> int, c: int)
    requires forall s: AmountSource :: f(s) == c * g(s) - h(s)
    ensures SumOfSources(f) == c * SumOfSources(g) - SumOfSources(h)
  {
  }

  lemma GainIsRounding(fact: SourceFact, lines: seq<RuleLine>)
    ensures RoundingGain(fact, lines) == MICRO * Total(lines, RoundedProduct(fact)) - Total(lines, RawProduct(fact))
  {
    hide RoundedProduct, RawProduct, RoundAt, Multiplier, SumOfSources;
    SumBySource(lines, RoundedProduct(fact));
    SumBySource(lines, RawProduct(fact));
    forall s: AmountSource
      ensures DefectAt(fact, lines)(s) == MICRO * PerSource(lines, RoundedProduct(fact))(s) - PerSource(lines, RawProduct(fact))(s)
    {
      ReadingReads(lines, s);
      SameAmount(fact, Reading(lines, s), AmountOrZero(fact, s));
      DefectRepeats(Reading(lines, s), AmountOrZero(fact, s));
    }
    SumCombines(DefectAt(fact, lines), PerSource(lines, RoundedProduct(fact)), PerSource(lines, RawProduct(fact)), MICRO);
  }

  /**
   * For every accepted, plug-free template and every fact the readers can produce: how far the entry
   * is from balancing, to the last digit.
   */
  lemma EntryMissesBy(fact: SourceFact, rule: ResolvedRule)
    requires ReaderShaped(fact) && Authorable(fact.ref.kind, rule.lines) && Cancels(fact.ref.kind, rule.lines)
    ensures BuildLines(fact, rule).Ok?
    ensures MICRO * Total(BuildLines(fact, rule).value, Amount()) == Miss(fact, rule.lines)
    ensures Total(BuildLines(fact, rule).value, Amount()) == 0 <==> Miss(fact, rule.lines) == 0
  {
    hide ReaderShaped, AllowedSources, Gap, BuildLines, RoundingGain, RawProduct, RoundedProduct, TotalMultiplier;
    BuiltTotal(fact, rule);
    ValidatorExact(fact.ref.kind, rule.lines);
    AcceptedLeavesGap(fact, rule.lines);
    GainIsRounding(fact, rule.lines);
  }

  /** An even template loses nothing to rounding on any reader-shaped fact. */
  lemma EvenGainsNothing(fact: SourceFact, lines: seq<RuleLine>)
    requires ReaderShaped(fact) && Authorable(fact.ref.kind, lines) && Even(fact.ref.kind, lines)
    ensures RoundingGain(fact, lines) == 0
  {
    hide RoundedProduct, RawProduct, Exact, ReaderShaped, Authorable, RoundAt, Multiplier;
    if OneAmount(fact.ref.kind) {
      GainIsRounding(fact, lines);
      OneAmountReads(fact, lines);
      ExactEverywhere(lines, SoleAmount(fact));
    } else {
      forall s: AmountSource ensures DefectAt(fact, lines)(s) == 0 {
        ExactEverywhere(Reading(lines, s), Below(AmountOrZero(fact, s)));
      }
    }
  }

  /**
   * On an accepted, even, plug-free template the entry balances exactly when the order has no gap or
   * the template's multipliers on its total cancel.
   */
  lemma EvenBalances(fact: SourceFact, rule: ResolvedRule)
    requires ReaderShaped(fact) && Authorable(fact.ref.kind, rule.lines) && Cancels(fact.ref.kind, rule.lines)
    requires Even(fact.ref.kind, rule.lines)
    ensures BuildLines(fact, rule).Ok?
    ensures Total(BuildLines(fact, rule).value, Amount()) == 0
            <==> Gap(fact) == 0 || Total(rule.lines, TotalMultiplier(fact.ref.kind)) == 0
  {
    hide ReaderShaped, Authorable, Cancels, Gap, BuildLines, Even, RoundingGain;
    EntryMissesBy(fact, rule);
    EvenGainsNothing(fact, rule.lines);
    ZeroProduct(Total(rule.lines, TotalMultiplier(fact.ref.kind)), Gap(fact));
  }

  /** Whole-number multipliers are even. */
  lemma IntegralIsEven(kind: FactType, lines: seq<RuleLine>)
    requires Integral(lines)
    ensures Even(kind, lines)
  {
    hide Exact;
    IntegralIsExactAt(lines);
    forall s: AmountSource ensures Exact(Reading(lines, s)) {
      ReadingIsInside(lines, s);
      IntegralIsExactAt(Reading(lines, s));
    }
  }

  /** So with whole-number multipliers an accepted, plug-free template balances exactly on those facts. */
  lemma AcceptedIntegralBalances(fact: SourceFact, rule: ResolvedRule)
    requires ReaderShaped(fact) && Authorable(fact.ref.kind, rule.lines) && Cancels(fact.ref.kind, rule.lines)
    requires Integral(rule.lines)
    ensures BuildLines(fact, rule).Ok?
    ensures Total(BuildLines(fact, rule).value, Amount()) == 0
            <==> Gap(fact) == 0 || Total(rule.lines, TotalMultiplier(fact.ref.kind)) == 0
  {
    hide *;
    IntegralIsEven(fact.ref.kind, rule.lines);
    EvenBalances(fact, rule);
  }

  lemma {:induction false} ReadingIsInside(lines: seq<RuleLine>, s: AmountSource)
    ensures forall l :: l in Reading(lines, s) ==> l in lines
  {
    if lines != [] {
      ReadingIsInside(lines[..|lines| - 1], s);
    }
  }

  lemma IntegralIsExactAt(lines: seq<RuleLine>)
    requires Integral(lines)
    ensures Exact(lines)
  {
    hide MulRound;
    forall x | 0 <= x < MICRO ensures MICRO * Total(lines, RoundAt(x)) == x * Total(lines, Multiplier()) {
      forall i | 0 <= i < |lines|
        ensures MICRO * RoundAt(x)(lines[i]) == Scaled(x)(lines[i]) && Scaled(x)(lines[i]) == x * Multiplier()(lines[i])
      {
        assert lines[i] in lines;
        MulRoundExact(x, lines[i].multiplier / MICRO);
        ExactProduct(x, lines[i].multiplier / MICRO);
      }
      TotalScale(lines, MICRO, RoundAt(x), Scaled(x));
      TotalScale(lines, x, Multiplier(), Scaled(x));
    }
  }

  function Scaled(x: int): RuleLine -> int {
    (l: RuleLine) => x * l.multiplier
  }

  // ----- A template that is not even fails on some fact -----

  /** The template balances on every gapless fact the readers can produce. */
  ghost predicate AlwaysBalances(kind: FactType, rule: ResolvedRule) {
    forall fact: SourceFact | fact.ref.kind == kind && ReaderShaped(fact) && Gap(fact) == 0 ::
      BuildLines(fact, rule).Ok? && Total(BuildLines(fact, rule).value, Amount()) == 0
  }

  function Sample(kind: FactType, amounts: map<AmountSource, int>): SourceFact {
    SourceFact(FactRef(kind, 0), Date(2026, 1, 1), None, "USD", amounts, map[], 0, [], false)
  }

  function SampleOrder(a: int, b: int, c: int, d: int, e: int, r: int): SourceFact {
    Sample(Order, map[Subtotal := a, Shipping := b, Tax := c, Discount := d, Fee := e, Refund := r,
                      TotalAmount := a + b + c - d, Net := a + b + c - d - r])
  }

  function SampleExpense(total: int, tax: int): SourceFact {
    Sample(ExpenseFact, map[TotalAmount := total, Tax := tax, Net := total - tax])
  }

  function SampleOne(kind: FactType, x: int): SourceFact {
    Sample(kind, map s | s in AllowedSources(kind) - {Remainder} :: x)
  }

  /** What the lines reading `s` round to when it is `x`. */
  function At(lines: seq<RuleLine>, s: AmountSource, x: int): int {
    Total(Reading(lines, s), RoundAt(x))
  }

  lemma SampleBalances(fact: SourceFact, kind: FactType, rule: ResolvedRule)
    requires AlwaysBalances(kind, rule) && Authorable(kind, rule.lines)
    requires fact.ref.kind == kind && ReaderShaped(fact) && Gap(fact) == 0
    ensures Total(rule.lines, RoundedProduct(fact)) == 0
  {
    hide ReaderShaped, Gap, Authorable;
    BuiltTotal(fact, rule);
  }

  lemma AtSources(fact: SourceFact, lines: seq<RuleLine>, s: AmountSource)
    ensures PerSource(lines, RoundedProduct(fact))(s) == At(lines, s, AmountOrZero(fact, s))
  {
    hide RoundedProduct, RoundAt;
    ReadingReads(lines, s);
    SameAmount(fact, Reading(lines, s), AmountOrZero(fact, s));
  }

  lemma Unread(kind: FactType, lines: seq<RuleLine>, s: AmountSource, x: int)
    requires Authorable(kind, lines) && (s == Remainder || s !in AllowedSources(kind))
    ensures Reading(lines, s) == [] && At(lines, s, x) == 0
  {
    NothingReads(lines, s);
  }

  lemma OrderSampleBalances(rule: ResolvedRule, a: int, b: int, c: int, d: int, e: int, r: int)
    requires AlwaysBalances(Order, rule) && Authorable(Order, rule.lines)
    ensures var t, ls := a + b + c - d, rule.lines;
            At(ls, TotalAmount, t) + At(ls, Subtotal, a) + At(ls, Shipping, b) + At(ls, Discount, d) + At(ls, Tax, c)
            + At(ls, Fee, e) + At(ls, Refund, r) + At(ls, Net, t - r) == 0
  {
    hide RoundedProduct, At, AlwaysBalances, Authorable;
    var fact := SampleOrder(a, b, c, d, e, r);
    SampleBalances(fact, Order, rule);
    SumBySource(rule.lines, RoundedProduct(fact));
    forall s: AmountSource ensures PerSource(rule.lines, RoundedProduct(fact))(s) == At(rule.lines, s, AmountOrZero(fact, s)) {
      AtSources(fact, rule.lines, s);
    }
    Unread(Order, rule.lines, CostBasis, 0);
    Unread(Order, rule.lines, QuantityTimesBasis, 0);
    Unread(Order, rule.lines, Remainder, 0);
  }

  lemma ExpenseSampleBalances(rule: ResolvedRule, total: int, tax: int)
    requires AlwaysBalances(ExpenseFact, rule) && Authorable(ExpenseFact, rule.lines)
    ensures At(rule.lines, TotalAmount, total) + At(rule.lines, Tax, tax) + At(rule.lines, Net, total - tax) == 0
  {
    hide RoundedProduct, At, AlwaysBalances, Authorable;
    var fact := SampleExpense(total, tax);
    SampleBalances(fact, ExpenseFact, rule);
    SumBySource(rule.lines, RoundedProduct(fact));
    forall s: AmountSource ensures PerSource(rule.lines, RoundedProduct(fact))(s) == At(rule.lines, s, AmountOrZero(fact, s)) {
      AtSources(fact, rule.lines, s);
    }
    Unread(ExpenseFact, rule.lines, Subtotal, 0);
    Unread(ExpenseFact, rule.lines, Shipping, 0);
    Unread(ExpenseFact, rule.lines, Discount, 0);
    Unread(ExpenseFact, rule.lines, Fee, 0);
    Unread(ExpenseFact, rule.lines, Refund, 0);
    Unread(ExpenseFact, rule.lines, CostBasis, 0);
    Unread(ExpenseFact, rule.lines, QuantityTimesBasis, 0);
    Unread(ExpenseFact, rule.lines, Remainder, 0);
  }

  lemma AtOdd(lines: seq<RuleLine>, s: AmountSource, x: int)
    ensures At(lines, s, -x) == -At(lines, s, x) && At(lines, s, 0) == 0
  {
    hide RoundAt;
    TotalOdd(Reading(lines, s), x);
    TotalAtZero(Reading(lines, s));
  }

  ghost predicate Additive(lines: seq<RuleLine>, s: AmountSource) {
    forall a: nat, b: nat :: At(lines, s, a + b) == At(lines, s, a) + At(lines, s, b)
  }

  lemma AdditiveAt(lines: seq<RuleLine>, s: AmountSource)
    requires Additive(lines, s)
    ensures Exact(Reading(lines, s))
  {
    hide Exact, RoundAt;
    forall a: nat, b: nat
      ensures Total(Reading(lines, s), RoundAt(a + b)) == Total(Reading(lines, s), RoundAt(a)) + Total(Reading(lines, s), RoundAt(b))
    {
      assert At(lines, s, a + b) == At(lines, s, a) + At(lines, s, b);
    }
    AdditiveIsExact(Reading(lines, s));
  }

  /** Trading tax against the total forces the net lines to be additive, and the others follow. */
  lemma ExpenseAdditive(rule: ResolvedRule, s: AmountSource)
    requires AlwaysBalances(ExpenseFact, rule) && Authorable(ExpenseFact, rule.lines)
    ensures Additive(rule.lines, s)
  {
    hide At, AlwaysBalances, Authorable;
    var ls := rule.lines;
    forall a: nat, b: nat ensures At(ls, s, a + b) == At(ls, s, a) + At(ls, s, b) {
      ExpenseSampleBalances(rule, a + b, b);
      forall x ensures At(ls, TotalAmount, x) == -At(ls, Net, x) && At(ls, Tax, x) == At(ls, Net, x) {
        AtOdd(ls, Net, x);
        AtOdd(ls, TotalAmount, x);
        AtOdd(ls, Tax, x);
        ExpenseSampleBalances(rule, x, 0);
        ExpenseSampleBalances(rule, 0, x);
      }
      if s !in {TotalAmount, Tax, Net} {
        Unread(ExpenseFact, ls, s, a);
        Unread(ExpenseFact, ls, s, b);
        Unread(ExpenseFact, ls, s, a + b);
      }
    }
  }

  /** What one amount alone forces of an order's lines, with U what the total and net lines make together. */
  lemma OrderAlone(rule: ResolvedRule, x: int)
    requires AlwaysBalances(Order, rule) && Authorable(Order, rule.lines)
    ensures var ls := rule.lines;
            var u := At(ls, TotalAmount, x) + At(ls, Net, x);
            && At(ls, Subtotal, x) == -u && At(ls, Shipping, x) == -u && At(ls, Tax, x) == -u && At(ls, Discount, x) == u
            && At(ls, Fee, x) == 0 && At(ls, Refund, x) == At(ls, Net, x)
  {
    hide At, AlwaysBalances, Authorable;
    var ls := rule.lines;
    forall s: AmountSource ensures At(ls, s, -x) == -At(ls, s, x) && At(ls, s, 0) == 0 {
      AtOdd(ls, s, x);
    }
    OrderSampleBalances(rule, x, 0, 0, 0, 0, 0);
    OrderSampleBalances(rule, 0, x, 0, 0, 0, 0);
    OrderSampleBalances(rule, 0, 0, x, 0, 0, 0);
    OrderSampleBalances(rule, 0, 0, 0, x, 0, 0);
    OrderSampleBalances(rule, 0, 0, 0, 0, x, 0);
    OrderSampleBalances(rule, 0, 0, 0, 0, 0, x);
  }

  lemma OrderTogether(rule: ResolvedRule, a: nat, b: nat)
    requires AlwaysBalances(Order, rule) && Authorable(Order, rule.lines)
    ensures At(rule.lines, Net, a + b) == At(rule.lines, Net, a) + At(rule.lines, Net, b)
    ensures At(rule.lines, TotalAmount, a + b) == At(rule.lines, TotalAmount, a) + At(rule.lines, TotalAmount, b)
  {
    hide At, AlwaysBalances, Authorable;
    forall s: AmountSource ensures At(rule.lines, s, 0) == 0 {
      AtOdd(rule.lines, s, 0);
    }
    OrderAlone(rule, a);
    OrderAlone(rule, b);
    OrderAlone(rule, a + b);
    OrderSampleBalances(rule, a + b, 0, 0, 0, 0, b);
    OrderSampleBalances(rule, a, b, 0, 0, 0, 0);
  }

  lemma OrderAdditive(rule: ResolvedRule, s: AmountSource)
    requires AlwaysBalances(Order, rule) && Authorable(Order, rule.lines)
    ensures Additive(rule.lines, s)
  {
    hide At, AlwaysBalances, Authorable;
    var ls := rule.lines;
    forall a: nat, b: nat ensures At(ls, s, a + b) == At(ls, s, a) + At(ls, s, b) {
      OrderTogether(rule, a, b);
      OrderAlone(rule, a);
      OrderAlone(rule, b);
      OrderAlone(rule, a + b);
      if s in {CostBasis, QuantityTimesBasis, Remainder} {
        Unread(Order, ls, s, a);
        Unread(Order, ls, s, b);
        Unread(Order, ls, s, a + b);
      }
    }
  }

  lemma OneSampleBalances(kind: FactType, rule: ResolvedRule, x: int)
    requires OneAmount(kind) && AlwaysBalances(kind, rule) && Authorable(kind, rule.lines)
    ensures Total(rule.lines, RoundAt(x)) == 0
  {
    hide RoundedProduct, RoundAt, AlwaysBalances, Authorable;
    var fact := SampleOne(kind, x);
    SampleBalances(fact, kind, rule);
    OneAmountReads(fact, rule.lines);
  }

  lemma OneAmountExact(kind: FactType, rule: ResolvedRule)
    requires OneAmount(kind) && AlwaysBalances(kind, rule) && Authorable(kind, rule.lines)
    ensures Exact(rule.lines)
  {
    hide RoundAt, AlwaysBalances, Authorable, Multiplier;
    TotalShifts(rule.lines, 0);
    OneSampleBalances(kind, rule, 0);
    OneSampleBalances(kind, rule, MICRO);
    forall x ensures Total(rule.lines, RoundAt(x)) == 0 {
      OneSampleBalances(kind, rule, x);
    }
  }

  /**
   * An accepted, plug-free template balances on every gapless fact if and only if it is even: the
   * finite test decides, for every fact type.
   */
  lemma AlwaysBalancesExactly(kind: FactType, rule: ResolvedRule)
    requires Authorable(kind, rule.lines) && Cancels(kind, rule.lines)
    ensures AlwaysBalances(kind, rule) <==> Even(kind, rule.lines)
  {
    hide Exact, Authorable, Cancels, ReaderShaped, Gap, BuildLines;
    if Even(kind, rule.lines) {
      forall fact: SourceFact | fact.ref.kind == kind && ReaderShaped(fact) && Gap(fact) == 0
        ensures BuildLines(fact, rule).Ok? && Total(BuildLines(fact, rule).value, Amount()) == 0
      {
        EvenBalances(fact, rule);
      }
    }
    if AlwaysBalances(kind, rule) {
      BalancingIsEven(kind, rule);
    }
  }

  lemma BalancingIsEven(kind: FactType, rule: ResolvedRule)
    requires Authorable(kind, rule.lines) && AlwaysBalances(kind, rule)
    ensures Even(kind, rule.lines)
  {
    hide Exact, Authorable, AlwaysBalances, Additive, Reading;
    if OneAmount(kind) {
      OneAmountExact(kind, rule);
    } else {
      forall s: AmountSource ensures Exact(Reading(rule.lines, s)) {
        if kind == Order {
          OrderAdditive(rule, s);
        } else {
          ExpenseAdditive(rule, s);
        }
        AdditiveAt(rule.lines, s);
      }
    }
  }

  /** For one fact of a one-amount type: it balances exactly when its amount's remainder below one unit does. */
  lemma OneAmountBalances(fact: SourceFact, rule: ResolvedRule)
    requires OneAmount(fact.ref.kind) && ReaderShaped(fact)
    requires Authorable(fact.ref.kind, rule.lines) && Cancels(fact.ref.kind, rule.lines)
    ensures BuildLines(fact, rule).Ok?
    ensures Total(BuildLines(fact, rule).value, Amount()) == 0
            <==> Total(rule.lines, RoundAt(Abs(SoleAmount(fact)) % MICRO)) == 0
  {
    hide ReaderShaped, Authorable, Cancels, BuildLines, RoundedProduct, RawProduct, RoundAt, Multiplier, RoundingGain, SoleAmount;
    EntryMissesBy(fact, rule);
    GainIsRounding(fact, rule.lines);
    OneAmountReads(fact, rule.lines);
    AcceptedMultipliers(fact.ref.kind, rule);
    DefectRepeats(rule.lines, SoleAmount(fact));
    TotalOdd(rule.lines, Abs(SoleAmount(fact)) % MICRO);
    NoGap(fact);
  }

  lemma NoGap(fact: SourceFact)
    requires OneAmount(fact.ref.kind) && ReaderShaped(fact)
    ensures Gap(fact) == 0
  {
  }

  /** Acceptance of a one-amount template is that its multipliers sum to zero. */
  lemma AcceptedMultipliers(kind: FactType, rule: ResolvedRule)
    requires OneAmount(kind) && Authorable(kind, rule.lines) && Cancels(kind, rule.lines)
    ensures Total(rule.lines, Multiplier()) == 0
  {
    hide Authorable, Cancels, RawProduct, UnroundedSum, TotalMultiplier, Multiplier, ComponentsOf;
    var fact := SampleOne(kind, 1);
    OneAmountReads(fact, rule.lines);
    ValidatorExact(kind, rule.lines);
    AcceptedLeavesGap(fact, rule.lines);
  }
}
