/**
 * Two plug-free templates with fractional multipliers, both accepted at save time: one drifts off
 * zero by a micro-unit, the other never does. Whole-number multipliers are therefore sufficient for
 * exact balance and not necessary.
 */
module TemplateExamples {
  import opened Prelude
  import opened Sums
  import opened Rounding
  import opened Facts
  import opened Templates
  import opened TemplateExactness

  const HALF: int := 500000

  function FeeLine(id: nat, multiplier: int): RuleLine {
    RuleLine(ById(id), Fee, multiplier, true, None)
  }

  /** Half to each of two accounts, the whole from a third. */
  function HalfAndHalf(): seq<RuleLine> {
    [FeeLine(0, HALF), FeeLine(1, HALF), FeeLine(2, -MICRO)]
  }

  function HalfBack(): seq<RuleLine> {
    [FeeLine(0, HALF), FeeLine(1, -HALF)]
  }

  lemma FeeCoefficient(c: Component)
    ensures Coefficient(OrderFee, Fee, c) == if c == CFee then 1 else 0
  {
    var none: seq<(Component, int)> := [];
    TotalAppend(none, (CFee, 1), Weigh(c));
    assert Basis(OrderFee, Fee) == none + [(CFee, 1)];
  }

  lemma BothAccepted()
    ensures Cancels(OrderFee, HalfAndHalf()) && Cancels(OrderFee, HalfBack())
    ensures !Integral(HalfAndHalf()) && !Integral(HalfBack())
  {
    var s, t := HalfAndHalf(), HalfBack();
    forall c: Component ensures Total(s, LineCoefficient(OrderFee, c)) == 0 {
      FeeCoefficient(c);
      TotalOfThree(s[0], s[1], s[2], LineCoefficient(OrderFee, c));
    }
    forall c: Component ensures Total(t, LineCoefficient(OrderFee, c)) == 0 {
      FeeCoefficient(c);
      TotalOfTwo(t[0], t[1], LineCoefficient(OrderFee, c));
    }
    assert s[0].multiplier % MICRO != 0 && s[0] in s;
    assert t[0].multiplier % MICRO != 0 && t[0] in t;
  }

  /** The finite test tells them apart. */
  lemma OnlyOneIsEven()
    ensures !Even(OrderFee, HalfAndHalf()) && Even(OrderFee, HalfBack())
  {
    hide MulRound;
    var s, t := HalfAndHalf(), HalfBack();
    TotalOfThree(s[0], s[1], s[2], RoundAt(1));
    TotalOfThree(s[0], s[1], s[2], Multiplier());
    HalfOfOne();
    TotalOfTwo(t[0], t[1], Multiplier());
    assert Total(t, Multiplier()) == 0;
    forall x | 0 <= x < MICRO ensures Defect(t, x) == 0 {
      TotalOfTwo(t[0], t[1], RoundAt(x));
      MulRoundOdd(x, HALF);
    }
    assert Defect(s, 1) != 0;
  }

  lemma HalfOfOne()
    ensures MulRound(1, HALF) == 1 && MulRound(1, -MICRO) == -1
  {
  }

  /** A fee of one micro-unit: two halves round up to two, and the entry is off by one. */
  lemma HalvesDrift(fact: SourceFact, rule: ResolvedRule)
    requires fact.ref.kind == OrderFee && ReaderShaped(fact) && AmountOrZero(fact, Fee) == 1
    requires rule.lines == HalfAndHalf()
    ensures BuildLines(fact, rule).Ok? && Total(BuildLines(fact, rule).value, Amount()) == 1
  {
    hide MulRound, BuildLines, ReaderShaped;
    var s := HalfAndHalf();
    FeesAreAuthorable(rule.lines);
    BuiltTotal(fact, rule);
    HalfOfOne();
    TotalOfThree(s[0], s[1], s[2], RoundedProduct(fact));
  }

  lemma FeesAreAuthorable(lines: seq<RuleLine>)
    requires forall l :: l in lines ==> l.source == Fee
    ensures Authorable(OrderFee, lines)
  {
  }

  /** Rounding is odd, so a half and its opposite cancel on every fact. */
  lemma OppositeHalvesCancel(fact: SourceFact, rule: ResolvedRule)
    requires fact.ref.kind == OrderFee && ReaderShaped(fact) && rule.lines == HalfBack()
    ensures BuildLines(fact, rule).Ok? && Total(BuildLines(fact, rule).value, Amount()) == 0
  {
    hide MulRound, BuildLines, ReaderShaped;
    var s := HalfBack();
    FeesAreAuthorable(rule.lines);
    BuiltTotal(fact, rule);
    TotalOfTwo(s[0], s[1], RoundedProduct(fact));
    MulRoundOdd(AmountOrZero(fact, Fee), HALF);
  }
}
