/**
 * The order rules Loxep ships (`posting-rules-template.ts`), and what they conserve: once buyer
 * surcharges explain what each order's total carries beyond its components, suspense is empty.
 */
module DefaultRules {
  import opened Prelude
  import opened Sums
  import opened Rounding
  import opened Facts
  import opened Templates
  import opened PostingRules

  function KeyLine(key: string, source: AmountSource, times: int): RuleLine {
    RuleLine(BySystemKey(key), source, times * MICRO, true, None)
  }

  function OrderSaleLines(): seq<RuleLine> {
    [KeyLine("marketplace_clearing", TotalAmount, 1),
     KeyLine("sales_revenue", Subtotal, -1),
     KeyLine("shipping_income", Shipping, -1),
     KeyLine("facilitator_tax_clearing", Tax, -1),
     KeyLine("sales_revenue", Discount, 1),
     KeyLine("suspense", Remainder, 1)]
  }

  function SellerChargeLines(): seq<RuleLine> {
    [KeyLine("marketplace_fees", Fee, 1), KeyLine("marketplace_clearing", Fee, -1)]
  }

  function BuyerSurchargeLines(): seq<RuleLine> {
    [KeyLine("suspense", Fee, 1), KeyLine("buyer_fee_income", Fee, -1)]
  }

  function RefundLines(): seq<RuleLine> {
    [KeyLine("sales_returns", Refund, 1), KeyLine("marketplace_clearing", Refund, -1)]
  }

  function Direction(fact: SourceFact): string {
    if FeeDirection in fact.attributes then fact.attributes[FeeDirection] else ""
  }

  // ----- The shipped rules, saved and active -----

  function Any(): Predicates {
    Predicates(None, None, map[], None, None, None, None)
  }

  function WithDirection(direction: string): Predicates {
    Any().(attributes := map[FeeDirection := direction])
  }

  function ShippedRule(code: string, kind: FactType, v: nat): Rule {
    Rule(code, kind, None, 100, ActiveRule, Some(v))
  }

  function Shipped(): Store {
    Store([ShippedRule("order_sale", Order, 0), ShippedRule("order_fee_seller_charge", OrderFee, 1),
           ShippedRule("order_fee_buyer_surcharge", OrderFee, 2), ShippedRule("order_refund", OrderRefund, 3)],
          [Version(0, 1, ActiveVersion, Any(), OrderSaleLines()),
           Version(1, 1, ActiveVersion, WithDirection("seller_charge"), SellerChargeLines()),
           Version(2, 1, ActiveVersion, WithDirection("buyer_surcharge"), BuyerSurchargeLines()),
           Version(3, 1, ActiveVersion, Any(), RefundLines())])
  }

  /** A two-line template that moves one amount from one account to another passes the save check. */
  lemma TransferValid(kind: FactType, p: Predicates, a: string, b: string, source: AmountSource)
    requires source != Remainder && source in AllowedSources(kind) && a in SystemKeys() && b in SystemKeys()
    requires p.attributes.Keys <= AllowedAttributes(kind)
    ensures ValidTemplate(kind, p, [KeyLine(a, source, 1), KeyLine(b, source, -1)])
  {
    hide AllowedSources, SystemKeys, AllowedAttributes, Coefficient;
    var lines := [KeyLine(a, source, 1), KeyLine(b, source, -1)];
    forall c: Component ensures Total(lines, LineCoefficient(kind, c)) == 0 {
      TotalOfTwo(lines[0], lines[1], LineCoefficient(kind, c));
      Opposite(Coefficient(kind, source, c));
    }
  }

  lemma Opposite(x: int)
    ensures (1 * MICRO) * x + (-1 * MICRO) * x == 0
  {
  }

  lemma SaleValid()
    ensures ValidTemplate(Order, Any(), OrderSaleLines())
  {
    hide Cancels;
    var lines := OrderSaleLines();
    assert lines[5].source == Remainder && lines[5] in lines;
  }

  lemma ShippedOk()
    ensures StoreOk(Shipped())
  {
    hide ValidTemplate, OrderSaleLines, AllowedSources, SystemKeys;
    var s := Shipped();
    SaleValid();
    KeysExist();
    TransferValid(OrderFee, WithDirection("seller_charge"), "marketplace_fees", "marketplace_clearing", Fee);
    TransferValid(OrderFee, WithDirection("buyer_surcharge"), "suspense", "buyer_fee_income", Fee);
    TransferValid(OrderRefund, Any(), "sales_returns", "marketplace_clearing", Refund);
    CodesDiffer(s);
  }

  lemma KeysExist()
    ensures {"marketplace_fees", "marketplace_clearing", "suspense", "buyer_fee_income", "sales_returns"} <= SystemKeys()
    ensures Fee in AllowedSources(OrderFee) && Refund in AllowedSources(OrderRefund)
  {
  }

  lemma CodesDiffer(s: Store)
    requires s == Shipped()
    ensures NamesOk(s)
  {
    hide OrderSaleLines, SellerChargeLines, BuyerSurchargeLines, RefundLines;
    assert |"order_sale"| == 10 && |"order_refund"| == 12;
    assert |"order_fee_seller_charge"| == 23 && |"order_fee_buyer_surcharge"| == 25;
    forall r, q | 0 <= r < q < |s.rules| ensures s.rules[r].code != s.rules[q].code {
      assert |s.rules[r].code| == [10, 23, 25, 12][r] && |s.rules[q].code| == [10, 23, 25, 12][q];
    }
    forall v, w | 0 <= v < w < |s.versions| ensures !SameNumber(s.versions[v], s.versions[w]) {
      assert s.versions[v].rule == v && s.versions[w].rule == w;
    }
  }

  /** A fact of an order with one of the two fee directions the readers produce. */
  predicate OrderFact(fact: SourceFact) {
    && ReaderShaped(fact)
    && (fact.ref.kind == Order || fact.ref.kind == OrderRefund
        || (fact.ref.kind == OrderFee && Direction(fact) in {"seller_charge", "buyer_surcharge"}))
  }

  /** Which shipped rule a fact calls for. */
  function RuleIndex(fact: SourceFact): nat {
    match fact.ref.kind
    case Order => 0
    case OrderFee => if Direction(fact) == "seller_charge" then 1 else 2
    case _ => 3
  }

  lemma OnlyOneFires(s: Store, fact: SourceFact, book: nat, q: nat)
    requires s == Shipped() && OrderFact(fact) && q < 4
    ensures Selected(s.rules[q], fact.ref.kind) && Fires(s, q, fact, book).Some? <==> q == RuleIndex(fact)
  {
    hide OrderSaleLines, SellerChargeLines, BuyerSurchargeLines, RefundLines, ReaderShaped;
    DirectionsDiffer();
  }

  /** The resolver picks it: no two shipped order rules compete for a fact. */
  lemma ShippedResolves(fact: SourceFact, book: nat)
    requires OrderFact(fact)
    ensures ResolveForFact(Shipped(), fact, book) == Some(RuleIndex(fact))
  {
    hide StoreOk, Precedes, ResolveForFact, Selected, Fires, OrderFact;
    var s := Shipped();
    ShippedOk();
    ResolveIsLeast(s, fact, book);
    var got := ResolveForFact(s, fact, book);
    OnlyOneFires(s, fact, book, RuleIndex(fact));
    if got.Some? {
      OnlyOneFires(s, fact, book, got.value);
    }
  }

  lemma DirectionsDiffer()
    ensures "seller_charge" != "buyer_surcharge"
  {
    assert "seller_charge"[0] == 's' && "buyer_surcharge"[0] == 'b';
  }

  // ----- What one fact posts -----

  /** A key's account, under the fact's entity, where every shipped line goes. */
  function On(fact: SourceFact, key: string): BuiltLine -> int {
    OnPlace(BySystemKey(key), fact.entity)
  }

  function ShippedVersion(fact: SourceFact): ResolvedRule {
    var r := RuleIndex(fact);
    ResolvedRule(Shipped().rules[r].code, r, 1, Shipped().versions[r].predicates.attributes.Keys, Shipped().versions[r].lines)
  }

  /** What evaluating the fact puts on an account: its built lines, unless there are fewer than two. */
  function Effect(fact: SourceFact, key: string): int
    requires BuildLines(fact, ShippedVersion(fact)).Ok?
  {
    var built := BuildLines(fact, ShippedVersion(fact)).value;
    if |built| < 2 then 0 else Total(built, On(fact, key))
  }

  /** A balanced list of non-zero lines is empty or has at least two, so the effect is the plain total. */
  lemma EffectIsTotal(fact: SourceFact, key: string)
    requires BuildLines(fact, ShippedVersion(fact)).Ok?
    requires var built := BuildLines(fact, ShippedVersion(fact)).value;
             Total(built, Amount()) == 0 && forall i :: 0 <= i < |built| ==> built[i].amount != 0
    ensures Effect(fact, key) == Total(BuildLines(fact, ShippedVersion(fact)).value, On(fact, key))
  {
    hide BuildLines, ShippedVersion;
    var built := BuildLines(fact, ShippedVersion(fact)).value;
    if |built| == 1 {
      OneLineNeverBalances(built);
    }
  }

  lemma OneLineNeverBalances(built: seq<BuiltLine>)
    requires |built| == 1 && built[0].amount != 0
    ensures Total(built, Amount()) != 0
  {
    TotalAppend([], built[0], Amount());
    assert built == [] + [built[0]];
  }

  lemma ScaledAmount(fact: SourceFact, l: RuleLine, key: string, times: int)
    requires l == KeyLine(key, l.source, times) && l.source != Remainder
    ensures MulRound(AmountOrZero(fact, l.source), l.multiplier) == times * AmountOrZero(fact, l.source)
  {
    MulRoundExact(AmountOrZero(fact, l.source), times);
  }

  /** A transfer template moves its amount from the second account to the first. */
  lemma TransferPosts(fact: SourceFact, rule: ResolvedRule, a: string, b: string, source: AmountSource, key: string)
    requires fact.ref.kind != ExpenseFact && source in fact.amounts && source != Remainder && a != b
    requires rule.lines == [KeyLine(a, source, 1), KeyLine(b, source, -1)]
    ensures BuildLines(fact, rule).Ok?
    ensures var built := BuildLines(fact, rule).value;
            && Total(built, Amount()) == 0 && (forall i :: 0 <= i < |built| ==> built[i].amount != 0)
            && Total(built, On(fact, key)) == if key == a then fact.amounts[source] else if key == b then -fact.amounts[source] else 0
  {
    hide MulRound;
    var lines := rule.lines;
    PlainReads(fact, lines);
    PlainTotal(fact, lines);
    PlainPlaces(fact, lines, BySystemKey(key), fact.entity);
    PlainNonZero(fact, lines);
    NoPlug(lines);
    ScaledAmount(fact, lines[0], a, 1);
    ScaledAmount(fact, lines[1], b, -1);
    TotalOfTwo(lines[0], lines[1], RoundedProduct(fact));
    TotalOfTwo(lines[0], lines[1], Asked(fact, BySystemKey(key), fact.entity));
  }

  lemma TotalOfSix<T>(s: seq<T>, w: T -> int)
    requires |s| == 6
    ensures Total(s, w) == w(s[0]) + w(s[1]) + w(s[2]) + w(s[3]) + w(s[4]) + w(s[5])
  {
    TotalOfThree(s[0], s[1], s[2], w);
    TotalOfThree(s[3], s[4], s[5], w);
    assert s == [s[0], s[1], s[2]] + [s[3], s[4], s[5]];
    TotalConcat([s[0], s[1], s[2]], [s[3], s[4], s[5]], w);
  }

  lemma SaleRounds(fact: SourceFact, lines: seq<RuleLine>, k: nat)
    requires lines == OrderSaleLines() && k < 6
    ensures RoundedProduct(fact)(lines[k])
            == [1, -1, -1, -1, 1, 0][k] * AmountOrZero(fact, [TotalAmount, Subtotal, Shipping, Tax, Discount, Remainder][k])
  {
    hide MulRound, AmountOrZero;
    if k < 5 {
      MulRoundExact(AmountOrZero(fact, lines[k].source), [1, -1, -1, -1, 1, 0][k]);
    } else {
      NoAmountLeft(fact);
      MulRoundZero(lines[k].multiplier);
    }
  }

  lemma NoAmountLeft(fact: SourceFact)
    ensures AmountOrZero(fact, Remainder) == 0
  {
  }

  /** The sale's plain lines sum to the order's gap. */
  lemma SaleSum(fact: SourceFact, lines: seq<RuleLine>)
    requires fact.ref.kind == Order && ReaderShaped(fact) && lines == OrderSaleLines()
    ensures Total(lines, RoundedProduct(fact)) == Gap(fact)
  {
    hide MulRound, RoundedProduct, OrderSaleLines;
    assert |lines| == 6 by { SixLines(); }
    TotalOfSix(lines, RoundedProduct(fact));
    SaleRounds(fact, lines, 0);
    SaleRounds(fact, lines, 1);
    SaleRounds(fact, lines, 2);
    SaleRounds(fact, lines, 3);
    SaleRounds(fact, lines, 4);
    SaleRounds(fact, lines, 5);
  }

  lemma SixLines()
    ensures |OrderSaleLines()| == 6
  {
  }

  /** Clearing gets the total, suspense nothing. */
  lemma SaleOn(fact: SourceFact, lines: seq<RuleLine>)
    requires fact.ref.kind == Order && lines == OrderSaleLines()
    ensures Total(lines, Asked(fact, BySystemKey("marketplace_clearing"), fact.entity)) == AmountOrZero(fact, TotalAmount)
    ensures Total(lines, Asked(fact, BySystemKey("suspense"), fact.entity)) == 0
  {
    hide MulRound, AmountOrZero, Asked, OrderSaleLines;
    SixLines();
    TotalOfSix(lines, Asked(fact, BySystemKey("marketplace_clearing"), fact.entity));
    TotalOfSix(lines, Asked(fact, BySystemKey("suspense"), fact.entity));
    forall k: nat | k < 6
      ensures Asked(fact, BySystemKey("marketplace_clearing"), fact.entity)(lines[k]) == if k == 0 then AmountOrZero(fact, TotalAmount) else 0
      ensures Asked(fact, BySystemKey("suspense"), fact.entity)(lines[k]) == 0
    {
      SaleLineOn(fact, lines, k);
    }
  }

  lemma SaleLineOn(fact: SourceFact, lines: seq<RuleLine>, k: nat)
    requires lines == OrderSaleLines() && k < 6
    ensures Asked(fact, BySystemKey("marketplace_clearing"), fact.entity)(lines[k]) == if k == 0 then AmountOrZero(fact, TotalAmount) else 0
    ensures Asked(fact, BySystemKey("suspense"), fact.entity)(lines[k]) == 0
  {
    hide MulRound, AmountOrZero;
    SaleKeysDiffer();
    MulRoundExact(AmountOrZero(fact, TotalAmount), 1);
  }

  lemma SalePlain(fact: SourceFact)
    requires fact.ref.kind == Order && ReaderShaped(fact)
    ensures var plain := Plain(fact, OrderSaleLines());
            && plain.Ok?
            && Total(plain.value, Amount()) == Gap(fact)
            && Total(plain.value, On(fact, "marketplace_clearing")) == fact.amounts[TotalAmount]
            && Total(plain.value, On(fact, "suspense")) == 0
            && forall i :: 0 <= i < |plain.value| ==> plain.value[i].amount != 0
  {
    hide MulRound, OrderSaleLines, Plain, Gap, RoundedProduct, Asked, OnPlace;
    var lines := OrderSaleLines();
    SaleReads(fact);
    PlainTotal(fact, lines);
    PlainPlaces(fact, lines, BySystemKey("marketplace_clearing"), fact.entity);
    PlainPlaces(fact, lines, BySystemKey("suspense"), fact.entity);
    PlainNonZero(fact, lines);
    SaleSum(fact, lines);
    SaleOn(fact, lines);
  }

  lemma SaleReads(fact: SourceFact)
    requires fact.ref.kind == Order && ReaderShaped(fact)
    ensures Plain(fact, OrderSaleLines()).Ok?
  {
    hide Plain;
    PlainReads(fact, OrderSaleLines());
  }

  lemma SaleKeysDiffer()
    ensures "marketplace_clearing"[0] == 'm' && "suspense"[1] == 'u' && "sales_revenue"[1] == 'a'
    ensures "shipping_income"[1] == 'h' && "facilitator_tax_clearing"[0] == 'f' && "suspense"[0] == 's' && "sales_revenue"[0] == 's'
    ensures "shipping_income"[0] == 's'
  {
  }

  /** A sale debits clearing for the order's total and parks the gap in suspense. */
  lemma SalePosts(fact: SourceFact, rule: ResolvedRule)
    requires fact.ref.kind == Order && ReaderShaped(fact) && rule.lines == OrderSaleLines()
    ensures BuildLines(fact, rule).Ok?
    ensures var built := BuildLines(fact, rule).value;
            && Total(built, Amount()) == 0 && (forall i :: 0 <= i < |built| ==> built[i].amount != 0)
            && Total(built, On(fact, "marketplace_clearing")) == fact.amounts[TotalAmount]
            && Total(built, On(fact, "suspense")) == -Gap(fact)
  {
    hide ReaderShaped, Gap, Plain;
    SalePlain(fact);
    var plain := Plain(fact, rule.lines).value;
    var plug := OrderSaleLines()[5];
    assert Plug(rule.lines) == Some(plug);
    var last := TemplateLine(fact, plug, -Gap(fact));
    TotalAppend(plain, last, Amount());
    TotalAppend(plain, last, On(fact, "marketplace_clearing"));
    TotalAppend(plain, last, On(fact, "suspense"));
    SaleKeysDiffer();
  }

  // ----- Conservation -----

  function AmountOf(fact: SourceFact, kind: FactType, source: AmountSource): int {
    if fact.ref.kind == kind then AmountOrZero(fact, source) else 0
  }

  function FeeOf(fact: SourceFact, direction: string): int {
    if fact.ref.kind == OrderFee && Direction(fact) == direction then AmountOrZero(fact, Fee) else 0
  }

  function GapOf(): SourceFact -> int {
    (f: SourceFact) => AmountOf(f, Order, TotalAmount)
                       - (AmountOf(f, Order, Subtotal) + AmountOf(f, Order, Shipping) + AmountOf(f, Order, Tax) - AmountOf(f, Order, Discount))
  }

  function Surcharge(): SourceFact -> int {
    (f: SourceFact) => FeeOf(f, "buyer_surcharge")
  }

  /** What the marketplace owes for a fact. */
  function Owed(): SourceFact -> int {
    (f: SourceFact) => AmountOf(f, Order, TotalAmount) - FeeOf(f, "seller_charge") - AmountOf(f, OrderRefund, Refund)
  }

  function EffectOn(key: string): SourceFact -> int {
    (f: SourceFact) => if BuildLines(f, ShippedVersion(f)).Ok? then Effect(f, key) else 0
  }

  lemma OrderPosts(fact: SourceFact)
    requires OrderFact(fact) && fact.ref.kind == Order
    ensures EffectOn("suspense")(fact) == Surcharge()(fact) - GapOf()(fact)
    ensures EffectOn("marketplace_clearing")(fact) == Owed()(fact)
  {
    hide BuildLines, Effect, On;
    SalePosts(fact, ShippedVersion(fact));
    EffectIsTotal(fact, "suspense");
    EffectIsTotal(fact, "marketplace_clearing");
  }

  /** A fact whose rule moves its amount from account `b` to account `a`. */
  lemma MovedFactPosts(fact: SourceFact, a: string, b: string, source: AmountSource)
    requires fact.ref.kind != ExpenseFact && source in fact.amounts && source != Remainder && a != b
    requires ShippedVersion(fact).lines == [KeyLine(a, source, 1), KeyLine(b, source, -1)]
    ensures forall key: string :: EffectOn(key)(fact)
              == if key == a then fact.amounts[source] else if key == b then -fact.amounts[source] else 0
  {
    hide BuildLines, Effect, On, ShippedVersion;
    forall key: string ensures EffectOn(key)(fact)
              == if key == a then fact.amounts[source] else if key == b then -fact.amounts[source] else 0 {
      TransferPosts(fact, ShippedVersion(fact), a, b, source, key);
      EffectIsTotal(fact, key);
    }
  }

  lemma FactPosts(fact: SourceFact)
    requires OrderFact(fact)
    ensures EffectOn("suspense")(fact) == Surcharge()(fact) - GapOf()(fact)
    ensures EffectOn("marketplace_clearing")(fact) == Owed()(fact)
  {
    hide BuildLines, EffectOn;
    KeysOfTransfersDiffer();
    DirectionsDiffer();
    if fact.ref.kind == Order {
      OrderPosts(fact);
    } else if fact.ref.kind == OrderRefund {
      MovedFactPosts(fact, "sales_returns", "marketplace_clearing", Refund);
    } else if Direction(fact) == "seller_charge" {
      MovedFactPosts(fact, "marketplace_fees", "marketplace_clearing", Fee);
    } else {
      MovedFactPosts(fact, "suspense", "buyer_fee_income", Fee);
    }
  }

  /** What is built on a key is the fact's effect there. */
  lemma BuiltIsEffect(fact: SourceFact, key: string)
    requires OrderFact(fact)
    ensures fact.ref.kind != ExpenseFact && BuildLines(fact, ShippedVersion(fact)).Ok?
    ensures Total(BuildLines(fact, ShippedVersion(fact)).value, On(fact, key)) == EffectOn(key)(fact)
  {
    hide BuildLines, Effect, On;
    var rule := ShippedVersion(fact);
    KeysOfTransfersDiffer();
    DirectionsDiffer();
    if fact.ref.kind == Order {
      SalePosts(fact, rule);
    } else if fact.ref.kind == OrderRefund {
      TransferPosts(fact, rule, "sales_returns", "marketplace_clearing", Refund, key);
    } else if Direction(fact) == "seller_charge" {
      TransferPosts(fact, rule, "marketplace_fees", "marketplace_clearing", Fee, key);
    } else {
      TransferPosts(fact, rule, "suspense", "buyer_fee_income", Fee, key);
    }
    EffectIsTotal(fact, key);
  }

  lemma KeysOfTransfersDiffer()
    ensures |"suspense"| == 8 && |"sales_returns"| == 13 && |"buyer_fee_income"| == 16 && |"marketplace_fees"| == 16
    ensures |"marketplace_clearing"| == 20 && "buyer_fee_income"[0] == 'b' && "marketplace_fees"[0] == 'm'
  {
  }

  /**
   * Over any list of order, fee and refund facts, in any order: suspense ends at what surcharges
   * leave unexplained of the orders' gaps, so at zero exactly when they explain all of it; and
   * clearing ends at totals minus seller charges minus refunds.
   */
  lemma SuspenseClears(facts: seq<SourceFact>)
    requires forall i :: 0 <= i < |facts| ==> OrderFact(facts[i])
    ensures Total(facts, EffectOn("suspense")) == Total(facts, Surcharge()) - Total(facts, GapOf())
    ensures Total(facts, EffectOn("suspense")) == 0 <==> Total(facts, Surcharge()) == Total(facts, GapOf())
    ensures Total(facts, EffectOn("marketplace_clearing")) == Total(facts, Owed())
  {
    hide OrderFact, EffectOn, Surcharge, GapOf, Owed;
    forall i | 0 <= i < |facts|
      ensures Surcharge()(facts[i]) == EffectOn("suspense")(facts[i]) + GapOf()(facts[i])
      ensures EffectOn("marketplace_clearing")(facts[i]) == Owed()(facts[i])
    {
      FactPosts(facts[i]);
    }
    TotalAdd(facts, EffectOn("suspense"), GapOf(), Surcharge());
    TotalSame(facts, EffectOn("marketplace_clearing"), Owed());
  }
}
