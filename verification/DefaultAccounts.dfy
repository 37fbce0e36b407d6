/** What each order, fee and refund puts on every account under the shipped rules (`posting-rules-template.ts`). */
module DefaultAccounts {
  import opened Prelude
  import opened Sums
  import opened Rounding
  import opened Facts
  import opened Templates
  import opened DefaultRules

  function If(key: string, account: string, amount: int): int {
    if key == account then amount else 0
  }

  function OrderOn(fact: SourceFact, key: string): int
    requires fact.ref.kind == Order && ReaderShaped(fact)
  {
    var a := fact.amounts;
    If(key, "marketplace_clearing", a[TotalAmount]) + If(key, "sales_revenue", a[Discount] - a[Subtotal])
    + If(key, "shipping_income", -a[Shipping]) + If(key, "facilitator_tax_clearing", -a[Tax])
    + If(key, "suspense", a[Subtotal] + a[Shipping] + a[Tax] - a[Discount] - a[TotalAmount])
  }

  /** What the six lines of a sale ask for on a key. */
  lemma SaleKey(fact: SourceFact, lines: seq<RuleLine>, key: string, k: nat)
    requires lines == OrderSaleLines() && k < 5
    ensures Asked(fact, BySystemKey(key), fact.entity)(lines[k])
            == If(key, ["marketplace_clearing", "sales_revenue", "shipping_income", "facilitator_tax_clearing", "sales_revenue"][k],
                  [1, -1, -1, -1, 1][k] * AmountOrZero(fact, [TotalAmount, Subtotal, Shipping, Tax, Discount][k]))
  {
    hide MulRound, AmountOrZero;
    MulRoundExact(AmountOrZero(fact, lines[k].source), [1, -1, -1, -1, 1][k]);
  }

  lemma PlugAsksNothing(fact: SourceFact, lines: seq<RuleLine>, key: string)
    requires lines == OrderSaleLines()
    ensures |lines| == 6 && Asked(fact, BySystemKey(key), fact.entity)(lines[5]) == 0
    ensures Plug(lines) == Some(lines[5]) && lines[5].account == BySystemKey("suspense") && lines[5].inheritEntity
  {
    hide MulRound;
  }

  lemma SaleAsks(fact: SourceFact, lines: seq<RuleLine>, key: string)
    requires fact.ref.kind == Order && ReaderShaped(fact) && lines == OrderSaleLines()
    ensures Total(lines, Asked(fact, BySystemKey(key), fact.entity)) == OrderOn(fact, key) + If(key, "suspense", Gap(fact))
  {
    hide Asked, OrderSaleLines;
    PlugAsksNothing(fact, lines, key);
    TotalOfSix(lines, Asked(fact, BySystemKey(key), fact.entity));
    SaleKey(fact, lines, key, 0);
    SaleKey(fact, lines, key, 1);
    SaleKey(fact, lines, key, 2);
    SaleKey(fact, lines, key, 3);
    SaleKey(fact, lines, key, 4);
  }

  /** A sale, account by account: clearing, revenue, shipping, tax and suspense, and nothing on any other. */
  lemma SaleEverywhere(fact: SourceFact, key: string)
    requires OrderFact(fact) && fact.ref.kind == Order
    ensures EffectOn(key)(fact) == OrderOn(fact, key)
  {
    hide Plain, Asked, OrderSaleLines, ReaderShaped, Gap, BuildLines, On, ShippedVersion, OrderOn, If, Effect;
    var rule := ShippedVersion(fact);
    ShippedSale(fact);
    SalePosts(fact, rule);
    EffectIsTotal(fact, key);
    SaleBuilds(fact, rule, key);
  }

  lemma ShippedSale(fact: SourceFact)
    requires fact.ref.kind == Order
    ensures ShippedVersion(fact).lines == OrderSaleLines()
  {
    hide OrderSaleLines;
  }

  lemma SaleBuilds(fact: SourceFact, rule: ResolvedRule, key: string)
    requires fact.ref.kind == Order && ReaderShaped(fact) && rule.lines == OrderSaleLines() && BuildLines(fact, rule).Ok?
    ensures Total(BuildLines(fact, rule).value, On(fact, key)) == OrderOn(fact, key)
  {
    hide Plain, Asked, OrderSaleLines, ReaderShaped, Gap, OrderOn;
    SalePlain(fact);
    var plain := Plain(fact, rule.lines).value;
    PlainPlaces(fact, rule.lines, BySystemKey(key), fact.entity);
    SaleAsks(fact, rule.lines, key);
    PlugAsksNothing(fact, rule.lines, key);
    if Gap(fact) != 0 {
      TotalAppend(plain, TemplateLine(fact, rule.lines[5], -Gap(fact)), On(fact, key));
    }
  }

  /** A fee or refund, account by account. */
  lemma TransferEverywhere(fact: SourceFact, key: string)
    requires OrderFact(fact) && fact.ref.kind != Order
    ensures EffectOn(key)(fact)
            == if fact.ref.kind == OrderRefund then
                 If(key, "sales_returns", fact.amounts[Refund]) + If(key, "marketplace_clearing", -fact.amounts[Refund])
               else if Direction(fact) == "seller_charge" then
                 If(key, "marketplace_fees", fact.amounts[Fee]) + If(key, "marketplace_clearing", -fact.amounts[Fee])
               else
                 If(key, "suspense", fact.amounts[Fee]) + If(key, "buyer_fee_income", -fact.amounts[Fee])
  {
    hide EffectOn;
    KeysOfTransfersDiffer();
    DirectionsDiffer();
    if fact.ref.kind == OrderRefund {
      MovedFactPosts(fact, "sales_returns", "marketplace_clearing", Refund);
    } else if Direction(fact) == "seller_charge" {
      MovedFactPosts(fact, "marketplace_fees", "marketplace_clearing", Fee);
    } else {
      MovedFactPosts(fact, "suspense", "buyer_fee_income", Fee);
    }
  }
}
