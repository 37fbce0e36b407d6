/**
 * An accepted template whose entry is refused: it moves an order's total to the components the
 * validator expands it into, and the provider asserts a total that is five more than those.
 */
module OrderGap {
  import opened Prelude
  import opened Sums
  import opened Rounding
  import opened Calendar
  import opened Facts
  import opened Ledger
  import opened LedgerAcceptance
  import opened Templates
  import opened PostingRules
  import opened PostingEngine
  import RuleHistory

  function Moves(id: nat, source: AmountSource, times: int): RuleLine {
    RuleLine(ById(id), source, times * MICRO, true, None)
  }

  function Lines(): seq<RuleLine> {
    [Moves(0, TotalAmount, 1), Moves(1, Subtotal, -1), Moves(2, Shipping, -1), Moves(3, Tax, -1), Moves(1, Discount, 1)]
  }

  function SaleRule(): ResolvedRule {
    ResolvedRule("sale_without_plug", 0, 1, {}, Lines())
  }

  /** Total 220, subtotal 180, shipping 20, tax 15: a surcharge of 5 is in the total and nowhere else. */
  function Sale(): SourceFact {
    SourceFact(FactRef(Order, 1), Date(2026, 1, 15), None, "USD",
               map[TotalAmount := 220 * MICRO, Subtotal := 180 * MICRO, Shipping := 20 * MICRO, Tax := 15 * MICRO,
                   Discount := 0, Fee := 0, Refund := 0, Net := 220 * MICRO],
               map[], 220 * MICRO, [], false)
  }

  function Books(): Db {
    Db([Book(true, "USD", Anchor(1, 1), 1)],
       [Account(0, "1100", Asset, true, true, None, None), Account(0, "4000", Revenue, true, true, None, None),
        Account(0, "4010", Revenue, true, true, None, None), Account(0, "2200", Liability, true, true, None, None)],
       [], [], {})
  }

  lemma TotalOfFive<T>(s: seq<T>, w: T -> int)
    requires |s| == 5
    ensures Total(s, w) == w(s[0]) + w(s[1]) + w(s[2]) + w(s[3]) + w(s[4])
  {
    TotalOfThree(s[0], s[1], s[2], w);
    TotalOfTwo(s[3], s[4], w);
    assert s == [s[0], s[1], s[2]] + [s[3], s[4]];
    TotalConcat([s[0], s[1], s[2]], [s[3], s[4]], w);
  }

  lemma LinesCancel(lines: seq<RuleLine>)
    requires lines == Lines()
    ensures Cancels(Order, lines)
  {
    hide Cancels;
    forall v: Assignment ensures UnroundedSum(Order, lines, v) == 0 {
      TotalOfFive(lines, LineValue(Order, v));
    }
    ValidatorExact(Order, lines);
  }

  lemma LinesRead(lines: seq<RuleLine>)
    requires lines == Lines()
    ensures Integral(lines) && Authorable(Order, lines)
    ensures forall k :: 0 <= k < |lines| ==> lines[k].account.ById? && lines[k].account.id < 4
  {
  }

  lemma TotalRead(lines: seq<RuleLine>)
    requires lines == Lines()
    ensures Total(lines, TotalMultiplier(Order)) == MICRO
  {
    TotalOfFive(lines, TotalMultiplier(Order));
  }

  /** The template passes every save-time check, has whole-number multipliers, and reads the total once. */
  lemma TemplateAccepted(p: Predicates)
    requires p.attributes == map[]
    ensures ValidTemplate(Order, p, Lines()) && Integral(Lines()) && !HasPlug(Lines())
    ensures Total(Lines(), TotalMultiplier(Order)) == MICRO
  {
    hide Cancels, Lines, AllowedSources, SystemKeys, TotalMultiplier, Integral;
    LinesCancel(Lines());
    LinesRead(Lines());
    TotalRead(Lines());
    forall l | l in Lines() ensures LineAllowed(Order, l) && l.source != Remainder {
      var k :| 0 <= k < |Lines()| && Lines()[k] == l;
    }
  }

  lemma SaleShape()
    ensures ReaderShaped(Sale()) && Gap(Sale()) == 5 * MICRO
  {
  }

  /** The built lines sum to five. */
  lemma SaleIsOff()
    ensures BuildLines(Sale(), SaleRule()).Ok? && Total(BuildLines(Sale(), SaleRule()).value, Amount()) == 5 * MICRO
  {
    hide MulRound, BuildLines, ReaderShaped, Gap, Authorable;
    SaleShape();
    LinesRead(Lines());
    BuiltTotal(Sale(), SaleRule());
    TotalOfFive(Lines(), RoundedProduct(Sale()));
    MulRoundExact(220 * MICRO, 1);
    MulRoundExact(180 * MICRO, -1);
    MulRoundExact(20 * MICRO, -1);
    MulRoundExact(15 * MICRO, -1);
    MulRoundExact(0, 1);
  }

  lemma SaleBuildsPlain()
    requires BuildLines(Sale(), SaleRule()).Ok?
    ensures Plain(Sale(), Lines()).Ok? && BuildLines(Sale(), SaleRule()).value == Plain(Sale(), Lines()).value
  {
    hide Plain, Lines;
    LinesRead(Lines());
    NoneIsPlug(Lines());
    NoPlug(Lines());
  }

  lemma NoneIsPlug(lines: seq<RuleLine>)
    requires Authorable(Order, lines)
    ensures forall l :: l in lines ==> l.source != Remainder
  {
  }

  lemma SaleLines(i: nat)
    requires BuildLines(Sale(), SaleRule()).Ok? && i < |BuildLines(Sale(), SaleRule()).value|
    ensures LineAccepted(Books(), 0, JournalLine(Sale(), BuildLines(Sale(), SaleRule()).value[i]))
  {
    hide Plain, Lines, BuildLines;
    SaleBuildsPlain();
    PlainNonZero(Sale(), Lines());
    LinesRead(Lines());
    var k := PlainAccount(Sale(), Lines(), i);
  }

  /** So the posting is refused as unbalanced, though nothing else is wrong with it. */
  lemma SaleIsRefused()
    ensures Post(Books(), Sale(), SaleRule(), 0, false) == Err(Unbalanced)
  {
    hide BuildLines, LineAccepted, Balanced, ResolveLines, FingerprintFact, CarriesRequired, TakeStamp, CheckHeader, JournalLine, JournalLines;
    SaleIsOff();
    var built := BuildLines(Sale(), SaleRule()).value;
    var inputs := JournalLines(Sale(), built);
    JournalLinesEach(built);
    forall i | 0 <= i < |inputs| ensures LineAccepted(Books(), 0, inputs[i]) {
      SaleLines(i);
    }
    ResolvesExactly(Books(), 0, inputs);
    RuleHistory.JournalBalanceIsRuleBalance(Books(), 0, Sale(), built);
    assert FindKey(Books().entries, MintKey(Sale(), SaleRule())).None?;
  }

  lemma JournalLinesEach(built: seq<BuiltLine>)
    ensures var inputs := JournalLines(Sale(), built);
            |inputs| == |built| && forall i :: 0 <= i < |inputs| ==> inputs[i] == JournalLine(Sale(), built[i])
  {
  }
}
