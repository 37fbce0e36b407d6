/**
 * Which lines a rule version makes of a fact (`posting-engine.ts`), said from the fact's amounts and allocations
 * and the template alone. A list of lines is described by what any weight of lines adds up to over it, so each
 * line counts with its account, amount, entity and dimension.
 */
module LineAnswers {
  import opened Prelude
  import opened Sums
  import opened Rounding
  import opened Facts
  import opened Templates

  // ----- What a template line asks for -----

  /** The rounded product a template line asks for; none for the plug or an amount the fact lacks. */
  function Product(fact: SourceFact, l: RuleLine): int {
    if l.source == Remainder || l.source !in fact.amounts then 0 else MulRound(fact.amounts[l.source], l.multiplier)
  }

  function Products(fact: SourceFact): RuleLine -> int {
    (l: RuleLine) => Product(fact, l)
  }

  /** A line on the template line's account, under the fact's entity if the line inherits it. */
  function LineFor(fact: SourceFact, l: RuleLine, amount: int): BuiltLine {
    BuiltLine(l.account, amount, if l.inheritEntity then fact.entity else None, l.dimension)
  }

  /** A weight of the line asked for; a zero amount makes no line. */
  function AskedWeight(fact: SourceFact, w: BuiltLine -> int): RuleLine -> int {
    (l: RuleLine) => if Product(fact, l) == 0 then 0 else w(LineFor(fact, l, Product(fact, l)))
  }

  // ----- What allocations state -----

  /** What an allocation that names an account states. */
  function Stated(): Allocation -> int {
    (a: Allocation) => if a.account.Some? then a.amount else 0
  }

  function StatedSum(fact: SourceFact): int {
    Total(fact.allocations, Stated())
  }

  /** The line of an allocation, on its account, under its own entity or else the debit's. */
  function LineOf(a: Allocation, inherited: Option<nat>): BuiltLine
    requires a.account.Some?
  {
    BuiltLine(ById(a.account.value), a.amount, if a.entity.Some? then a.entity else inherited, a.dimension)
  }

  function StatedWeight(inherited: Option<nat>, w: BuiltLine -> int): Allocation -> int {
    (a: Allocation) => if a.account.Some? then w(LineOf(a, inherited)) else 0
  }

  ghost predicate NamesSome(fact: SourceFact) {
    exists i :: 0 <= i < |fact.allocations| && fact.allocations[i].account.Some?
  }

  /** The stated sum has the amount's sign and at most its magnitude. */
  predicate Holds(amount: int, stated: int) {
    if amount < 0 then amount <= stated < 0 else 0 <= stated <= amount
  }

  /** Line `t` is the only one that is not negative. */
  ghost predicate OnlyDebit(lines: seq<BuiltLine>, t: nat) {
    t < |lines| && lines[t].amount >= 0 && forall i :: 0 <= i < |lines| && i != t ==> lines[i].amount < 0
  }

  /** An expense whose named allocations split the one debit. */
  ghost predicate SplitsAt(fact: SourceFact, lines: seq<BuiltLine>, t: nat) {
    fact.ref.kind == ExpenseFact && NamesSome(fact) && OnlyDebit(lines, t) && Holds(lines[t].amount, StatedSum(fact))
  }

  // ----- Splitting -----

  lemma {:induction false} NamedStates(allocations: seq<Allocation>, inherited: Option<nat>, w: BuiltLine -> int)
    ensures Total(Named(allocations), Allocated()) == Total(allocations, Stated())
    ensures Total(Named(allocations), NamedWeight(inherited, w)) == Total(allocations, StatedWeight(inherited, w))
    ensures Named(allocations) != [] <==> exists i :: 0 <= i < |allocations| && allocations[i].account.Some?
  {
    if allocations != [] {
      var k := |allocations| - 1;
      NamedStates(allocations[..k], inherited, w);
      if allocations[k].account.Some? {
        TotalAppend(Named(allocations[..k]), allocations[k], Allocated());
        TotalAppend(Named(allocations[..k]), allocations[k], NamedWeight(inherited, w));
      } else {
        assert Named(allocations[..k]) + [] == Named(allocations[..k]);
      }
    }
  }

  function NamedWeight(inherited: Option<nat>, w: BuiltLine -> int): Allocation -> int {
    (a: Allocation) => if a.account.Some? then w(LineOf(a, inherited)) else 0
  }

  lemma {:induction false} PartsWeigh(target: BuiltLine, named: seq<Allocation>, w: BuiltLine -> int)
    requires forall i :: 0 <= i < |named| ==> named[i].account.Some?
    ensures Total(seq(|named|, i requires 0 <= i < |named| => AllocationLine(target, named[i])), w) == Total(named, NamedWeight(target.entity, w))
  {
    var parts := seq(|named|, i requires 0 <= i < |named| => AllocationLine(target, named[i]));
    if named != [] {
      var k := |named| - 1;
      PartsWeigh(target, named[..k], w);
      assert AllocationLine(target, named[k]) == LineOf(named[k], target.entity);
      assert parts[..k] == seq(k, i requires 0 <= i < k => AllocationLine(target, named[..k][i]));
    }
  }

  lemma {:induction false} DebitsAre(lines: seq<BuiltLine>)
    ensures forall k: nat :: k in Debits(lines) <==> k < |lines| && lines[k].amount >= 0
  {
    if lines != [] {
      DebitsAre(lines[..|lines| - 1]);
    }
  }

  lemma {:induction false} NoDebits(lines: seq<BuiltLine>)
    requires forall i :: 0 <= i < |lines| ==> lines[i].amount < 0
    ensures Debits(lines) == []
  {
    if lines != [] {
      NoDebits(lines[..|lines| - 1]);
    }
  }

  lemma {:induction false} OneDebit(lines: seq<BuiltLine>, t: nat)
    requires OnlyDebit(lines, t)
    ensures Debits(lines) == [t]
  {
    var n := |lines| - 1;
    if t == n {
      NoDebits(lines[..n]);
    } else {
      OneDebit(lines[..n], t);
    }
  }

  lemma OneDebitExactly(lines: seq<BuiltLine>)
    ensures |Debits(lines)| == 1 <==> exists t: nat :: OnlyDebit(lines, t)
    ensures forall t: nat :: OnlyDebit(lines, t) ==> Debits(lines) == [t]
  {
    var d := Debits(lines);
    DebitsAre(lines);
    if |d| == 1 {
      assert d[0] in d;
      assert OnlyDebit(lines, d[0]);
    }
    forall t: nat | OnlyDebit(lines, t) ensures d == [t] {
      OneDebit(lines, t);
    }
  }

  lemma SplitsExactly(fact: SourceFact, lines: seq<BuiltLine>)
    ensures Splits(fact, lines) <==> exists t: nat :: SplitsAt(fact, lines, t)
    ensures forall t: nat :: SplitsAt(fact, lines, t) ==> Splits(fact, lines) && Debits(lines)[0] == t
  {
    OneDebitExactly(lines);
    NamedStates(fact.allocations, None, (l: BuiltLine) => 0);
    if Splits(fact, lines) {
      assert SplitsAt(fact, lines, Debits(lines)[0]);
    }
  }

  /**
   * `splitByAllocations`: the debit gives way to one line per allocation that names an account, and keeps what they
   * leave over; in every other case the lines stay as they are.
   */
  lemma SplitAnswers(fact: SourceFact, lines: seq<BuiltLine>, w: BuiltLine -> int)
    ensures (forall t: nat :: !SplitsAt(fact, lines, t)) ==> SplitByAllocations(fact, lines) == lines
    ensures forall t: nat :: SplitsAt(fact, lines, t) ==>
              var target, left := lines[t], lines[t].amount - StatedSum(fact);
              Total(SplitByAllocations(fact, lines), w)
              == Total(lines, w) - w(target) + Total(fact.allocations, StatedWeight(target.entity, w))
                 + if left == 0 then 0 else w(target.(amount := left))
  {
    SplitsExactly(fact, lines);
    if Splits(fact, lines) {
      var named, t := Named(fact.allocations), Debits(lines)[0];
      var target := lines[t];
      var parts := seq(|named|, i requires 0 <= i < |named| => AllocationLine(target, named[i]));
      var rest := lines[..t] + lines[t + 1..];
      var left := target.amount - Total(named, Allocated());
      NamedStates(fact.allocations, target.entity, w);
      PartsWeigh(target, named, w);
      TotalRemove(lines, t, w);
      TotalConcat(rest, parts, w);
      if left != 0 {
        TotalAppend(rest + parts, target.(amount := left), w);
        assert SplitByAllocations(fact, lines) == rest + parts + [target.(amount := left)];
      } else {
        assert SplitByAllocations(fact, lines) == rest + parts;
      }
    }
  }

  // ----- The lines before a split -----

  lemma {:induction false} PlainAnswers(fact: SourceFact, lines: seq<RuleLine>, w: BuiltLine -> int)
    ensures var r := Plain(fact, lines);
            && (r.Ok? <==> forall l :: l in lines && l.source != Remainder ==> l.source in fact.amounts)
            && (r.Ok? ==> Total(r.value, w) == Total(lines, AskedWeight(fact, w)) && Total(r.value, Amount()) == Total(lines, Products(fact)))
            && (r.Err? ==> r.error == Validation)
  {
    hide MulRound;
    if lines != [] {
      var k := |lines| - 1;
      PlainAnswers(fact, lines[..k], w);
      assert lines == lines[..k] + [lines[k]];
      if Plain(fact, lines[..k]).Ok? && lines[k].source != Remainder && lines[k].source in fact.amounts {
        var line := LineFor(fact, lines[k], Product(fact, lines[k]));
        TotalAppend(Plain(fact, lines[..k]).value, line, w);
        TotalAppend(Plain(fact, lines[..k]).value, line, Amount());
      }
    }
  }

  /** Template line `k` makes the only line that is not negative. */
  ghost predicate OnlyPositive(fact: SourceFact, lines: seq<RuleLine>, k: nat) {
    k < |lines| && Product(fact, lines[k]) > 0 && forall i :: 0 <= i < |lines| && i != k ==> Product(fact, lines[i]) <= 0
  }

  /** Template line `k` makes the debit the expense's allocations split. */
  ghost predicate SplitsLine(fact: SourceFact, lines: seq<RuleLine>, k: nat) {
    fact.ref.kind == ExpenseFact && NamesSome(fact) && OnlyPositive(fact, lines, k) && 0 <= StatedSum(fact) <= Product(fact, lines[k])
  }

  /** The debits among the built lines are what the template lines with a positive product make, in order. */
  lemma {:induction false} DebitMade(fact: SourceFact, lines: seq<RuleLine>, k: nat) returns (t: nat)
    requires Plain(fact, lines).Ok? && OnlyPositive(fact, lines, k)
    ensures OnlyDebit(Plain(fact, lines).value, t) && Plain(fact, lines).value[t] == LineFor(fact, lines[k], Product(fact, lines[k]))
  {
    hide MulRound;
    var n := |lines| - 1;
    var init := Plain(fact, lines[..n]).value;
    if k == n {
      NoneMade(fact, lines[..n]);
      t := |init|;
    } else {
      assert OnlyPositive(fact, lines[..n], k);
      t := DebitMade(fact, lines[..n], k);
    }
  }

  lemma {:induction false} NoneMade(fact: SourceFact, lines: seq<RuleLine>)
    requires Plain(fact, lines).Ok? && forall i :: 0 <= i < |lines| ==> Product(fact, lines[i]) <= 0
    ensures forall i :: 0 <= i < |Plain(fact, lines).value| ==> Plain(fact, lines).value[i].amount < 0
  {
    hide MulRound;
    if lines != [] {
      NoneMade(fact, lines[..|lines| - 1]);
    }
  }

  /** The last template line adds its line, or nothing. */
  lemma LastLine(fact: SourceFact, lines: seq<RuleLine>)
    requires lines != [] && Plain(fact, lines).Ok?
    ensures var init, last := Plain(fact, lines[..|lines| - 1]), lines[|lines| - 1];
            init.Ok? && Plain(fact, lines).value == init.value + if Product(fact, last) == 0 then [] else [LineFor(fact, last, Product(fact, last))]
  {
    hide MulRound;
    var init := Plain(fact, lines[..|lines| - 1]).value;
    assert init + [] == init;
  }

  /** And the other way round. */
  lemma {:induction false} DebitFrom(fact: SourceFact, lines: seq<RuleLine>, t: nat) returns (k: nat)
    requires Plain(fact, lines).Ok? && OnlyDebit(Plain(fact, lines).value, t)
    ensures OnlyPositive(fact, lines, k)
  {
    hide MulRound, Product, LineFor;
    assert lines != [] by { NothingPlain(fact, lines); }
    var n := |lines| - 1;
    var init, plain := Plain(fact, lines[..n]).value, Plain(fact, lines).value;
    LastLine(fact, lines);
    forall i | 0 <= i < |init| ensures init[i] == plain[i] {
    }
    if t == |init| {
      AllNegative(fact, lines[..n]);
      LineAmount(fact, lines[n], Product(fact, lines[n]));
      assert plain[|init|] == LineFor(fact, lines[n], Product(fact, lines[n]));
      OnlyLast(fact, lines[..n], lines);
      k := n;
    } else {
      assert OnlyDebit(init, t);
      k := DebitFrom(fact, lines[..n], t);
      LineAmount(fact, lines[n], Product(fact, lines[n]));
      if Product(fact, lines[n]) != 0 {
        assert plain[|init|] == LineFor(fact, lines[n], Product(fact, lines[n]));
      }
      OnlyBefore(fact, lines[..n], lines, k);
    }
  }

  lemma NothingPlain(fact: SourceFact, lines: seq<RuleLine>)
    requires Plain(fact, lines).Ok?
    ensures lines == [] ==> Plain(fact, lines).value == []
  {
  }

  lemma LineAmount(fact: SourceFact, l: RuleLine, amount: int)
    ensures LineFor(fact, l, amount).amount == amount
  {
  }

  lemma OnlyBefore(fact: SourceFact, init: seq<RuleLine>, lines: seq<RuleLine>, k: nat)
    requires lines != [] && init == lines[..|lines| - 1] && OnlyPositive(fact, init, k) && Product(fact, lines[|lines| - 1]) <= 0
    ensures OnlyPositive(fact, lines, k)
  {
    hide Product;
    forall i | 0 <= i < |init| ensures init[i] == lines[i] {
    }
  }

  lemma OnlyLast(fact: SourceFact, init: seq<RuleLine>, lines: seq<RuleLine>)
    requires lines != [] && init == lines[..|lines| - 1] && forall i :: 0 <= i < |init| ==> Product(fact, init[i]) <= 0
    ensures forall i :: 0 <= i < |lines| - 1 ==> Product(fact, lines[i]) <= 0
  {
    hide Product;
    forall i | 0 <= i < |init| ensures init[i] == lines[i] {
    }
  }

  lemma {:induction false} AllNegative(fact: SourceFact, lines: seq<RuleLine>)
    requires Plain(fact, lines).Ok? && forall i :: 0 <= i < |Plain(fact, lines).value| ==> Plain(fact, lines).value[i].amount < 0
    ensures forall i :: 0 <= i < |lines| ==> Product(fact, lines[i]) <= 0
  {
    hide MulRound, Product, LineFor;
    if lines != [] {
      var n := |lines| - 1;
      var init, plain := Plain(fact, lines[..n]).value, Plain(fact, lines).value;
      LastLine(fact, lines);
      LineAmount(fact, lines[n], Product(fact, lines[n]));
      if Product(fact, lines[n]) != 0 {
        assert plain[|init|] == LineFor(fact, lines[n], Product(fact, lines[n]));
      }
      forall i | 0 <= i < |init| ensures init[i] == plain[i] {
      }
      AllNegative(fact, lines[..n]);
      OnlyLast(fact, lines[..n], lines);
    }
  }

  lemma SplitLineExactly(fact: SourceFact, lines: seq<RuleLine>)
    requires Plain(fact, lines).Ok?
    ensures var plain := Plain(fact, lines).value;
            && ((exists t: nat :: SplitsAt(fact, plain, t)) <==> exists k: nat :: SplitsLine(fact, lines, k))
            && forall k: nat :: SplitsLine(fact, lines, k) ==>
                 exists t: nat :: SplitsAt(fact, plain, t) && plain[t] == LineFor(fact, lines[k], Product(fact, lines[k]))
  {
    hide Plain, NamesSome, StatedSum, Product;
    var plain := Plain(fact, lines).value;
    forall k: nat | SplitsLine(fact, lines, k)
      ensures exists t: nat :: SplitsAt(fact, plain, t) && plain[t] == LineFor(fact, lines[k], Product(fact, lines[k]))
    {
      var t := DebitMade(fact, lines, k);
      assert SplitsAt(fact, plain, t);
    }
    if t: nat :| SplitsAt(fact, plain, t) {
      var k := DebitFrom(fact, lines, t);
      var u := DebitMade(fact, lines, k);
      assert u == t;
      assert SplitsLine(fact, lines, k);
    }
  }

  // ----- The plug -----

  /** The last line of the template that plugs. */
  ghost predicate IsPlug(lines: seq<RuleLine>, p: nat) {
    p < |lines| && lines[p].source == Remainder && forall i :: p < i < |lines| ==> lines[i].source != Remainder
  }

  lemma {:induction false} PlugThere(lines: seq<RuleLine>) returns (p: nat)
    ensures Plug(lines).Some? ==> IsPlug(lines, p) && Plug(lines) == Some(lines[p])
    ensures Plug(lines).None? ==> forall i :: 0 <= i < |lines| ==> lines[i].source != Remainder
  {
    if lines == [] {
      p := 0;
    } else if lines[|lines| - 1].source == Remainder {
      p := |lines| - 1;
    } else {
      p := PlugThere(lines[..|lines| - 1]);
    }
  }

  lemma PlugExactly(lines: seq<RuleLine>)
    ensures Plug(lines).None? <==> forall i :: 0 <= i < |lines| ==> lines[i].source != Remainder
    ensures forall p: nat :: IsPlug(lines, p) ==> Plug(lines) == Some(lines[p])
    ensures Plug(lines).Some? ==> exists p: nat :: IsPlug(lines, p)
  {
    hide Plug;
    var p := PlugThere(lines);
    forall q: nat | IsPlug(lines, q) ensures p == q {
      assert Plug(lines).Some?;
      PlugIsOne(lines, p, q);
    }
  }

  /** What the plug adds: the sum of all products turned round, unless that is nothing. */
  function PlugWeight(fact: SourceFact, l: RuleLine, residue: int, w: BuiltLine -> int): int {
    if residue == 0 then 0 else w(LineFor(fact, l, residue))
  }

  /** What a split adds and takes away. */
  function SplitWeight(fact: SourceFact, l: RuleLine, w: BuiltLine -> int): int {
    var target := LineFor(fact, l, Product(fact, l));
    var left := Product(fact, l) - StatedSum(fact);
    Total(fact.allocations, StatedWeight(target.entity, w)) - w(target) + if left == 0 then 0 else w(target.(amount := left))
  }

  ghost function SplitPart(fact: SourceFact, lines: seq<RuleLine>, w: BuiltLine -> int): int {
    if k: nat :| SplitsLine(fact, lines, k) then SplitWeight(fact, lines[k], w) else 0
  }

  ghost function PlugPart(fact: SourceFact, lines: seq<RuleLine>, w: BuiltLine -> int): int {
    if p: nat :| IsPlug(lines, p) then PlugWeight(fact, lines[p], -Total(lines, Products(fact)), w) else 0
  }

  /**
   * `buildLines`: fails exactly when the fact lacks an amount the template reads. Otherwise the lines are those the
   * template lines ask for, with the one debit of an expense split by its named allocations when they fit, and the
   * plug for whatever the products leave.
   */
  lemma BuildAnswers(fact: SourceFact, rule: ResolvedRule, w: BuiltLine -> int)
    ensures var r := BuildLines(fact, rule);
            && (r.Ok? <==> forall l :: l in rule.lines && l.source != Remainder ==> l.source in fact.amounts)
            && (r.Ok? ==> Total(r.value, w) == Total(rule.lines, AskedWeight(fact, w)) + SplitPart(fact, rule.lines, w) + PlugPart(fact, rule.lines, w))
            && (r.Err? ==> r.error == Validation)
  {
    hide Plain, SplitByAllocations, SplitsLine, IsPlug, Plug, AskedWeight, Product, PlugWeight, SplitPart, PlugPart;
    PlainAnswers(fact, rule.lines, w);
    if BuildLines(fact, rule).Ok? {
      var plain := Plain(fact, rule.lines).value;
      var lines := SplitByAllocations(fact, plain);
      SplitPreservesTotal(fact, plain);
      SplitMoves(fact, rule.lines, w);
      PlugAdds(fact, rule, lines, w);
    }
  }

  lemma PlugAdds(fact: SourceFact, rule: ResolvedRule, lines: seq<BuiltLine>, w: BuiltLine -> int)
    requires BuildLines(fact, rule).Ok? && lines == SplitByAllocations(fact, Plain(fact, rule.lines).value)
    requires Total(lines, Amount()) == Total(rule.lines, Products(fact))
    ensures Total(BuildLines(fact, rule).value, w) == Total(lines, w) + PlugPart(fact, rule.lines, w)
  {
    hide Plain, SplitByAllocations, Product, Plug;
    var residue, plug := -Total(lines, Amount()), Plug(rule.lines);
    PlugExactly(rule.lines);
    if plug.Some? && residue != 0 {
      TotalAppend(lines, LineFor(fact, plug.value, residue), w);
    }
  }

  lemma SplitMoves(fact: SourceFact, lines: seq<RuleLine>, w: BuiltLine -> int)
    requires Plain(fact, lines).Ok?
    ensures var plain := Plain(fact, lines).value;
            Total(SplitByAllocations(fact, plain), w) == Total(plain, w) + SplitPart(fact, lines, w)
  {
    hide Plain, SplitByAllocations, NamesSome, OnlyPositive, OnlyDebit, StatedWeight, Product, StatedSum;
    var plain := Plain(fact, lines).value;
    SplitAnswers(fact, plain, w);
    SplitLineExactly(fact, lines);
    if k: nat :| SplitsLine(fact, lines, k) {
      SplitIsThere(fact, lines, w);
    }
  }

  lemma SplitIsThere(fact: SourceFact, lines: seq<RuleLine>, w: BuiltLine -> int)
    requires Plain(fact, lines).Ok? && exists k: nat :: SplitsLine(fact, lines, k)
    ensures var plain := Plain(fact, lines).value;
            Total(SplitByAllocations(fact, plain), w) == Total(plain, w) + SplitPart(fact, lines, w)
  {
    hide Plain, SplitByAllocations, StatedWeight, Product, StatedSum;
    var plain := Plain(fact, lines).value;
    SplitAnswers(fact, plain, w);
    SplitLineExactly(fact, lines);
    forall k: nat | SplitsLine(fact, lines, k)
      ensures Total(SplitByAllocations(fact, plain), w) == Total(plain, w) + SplitWeight(fact, lines[k], w)
    {
      var t: nat :| SplitsAt(fact, plain, t) && t < |plain| && plain[t] == LineFor(fact, lines[k], Product(fact, lines[k]));
      LineAmount(fact, lines[k], Product(fact, lines[k]));
    }
  }

  // ----- Account by account, entity by entity -----

  function At(account: AccountRef, entity: Option<nat>): BuiltLine -> int {
    (l: BuiltLine) => if l.account == account && l.entity == entity then l.amount else 0
  }

  function Filed(fact: SourceFact, l: RuleLine): Option<nat> {
    if l.inheritEntity then fact.entity else None
  }

  function AskedAt(fact: SourceFact, account: AccountRef, entity: Option<nat>): RuleLine -> int {
    (l: RuleLine) => if l.account == account && Filed(fact, l) == entity then Product(fact, l) else 0
  }

  /** What the allocations state for the place, those without an entity of their own taking the debit's. */
  function StatedAt(account: AccountRef, entity: Option<nat>, inherited: Option<nat>): Allocation -> int {
    (a: Allocation) =>
      if a.account.Some? && account == ById(a.account.value) && entity == (if a.entity.Some? then a.entity else inherited)
      then a.amount else 0
  }

  /** At the plug's place, whatever brings the whole to zero. */
  ghost function PluggedAt(fact: SourceFact, lines: seq<RuleLine>, account: AccountRef, entity: Option<nat>): int {
    if p: nat :| IsPlug(lines, p) then
      if lines[p].account == account && Filed(fact, lines[p]) == entity then -Total(lines, Products(fact)) else 0
    else 0
  }

  lemma PlaceWeights(fact: SourceFact, lines: seq<RuleLine>, account: AccountRef, entity: Option<nat>, inherited: Option<nat>)
    ensures Total(lines, AskedWeight(fact, At(account, entity))) == Total(lines, AskedAt(fact, account, entity))
    ensures Total(fact.allocations, StatedWeight(inherited, At(account, entity))) == Total(fact.allocations, StatedAt(account, entity, inherited))
  {
    forall i | 0 <= i < |lines| ensures AskedWeight(fact, At(account, entity))(lines[i]) == AskedAt(fact, account, entity)(lines[i]) {
      AskedThere(fact, lines[i], account, entity);
    }
    TotalSame(lines, AskedWeight(fact, At(account, entity)), AskedAt(fact, account, entity));
    forall i | 0 <= i < |fact.allocations|
      ensures StatedWeight(inherited, At(account, entity))(fact.allocations[i]) == StatedAt(account, entity, inherited)(fact.allocations[i])
    {
      StatedThere(fact.allocations[i], account, entity, inherited);
    }
    TotalSame(fact.allocations, StatedWeight(inherited, At(account, entity)), StatedAt(account, entity, inherited));
  }

  lemma AskedThere(fact: SourceFact, l: RuleLine, account: AccountRef, entity: Option<nat>)
    ensures AskedWeight(fact, At(account, entity))(l) == AskedAt(fact, account, entity)(l)
  {
    hide Product;
    assert At(account, entity)(LineFor(fact, l, Product(fact, l)))
           == if l.account == account && Filed(fact, l) == entity then Product(fact, l) else 0;
  }

  lemma StatedThere(a: Allocation, account: AccountRef, entity: Option<nat>, inherited: Option<nat>)
    ensures StatedWeight(inherited, At(account, entity))(a) == StatedAt(account, entity, inherited)(a)
  {
    if a.account.Some? {
      assert At(account, entity)(LineOf(a, inherited))
             == if account == ById(a.account.value) && entity == (if a.entity.Some? then a.entity else inherited) then a.amount else 0;
    }
  }

  lemma PlugIsOne(lines: seq<RuleLine>, p: nat, q: nat)
    requires IsPlug(lines, p) && IsPlug(lines, q)
    ensures p == q
  {
  }

  lemma PlugPlace(fact: SourceFact, lines: seq<RuleLine>, account: AccountRef, entity: Option<nat>)
    ensures PlugPart(fact, lines, At(account, entity)) == PluggedAt(fact, lines, account, entity)
  {
    hide Product, IsPlug;
    if p: nat :| IsPlug(lines, p) {
      forall q: nat | IsPlug(lines, q) ensures q == p {
        PlugIsOne(lines, p, q);
      }
    }
  }

  /**
   * What a fact puts on each account and entity: the products of the template lines filed there; when an expense is
   * split, plus what its allocations state there, less the stated sum at the debit's place; and the plug.
   */
  lemma BuildPlaces(fact: SourceFact, rule: ResolvedRule, account: AccountRef, entity: Option<nat>)
    requires BuildLines(fact, rule).Ok?
    ensures var total := Total(BuildLines(fact, rule).value, At(account, entity));
            var unsplit := Total(rule.lines, AskedAt(fact, account, entity)) + PluggedAt(fact, rule.lines, account, entity);
            && ((forall k: nat :: !SplitsLine(fact, rule.lines, k)) ==> total == unsplit)
            && (forall k: nat :: SplitsLine(fact, rule.lines, k) ==>
                  var debit := rule.lines[k];
                  total == unsplit + Total(fact.allocations, StatedAt(account, entity, Filed(fact, debit)))
                           - if debit.account == account && Filed(fact, debit) == entity then StatedSum(fact) else 0)
  {
    hide BuildLines, SplitsLine, Product, PlugPart, PluggedAt, SplitPart, AskedAt, AskedWeight;
    BuildAnswers(fact, rule, At(account, entity));
    PlaceWeights(fact, rule.lines, account, entity, None);
    PlugPlace(fact, rule.lines, account, entity);
    NoSplitPart(fact, rule.lines, At(account, entity));
    forall k: nat | SplitsLine(fact, rule.lines, k)
      ensures k < |rule.lines|
      ensures SplitPart(fact, rule.lines, At(account, entity))
              == Total(fact.allocations, StatedAt(account, entity, Filed(fact, rule.lines[k])))
                 - if rule.lines[k].account == account && Filed(fact, rule.lines[k]) == entity then StatedSum(fact) else 0
    {
      SplitPlace(fact, rule.lines, account, entity, k);
    }
  }

  lemma NoSplitPart(fact: SourceFact, lines: seq<RuleLine>, w: BuiltLine -> int)
    ensures (forall k: nat :: !SplitsLine(fact, lines, k)) ==> SplitPart(fact, lines, w) == 0
  {
    hide SplitsLine;
  }

  lemma SplitIsOne(fact: SourceFact, lines: seq<RuleLine>, k: nat, j: nat)
    requires SplitsLine(fact, lines, k) && SplitsLine(fact, lines, j)
    ensures k == j
  {
    hide Product, StatedSum;
  }

  lemma SplitPlace(fact: SourceFact, lines: seq<RuleLine>, account: AccountRef, entity: Option<nat>, k: nat)
    requires SplitsLine(fact, lines, k)
    ensures k < |lines|
    ensures SplitPart(fact, lines, At(account, entity))
            == Total(fact.allocations, StatedAt(account, entity, Filed(fact, lines[k])))
               - if lines[k].account == account && Filed(fact, lines[k]) == entity then StatedSum(fact) else 0
  {
    hide Product, StatedSum, SplitsLine;
    SplitsInside(fact, lines, k);
    forall j: nat | SplitsLine(fact, lines, j) ensures j == k {
      SplitIsOne(fact, lines, k, j);
    }
    PlaceWeights(fact, lines, account, entity, Filed(fact, lines[k]));
  }

  lemma SplitsInside(fact: SourceFact, lines: seq<RuleLine>, k: nat)
    requires SplitsLine(fact, lines, k)
    ensures k < |lines|
  {
  }
}
