/**
 * Cost of goods sold: how `readInventoryMovement` (`source-facts.ts`) apportions an item's frozen
 * landed cost over its depletions by differencing two cumulative shares.
 */
module CostApportionment {
  import opened Prelude
  import opened Sums
  import opened Rounding

  datatype MovementKind =
    | Receipt | TransferIn | ReturnIn | AdjustmentIn | Found
    | TransferOut | DepletionSale | AdjustmentOut | Shrinkage | Disposal | Consumption
    | Reversal

  /** `at` is the instant it occurred; quantities are micro-units of a unit. */
  datatype Movement = Movement(id: nat, item: nat, kind: MovementKind, quantity: int, at: int, reverses: Option<nat>)

  /** `landed` is the frozen basis, `quantity` what the row held originally. */
  datatype Item = Item(landed: int, quantity: int)

  /** The row comparison `(occurred_at, id) < (occurred_at, id)`. */
  predicate Earlier(p: Movement, m: Movement) {
    p.at < m.at || (p.at == m.at && p.id < m.id)
  }

  predicate Depletes(p: Movement, item: nat) {
    p.item == item && p.kind == DepletionSale
  }

  function PriorWeight(m: Movement): Movement -> int {
    (p: Movement) => if Depletes(p, m.item) && Earlier(p, m) then Abs(p.quantity) else 0
  }

  /** Every earlier depletion of the item, reversed since or not. */
  function PriorDepleted(ms: seq<Movement>, m: Movement): int {
    Total(ms, PriorWeight(m))
  }

  function Basis(item: Item, prior: int, quantity: int): int {
    Share(item.landed, prior + quantity, item.quantity) - Share(item.landed, prior, item.quantity)
  }

  function FindMovement(ms: seq<Movement>, id: nat): (r: Option<nat>)
    ensures r.Some? ==> r.value < |ms| && ms[r.value].id == id
    ensures r.None? ==> forall i :: 0 <= i < |ms| ==> ms[i].id != id
  {
    Find(ms, (m: Movement) => m.id == id)
  }

  /** The movement a reversal undoes. */
  function Undone(ms: seq<Movement>, m: Movement): Option<Movement> {
    if m.kind != Reversal || m.reverses.None? then None
    else match FindMovement(ms, m.reverses.value)
      case Some(i) => if i < |ms| then Some(ms[i]) else None
      case None => None
  }

  /** A reversal reads the quantity and the place of the movement it undoes, not its own. */
  function ReadBasis(ms: seq<Movement>, row: Item, m: Movement): int {
    var source := if Undone(ms, m).Some? then Undone(ms, m).value else m;
    Basis(row, PriorDepleted(ms, source), Abs(source.quantity))
  }

  /** `movementIneligibility`: only a sale's depletion posts, and the reversal of one. */
  predicate Eligible(ms: seq<Movement>, m: Movement) {
    m.kind == DepletionSale
    || (m.kind == Reversal && Undone(ms, m).Some? && Undone(ms, m).value.kind == DepletionSale)
  }

  // ----- Sign and size -----

  /** A basis carries the landed cost's sign and never exceeds it. */
  lemma BasisWithin(item: Item, prior: int, quantity: int)
    requires prior >= 0 && quantity >= 0
    ensures item.landed >= 0 ==> 0 <= Basis(item, prior, quantity) <= item.landed
    ensures item.landed <= 0 ==> item.landed <= Basis(item, prior, quantity) <= 0
  {
    hide Share;
    ShareMonotone(item.landed, prior, prior + quantity, item.quantity);
    ShareWithin(item.landed, prior, item.quantity);
    ShareWithin(item.landed, prior + quantity, item.quantity);
  }

  lemma PriorNatural(ms: seq<Movement>, m: Movement)
    ensures PriorDepleted(ms, m) >= 0
  {
    TotalZero(ms, (p: Movement) => 0);
    TotalMonotone(ms, (p: Movement) => 0, PriorWeight(m));
  }

  // ----- Telescoping -----

  function DepletionWeight(item: nat): Movement -> int {
    (p: Movement) => if Depletes(p, item) then Abs(p.quantity) else 0
  }

  function BasisWeight(ms: seq<Movement>, row: Item, item: nat): Movement -> int {
    (p: Movement) => if Depletes(p, item) then ReadBasis(ms, row, p) else 0
  }

  ghost predicate DistinctIds(ms: seq<Movement>) {
    forall i, j :: 0 <= i < j < |ms| ==> ms[i].id != ms[j].id
  }

  /** The position of the latest depletion of the item. */
  function Latest(ms: seq<Movement>, item: nat): (r: Option<nat>)
    requires DistinctIds(ms)
    ensures r.None? ==> forall i :: 0 <= i < |ms| ==> !Depletes(ms[i], item)
    ensures r.Some? ==> r.value < |ms| && Depletes(ms[r.value], item)
    ensures r.Some? ==> forall i :: 0 <= i < |ms| && i != r.value && Depletes(ms[i], item) ==> Earlier(ms[i], ms[r.value])
  {
    if ms == [] then None
    else
      var k := |ms| - 1;
      var init := Latest(ms[..k], item);
      if !Depletes(ms[k], item) then init
      else if init.Some? && Earlier(ms[k], ms[init.value]) then init
      else Some(k)
  }

  function Without(ms: seq<Movement>, i: nat): seq<Movement>
    requires i < |ms|
  {
    ms[..i] + ms[i + 1..]
  }

  /** Removing the latest depletion changes no other movement's place. */
  lemma PriorWithout(ms: seq<Movement>, i: nat, m: Movement)
    requires i < |ms| && !(Depletes(ms[i], m.item) && Earlier(ms[i], m))
    ensures PriorDepleted(Without(ms, i), m) == PriorDepleted(ms, m)
  {
    TotalRemove(ms, i, PriorWeight(m));
  }

  /** Everything the item ever depleted comes before its latest depletion. */
  lemma PriorOfLatest(ms: seq<Movement>, item: nat)
    requires DistinctIds(ms) && Latest(ms, item).Some?
    ensures var m := ms[Latest(ms, item).value];
            PriorDepleted(ms, m) + Abs(m.quantity) == Total(ms, DepletionWeight(item))
  {
    var i := Latest(ms, item).value;
    var rest := Without(ms, i);
    TotalRemove(ms, i, PriorWeight(ms[i]));
    TotalRemove(ms, i, DepletionWeight(item));
    forall k | 0 <= k < |rest| ensures PriorWeight(ms[i])(rest[k]) == DepletionWeight(item)(rest[k]) {
      var at := if k < i then k else k + 1;
      assert rest[k] == ms[at];
    }
    TotalSame(rest, PriorWeight(ms[i]), DepletionWeight(item));
  }

  lemma BasesWithout(ms: seq<Movement>, row: Item, item: nat)
    requires DistinctIds(ms) && Latest(ms, item).Some?
    ensures var i := Latest(ms, item).value;
            Total(ms, BasisWeight(ms, row, item))
            == Total(Without(ms, i), BasisWeight(Without(ms, i), row, item)) + ReadBasis(ms, row, ms[i])
  {
    hide Share, Basis;
    var i := Latest(ms, item).value;
    var rest := Without(ms, i);
    TotalRemove(ms, i, BasisWeight(ms, row, item));
    forall k | 0 <= k < |rest| ensures BasisWeight(ms, row, item)(rest[k]) == BasisWeight(rest, row, item)(rest[k]) {
      var at := if k < i then k else k + 1;
      assert rest[k] == ms[at];
      if Depletes(rest[k], item) {
        PriorWithout(ms, i, rest[k]);
      }
    }
    TotalSame(rest, BasisWeight(ms, row, item), BasisWeight(rest, row, item));
  }

  /**
   * For any finite set of movements, in whatever order they are stored, the bases read for an
   * item's depletions add up to one share of the landed cost: that of all it depleted.
   */
  lemma {:induction false} BasesTelescope(ms: seq<Movement>, row: Item, item: nat)
    requires DistinctIds(ms)
    ensures Total(ms, BasisWeight(ms, row, item)) == Share(row.landed, Total(ms, DepletionWeight(item)), row.quantity)
    decreases |ms|
  {
    hide Share, ReadBasis;
    if Latest(ms, item).None? {
      TotalZero(ms, BasisWeight(ms, row, item));
      TotalZero(ms, DepletionWeight(item));
      NothingShared(row);
    } else {
      var i := Latest(ms, item).value;
      var rest := Without(ms, i);
      assert DistinctIds(rest) by { WithoutDistinct(ms, i); }
      BasesTelescope(rest, row, item);
      BasesWithout(ms, row, item);
      PriorOfLatest(ms, item);
      TotalRemove(ms, i, DepletionWeight(item));
      OwnBasis(ms, row, ms[i]);
    }
  }

  lemma NothingShared(row: Item)
    ensures Share(row.landed, 0, row.quantity) == 0
  {
  }

  lemma WithoutDistinct(ms: seq<Movement>, i: nat)
    requires DistinctIds(ms) && i < |ms|
    ensures DistinctIds(Without(ms, i))
  {
  }

  lemma OwnBasis(ms: seq<Movement>, row: Item, m: Movement)
    requires m.kind == DepletionSale
    ensures ReadBasis(ms, row, m) == Basis(row, PriorDepleted(ms, m), Abs(m.quantity))
  {
  }

  /** An item depleted to the last unit releases exactly its landed cost. */
  lemma FullyDepletedReleasesAll(ms: seq<Movement>, row: Item, item: nat)
    requires DistinctIds(ms) && row.quantity > 0
    ensures Total(ms, DepletionWeight(item)) >= row.quantity ==> Total(ms, BasisWeight(ms, row, item)) == row.landed
    ensures row.landed >= 0 ==> 0 <= Total(ms, BasisWeight(ms, row, item)) <= row.landed
  {
    BasesTelescope(ms, row, item);
    ShareWithin(row.landed, Total(ms, DepletionWeight(item)), row.quantity);
  }

  // ----- Reversals -----

  /** A reversal's basis is the basis of the movement it reverses. */
  lemma ReversalReadsItsOriginal(ms: seq<Movement>, row: Item, i: nat, m: Movement)
    requires DistinctIds(ms) && i < |ms| && ms[i].kind == DepletionSale && m.kind == Reversal && m.reverses == Some(ms[i].id)
    ensures Eligible(ms, m) && ReadBasis(ms, row, m) == ReadBasis(ms, row, ms[i])
  {
    hide Basis, PriorDepleted;
    var found := FindMovement(ms, ms[i].id);
    assert found.Some? && ms[found.value].id == ms[i].id;
    assert found.value == i;
  }

  predicate Reverses(r: Movement, m: Movement) {
    r.kind == Reversal && r.reverses == Some(m.id)
  }

  /** What reaches the cost account: depletions add their basis, their reversals take it back. */
  function NetWeight(ms: seq<Movement>, row: Item, item: nat): Movement -> int {
    (m: Movement) =>
      if m.item != item || !Eligible(ms, m) then 0
      else if m.kind == DepletionSale then ReadBasis(ms, row, m)
      else -ReadBasis(ms, row, m)
  }

  function NetCost(ms: seq<Movement>, row: Item, item: nat): int {
    Total(ms, NetWeight(ms, row, item))
  }

  /** Reversals stay within their item, and no movement is reversed twice. */
  ghost predicate ReversedOnce(ms: seq<Movement>) {
    && (forall i, j :: 0 <= i < |ms| && 0 <= j < |ms| && Reverses(ms[i], ms[j]) ==> ms[i].item == ms[j].item)
    && (forall i, j, k | 0 <= i < j < |ms| && 0 <= k < |ms| :: !(Reverses(ms[i], ms[k]) && Reverses(ms[j], ms[k])))
  }

  function Back(ms: seq<Movement>, row: Item, item: nat): Movement -> Movement -> int {
    (r: Movement) => (m: Movement) => if Reverses(r, m) && Depletes(m, item) then ReadBasis(ms, row, m) else 0
  }

  function BackTo(ms: seq<Movement>, row: Item, item: nat): Movement -> Movement -> int {
    (m: Movement) => (r: Movement) => if Reverses(r, m) && Depletes(m, item) then ReadBasis(ms, row, m) else 0
  }

  /** What a movement takes back, found by looking through all of them. */
  lemma TakesBack(ms: seq<Movement>, row: Item, item: nat, r: Movement)
    requires DistinctIds(ms) && ReversedOnce(ms) && r in ms
    ensures Total(ms, Back(ms, row, item)(r))
            == if r.kind == Reversal && r.item == item && Eligible(ms, r) then ReadBasis(ms, row, r) else 0
  {
    hide Basis, ReadBasis, PriorDepleted;
    if r.kind == Reversal && Undone(ms, r).Some? {
      var i := FindMovement(ms, r.reverses.value).value;
      TotalOnly(ms, i, Back(ms, row, item)(r));
      assert Reverses(r, ms[i]);
      if ms[i].kind == DepletionSale {
        ReversalReadsItsOriginal(ms, row, i, r);
      }
    } else {
      TotalZero(ms, Back(ms, row, item)(r));
    }
  }

  /** A depletion gives back nothing, or its whole basis once. */
  lemma GivesBack(ms: seq<Movement>, row: Item, item: nat, m: Movement)
    requires ReversedOnce(ms) && m in ms
    ensures var back := Total(ms, BackTo(ms, row, item)(m)); back == 0 || back == BasisWeight(ms, row, item)(m)
  {
    hide ReadBasis;
    var w := BackTo(ms, row, item)(m);
    var at :| 0 <= at < |ms| && ms[at] == m;
    if i :| 0 <= i < |ms| && Reverses(ms[i], m) {
      forall k | 0 <= k < |ms| && k != i ensures w(ms[k]) == 0 {
        assert !(Reverses(ms[i], ms[at]) && Reverses(ms[k], ms[at]));
        assert !Reverses(ms[k], m);
      }
      TotalOnly(ms, i, w);
    } else {
      TotalZero(ms, w);
    }
  }

  lemma NetIsBasesLessBack(ms: seq<Movement>, row: Item, item: nat)
    requires DistinctIds(ms) && ReversedOnce(ms)
    ensures NetCost(ms, row, item)
            == Total(ms, BasisWeight(ms, row, item)) - Total(ms, Inner(ms, BackTo(ms, row, item)))
  {
    hide ReadBasis, Back, BackTo, Eligible, Undone;
    var taken := Inner(ms, Back(ms, row, item));
    forall i | 0 <= i < |ms|
      ensures BasisWeight(ms, row, item)(ms[i]) == NetWeight(ms, row, item)(ms[i]) + taken(ms[i])
    {
      TakesBack(ms, row, item, ms[i]);
      EligibleKinds(ms, ms[i]);
    }
    TotalAdd(ms, NetWeight(ms, row, item), taken, BasisWeight(ms, row, item));
    SwapBack(ms, row, item);
  }

  lemma EligibleKinds(ms: seq<Movement>, m: Movement)
    ensures m.kind == DepletionSale ==> Eligible(ms, m)
    ensures Eligible(ms, m) ==> m.kind == DepletionSale || m.kind == Reversal
  {
  }

  lemma SwapBack(ms: seq<Movement>, row: Item, item: nat)
    ensures Total(ms, Inner(ms, Back(ms, row, item))) == Total(ms, Inner(ms, BackTo(ms, row, item)))
  {
    hide ReadBasis;
    TotalSwap(ms, ms, Back(ms, row, item), BackTo(ms, row, item));
  }

  /** Net cost of goods sold never leaves the range from nothing to the landed cost. */
  lemma NetCostWithin(ms: seq<Movement>, row: Item, item: nat)
    requires DistinctIds(ms) && ReversedOnce(ms) && row.landed >= 0 && row.quantity > 0
    ensures 0 <= NetCost(ms, row, item) <= row.landed
  {
    hide ReadBasis, BackTo, NetCost, Share;
    var given := Inner(ms, BackTo(ms, row, item));
    NetIsBasesLessBack(ms, row, item);
    FullyDepletedReleasesAll(ms, row, item);
    forall i | 0 <= i < |ms| ensures 0 <= given(ms[i]) <= BasisWeight(ms, row, item)(ms[i]) {
      GivesBack(ms, row, item, ms[i]);
      BasisWeightNatural(ms, row, item, ms[i]);
    }
    TotalMonotone(ms, given, BasisWeight(ms, row, item));
    TotalZero(ms, (m: Movement) => 0);
    TotalMonotone(ms, (m: Movement) => 0, given);
  }

  lemma BasisWeightNatural(ms: seq<Movement>, row: Item, item: nat, m: Movement)
    requires row.landed >= 0
    ensures BasisWeight(ms, row, item)(m) >= 0
  {
    if Depletes(m, item) {
      OwnBasis(ms, row, m);
      PriorNatural(ms, m);
      BasisWithin(row, PriorDepleted(ms, m), Abs(m.quantity));
    }
  }

  // ----- One movement's basis -----

  /** The movement itself, or for a reversal of a known one, that one. */
  ghost predicate ReadFor(ms: seq<Movement>, m: Movement, o: Movement) {
    if m.kind == Reversal && exists i :: 0 <= i < |ms| && m.reverses == Some(ms[i].id) then o in ms && m.reverses == Some(o.id) else o == m
  }

  /** What sales depleted of the item before it, by instant and then id. */
  function DepletedBefore(o: Movement): Movement -> int {
    (p: Movement) =>
      if p.item == o.item && p.kind == DepletionSale && (p.at < o.at || (p.at == o.at && p.id < o.id))
      then (if p.quantity < 0 then -p.quantity else p.quantity) else 0
  }

  /** The share of the landed cost up to and with it, less the share before it. */
  lemma BasisExactly(ms: seq<Movement>, row: Item, m: Movement, o: Movement)
    requires DistinctIds(ms) && ReadFor(ms, m, o)
    ensures var before, quantity := Total(ms, DepletedBefore(o)), if o.quantity < 0 then -o.quantity else o.quantity;
            ReadBasis(ms, row, m) == Share(row.landed, before + quantity, row.quantity) - Share(row.landed, before, row.quantity)
  {
    hide Share;
    TotalSame(ms, DepletedBefore(o), PriorWeight(o));
    if m.kind == Reversal && m.reverses.Some? {
      var found := FindMovement(ms, m.reverses.value);
      if found.Some? {
        var k :| 0 <= k < |ms| && ms[k] == o;
        assert ms[found.value].id == ms[k].id;
      }
    }
  }
}
