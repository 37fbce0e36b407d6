/**
 * Decimal strings and their scaled-integer reading (`decimal.ts`).
 *
 * Every amount crosses the package boundary as a string and is computed on as an integer of
 * `10^-scale` units. This module proves that the crossing loses nothing, so that the other
 * modules may speak of integers of micro-units.
 */
module Decimal {
  import opened Prelude
  import opened Sums

  const MONEY_SCALE: nat := 6

  // ----- Digits -----

  predicate IsDigit(c: char) {
    '0' <= c <= '9'
  }

  predicate AllDigits(s: string) {
    forall i :: 0 <= i < |s| ==> IsDigit(s[i])
  }

  function DigitOf(c: char): nat
    requires IsDigit(c)
  {
    c as int - '0' as int
  }

  function CharOf(n: nat): (c: char)
    requires n < 10
    ensures IsDigit(c) && DigitOf(c) == n
  {
    ('0' as int + n) as char
  }

  /** `BigInt(digits)`. */
  function DigitsValue(s: string): nat
    requires AllDigits(s)
  {
    if s == "" then 0 else 10 * DigitsValue(s[..|s| - 1]) + DigitOf(s[|s| - 1])
  }

  /** `units.toString()` for a non-negative BigInt. */
  function NatDigits(n: nat): (s: string)
    ensures s != "" && AllDigits(s)
  {
    if n < 10 then [CharOf(n)] else NatDigits(n / 10) + [CharOf(n % 10)]
  }

  function Zeros(n: nat): (s: string)
    ensures |s| == n && AllDigits(s)
  {
    seq(n, _ => '0')
  }

  /** `padStart(width, "0")`. */
  function PadStart(s: string, width: nat): (r: string)
    requires AllDigits(s)
    ensures AllDigits(r) && |r| >= width && |r| >= |s|
  {
    if |s| >= width then s else Zeros(width - |s|) + s
  }

  /** `units * 10^places`. */
  function Shift(units: int, places: nat): int
    decreases places
  {
    if places == 0 then units else Shift(10 * units, places - 1)
  }

  // ----- Parsing and formatting -----

  /** `indexOf(".")`, with the length standing for "absent". */
  function DotAt(s: string): (i: nat)
    ensures i <= |s|
  {
    if s == "" then 0 else if s[0] == '.' then 0 else 1 + DotAt(s[1..])
  }

  predicate StartsNegative(v: string) {
    v != "" && v[0] == '-'
  }

  function Unsigned(v: string): string {
    if StartsNegative(v) then v[1..] else v
  }

  /** The regular expression: optional sign, digits, optional point and digits. */
  predicate IsDecimalString(v: string) {
    IsUnsignedDecimal(Unsigned(v))
  }

  predicate IsUnsignedDecimal(u: string) {
    var dot := DotAt(u);
    && dot > 0
    && AllDigits(u[..dot])
    && (dot < |u| ==> dot + 1 < |u| && AllDigits(u[dot + 1..]))
  }

  datatype Scaled = Scaled(units: int, scale: nat)

  /** The digits of an unsigned decimal with the point removed. */
  function JoinedDigits(u: string): string {
    var dot := DotAt(u);
    if dot == |u| then u else u[..dot] + u[dot + 1..]
  }

  function FractionDigits(u: string): nat {
    var dot := DotAt(u);
    if dot >= |u| then 0 else |u| - dot - 1
  }

  function ParseScaled(v: string): Result<Scaled> {
    if !IsDecimalString(v) then Err(Validation)
    else
      var u := Unsigned(v);
      var magnitude: int := DigitsValue(JoinedDigits(u));
      Ok(Scaled(if StartsNegative(v) then -magnitude else magnitude, FractionDigits(u)))
  }

  function Rescale(value: Scaled, scale: nat): Result<int> {
    if scale == value.scale then Ok(value.units)
    else if scale < value.scale then Err(Validation)
    else Ok(Shift(value.units, scale - value.scale))
  }

  function ToUnits(v: string, scale: nat): Result<int> {
    var parsed :- ParseScaled(v);
    Rescale(parsed, scale)
  }

  function Render(negative: bool, whole: string, fraction: string): string {
    (if negative then "-" else "") + Pieces(whole, fraction)
  }

  function Pieces(whole: string, fraction: string): string {
    whole + if fraction == "" then "" else "." + fraction
  }

  /** The printed magnitude, padded so that at least one digit precedes the point. */
  function PaddedDigits(magnitude: nat, scale: nat): (d: string)
    ensures AllDigits(d) && |d| > scale
  {
    PadStart(NatDigits(magnitude), scale + 1)
  }

  function Magnitude(units: int): nat {
    if units < 0 then -units else units
  }

  function FromUnits(units: int, scale: nat): string {
    var digits := PaddedDigits(Magnitude(units), scale);
    var split := |digits| - scale;
    Render(units < 0, digits[..split], digits[split..])
  }

  /** `toMoneyString`, at any scale. */
  function Normalized(v: string, scale: nat): Result<string> {
    var units :- ToUnits(v, scale);
    Ok(FromUnits(units, scale))
  }

  function ToMoneyString(v: string): Result<string> {
    Normalized(v, MONEY_SCALE)
  }

  // ----- Round trip -----

  lemma {:induction false} ValueOfNatDigits(n: nat)
    ensures DigitsValue(NatDigits(n)) == n
  {
    var s := NatDigits(n);
    if n < 10 {
      assert s[..|s| - 1] == "";
    } else {
      ValueOfNatDigits(n / 10);
      assert s[..|s| - 1] == NatDigits(n / 10);
    }
  }

  lemma {:induction false} LeadingZerosAreFree(k: nat, s: string)
    requires AllDigits(s)
    ensures DigitsValue(Zeros(k) + s) == DigitsValue(s)
  {
    var z := Zeros(k) + s;
    if s == "" {
      if k > 0 {
        assert z[..|z| - 1] == Zeros(k - 1) + "";
        LeadingZerosAreFree(k - 1, "");
      } else {
        assert z == "";
      }
    } else {
      assert z[..|z| - 1] == Zeros(k) + s[..|s| - 1];
      LeadingZerosAreFree(k, s[..|s| - 1]);
    }
  }

  lemma PadStartKeepsValue(s: string, width: nat)
    requires AllDigits(s)
    ensures DigitsValue(PadStart(s, width)) == DigitsValue(s)
  {
    var k: nat := if |s| < width then width - |s| else 0;
    assert PadStart(s, width) == Zeros(k) + s;
    LeadingZerosAreFree(k, s);
  }

  lemma {:induction false} DotAtIs(s: string, i: nat)
    requires i <= |s| && AllDigits(s[..i]) && (i < |s| ==> s[i] == '.')
    ensures DotAt(s) == i
  {
    if i > 0 {
      assert IsDigit(s[..i][0]);
      assert s[1..][..i - 1] == s[..i][1..];
      DotAtIs(s[1..], i - 1);
    }
  }

  /** How `whole [. fraction]` is taken apart again. */
  lemma PiecesTakenApart(whole: string, fraction: string)
    requires AllDigits(whole) && AllDigits(fraction) && whole != ""
    ensures var u := Pieces(whole, fraction);
            && u != "" && IsDigit(u[0])
            && DotAt(u) == |whole| && u[..|whole|] == whole
            && IsDecimalString(u)
            && JoinedDigits(u) == whole + fraction && FractionDigits(u) == |fraction|
  {
    var u := Pieces(whole, fraction);
    assert u[0] == whole[0];
    assert u[..|whole|] == whole;
    DotAtIs(u, |whole|);
    if fraction == "" {
      assert whole + fraction == whole == u;
    } else {
      assert u[|whole| + 1..] == fraction;
    }
  }

  lemma RenderTakenApart(negative: bool, whole: string, fraction: string)
    requires AllDigits(whole) && AllDigits(fraction) && whole != ""
    ensures var v := Render(negative, whole, fraction);
            && Unsigned(v) == Pieces(whole, fraction)
            && StartsNegative(v) == negative && IsDecimalString(v)
  {
    PiecesTakenApart(whole, fraction);
    var v := Render(negative, whole, fraction);
    assert Unsigned(v) == Pieces(whole, fraction);
  }

  lemma PaddedDigitsValue(magnitude: nat, scale: nat)
    ensures DigitsValue(PaddedDigits(magnitude, scale)) == magnitude
  {
    ValueOfNatDigits(magnitude);
    PadStartKeepsValue(NatDigits(magnitude), scale + 1);
  }

  /** The digits, sign and fraction width of a rendered amount. */
  lemma FromUnitsTakenApart(units: int, scale: nat)
    ensures var v := FromUnits(units, scale);
            && IsDecimalString(v)
            && StartsNegative(v) == (units < 0)
            && JoinedDigits(Unsigned(v)) == PaddedDigits(Magnitude(units), scale)
            && FractionDigits(Unsigned(v)) == scale
  {
    var digits := PaddedDigits(Magnitude(units), scale);
    var split := |digits| - scale;
    assert digits[..split] + digits[split..] == digits;
    RenderTakenApart(units < 0, digits[..split], digits[split..]);
    PiecesTakenApart(digits[..split], digits[split..]);
  }

  /** Writing and reading back is the identity, for every integer and every scale. */
  lemma RoundTrip(units: int, scale: nat)
    ensures ToUnits(FromUnits(units, scale), scale) == Ok(units)
  {
    FromUnitsTakenApart(units, scale);
    PaddedDigitsValue(Magnitude(units), scale);
    assert ParseScaled(FromUnits(units, scale)) == Ok(Scaled(units, scale));
  }

  lemma FromUnitsInjective(a: int, b: int, scale: nat)
    ensures FromUnits(a, scale) == FromUnits(b, scale) <==> a == b
  {
    RoundTrip(a, scale);
    RoundTrip(b, scale);
  }

  /** A rendered amount starts with `-` exactly when it is negative (never "-0.000000"). */
  lemma SignIsVisible(units: int, scale: nat)
    ensures StartsNegative(FromUnits(units, scale)) <==> units < 0
  {
    FromUnitsTakenApart(units, scale);
  }

  // ----- The canonical six-digit form -----

  /** Exactly `scale` fraction digits, no superfluous leading zero, no negative zero. */
  predicate IsCanonical(v: string, scale: nat) {
    && IsDecimalString(v)
    && FractionDigits(Unsigned(v)) == scale
    && var digits := JoinedDigits(Unsigned(v));
       && AllDigits(digits) && |digits| > scale
       && (|digits| == scale + 1 || digits[0] != '0')
       && (StartsNegative(v) ==> DigitsValue(digits) > 0)
  }

  /** Padding the printed value back to the original width restores the digits. */
  lemma {:induction false} PrintThenPad(d: string)
    requires AllDigits(d) && d != ""
    ensures |NatDigits(DigitsValue(d))| <= |d|
    ensures PadStart(NatDigits(DigitsValue(d)), |d|) == d
  {
    var e, c := d[..|d| - 1], d[|d| - 1];
    assert d == e + [c];
    if e == "" {
      assert DigitsValue(e) == 0;
      assert NatDigits(DigitsValue(d)) == d;
    } else {
      PrintThenPad(e);
      PadOneMore(DigitsValue(e), e, c);
    }
  }

  lemma PadOneMore(v: nat, e: string, c: char)
    requires IsDigit(c) && e != "" && |NatDigits(v)| <= |e| && PadStart(NatDigits(v), |e|) == e
    ensures |NatDigits(10 * v + DigitOf(c))| <= |e| + 1
    ensures PadStart(NatDigits(10 * v + DigitOf(c)), |e| + 1) == e + [c]
  {
    var printed := NatDigits(10 * v + DigitOf(c));
    if v == 0 {
      assert printed == [c];
      assert e == Zeros(|e|);
    } else {
      assert printed == NatDigits(v) + [c];
    }
  }

  lemma FromUnitsIsCanonical(units: int, scale: nat)
    ensures IsCanonical(FromUnits(units, scale), scale)
  {
    FromUnitsTakenApart(units, scale);
    PaddedDigitsValue(Magnitude(units), scale);
    NoLeadingZero(Magnitude(units));
  }

  lemma {:induction false} NoLeadingZero(n: nat)
    ensures |NatDigits(n)| > 1 ==> NatDigits(n)[0] != '0'
  {
    if n >= 10 {
      NoLeadingZero(n / 10);
      if n < 100 {
        assert NatDigits(n / 10) == [CharOf(n / 10)];
      }
    }
  }

  /** The integer a canonical string denotes. */
  function CanonicalUnits(v: string, scale: nat): int
    requires IsCanonical(v, scale)
  {
    var magnitude: int := DigitsValue(JoinedDigits(Unsigned(v)));
    if StartsNegative(v) then -magnitude else magnitude
  }

  lemma CanonicalPrints(v: string, scale: nat)
    requires IsCanonical(v, scale)
    ensures FromUnits(CanonicalUnits(v, scale), scale) == v
  {
    hide DigitsValue, JoinedDigits, PaddedDigits, Pieces, FractionDigits, IsUnsignedDecimal;
    var u := Unsigned(v);
    var digits := JoinedDigits(u);
    CanonicalDigits(digits, scale);
    CanonicalPieces(u, scale);
    assert v == (if StartsNegative(v) then "-" else "") + u;
  }

  /** Printing the value of a canonical string gives that string back. */
  lemma CanonicalIsFixed(v: string, scale: nat)
    requires IsCanonical(v, scale)
    ensures Normalized(v, scale) == Ok(v)
  {
    CanonicalPrints(v, scale);
    assert ToUnits(v, scale) == Ok(CanonicalUnits(v, scale));
  }

  /** Splitting the joined digits `scale` from the end finds the point again. */
  lemma CanonicalPieces(u: string, scale: nat)
    requires IsUnsignedDecimal(u) && FractionDigits(u) == scale
    ensures |JoinedDigits(u)| > scale
    ensures var split := |JoinedDigits(u)| - scale;
            u == Pieces(JoinedDigits(u)[..split], JoinedDigits(u)[split..])
  {
    var dot := DotAt(u);
    var digits := JoinedDigits(u);
    if dot < |u| {
      DotIsThere(u);
      assert digits[..|digits| - scale] == u[..dot];
      assert digits[|digits| - scale..] == u[dot + 1..];
    }
  }

  lemma {:induction false} DotIsThere(s: string)
    requires DotAt(s) < |s|
    ensures s[DotAt(s)] == '.'
  {
    if s[0] != '.' {
      DotIsThere(s[1..]);
    }
  }

  lemma CanonicalDigits(digits: string, scale: nat)
    requires AllDigits(digits) && |digits| > scale
    requires |digits| == scale + 1 || digits[0] != '0'
    ensures PaddedDigits(DigitsValue(digits), scale) == digits
  {
    PrintThenPad(digits);
    PaddingShows(NatDigits(DigitsValue(digits)), |digits|);
  }

  lemma PaddingShows(s: string, width: nat)
    requires AllDigits(s)
    ensures |s| < width ==> PadStart(s, width)[0] == '0'
  {
  }

  /** The strings `toMoneyString` accepts: decimals with at most six fraction digits. */
  lemma AcceptedExactly(v: string)
    ensures ToMoneyString(v).Ok?
            <==> IsDecimalString(v) && FractionDigits(Unsigned(v)) <= MONEY_SCALE
  {
  }

  /** `toMoneyString` is idempotent, and its image is exactly the canonical strings. */
  lemma MoneyStringIdempotent(v: string, scale: nat)
    requires Normalized(v, scale).Ok?
    ensures IsCanonical(Normalized(v, scale).value, scale)
    ensures Normalized(Normalized(v, scale).value, scale) == Normalized(v, scale)
    ensures Normalized(v, scale).value == v <==> IsCanonical(v, scale)
  {
    var units := ToUnits(v, scale).value;
    RoundTrip(units, scale);
    FromUnitsIsCanonical(units, scale);
    if IsCanonical(v, scale) {
      CanonicalIsFixed(v, scale);
    }
  }

  /** One canonical form per amount: equal strings out exactly for equal amounts in. */
  lemma MoneyStringUnique(v: string, w: string, scale: nat)
    requires Normalized(v, scale).Ok? && Normalized(w, scale).Ok?
    ensures Normalized(v, scale) == Normalized(w, scale)
            <==> ToUnits(v, scale) == ToUnits(w, scale)
  {
    FromUnitsInjective(ToUnits(v, scale).value, ToUnits(w, scale).value, scale);
  }

  // ----- Arithmetic on strings -----

  predicate AllMoney(values: seq<string>) {
    forall i :: 0 <= i < |values| ==> ToUnits(values[i], MONEY_SCALE).Ok?
  }

  function UnitsOrZero(v: string): int {
    match ToUnits(v, MONEY_SCALE) case Ok(u) => u case Err(_) => 0
  }

  /** Fails on the first malformed value; otherwise the exact total, rendered. */
  method SumDecimals(values: seq<string>) returns (r: Result<string>)
    ensures r.Ok? <==> AllMoney(values)
    ensures r.Ok? ==> r.value == FromUnits(Total(values, UnitsOrZero), MONEY_SCALE)
  {
    var total := 0;
    for i := 0 to |values|
      invariant total == Total(values[..i], UnitsOrZero)
      invariant AllMoney(values[..i])
    {
      assert values[..i + 1] == values[..i] + [values[i]];
      TotalAppend(values[..i], values[i], UnitsOrZero);
      var units := ToUnits(values[i], MONEY_SCALE);
      if units.Err? {
        return Err(units.error);
      }
      total := total + units.value;
    }
    assert values[..|values|] == values;
    r := Ok(FromUnits(total, MONEY_SCALE));
  }

  // The source fixes the scale of these to `MONEY_SCALE`; the laws hold at every scale.

  function SubtractDecimals(a: string, b: string, scale: nat := MONEY_SCALE): Result<string> {
    var left :- ToUnits(a, scale);
    var right :- ToUnits(b, scale);
    Ok(FromUnits(left - right, scale))
  }

  function NegateDecimal(v: string, scale: nat := MONEY_SCALE): Result<string> {
    var units :- ToUnits(v, scale);
    Ok(FromUnits(-units, scale))
  }

  function AbsDecimal(v: string, scale: nat := MONEY_SCALE): Result<string> {
    var units :- ToUnits(v, scale);
    Ok(FromUnits(if units < 0 then -units else units, scale))
  }

  function CompareDecimals(a: string, b: string, scale: nat := MONEY_SCALE): Result<int> {
    var left :- ToUnits(a, scale);
    var right :- ToUnits(b, scale);
    Ok(if left == right then 0 else if left < right then -1 else 1)
  }

  // Each operation commutes with the integer reading. Results are rendered, hence canonical, so
  // equal readings mean equal strings (`MoneyStringUnique`).

  lemma SubtractReads(a: string, b: string, d: string, x: int, y: int, scale: nat)
    requires ToUnits(a, scale) == Ok(x) && ToUnits(b, scale) == Ok(y)
    requires SubtractDecimals(a, b, scale) == Ok(d)
    ensures ToUnits(d, scale) == Ok(x - y)
    ensures StartsNegative(d) <==> CompareDecimals(a, b, scale) == Ok(-1)
  {
    hide ToUnits, FromUnits;
    RoundTrip(x - y, scale);
    SignIsVisible(x - y, scale);
  }

  lemma NegateReads(a: string, n: string, x: int, scale: nat)
    requires ToUnits(a, scale) == Ok(x) && NegateDecimal(a, scale) == Ok(n)
    ensures ToUnits(n, scale) == Ok(-x)
  {
    RoundTrip(-x, scale);
  }

  lemma AbsReads(a: string, m: string, x: int, scale: nat)
    requires ToUnits(a, scale) == Ok(x) && AbsDecimal(a, scale) == Ok(m)
    ensures ToUnits(m, scale) == Ok(if x < 0 then -x else x) && !StartsNegative(m)
  {
    RoundTrip(if x < 0 then -x else x, scale);
    SignIsVisible(if x < 0 then -x else x, scale);
  }

  /** Only a malformed operand makes these fail. */
  lemma OperationsFailTogether(a: string, b: string, scale: nat)
    ensures NegateDecimal(a, scale).Ok? <==> ToUnits(a, scale).Ok?
    ensures SubtractDecimals(a, b, scale).Ok?
            <==> NegateDecimal(a, scale).Ok? && NegateDecimal(b, scale).Ok?
    ensures CompareDecimals(a, b, scale).Ok? <==> SubtractDecimals(a, b, scale).Ok?
  {
  }

  // ----- The number a string stands for -----

  function Pow10(n: nat): nat {
    if n == 0 then 1 else 10 * Pow10(n - 1)
  }

  lemma {:induction false} ShiftIsPower(units: int, places: nat)
    ensures Shift(units, places) == units * Pow10(places)
    decreases places
  {
    if places > 0 {
      ShiftIsPower(10 * units, places - 1);
      assert 10 * units * Pow10(places - 1) == units * (10 * Pow10(places - 1));
    }
  }

  lemma {:induction false} DigitsJoin(whole: string, fraction: string)
    requires AllDigits(whole) && AllDigits(fraction)
    ensures AllDigits(whole + fraction)
    ensures DigitsValue(whole + fraction) == DigitsValue(whole) * Pow10(|fraction|) + DigitsValue(fraction)
  {
    if fraction == "" {
      assert whole + fraction == whole;
    } else {
      var k := |fraction| - 1;
      DigitsJoin(whole, fraction[..k]);
      assert (whole + fraction)[..|whole + fraction| - 1] == whole + fraction[..k];
      assert 10 * (DigitsValue(whole) * Pow10(k)) == DigitsValue(whole) * (10 * Pow10(k));
    }
  }

  /** A decimal reads as its digits say, to the last place of the scale, and fails exactly when it has more places. */
  lemma ReadsAsWritten(negative: bool, whole: string, fraction: string, scale: nat)
    requires AllDigits(whole) && AllDigits(fraction) && whole != ""
    ensures var r := ToUnits(Render(negative, whole, fraction), scale);
            && (r.Ok? <==> |fraction| <= scale)
            && (r.Ok? ==> r.value == (if negative then -1 else 1)
                                     * ((DigitsValue(whole) * Pow10(|fraction|) + DigitsValue(fraction)) * Pow10(scale - |fraction|)))
  {
    hide DigitsValue, Shift, Pow10;
    var v := Render(negative, whole, fraction);
    RenderTakenApart(negative, whole, fraction);
    PiecesTakenApart(whole, fraction);
    DigitsJoin(whole, fraction);
    var magnitude: int := DigitsValue(whole + fraction);
    assert ParseScaled(v) == Ok(Scaled(if negative then -magnitude else magnitude, |fraction|));
    if |fraction| <= scale {
      ShiftIsPower(if negative then -magnitude else magnitude, scale - |fraction|);
      ShiftIsPower(magnitude, 0);
      NothingShifts(if negative then -magnitude else magnitude);
    }
  }

  lemma NothingShifts(units: int)
    ensures Shift(units, 0) == units
  {
  }

  /** Comparison says how the numbers read compare. */
  lemma CompareReads(a: string, b: string, x: int, y: int, scale: nat)
    requires ToUnits(a, scale) == Ok(x) && ToUnits(b, scale) == Ok(y)
    ensures CompareDecimals(a, b, scale) == Ok(if x < y then -1 else if x > y then 1 else 0)
  {
  }
}
