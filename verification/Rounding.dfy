/**
 * The two rounding functions of `decimal.ts`, on micro-unit integers.
 *
 * Both are `Nearest`: the quotient of two naturals rounded half up, with the sign carried
 * separately. `Nearest` is characterised by one inequality, and every law below follows from it.
 */
module Rounding {

  const MICRO: int := 1_000_000

  function Abs(x: int): int {
    if x < 0 then -x else x
  }

  /** `quotient + 1` when twice the remainder reaches the divisor, else `quotient`. */
  function Nearest(n: int, d: int): int
    requires n >= 0 && d > 0
  {
    if (n % d) * 2 >= d then n / d + 1 else n / d
  }

  /** `multiplyDecimals`: value times multiplier at money scale, half away from zero. */
  function MulRound(value: int, multiplier: int): int {
    var scaled := value * multiplier;
    var rounded := Nearest(Abs(scaled), MICRO);
    if scaled < 0 then -rounded else rounded
  }

  /** `proRataShare`: total times part over whole, clamped at both ends. */
  function Share(total: int, part: int, whole: int): int {
    if whole <= 0 then 0
    else if part <= 0 then 0
    else if part >= whole then total
    else
      var rounded := Nearest(Abs(total) * part, whole);
      if total < 0 then -rounded else rounded
  }

  // ----- The characterisation of Nearest -----

  /** `r` is the rounded quotient exactly when `2n` lies in the half-open window around `2dr`. */
  lemma NearestCharacterised(n: int, d: int, r: int)
    requires n >= 0 && d > 0
    ensures r == Nearest(n, d) <==> 2 * (d * r) - d <= 2 * n < 2 * (d * r) + d
  {
    var q, rem := n / d, n % d;
    assert n == d * q + rem;
    var k := Nearest(n, d);
    if rem * 2 >= d {
      assert d * k == d * q + d;
    }
    assert 2 * (d * k) - d <= 2 * n < 2 * (d * k) + d;
    ProductGap(d, r, k);
    ProductGap(d, k, r);
  }

  lemma ProductLe(d: int, a: int, b: int)
    requires 0 <= d && a <= b
    ensures d * a <= d * b
  {
    assert d * b - d * a == d * (b - a);
  }

  /** Distinct multiples of `d` are at least `d` apart. */
  lemma ProductGap(d: int, a: int, b: int)
    requires 0 <= d
    ensures a < b ==> d * a + d <= d * b
  {
    if a < b {
      ProductLe(d, a + 1, b);
      assert d * (a + 1) == d * a + d;
    }
  }

  lemma NearestMonotone(n: int, m: int, d: int)
    requires d > 0 && 0 <= n <= m
    ensures Nearest(n, d) <= Nearest(m, d)
  {
    var a, b := Nearest(n, d), Nearest(m, d);
    NearestCharacterised(n, d, a);
    NearestCharacterised(m, d, b);
    ProductGap(d, b, a);
  }

  lemma NearestOfMultiple(k: int, d: int)
    requires d > 0 && k >= 0
    ensures Nearest(k * d, d) == k
  {
    NearestCharacterised(k * d, d, k);
  }

  // ----- multiplyDecimals -----

  /** Odd in each argument, so a debit and the credit that mirrors it never disagree. */
  lemma MulRoundOdd(value: int, multiplier: int)
    ensures MulRound(-value, multiplier) == -MulRound(value, multiplier)
    ensures MulRound(value, -multiplier) == -MulRound(value, multiplier)
  {
    assert (-value) * multiplier == -(value * multiplier);
    assert value * (-multiplier) == -(value * multiplier);
  }

  /** Within half a micro-unit of the exact product; a tie goes away from zero. */
  lemma MulRoundNearest(value: int, multiplier: int)
    ensures 2 * Abs(MICRO * MulRound(value, multiplier) - value * multiplier) <= MICRO
    ensures 2 * Abs(MICRO * MulRound(value, multiplier) - value * multiplier) == MICRO
            ==> MICRO * Abs(MulRound(value, multiplier)) > Abs(value * multiplier)
  {
    var n := Abs(value * multiplier);
    NearestCharacterised(n, MICRO, Nearest(n, MICRO));
  }

  /** Those two facts determine the result: nothing else is a half-away-from-zero rounding. */
  lemma MulRoundUnique(value: int, multiplier: int, r: int)
    requires 2 * Abs(MICRO * r - value * multiplier) <= MICRO
    requires 2 * Abs(MICRO * r - value * multiplier) == MICRO
             ==> MICRO * Abs(r) > Abs(value * multiplier)
    ensures r == MulRound(value, multiplier)
  {
    var x := value * multiplier;
    var n := Abs(x);
    if x < 0 {
      NearestCharacterised(n, MICRO, -r);
    } else {
      NearestCharacterised(n, MICRO, r);
    }
  }

  /** No rounding happens for a whole-number multiplier. */
  lemma MulRoundExact(value: int, k: int)
    ensures MulRound(value, k * MICRO) == value * k
  {
    var x := value * (k * MICRO);
    assert x == (value * k) * MICRO;
    if x < 0 {
      assert Abs(x) == (-(value * k)) * MICRO;
      NearestOfMultiple(-(value * k), MICRO);
    } else {
      NearestOfMultiple(value * k, MICRO);
    }
  }

  lemma MulRoundZero(multiplier: int)
    ensures MulRound(0, multiplier) == 0
  {
  }

  // ----- proRataShare -----

  /** Within half a micro-unit of the exact share. */
  lemma ShareNearest(total: int, part: int, whole: int)
    requires 0 <= part <= whole && whole > 0
    ensures 2 * Abs(whole * Share(total, part, whole) - total * part) <= whole
  {
    if 0 < part < whole {
      var n := Abs(total) * part;
      var r := Nearest(n, whole);
      NearestCharacterised(n, whole, r);
      if total < 0 {
        assert whole * (-r) == -(whole * r);
        assert total * part == -n;
      }
    } else if part == whole {
      assert whole * total == total * part;
    } else {
      assert total * part == 0 && whole * Share(total, part, whole) == 0;
    }
  }

  /** Carries the sign of the total and never exceeds it in magnitude. */
  lemma ShareWithin(total: int, part: int, whole: int)
    ensures total >= 0 ==> 0 <= Share(total, part, whole) <= total
    ensures total <= 0 ==> total <= Share(total, part, whole) <= 0
  {
    if 0 < part < whole {
      var m := Abs(total);
      assert m * part <= m * whole by { ProductLe(m, part, whole); }
      assert m * part >= 0;
      NearestMonotone(m * part, m * whole, whole);
      NearestOfMultiple(m, whole);
    }
  }

  /** Magnitude is monotone in the part, through both clamps. */
  lemma ShareMonotone(total: int, part: int, more: int, whole: int)
    requires part <= more
    ensures Abs(Share(total, part, whole)) <= Abs(Share(total, more, whole))
  {
    ShareWithin(total, part, whole);
    ShareWithin(total, more, whole);
    if whole > 0 && 0 < part && more < whole {
      var m := Abs(total);
      ProductLe(m, part, more);
      assert m * part >= 0;
      NearestMonotone(m * part, m * more, whole);
    }
  }

  lemma ShareMagnitude(total: int, part: int, whole: int)
    requires 0 < part < whole
    ensures Abs(total) * part >= 0
    ensures Abs(Share(total, part, whole)) == Nearest(Abs(total) * part, whole)
  {
    assert Abs(total) * part >= 0;
    NearestCharacterised(Abs(total) * part, whole, Nearest(Abs(total) * part, whole));
    if Nearest(Abs(total) * part, whole) < 0 {
      ProductLe(whole, Nearest(Abs(total) * part, whole), -1);
      assert false;
    }
  }

  /**
   * Complementary strict shares sum to the total in magnitude, or to one unit more exactly
   * on a tie.
   */
  lemma ComplementaryShares(total: int, part: int, whole: int)
    requires 0 < part < whole
    ensures Abs(Share(total, part, whole)) + Abs(Share(total, whole - part, whole))
            == Abs(total) + if 2 * ((Abs(total) * part) % whole) == whole then 1 else 0
  {
    var m := Abs(total);
    ComplementarySums(m, part, whole);
    ShareMagnitude(total, part, whole);
    ShareMagnitude(total, whole - part, whole);
    NearestComplement(m * part, m * (whole - part), m, whole);
  }

  lemma NearestComplement(a: int, b: int, m: int, d: int)
    requires d > 0 && a >= 0 && b >= 0 && a + b == d * m
    ensures Nearest(a, d) + Nearest(b, d) == m + if 2 * (a % d) == d then 1 else 0
  {
    var q, rem := a / d, a % d;
    assert a == d * q + rem;
    var up := if rem * 2 >= d then 1 else 0;
    var tie := if 2 * rem == d then 1 else 0;
    var r := m + tie - q - up;
    Distribute(d, m, tie - up, q);
    NearestCharacterised(b, d, r);
  }

  /** Here `step` is -1, 0 or 1. */
  lemma Distribute(d: int, m: int, step: int, q: int)
    ensures d * (m + step - q) == d * m + d * step - d * q
  {
  }

  lemma ComplementarySums(m: int, part: int, whole: int)
    requires 0 < part < whole && m >= 0
    ensures m * part >= 0 && m * (whole - part) >= 0
    ensures m * part + m * (whole - part) == whole * m
  {
    ProductLe(m, 0, part);
    ProductLe(m, 0, whole - part);
  }

  /** All of `proRataShare`: nothing of a part or whole that is not positive, the total of a part that reaches the whole, else the nearest, ties away from zero. */
  lemma ShareExactly(total: int, part: int, whole: int)
    ensures whole <= 0 || part <= 0 ==> Share(total, part, whole) == 0
    ensures 0 < whole <= part ==> Share(total, part, whole) == total
    ensures 0 < part < whole ==>
              && 2 * Abs(whole * Share(total, part, whole) - total * part) <= whole
              && (2 * Abs(whole * Share(total, part, whole) - total * part) == whole
                  ==> whole * Abs(Share(total, part, whole)) > Abs(total * part))
  {
    hide Share, Nearest;
    if 0 < part < whole {
      ShareNearest(total, part, whole);
      ShareTies(total, part, whole);
    }
    ShareClamps(total, part, whole);
  }

  lemma ShareClamps(total: int, part: int, whole: int)
    ensures whole <= 0 || part <= 0 ==> Share(total, part, whole) == 0
    ensures 0 < whole <= part ==> Share(total, part, whole) == total
  {
    hide Nearest;
  }

  lemma ShareTies(total: int, part: int, whole: int)
    requires 0 < part < whole
    ensures 2 * Abs(whole * Share(total, part, whole) - total * part) == whole
            ==> whole * Abs(Share(total, part, whole)) > Abs(total * part)
  {
    hide Nearest;
    var n := Abs(total) * part;
    var r := Nearest(n, whole);
    NearestCharacterised(n, whole, r);
    var s := if total < 0 then -1 else 1;
    assert Share(total, part, whole) == s * r && total * part == s * n;
    Turned(s, whole, r, n);
  }

  lemma Turned(s: int, whole: int, r: int, n: int)
    requires (s == 1 || s == -1) && r >= 0 && n >= 0
    ensures Abs(whole * (s * r) - s * n) == Abs(whole * r - n) && Abs(s * r) == r && Abs(s * n) == n
  {
  }
}
