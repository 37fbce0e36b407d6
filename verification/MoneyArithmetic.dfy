/**
 * The two rounding functions of `decimal.ts` as they are called: on decimal strings. Everything else
 * in the model works on the micro-unit integers these strings stand for.
 */
module MoneyArithmetic {
  import opened Prelude
  import opened Rounding
  import opened Decimal

  function MultiplyDecimals(value: string, multiplier: string): Result<string> {
    var units :- ToUnits(value, MONEY_SCALE);
    var times :- ToUnits(multiplier, MONEY_SCALE);
    Ok(FromUnits(MulRound(units, times), MONEY_SCALE))
  }

  /** The total is parsed only once neither clamp to zero applies. */
  function ProRataShare(total: string, part: string, whole: string): Result<string> {
    var wholeUnits :- ToUnits(whole, MONEY_SCALE);
    var partUnits :- ToUnits(part, MONEY_SCALE);
    if wholeUnits <= 0 || partUnits <= 0 then Ok("0.000000")
    else if partUnits >= wholeUnits then ToMoneyString(total)
    else
      var totalUnits :- ToUnits(total, MONEY_SCALE);
      Ok(FromUnits(Share(totalUnits, partUnits, wholeUnits), MONEY_SCALE))
  }

  /** Multiplication commutes with reading the strings, and is odd in each of them. */
  lemma MultiplyReads(value: string, multiplier: string, x: int, y: int)
    requires ToUnits(value, MONEY_SCALE) == Ok(x) && ToUnits(multiplier, MONEY_SCALE) == Ok(y)
    ensures MultiplyDecimals(value, multiplier).Ok?
    ensures ToUnits(MultiplyDecimals(value, multiplier).value, MONEY_SCALE) == Ok(MulRound(x, y))
    ensures NegateDecimal(value).Ok?
    ensures MultiplyDecimals(NegateDecimal(value).value, multiplier) == NegateDecimal(MultiplyDecimals(value, multiplier).value)
  {
    hide ToUnits, FromUnits, MulRound;
    RoundTrip(MulRound(x, y), MONEY_SCALE);
    RoundTrip(-x, MONEY_SCALE);
    MulRoundOdd(x, y);
  }

  lemma ZeroReads()
    ensures ToUnits("0.000000", MONEY_SCALE) == Ok(0)
  {
    assert FromUnits(0, MONEY_SCALE) == "0.000000" by { PrintsZero(); }
    RoundTrip(0, MONEY_SCALE);
  }

  lemma PrintsZero()
    ensures FromUnits(0, MONEY_SCALE) == "0.000000"
  {
    assert PadStart(NatDigits(0), 7) == "0000000" by {
      assert NatDigits(0) == "0";
      assert Zeros(6) == "000000";
    }
  }

  /** The string share reads as the integer share, and fails exactly on a malformed string it reads. */
  lemma ShareReads(total: string, part: string, whole: string)
    ensures ProRataShare(total, part, whole).Ok?
            <==> ToUnits(whole, MONEY_SCALE).Ok? && ToUnits(part, MONEY_SCALE).Ok?
                 && (ToUnits(whole, MONEY_SCALE).value <= 0 || ToUnits(part, MONEY_SCALE).value <= 0 || ToUnits(total, MONEY_SCALE).Ok?)
    ensures ProRataShare(total, part, whole).Ok? && ToUnits(total, MONEY_SCALE).Ok?
            ==> ToUnits(ProRataShare(total, part, whole).value, MONEY_SCALE)
                == Ok(Share(ToUnits(total, MONEY_SCALE).value, ToUnits(part, MONEY_SCALE).value, ToUnits(whole, MONEY_SCALE).value))
  {
    hide ToUnits, FromUnits;
    ZeroReads();
    if ProRataShare(total, part, whole).Ok? && ToUnits(total, MONEY_SCALE).Ok? {
      var t, p, w := ToUnits(total, MONEY_SCALE).value, ToUnits(part, MONEY_SCALE).value, ToUnits(whole, MONEY_SCALE).value;
      RoundTrip(t, MONEY_SCALE);
      RoundTrip(Share(t, p, w), MONEY_SCALE);
    }
  }
}
