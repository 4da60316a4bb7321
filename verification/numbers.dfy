/** JavaScript numbers as the component uses them: the NaN-or-value result of
    `parseFloat`, the `|| 0` fallback, the runtime's number/text conversions
    (kept abstract), and the decimal text of the integers that the component
    interpolates into template strings. */
module Numbers {
  import opened Wrappers

  /** A JavaScript number as far as the component observes it: `NaN` (what
      `parseFloat` yields on text that does not start with a number) or a value. */
  datatype JsNumber = NaN | Num(value: real)

  /** Text made only of 7-bit ASCII code units, which is all that
      `Number.prototype.toString` ever produces. */
  predicate IsAscii(s: string) {
    forall i | 0 <= i < |s| :: s[i] as int < 128
  }

  type AsciiText = s: string | IsAscii(s) witness ""

  /** The runtime's conversions between numbers and text: `show` is
      `Number.prototype.toString`, `parse` is the global `parseFloat`. Both are
      library code outside the component, so the model takes them as given. */
  datatype NumberText = NumberText(show: real -> AsciiText, parse: string -> JsNumber)

  /** `x || 0` on a number: `NaN` and zero are falsy and become 0, any other
      value is kept. */
  function OrZero(n: JsNumber): (r: real)
    ensures r == (if n.Num? then n.value else 0.0)
  {
    if n.NaN? || n.value == 0.0 then 0.0 else n.value
  }

  predicate IsDigit(c: char) {
    '0' <= c <= '9'
  }

  /** Non-empty text made only of decimal digits. */
  predicate IsNumeral(s: string) {
    |s| > 0 && forall i | 0 <= i < |s| :: IsDigit(s[i])
  }

  function DigitChar(d: int): (c: char)
    requires 0 <= d < 10
    ensures IsDigit(c)
  {
    ('0' as int + d) as char
  }

  function DigitValue(c: char): (d: int)
    requires IsDigit(c)
    ensures 0 <= d < 10
    ensures DigitChar(d) == c
  {
    c as int - '0' as int
  }

  /** Decimal digits of `n`, most significant first: what `toString` gives for
      a non-negative safe integer. The only numeral with a leading zero is "0". */
  function NatToDecimal(n: nat): (r: string)
    ensures IsNumeral(r)
    ensures r[0] == '0' <==> n == 0
    ensures n < 10 <==> |r| == 1
    decreases n
  {
    if n < 10 then [DigitChar(n)] else NatToDecimal(n / 10) + [DigitChar(n % 10)]
  }

  /** The integer a numeral denotes. */
  function ParseNat(s: string): nat
    requires IsNumeral(s)
    decreases |s|
  {
    if |s| == 1 then DigitValue(s[0])
    else 10 * ParseNat(s[..|s| - 1]) + DigitValue(s[|s| - 1])
  }

  /** `${n}` for a safe integer `n`: an optional minus sign, then the digits. */
  function IntToDecimal(n: int): (r: string)
    ensures |r| > 0
    ensures r[0] == '-' <==> n < 0
    ensures forall i | 0 < i < |r| :: IsDigit(r[i])
  {
    if n < 0 then "-" + NatToDecimal(-n) else NatToDecimal(n)
  }

  /** Reads back an optionally signed numeral; `None` for anything else. */
  function ParseDecimal(s: string): Option<int> {
    if |s| > 0 && s[0] == '-' then
      if IsNumeral(s[1..]) then Some(-(ParseNat(s[1..]) as int)) else None
    else if IsNumeral(s) then Some(ParseNat(s))
    else None
  }

  lemma {:induction false} ParseNatInverts(n: nat)
    ensures ParseNat(NatToDecimal(n)) == n
    decreases n
  {
    if n >= 10 {
      var r := NatToDecimal(n);
      assert r[..|r| - 1] == NatToDecimal(n / 10);
      ParseNatInverts(n / 10);
      assert DigitValue(r[|r| - 1]) == n % 10;
    }
  }

  /** Reading the decimal text of an integer gives the integer back. */
  lemma DecimalRoundTrip(n: int)
    ensures ParseDecimal(IntToDecimal(n)) == Some(n)
  {
    var s := IntToDecimal(n);
    if n < 0 {
      assert s[1..] == NatToDecimal(-n);
      ParseNatInverts(-n);
    } else {
      ParseNatInverts(n);
    }
  }

  /** Distinct integers have distinct decimal texts. */
  lemma DecimalInjective(m: int, n: int)
    ensures IntToDecimal(m) == IntToDecimal(n) ==> m == n
  {
    DecimalRoundTrip(m);
    DecimalRoundTrip(n);
  }
}
