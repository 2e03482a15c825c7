/**
 Record identifiers and their string form.

 The table compares ids through a template literal (`${app.id}`), so an id
 may be a string or a number. Numbers are modelled as unbounded integers
 rendered in plain decimal with a leading '-' when negative and no leading
 zeros. This agrees with JavaScript for integers of magnitude at most 2^53;
 above that JavaScript prints the shortest digit string that rounds back to
 the double, padded with zeros.
 */
module Ids {

  datatype Id = Text(text: string) | Number(value: int)

  function Digit(d: nat): (c: char)
    requires d < 10
    ensures '0' <= c <= '9'
    ensures c as int - '0' as int == d
  {
    (d + '0' as int) as char
  }

  /** Decimal digits of `n`, most significant first, without leading zeros. */
  function NatToDecimal(n: nat): (r: string)
    ensures |r| >= 1
    ensures forall i | 0 <= i < |r| :: '0' <= r[i] <= '9'
    ensures |r| > 1 ==> r[0] != '0'
    decreases n
  {
    if n < 10 then [Digit(n)] else NatToDecimal(n / 10) + [Digit(n % 10)]
  }

  /** The numeric value of a string of decimal digits (the reading direction). */
  function DecimalValue(s: string): nat
    requires forall i | 0 <= i < |s| :: '0' <= s[i] <= '9'
    decreases |s|
  {
    if |s| == 0 then 0
    else 10 * DecimalValue(s[..|s| - 1]) + (s[|s| - 1] as int - '0' as int)
  }

  /** Reading back the decimal form of a number gives the number. */
  lemma {:induction false} DecimalRoundTrip(n: nat)
    ensures DecimalValue(NatToDecimal(n)) == n
    decreases n
  {
    if n >= 10 {
      var r := NatToDecimal(n);
      assert r[..|r| - 1] == NatToDecimal(n / 10);
      DecimalRoundTrip(n / 10);
    }
  }

  /** The string form `${id}` of an identifier. */
  function Show(id: Id): (r: string)
    ensures id.Text? ==> r == id.text
    ensures id.Number? ==> |r| > 0 && (r[0] == '-' <==> id.value < 0)
    ensures id.Number? ==> forall i | 1 <= i < |r| :: '0' <= r[i] <= '9'
    ensures id.Number? && id.value >= 0 ==> '0' <= r[0] <= '9'
    ensures id.Number? && id.value >= 0 && |r| > 1 ==> r[0] != '0'
    ensures id.Number? && id.value < 0 ==> |r| > 1 && r[1] != '0'
  {
    match id
    case Text(s) => s
    case Number(n) => if n < 0 then "-" + NatToDecimal(-n) else NatToDecimal(n)
  }

  /** Reads back the string form of a numeric id. */
  function ParseNumber(s: string): int
    requires forall i | 1 <= i < |s| :: '0' <= s[i] <= '9'
    requires |s| > 0 && s[0] != '-' ==> '0' <= s[0] <= '9'
  {
    if |s| > 0 && s[0] == '-' then -(DecimalValue(s[1..]) as int) else DecimalValue(s)
  }

  /** The string form of a numeric id reads back as that number. */
  lemma ShowNumberRoundTrip(n: int)
    ensures ParseNumber(Show(Number(n))) == n
  {
    if n < 0 {
      var d := NatToDecimal(-n);
      assert Show(Number(n)) == "-" + d;
      assert ("-" + d)[1..] == d;
      DecimalRoundTrip(-n);
    } else {
      assert Show(Number(n)) == NatToDecimal(n);
      DecimalRoundTrip(n);
    }
  }

  /** Distinct numeric ids have distinct string forms. */
  lemma ShowNumberInjective(a: int, b: int)
    requires Show(Number(a)) == Show(Number(b))
    ensures a == b
  {
    ShowNumberRoundTrip(a);
    ShowNumberRoundTrip(b);
  }
}
