/** Numbers in positional notation, up to base sixteen, and reading them back. */
module Numerals {
  import opened Prelude

  function DigitValue(c: char): (n: nat)
    ensures n <= 16
  {
    if '0' <= c <= '9' then c as int - '0' as int
    else if 'a' <= c <= 'f' then c as int - 'a' as int + 10
    else if 'A' <= c <= 'F' then c as int - 'A' as int + 10
    else 16
  }

  function Digit(n: nat): (c: char)
    requires n < 16
    ensures DigitValue(c) == n
  {
    if n < 10 then ('0' as int + n) as char else ('a' as int + n - 10) as char
  }

  /** One digit or more, of the given radix. */
  function NumberValue(s: string, radix: nat): (v: Option<nat>)
  {
    if s == [] || DigitValue(s[|s| - 1]) >= radix then None
    else if |s| == 1 then Some(DigitValue(s[0]))
    else
      match NumberValue(s[..|s| - 1], radix)
      case None => None
      case Some(high) => Some(high * radix + DigitValue(s[|s| - 1]))
  }

  function Numeral(n: nat, radix: nat): (s: string)
    requires 2 <= radix <= 16
  {
    if n < radix then [Digit(n)] else Numeral(n / radix, radix) + [Digit(n % radix)]
  }

  lemma NumberSnoc(s: string, high: nat, d: nat, radix: nat)
    requires d < radix <= 16 && NumberValue(s, radix) == Some(high)
    ensures NumberValue(s + [Digit(d)], radix) == Some(high * radix + d)
  {
    assert (s + [Digit(d)])[..|s|] == s;
  }

  lemma NumeralStep(n: nat, radix: nat)
    requires 2 <= radix <= 16
    ensures n < radix ==> Numeral(n, radix) == [Digit(n)] && NumberValue([Digit(n)], radix) == Some(n)
    ensures n >= radix ==> n / radix < n && n / radix * radix + n % radix == n
    ensures n >= radix ==> Numeral(n, radix) == Numeral(n / radix, radix) + [Digit(n % radix)]
  {
  }

  lemma {:induction false} NumeralReads(n: nat, radix: nat)
    requires 2 <= radix <= 16
    ensures var s := Numeral(n, radix);
            && s != [] && NumberValue(s, radix) == Some(n)
            && forall i | 0 <= i < |s| :: DigitValue(s[i]) < radix
  {
    hide NumberValue, Digit, Numeral;
    NumeralStep(n, radix);
    if n >= radix {
      var high, low := n / radix, n % radix;
      NumeralReads(high, radix);
      NumberSnoc(Numeral(high, radix), high, low, radix);
    }
  }
}
