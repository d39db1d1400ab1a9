/**
 * Decimal rendering of unsigned values, as std::to_string produces it for
 * the dimension strings of a matrix, together with the parser that reads
 * such a rendering back. The parser is the partner that shows the rendering
 * is unambiguous: a rendered value followed by any non-digit text reads back
 * as that value and that text.
 */
module Decimal {

  datatype Option<T> = None | Some(value: T)

  predicate IsDigit(ch: char) {
    '0' <= ch <= '9'
  }

  predicate AllDigits(s: string) {
    forall i :: 0 <= i < |s| ==> IsDigit(s[i])
  }

  function DigitValue(ch: char): (d: nat)
    requires IsDigit(ch)
    ensures d < 10
  {
    (ch as int - '0' as int) as nat
  }

  function DigitChar(d: nat): (ch: char)
    requires d < 10
    ensures IsDigit(ch) && DigitValue(ch) == d
  {
    (d + '0' as int) as char
  }

  /** The shortest decimal numeral for n: never empty, digits only, no leading zero. */
  function NatToString(n: nat): (s: string)
    ensures |s| > 0 && AllDigits(s)
    ensures s[0] == '0' ==> s == "0"
    decreases n
  {
    if n < 10 then [DigitChar(n)] else NatToString(n / 10) + [DigitChar(n % 10)]
  }

  /** The value of a numeral, most significant digit first. */
  function DigitsValue(s: string): nat
    requires AllDigits(s)
  {
    if s == [] then 0 else DigitsValue(s[..|s| - 1]) * 10 + DigitValue(s[|s| - 1])
  }

  lemma {:induction false} ValueOfNatToString(n: nat)
    ensures DigitsValue(NatToString(n)) == n
    decreases n
  {
    if n >= 10 {
      var s := NatToString(n);
      assert s[..|s| - 1] == NatToString(n / 10);
      ValueOfNatToString(n / 10);
    }
  }

  /** Splits s into its longest prefix of digits and the rest. */
  function SplitDigits(s: string): (r: (string, string))
    ensures r.0 + r.1 == s
    ensures AllDigits(r.0)
    ensures r.1 == [] || !IsDigit(r.1[0])
  {
    if s != [] && IsDigit(s[0]) then
      var (d, rest) := SplitDigits(s[1..]);
      assert [s[0]] + d + rest == [s[0]] + s[1..];
      ([s[0]] + d, rest)
    else
      ([], s)
  }

  lemma {:induction false} SplitAfterDigits(d: string, t: string)
    requires AllDigits(d)
    requires t == [] || !IsDigit(t[0])
    ensures SplitDigits(d + t) == (d, t)
  {
    if d != [] {
      var s := d + t;
      assert s[0] == d[0] && s[1..] == d[1..] + t;
      SplitAfterDigits(d[1..], t);
      assert [d[0]] + d[1..] == d;
    } else {
      assert d + t == t;
    }
  }

  /** Reads a non-empty numeral at the head of s; returns its value and the text after it. */
  function ParseNat(s: string): Option<(nat, string)> {
    var (d, rest) := SplitDigits(s);
    if d == [] then None else Some((DigitsValue(d), rest))
  }

  /** Rendering then parsing gives back the value, whatever non-digit text follows. */
  lemma ParseNatToString(n: nat, t: string)
    requires t == [] || !IsDigit(t[0])
    ensures ParseNat(NatToString(n) + t) == Some((n, t))
  {
    SplitAfterDigits(NatToString(n), t);
    ValueOfNatToString(n);
  }
}
