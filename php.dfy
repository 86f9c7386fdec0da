/**
 * The PHP built-ins the logger relies on: `array_keys`, `implode`, the decimal
 * form of an integer, and the `(int)` cast of a string.
 */
module Php {

  /** `array_keys`: the keys of an ordered array, in order. */
  function ArrayKeys<K, V>(arr: seq<(K, V)>): (ks: seq<K>)
    ensures |ks| == |arr| && forall i :: 0 <= i < |arr| ==> ks[i] == arr[i].0
  {
    seq(|arr|, i requires 0 <= i < |arr| => arr[i].0)
  }

  /** `implode(sep, parts)`: the parts joined with `sep` between neighbours. */
  function Implode(sep: string, parts: seq<string>): string
    decreases |parts|
  {
    if |parts| == 0 then ""
    else if |parts| == 1 then parts[0]
    else parts[0] + sep + Implode(sep, parts[1..])
  }

  /** The sum of the lengths of the parts. */
  function TotalLength(parts: seq<string>): nat
    decreases |parts|
  {
    if parts == [] then 0 else |parts[0]| + TotalLength(parts[1..])
  }

  /** The joined text holds every part and one separator between each two neighbours, nothing else. */
  lemma {:induction false} ImplodeLength(sep: string, parts: seq<string>)
    requires |parts| > 0
    ensures |Implode(sep, parts)| == TotalLength(parts) + (|parts| - 1) * |sep|
    decreases |parts|
  {
    if |parts| > 1 {
      ImplodeLength(sep, parts[1..]);
    } else {
      assert parts[1..] == [];
    }
  }

  /** Joining a non-empty list with one more part appends the separator and that part. */
  lemma {:induction false} ImplodeSnoc(sep: string, parts: seq<string>, last: string)
    requires |parts| > 0
    ensures Implode(sep, parts + [last]) == Implode(sep, parts) + sep + last
    decreases |parts|
  {
    if |parts| == 1 {
      assert (parts + [last])[1..] == [last];
    } else {
      assert (parts + [last])[1..] == parts[1..] + [last];
      ImplodeSnoc(sep, parts[1..], last);
    }
  }

  predicate IsDigit(c: char) {
    '0' <= c <= '9'
  }

  /** The whitespace PHP skips in front of a numeric string: space, \t, \n, \r, \v and \f. */
  predicate IsSpace(c: char) {
    c == ' ' || c == '\t' || c == '\n' || c == '\r' || c == '\U{B}' || c == '\U{C}'
  }

  function DigitChar(d: nat): (c: char)
    requires d < 10
    ensures IsDigit(c) && c as int - '0' as int == d
  {
    ('0' as int + d) as char
  }

  function DigitValue(c: char): (d: nat)
    requires IsDigit(c)
    ensures d < 10
  {
    c as int - '0' as int
  }

  /** The decimal digits of a natural number, without leading zeros. */
  function Digits(n: nat): (r: string)
    ensures |r| > 0 && forall i :: 0 <= i < |r| ==> IsDigit(r[i])
    decreases n
  {
    if n < 10 then [DigitChar(n)] else Digits(n / 10) + [DigitChar(n % 10)]
  }

  /** The string form PHP gives an integer, which is also how the database hands back an integer column. */
  function Decimal(n: int): string {
    if n < 0 then "-" + Digits(-n) else Digits(n)
  }

  /** The value of a string of decimal digits. */
  function DigitsValue(ds: string): nat
    requires forall i :: 0 <= i < |ds| ==> IsDigit(ds[i])
    decreases |ds|
  {
    if ds == [] then 0
    else DigitsValue(ds[..|ds| - 1]) * 10 + DigitValue(ds[|ds| - 1])
  }

  /** The longest prefix of `s` made of digits. */
  function LeadingDigits(s: string): (r: string)
    ensures |r| <= |s| && r == s[..|r|]
    ensures forall i :: 0 <= i < |r| ==> IsDigit(r[i])
    ensures |r| < |s| ==> !IsDigit(s[|r|])
    decreases |s|
  {
    if s != [] && IsDigit(s[0]) then [s[0]] + LeadingDigits(s[1..]) else []
  }

  /** What is left of `s` after its leading whitespace. */
  function SkipSpace(s: string): string
    decreases |s|
  {
    if s != [] && IsSpace(s[0]) then SkipSpace(s[1..]) else s
  }

  /**
   * PHP's `(int)` cast on a string in integer form: leading whitespace is
   * skipped, then an optional sign, then the longest run of digits is read;
   * anything after it is ignored, and no digits at all give 0.
   */
  function IntCast(s: string): int {
    var t := SkipSpace(s);
    if t != [] && (t[0] == '-' || t[0] == '+') then
      (if t[0] == '-' then -1 else 1) * DigitsValue(LeadingDigits(t[1..]))
    else DigitsValue(LeadingDigits(t))
  }

  /** Reading the digits of a natural number gives the number back. */
  lemma {:induction false} DigitsValueOfDigits(n: nat)
    ensures DigitsValue(Digits(n)) == n
    decreases n
  {
    var ds := Digits(n);
    if n >= 10 {
      DigitsValueOfDigits(n / 10);
      assert ds[..|ds| - 1] == Digits(n / 10);
    }
  }

  /** A string made of digits is its own leading digit run. */
  lemma {:induction false} LeadingDigitsAll(s: string)
    requires forall i :: 0 <= i < |s| ==> IsDigit(s[i])
    ensures LeadingDigits(s) == s
    decreases |s|
  {
    if s != [] {
      LeadingDigitsAll(s[1..]);
    }
  }

  /** The `(int)` cast undoes the decimal form: `(int)(string)$n == $n`. */
  lemma IntCastDecimal(n: int)
    ensures IntCast(Decimal(n)) == n
  {
    var m: nat := if n < 0 then -n else n;
    DigitsValueOfDigits(m);
    LeadingDigitsAll(Digits(m));
    var d := Decimal(n);
    assert d != [] && !IsSpace(d[0]);
    assert SkipSpace(d) == d;
    if n < 0 {
      assert d[1..] == Digits(m);
    } else {
      assert IsDigit(d[0]);
    }
  }

  /** The decimal form of an integer is "" or "0" only for zero, and never "". */
  lemma DecimalZero(n: int)
    ensures Decimal(n) != ""
    ensures Decimal(n) == "0" <==> n == 0
  {
    if Decimal(n) == "0" {
      IntCastDecimal(n);
      assert SkipSpace("0") == "0";
      assert LeadingDigits("0") == "0";
      assert DigitsValue("0") == 0;
    }
  }
}
