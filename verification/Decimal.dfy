/**
 Decimal text, as written by integer_to_str and by printf's %d, and as read back by
 strtoll, atoi and hand-written digit loops. The bodies of these routines are not in
 the repository; they are given here by what the C and C++ standards say they compute.
 */
module Decimal {

  const INT32_MAX := 0x7fff_ffff
  const INT64_MIN := -0x8000_0000_0000_0000
  const INT64_MAX := 0x7fff_ffff_ffff_ffff

  type Int64 = x: int | INT64_MIN <= x <= INT64_MAX

  predicate IsDigit(c: char) {
    '0' <= c <= '9'
  }

  function DigitValue(c: char): (d: nat)
    requires IsDigit(c)
    ensures d < 10
  {
    c as int - '0' as int
  }

  function DigitChar(d: nat): (c: char)
    requires d < 10
    ensures IsDigit(c) && DigitValue(c) == d
  {
    ('0' as int + d) as char
  }

  /** The shortest decimal text of n. */
  function Digits(n: nat): (s: string)
    ensures s != "" && IsDigit(s[0])
    ensures forall c <- s :: IsDigit(c)
  {
    if n < 10 then [DigitChar(n)] else Digits(n / 10) + [DigitChar(n % 10)]
  }

  function IntToStr(i: int): (s: string)
    ensures s != "" && (IsDigit(s[0]) || (s[0] == '-' && |s| > 1 && IsDigit(s[1])))
    ensures forall c <- s :: IsDigit(c) || c == '-'
  {
    if i < 0 then "-" + Digits(-i) else Digits(i)
  }

  /** The value of the digits at the front of s, read after digits worth acc. */
  function Scan(s: string, acc: nat): nat {
    if s == "" || !IsDigit(s[0]) then acc else Scan(s[1..], acc * 10 + DigitValue(s[0]))
  }

  /** Reading back the digits of n leaves exactly n, whatever text follows them. */
  lemma {:induction false} ScanDigits(n: nat, rest: string)
    ensures Scan(Digits(n) + rest, 0) == Scan(rest, n)
  {
    if n < 10 {
      assert (Digits(n) + rest)[1..] == rest;
    } else {
      var last := [DigitChar(n % 10)];
      assert Digits(n) + rest == Digits(n / 10) + (last + rest);
      ScanDigits(n / 10, last + rest);
      assert (last + rest)[1..] == rest;
    }
  }

  predicate IsSpace(c: char) {
    c == ' ' || 9 <= c as int <= 13
  }

  function SkipSpace(s: string): string {
    if s != "" && IsSpace(s[0]) then SkipSpace(s[1..]) else s
  }

  datatype Parsed = NoDigits | Number(value: Int64)

  /** strtoll(s.c_str(), &end, 10): NoDigits is the case where end stays at the start.
      A NUL inside s ends the number like any other character that is not a digit. */
  function Strtoll(s: string): Parsed {
    var t := SkipSpace(s);
    var u := if t != "" && t[0] in "+-" then t[1..] else t;
    if u == "" || !IsDigit(u[0]) then NoDigits
    else
      var n: int := Scan(u, 0);
      var v := if t[0] == '-' then -n else n;
      Number(if v < INT64_MIN then INT64_MIN else if v > INT64_MAX then INT64_MAX else v)
  }

  /** Reading into a C++ int: running past its range is undefined. */
  datatype IntResult = Value(v: int) | Overflow

  /** atoi(s.c_str()) of text that starts with a digit, for an int that reaches up to max. */
  function Atoi(s: string, max: nat): (r: IntResult)
    requires s != "" && IsDigit(s[0])
    ensures r.Value? ==> 0 <= r.v <= max
  {
    if Scan(s, 0) > max then Overflow else Value(Scan(s, 0))
  }

  lemma StrtollReadsIntToStr(i: Int64)
    ensures Strtoll(IntToStr(i)) == Number(i)
  {
    var s := IntToStr(i);
    assert SkipSpace(s) == s;
    var n: nat := if i < 0 then -(i as int) else i;
    assert (if i < 0 then s[1..] else s) == Digits(n) + "";
    ScanDigits(n, "");
  }

  lemma AtoiReadsDigits(n: nat, max: nat)
    ensures Atoi(Digits(n), max) == if n <= max then Value(n) else Overflow
  {
    assert Digits(n) == Digits(n) + "";
    ScanDigits(n, "");
  }
}
