/** Decimal and hexadecimal numerals: what `%u`, `%x` print and the parsers read back. */
module Numerals {

  datatype Radix = Decimal | Hex

  function Base(r: Radix): nat {
    if r.Hex? then 16 else 10
  }

  function Scale(r: Radix, n: nat): nat {
    if r.Hex? then 16 * n else 10 * n
  }

  function DigitChar(d: nat): (c: char)
    requires d < 16
    ensures DigitValue(c) == d
  {
    if d < 10 then '0' + d as char else 'a' + (d - 10) as char
  }

  /** Value of a digit of either case; 16 when the character is no digit. */
  function DigitValue(c: char): (d: nat)
    ensures d <= 16
  {
    if '0' <= c <= '9' then (c - '0') as nat
    else if 'a' <= c <= 'f' then (c - 'a') as nat + 10
    else if 'A' <= c <= 'F' then (c - 'A') as nat + 10
    else 16
  }

  /** 0-9, then a-f or A-F, by their codes; what is printed is never upper case. */
  lemma DigitsByCode(c: char, d: nat)
    requires d < 16
    ensures DigitValue(c) == d <==>
            if d < 10 then c as int == 48 + d else c as int == 97 + (d - 10) || c as int == 65 + (d - 10)
    ensures DigitChar(d) as int == if d < 10 then 48 + d else 97 + (d - 10)
  {
  }

  predicate IsDigit(c: char, r: Radix) {
    DigitValue(c) < Base(r)
  }

  predicate AllDigits(s: string, r: Radix) {
    forall i :: 0 <= i < |s| ==> IsDigit(s[i], r)
  }

  /** Most significant digit first; "0" for zero, otherwise no leading zero. */
  function Print(n: nat, r: Radix): (s: string)
    ensures s != [] && AllDigits(s, r)
    ensures s[0] == '0' ==> n == 0 && s == "0"
    decreases n
  {
    if n < Base(r) then [DigitChar(n)]
    else if r.Hex? then Print(n / 16, r) + [DigitChar(n % 16)]
    else Print(n / 10, r) + [DigitChar(n % 10)]
  }

  function Value(s: string, r: Radix): nat {
    if s == [] then 0 else Scale(r, Value(s[..|s| - 1], r)) + DigitValue(s[|s| - 1])
  }

  lemma ValueOfSnoc(s: string, c: char, r: Radix)
    ensures Value(s + [c], r) == Scale(r, Value(s, r)) + DigitValue(c)
  {
    assert (s + [c])[..|s|] == s;
  }

  lemma {:induction false} ValueOfPrint(n: nat, r: Radix)
    ensures Value(Print(n, r), r) == n
    decreases n
  {
    if n < Base(r) {
      assert [DigitChar(n)] == [] + [DigitChar(n)];
      ValueOfSnoc([], DigitChar(n), r);
    } else if r.Hex? {
      ValueOfPrint(n / 16, r);
      ValueOfSnoc(Print(n / 16, r), DigitChar(n % 16), r);
    } else {
      ValueOfPrint(n / 10, r);
      ValueOfSnoc(Print(n / 10, r), DigitChar(n % 10), r);
    }
  }
}
