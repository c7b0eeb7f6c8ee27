/** The fixed-width integer parser of the option library. */
module Integers {
  import opened Text
  import opened Numerals

  datatype Width = W8 | W16 | W32 | W64

  /** Half the number of values of an integer type of this width. */
  function Half(w: Width): (h: int)
    ensures h > 0
  {
    match w case W8 => 0x80 case W16 => 0x8000 case W32 => 0x8000_0000 case W64 => 0x8000_0000_0000_0000
  }

  function Modulus(w: Width): int {
    2 * Half(w)
  }

  function Bits(w: Width): nat {
    match w case W8 => 8 case W16 => 16 case W32 => 32 case W64 => 64
  }

  function PowerOfTwo(n: nat): nat {
    if n == 0 then 1 else 2 * PowerOfTwo(n - 1)
  }

  /** 2^N numbers, half of them negative in the signed type. */
  lemma SizesArePowers(w: Width)
    ensures Modulus(w) == PowerOfTwo(Bits(w)) && Half(w) == PowerOfTwo(Bits(w) - 1)
  {
    hide PowerOfTwo;
    SmallPower();
    PowersAdd(1, 7);
    PowersAdd(8, 7);
    PowersAdd(1, 15);
    PowersAdd(16, 15);
    PowersAdd(1, 31);
    PowersAdd(32, 31);
    PowersAdd(1, 63);
  }

  lemma SmallPower()
    ensures PowerOfTwo(1) == 2 && PowerOfTwo(7) == 0x80
  {
  }

  lemma {:induction false} PowersAdd(m: nat, n: nat)
    ensures PowerOfTwo(m + n) == PowerOfTwo(m) * PowerOfTwo(n)
  {
    if m == 0 {
    } else {
      PowersAdd(m - 1, n);
    }
  }

  /** Reduction to the unsigned type. */
  function Wrap(x: int, w: Width): (u: nat)
    ensures u < Modulus(w)
    ensures 0 <= x < Modulus(w) ==> u == x
  {
    match w
    case W8 => x % 0x100
    case W16 => x % 0x1_0000
    case W32 => x % 0x1_0000_0000
    case W64 => x % 0x1_0000_0000_0000_0000
  }

  datatype IntegerType = IntegerType(width: Width, signed: bool)

  predicate InRange(t: IntegerType, v: int) {
    if t.signed then -Half(t.width) <= v < Half(t.width) else 0 <= v < Modulus(t.width)
  }

  // ----- What is parsed -----

  datatype IntegerDesc = IntegerDesc(negative: bool, radix: Radix, value: string)

  /** Sign, "0x" and digits; None for a text without digits. */
  function SplitInteger(text: string): Option<IntegerDesc> {
    if text == [] then None
    else
      var p := CString(text);
      var negative := p != [] && p[0] == '-';
      var p1 := if negative then p[1..] else p;
      var hex := "0x" <= p1;
      var p2 := if hex then p1[2..] else p1;
      if p2 == [] then None else Some(IntegerDesc(negative, if hex then Hex else Decimal, p2))
  }

  /** The text, up to a NUL, is a sign or none, "0x" or nothing, and at least one more character. */
  predicate SplitsAs(text: string, d: IntegerDesc) {
    && CString(text) == (if d.negative then "-" else "") + (if d.radix.Hex? then "0x" else "") + d.value
    && d.value != []
    && (!d.negative && d.radix.Decimal? ==> d.value[0] != '-')
    && (d.radix.Decimal? ==> !("0x" <= d.value))
  }

  /** A text is taken apart in the one way in which it can be. */
  lemma SplitExactly(text: string, d: IntegerDesc)
    ensures SplitInteger(text) == Some(d) <==> SplitsAs(text, d)
  {
    if SplitsAs(text, d) { PartsAreFound(text, d); }
    if SplitInteger(text) == Some(d) { FoundAreParts(text); }
    hide SplitsAs;
    hide SplitInteger;
  }

  lemma FoundAreParts(text: string)
    requires SplitInteger(text).Some?
    ensures SplitsAs(text, SplitInteger(text).value)
  {
    var p, d := CString(text), SplitInteger(text).value;
    hide CString;
    var p1 := if d.negative then p[1..] else p;
    var start, prefix := if d.negative then "-" else "", if d.radix.Hex? then "0x" else "";
    assert p == start + p1;
    assert p1 == prefix + d.value;
    Assoc(start, prefix, d.value);
  }

  lemma PartsAreFound(text: string, d: IntegerDesc)
    requires SplitsAs(text, d)
    ensures SplitInteger(text) == Some(d)
  {
    hide CString;
    hide SplitInteger;
    var p := CString(text);
    var start, prefix := if d.negative then "-" else "", if d.radix.Hex? then "0x" else "";
    Assoc(start, prefix, d.value);
    assert d.radix.Decimal? ==> prefix + d.value == d.value;
    assert (if d.negative then p[1..] else p) == prefix + d.value;
    SplitOfParts(text, p, d.negative, d.radix, prefix + d.value, d.value);
  }

  lemma SplitOfParts(text: string, p: string, negative: bool, r: Radix, p1: string, digits: string)
    requires p != [] && CString(text) == p && (negative <==> p[0] == '-')
    requires p1 == (if negative then p[1..] else p) && ("0x" <= p1 <==> r.Hex?)
    requires digits != [] && digits == (if r.Hex? then p1[2..] else p1)
    ensures SplitInteger(text) == Some(IntegerDesc(negative, r, digits))
  {
    hide CString;
  }

  /** One digit more in the unsigned type; None at a wrong digit or when the value gets smaller. */
  function Extended(u: Option<nat>, digit: nat, r: Radix, w: Width): (v: Option<nat>)
    ensures v.Some? ==> v.value < Modulus(w)
  {
    if u.None? || digit >= Base(r) then None
    else
      var next := Wrap(Scale(r, u.value) + digit, w);
      if u.value > next then None else Some(next)
  }

  /** The digits accumulated in the unsigned type. */
  function Accumulated(s: string, r: Radix, w: Width): (u: Option<nat>)
    ensures u.Some? ==> u.value < Modulus(w)
  {
    if s == [] then Some(0) else Extended(Accumulated(s[..|s| - 1], r, w), DigitValue(s[|s| - 1]), r, w)
  }

  lemma AccumulatedSnoc(s: string, c: char, r: Radix, w: Width)
    ensures Accumulated(s + [c], r, w) == Extended(Accumulated(s, r, w), DigitValue(c), r, w)
  {
    hide Extended;
    assert (s + [c])[..|s|] == s;
  }

  /** What the parser returns. */
  function Parsed(text: string, t: IntegerType): Option<int> {
    match SplitInteger(text)
    case None => None
    case Some(d) =>
      match Accumulated(d.value, d.radix, t.width)
      case None => None
      case Some(u) => Signed(u, d.negative, t)
  }

  function Signed(u: int, negative: bool, t: IntegerType): Option<int> {
    if t.signed then
      if negative then (if u > Half(t.width) then None else Some(0 - u))
      else if u > Half(t.width) - 1 then None else Some(u)
    else if negative then None else Some(u)
  }

  // ----- The parser -----

  lemma WrapShift(y: int, q: int, w: Width)
    ensures Wrap(y + q * Modulus(w), w) == Wrap(y, w)
  {
    match w {
      case W8 => ModShift8(y, q);
      case W16 => ModShift16(y, q);
      case W32 => ModShift32(y, q);
      case W64 => ModShift64(y, q);
    }
  }

  lemma ModShift8(y: int, q: int)
    ensures (y + q * 0x100) % 0x100 == y % 0x100
  {
  }

  lemma ModShift16(y: int, q: int)
    ensures (y + q * 0x1_0000) % 0x1_0000 == y % 0x1_0000
  {
  }

  lemma ModShift32(y: int, q: int)
    ensures (y + q * 0x1_0000_0000) % 0x1_0000_0000 == y % 0x1_0000_0000
  {
  }

  lemma ModShift64(y: int, q: int)
    ensures (y + q * 0x1_0000_0000_0000_0000) % 0x1_0000_0000_0000_0000 == y % 0x1_0000_0000_0000_0000
  {
  }

  lemma WrapQuotient(x: int, w: Width) returns (q: int)
    ensures x == Wrap(x, w) + q * Modulus(w)
  {
    q := match w
      case W8 => x / 0x100
      case W16 => x / 0x1_0000
      case W32 => x / 0x1_0000_0000
      case W64 => x / 0x1_0000_0000_0000_0000;
  }

  lemma ResidueStep(x: nat, r: Radix, d: nat, w: Width)
    ensures Wrap(Scale(r, Wrap(x, w)) + d, w) == Wrap(Scale(r, x) + d, w)
  {
    hide Wrap;
    hide Half;
    var q := WrapQuotient(x, w);
    var k := if r.Hex? then 16 * q else 10 * q;
    assert Scale(r, x) + d == Scale(r, Wrap(x, w)) + d + k * Modulus(w) by {
      assert x == Wrap(x, w) + q * Modulus(w);
      assert 16 * (q * Modulus(w)) == 16 * q * Modulus(w) && 10 * (q * Modulus(w)) == 10 * q * Modulus(w);
    }
    WrapShift(Scale(r, Wrap(x, w)) + d, k, w);
  }

  // ----- Residues of the numeral -----

  lemma WrapIsRemainder(x: nat, w: Width)
    ensures Wrap(x, w) == x % Modulus(w)
  {
  }

  /**
   * The carry a digit drops is worth more than what the digit adds: after residue `u`
   * the next value u * base + d, reduced to the type, lands below `u`.
   */
  predicate Overtaken(u: nat, r: Radix, d: nat, w: Width) {
    (if r.Hex? then 15 * u + d else 9 * u + d) < (Scale(r, u) + d) / Modulus(w) * Modulus(w)
  }

  lemma OvertakenIsDrop(u: nat, r: Radix, d: nat, w: Width)
    ensures Overtaken(u, r, d, w) <==> Wrap(Scale(r, u) + d, w) < u
  {
    var x := Scale(r, u) + d;
    WrapIsRemainder(x, w);
    QuotientAndRemainder(x, Modulus(w));
    hide Wrap;
    hide Half;
    hide Modulus;
  }

  lemma QuotientAndRemainder(x: nat, m: int)
    requires m > 0
    ensures x % m == x - x / m * m
  {
  }

  /** Reading the digits one by one, one of them is overtaken by its carry. */
  ghost predicate SomeOvertaken(s: string, r: Radix, w: Width) {
    exists k :: 0 <= k < |s| && Overtaken(Value(s[..k], r) % Modulus(w), r, DigitValue(s[k]), w)
  }

  lemma OvertakenSnoc(s: string, c: char, r: Radix, w: Width)
    ensures SomeOvertaken(s + [c], r, w) <==>
            SomeOvertaken(s, r, w) || Overtaken(Value(s, r) % Modulus(w), r, DigitValue(c), w)
  {
    hide Overtaken;
    hide Value;
    var t := s + [c];
    assert t[..|s|] == s && t[|s|] == c;
    forall k | 0 <= k < |s| ensures t[..k] == s[..k] && t[k] == s[k] {
    }
    if SomeOvertaken(s, r, w) {
      var k :| 0 <= k < |s| && Overtaken(Value(s[..k], r) % Modulus(w), r, DigitValue(s[k]), w);
      assert Overtaken(Value(t[..k], r) % Modulus(w), r, DigitValue(t[k]), w);
    }
    if Overtaken(Value(s, r) % Modulus(w), r, DigitValue(c), w) {
      assert Overtaken(Value(t[..|s|], r) % Modulus(w), r, DigitValue(t[|s|]), w);
    }
  }

  /** One step of the accumulator, after the digits of value `x`. */
  lemma StepExactly(x: nat, r: Radix, d: nat, w: Width)
    ensures var u := x % Modulus(w);
            && u >= 0
            && Extended(Some(u), d, r, w) ==
               if d >= Base(r) || Overtaken(u, r, d, w) then None else Some((Scale(r, x) + d) % Modulus(w))
  {
    WrapIsRemainder(x, w);
    WrapIsRemainder(Scale(r, x) + d, w);
    ResidueStep(x, r, d, w);
    OvertakenIsDrop(x % Modulus(w), r, d, w);
    hide Wrap;
    hide Half;
    hide Modulus;
    hide Overtaken;
    hide Scale;
  }

  /** The accumulator refuses exactly wrong digits and overtaken ones, and otherwise holds the residue. */
  lemma {:induction false} AccumulatedExactly(s: string, r: Radix, w: Width)
    ensures Accumulated(s, r, w) ==
            if AllDigits(s, r) && !SomeOvertaken(s, r, w) then Some(Value(s, r) % Modulus(w)) else None
  {
    if s == [] {
      NothingAccumulated(r, w);
      NoneOvertaken(r, w);
    } else {
      var front, c := s[..|s| - 1], s[|s| - 1];
      assert s == front + [c];
      AccumulatedExactly(front, r, w);
      OneMoreDigit(front, c, r, w);
    }
    hide *;
  }

  lemma OneMoreDigit(s: string, c: char, r: Radix, w: Width)
    requires Accumulated(s, r, w) ==
             if AllDigits(s, r) && !SomeOvertaken(s, r, w) then Some(Value(s, r) % Modulus(w)) else None
    ensures Accumulated(s + [c], r, w) ==
            if AllDigits(s + [c], r) && !SomeOvertaken(s + [c], r, w)
            then Some(Value(s + [c], r) % Modulus(w))
            else None
  {
    AccumulatedSnoc(s, c, r, w);
    OvertakenSnoc(s, c, r, w);
    DigitsSnoc(s, c, r);
    ValueOfSnoc(s, c, r);
    StepExactly(Value(s, r), r, DigitValue(c), w);
    NoneStays(DigitValue(c), r, w);
    hide *;
  }

  lemma NoneStays(digit: nat, r: Radix, w: Width)
    ensures Extended(None, digit, r, w) == None
  {
  }

  lemma NoneOvertaken(r: Radix, w: Width)
    ensures AllDigits([], r) && !SomeOvertaken([], r, w) && Value([], r) % Modulus(w) == 0
  {
  }

  lemma DigitsSnoc(s: string, c: char, r: Radix)
    ensures AllDigits(s + [c], r) <==> AllDigits(s, r) && DigitValue(c) < Base(r)
  {
    assert (s + [c])[|s|] == c && forall i :: 0 <= i < |s| ==> (s + [c])[i] == s[i];
  }

  /** Conversion to the signed type of the same width. */
  function ToSigned(x: int, w: Width): (v: int)
    ensures -Half(w) <= v < Half(w)
    ensures -Half(w) <= x < Half(w) ==> v == x
  {
    var u := Wrap(x, w);
    if u < Half(w) then u else u - Modulus(w)
  }

  lemma WrapMinusOne(w: Width)
    ensures Wrap(-1, w) == Modulus(w) - 1 && ToSigned(Modulus(w) - 1, w) == -1
  {
  }

  /** `-u` without ever leaving the type, for all u up to 2^(N-1). */
  method CheckedNegate(u: nat, w: Width) returns (r: int)
    requires u <= Half(w)
    ensures r == 0 - u && -Half(w) <= r < Half(w)
  {
    WrapMinusOne(w);
    hide Half;
    var t := Wrap(u - 1, w);  // unsigned: wraps for 0
    var c := ToSigned(t, w);
    assert -Half(w) <= -c - 1 < Half(w);
    r := ToSigned(-c - 1, w);
  }

  method IntegerParser(text: string, t: IntegerType) returns (value: Option<int>)
    ensures value == Parsed(text, t)
    ensures value.Some? ==> InRange(t, value.value)
  {
    hide Wrap;
    hide Half;
    hide SplitInteger;
    hide Signed;
    hide Accumulated;
    var desc := SplitInteger(text);
    if desc.None? { return None; }
    var negative, base, valueMatch := desc.value.negative, Base(desc.value.radix), desc.value.value;
    ghost var radix := desc.value.radix;
    var result: nat := 0;
    NothingAccumulated(radix, t.width);
    for i := 0 to |valueMatch|
      invariant Accumulated(valueMatch[..i], radix, t.width) == Some(result)
    {
      assert valueMatch[..i + 1] == valueMatch[..i] + [valueMatch[i]];
      AccumulatedSnoc(valueMatch[..i], valueMatch[i], radix, t.width);
      var digit := DigitValue(valueMatch[i]);
      if digit >= base {
        RefusedStaysRefused(valueMatch, i + 1, radix, t.width);
        return None;
      }
      var next := Wrap(Scale(desc.value.radix, result) + digit, t.width);
      if result > next {
        RefusedStaysRefused(valueMatch, i + 1, radix, t.width);
        return None;
      }
      result := next;
    }
    assert valueMatch[..|valueMatch|] == valueMatch;
    value := Finish(result, negative, t);
  }

  lemma NothingAccumulated(r: Radix, w: Width)
    ensures Accumulated([], r, w) == Some(0)
  {
  }

  lemma {:induction false} RefusedStaysRefused(s: string, k: nat, r: Radix, w: Width)
    requires k <= |s| && Accumulated(s[..k], r, w).None?
    ensures Accumulated(s, r, w).None?
  {
    if k == |s| {
      assert s[..k] == s;
    } else {
      assert s[..|s| - 1][..k] == s[..k];
      RefusedStaysRefused(s[..|s| - 1], k, r, w);
    }
  }

  /** Range check of the accumulated residue, and its sign. */
  method Finish(result: nat, negative: bool, t: IntegerType) returns (value: Option<int>)
    requires result < Modulus(t.width)
    ensures value == Signed(result, negative, t)
    ensures value.Some? ==> InRange(t, value.value)
  {
    hide Half;
    if t.signed {
      if negative {
        if result > Half(t.width) { return None; }
      } else {
        if result > Half(t.width) - 1 { return None; }
      }
    }
    if negative {
      if !t.signed { return None; }
      var r := CheckedNegate(result, t.width);
      value := Some(r);
    } else {
      value := Some(result);
    }
  }

  // ----- What acceptance means -----

  /** The number a text stands for. */
  function NumeralOf(d: IntegerDesc): int {
    var v: int := Value(d.value, d.radix);
    if d.negative then 0 - v else v
  }

  /** Whatever is accepted is congruent to the numeral modulo the type's size. */
  lemma AcceptedIsCongruent(text: string, t: IntegerType) returns (q: int)
    requires Parsed(text, t).Some?
    ensures SplitInteger(text).Some?
    ensures Parsed(text, t).value == NumeralOf(SplitInteger(text).value) + q * Modulus(t.width)
  {
    hide Wrap;
    hide Half;
    hide Value;
    hide Accumulated;
    hide SomeOvertaken;
    var d := SplitInteger(text).value;
    AccumulatedExactly(d.value, d.radix, t.width);
    WrapIsRemainder(Value(d.value, d.radix), t.width);
    var k := WrapQuotient(Value(d.value, d.radix), t.width);
    q := if d.negative then k else -k;
    assert -k * Modulus(t.width) == -(k * Modulus(t.width));
  }

  lemma {:induction false} ValueOfPrefix(s: string, r: Radix, k: nat)
    requires k <= |s|
    ensures Value(s[..k], r) <= Value(s, r)
    decreases |s|
  {
    if k == |s| {
      assert s[..k] == s;
    } else {
      assert s[..|s| - 1][..k] == s[..k];
      ValueOfPrefix(s[..|s| - 1], r, k);
    }
  }

  /** While the numeral fits the unsigned type, no digit is overtaken. */
  lemma SmallNeverDrops(s: string, r: Radix, w: Width)
    requires Value(s, r) < Modulus(w)
    ensures !SomeOvertaken(s, r, w) && Value(s, r) % Modulus(w) == Value(s, r)
  {
    hide Half;
    hide Overtaken;
    hide Wrap;
    WrapIsRemainder(Value(s, r), w);
    forall k | 0 <= k < |s| ensures !Overtaken(Value(s[..k], r) % Modulus(w), r, DigitValue(s[k]), w) {
      SmallPrefixes(s, r, k);
      var u, v := Value(s[..k], r), Value(s[..k + 1], r);
      WrapIsRemainder(u, w);
      OvertakenIsDrop(u, r, DigitValue(s[k]), w);
    }
  }

  lemma SmallPrefixes(s: string, r: Radix, k: nat)
    requires k < |s|
    ensures Value(s[..k + 1], r) == Scale(r, Value(s[..k], r)) + DigitValue(s[k]) <= Value(s, r)
    ensures Value(s[..k], r) <= Value(s[..k + 1], r)
  {
    assert s[..k + 1] == s[..k] + [s[k]];
    ValueOfSnoc(s[..k], s[k], r);
    ValueOfPrefix(s, r, k + 1);
  }

  /**
   * A numeral whose value fits the type is accepted, with that value, unless it has a minus
   * sign and the type is unsigned.
   */
  lemma FittingIsExact(text: string, t: IntegerType)
    requires SplitInteger(text).Some?
    requires var d := SplitInteger(text).value; AllDigits(d.value, d.radix) && InRange(t, NumeralOf(d))
    ensures var d := SplitInteger(text).value;
            Parsed(text, t) == if d.negative && !t.signed then None else Some(NumeralOf(d))
  {
    hide Half;
    hide Value;
    hide Accumulated;
    hide SomeOvertaken;
    var d := SplitInteger(text).value;
    SmallNeverDrops(d.value, d.radix, t.width);
    AccumulatedExactly(d.value, d.radix, t.width);
  }

  /** Zero with a minus sign fits an unsigned type and is refused. */
  lemma NegativeZeroRefused()
    ensures SplitInteger("-0") == Some(IntegerDesc(true, Decimal, "0"))
    ensures NumeralOf(IntegerDesc(true, Decimal, "0")) == 0
    ensures InRange(IntegerType(W8, false), 0) && Parsed("-0", IntegerType(W8, false)) == None
    ensures Parsed("-0", IntegerType(W8, true)) == Some(0)
  {
    var s := "-0";
    assert CString(s) == s && s[1..] == "0";
    assert Accumulated("0", Decimal, W8) == Some(0) by { assert "0"[..0] == ""; }
    assert Value("0", Decimal) == 0 by { assert "0"[..0] == ""; }
  }

  /** The numeral `%d` or `%#x` style output of a value. */
  function PrintInteger(v: int, r: Radix): string {
    (if v < 0 then "-" else "") + (if r.Hex? then "0x" else "") + Print(if v < 0 then -v else v, r)
  }

  lemma SplitOfPrint(v: int, r: Radix)
    ensures SplitInteger(PrintInteger(v, r)) == Some(IntegerDesc(v < 0, r, Print(if v < 0 then -v else v, r)))
  {
    var text, digits := PrintInteger(v, r), Print(if v < 0 then -v else v, r);
    var p1 := (if r.Hex? then "0x" else "") + digits;
    assert IsDigit(digits[0], r) && (|digits| >= 2 ==> IsDigit(digits[1], r));
    NoNulInPrint(v, r);
    PrefixOfDigits(r, digits);
    assert (if v < 0 then text[1..] else text) == p1;
    assert text[0] == '-' <==> v < 0;
    SplitOfParts(text, text, v < 0, r, p1, digits);
    hide *;
  }

  lemma PrefixOfDigits(r: Radix, digits: string)
    requires digits != [] && IsDigit(digits[0], r) && (|digits| >= 2 ==> IsDigit(digits[1], r))
    ensures var p1 := (if r.Hex? then "0x" else "") + digits;
            && p1[0] != '-' && ("0x" <= p1 <==> r.Hex?) && digits == if r.Hex? then p1[2..] else p1
  {
    if r.Decimal? {
      assert "" + digits == digits;
      assert |digits| >= 2 ==> digits[1] != 'x';
    }
  }

  lemma NoNulInPrint(v: int, r: Radix)
    ensures CString(PrintInteger(v, r)) == PrintInteger(v, r)
  {
    hide Print;
    hide CString;
    var digits := Print(if v < 0 then -v else v, r);
    assert forall i :: 0 <= i < |digits| ==> IsDigit(digits[i], r);
    assert '\0' !in digits;
  }

  /** Parsing undoes printing, for every value of every type, in both notations. */
  lemma ParseUndoesPrint(v: int, r: Radix, t: IntegerType)
    requires InRange(t, v)
    ensures Parsed(PrintInteger(v, r), t) == Some(v)
  {
    hide Half;
    hide Print;
    hide Value;
    hide Parsed;
    SplitOfPrint(v, r);
    ValueOfPrint(if v < 0 then -v else v, r);
    FittingIsExact(PrintInteger(v, r), t);
  }

  /** The largest residue a sign leaves room for; a minus sign leaves an unsigned type none. */
  function Room(t: IntegerType, negative: bool): int {
    if !t.signed then (if negative then -1 else Modulus(t.width) - 1)
    else if negative then Half(t.width)
    else Half(t.width) - 1
  }

  /**
   * A numeral outside its type is refused exactly if one of its digits is overtaken by the
   * carry it drops, or what is left at the end has no room under its sign. Otherwise it
   * is accepted, with a wrong value.
   */
  lemma OverflowDetected(text: string, t: IntegerType)
    requires SplitInteger(text).Some?
    requires var d := SplitInteger(text).value;
             AllDigits(d.value, d.radix) && !InRange(t, NumeralOf(d))
    ensures var d := SplitInteger(text).value;
            && (Parsed(text, t).None? <==>
                || SomeOvertaken(d.value, d.radix, t.width)
                || Value(d.value, d.radix) % Modulus(t.width) > Room(t, d.negative))
            && (Parsed(text, t).Some? ==> Parsed(text, t).value != NumeralOf(d))
  {
    hide Half;
    hide Value;
    hide Accumulated;
    hide SomeOvertaken;
    var d := SplitInteger(text).value;
    AccumulatedExactly(d.value, d.radix, t.width);
    SignedHasRoom(Value(d.value, d.radix) % Modulus(t.width), d.negative, t);
  }

  lemma SignedHasRoom(u: nat, negative: bool, t: IntegerType)
    requires u < Modulus(t.width)
    ensures Signed(u, negative, t).None? <==> u > Room(t, negative)
    ensures Signed(u, negative, t).Some? ==> InRange(t, Signed(u, negative, t).value)
  {
  }

  lemma Accumulated300()
    ensures Accumulated("300", Decimal, W8) == Some(44)
  {
    hide Accumulated;
    NothingAccumulated(Decimal, W8);
    AccumulatedSnoc("", '3', Decimal, W8);
    AccumulatedSnoc("3", '0', Decimal, W8);
    AccumulatedSnoc("30", '0', Decimal, W8);
    assert "" + "3" == "3" && "3" + "0" == "30" && "30" + "0" == "300";
  }

  /** 300 does not fit 8 bits, signed or not, and is accepted as 44. */
  lemma OverflowMissed()
    ensures Parsed("300", IntegerType(W8, false)) == Some(44)
    ensures Parsed("300", IntegerType(W8, true)) == Some(44)
  {
    var s := "300";
    assert CString(s) == s;
    assert Accumulated("300", Decimal, W8) == Some(44) by { Accumulated300(); }
    hide Accumulated;
  }
}
