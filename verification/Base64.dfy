/**
 * The base64 decoder of the authentication code and the encoder beside it
 * (section 4 of RFC 4648). Shifts and masks of disjoint bits are written as
 * products, quotients and sums.
 */
module Base64 {
  import Text

  newtype Octet = n: int | 0 <= n < 256

  /** Value of a character: -1 for padding, 0 for a character outside the alphabet. */
  function Val(c: char): (x: int)
    ensures -1 <= x < 64
  {
    if c == '=' then -1
    else if 'A' <= c <= 'Z' then (c - 'A') as int
    else if 'a' <= c <= 'z' then (c - 'a') as int + 26
    else if '0' <= c <= '9' then (c - '0') as int + 52
    else if c == '+' then 62
    else if c == '/' then 63
    else 0
  }

  /** The encoder's table: A-Z, a-z, 0-9, + and /. */
  function Char(k: int): (c: char)
    requires 0 <= k < 64
    ensures InAlphabet(c) && Val(c) == k
  {
    if k < 26 then 'A' + k as char
    else if k < 52 then 'a' + (k - 26) as char
    else if k < 62 then '0' + (k - 52) as char
    else if k == 62 then '+' else '/'
  }

  predicate InAlphabet(c: char) {
    'A' <= c <= 'Z' || 'a' <= c <= 'z' || '0' <= c <= '9' || c == '+' || c == '/'
  }

  lemma CharOfVal(c: char)
    requires InAlphabet(c)
    ensures 0 <= Val(c) && Char(Val(c)) == c
  {
  }

  /** Table 1 of RFC 4648, by the codes of the characters. */
  lemma TableByCode(c: char, k: int)
    requires 0 <= k < 64
    ensures InAlphabet(c) && Val(c) == k <==>
            c as int == if k < 26 then 65 + k
                        else if k < 52 then 97 + (k - 26)
                        else if k < 62 then 48 + (k - 52)
                        else if k == 62 then 43
                        else 47
    ensures Val(c) == -1 <==> c as int == 61
    ensures !InAlphabet(c) && c as int != 61 ==> Val(c) == 0
  {
  }

  // ----- Sextets to octets -----

  /** The low eight bits of a value, 255 for -1. */
  function Low(x: int): int
    requires -1 <= x < 64
  {
    if x == -1 then 255 else x
  }

  /** (x1 << 2) | ((x2 & 0x30) >> 4) */
  function First(x1: int, x2: int): Octet
    requires -1 <= x1 < 64 && -1 <= x2 < 64
  {
    (Low(x1) % 64 * 4 + Low(x2) / 16 % 4) as Octet
  }

  /** ((x2 & 0x0F) << 4) | ((x3 & 0x3C) >> 2) */
  function Second(x2: int, x3: int): Octet
    requires -1 <= x2 < 64 && -1 <= x3 < 64
  {
    (Low(x2) % 16 * 16 + Low(x3) / 4 % 16) as Octet
  }

  /** ((x3 & 0x03) << 6) | (x4 & 0x3F) */
  function Third(x3: int, x4: int): Octet
    requires -1 <= x3 < 64 && -1 <= x4 < 64
  {
    (Low(x3) % 4 * 64 + Low(x4) % 64) as Octet
  }

  /** Six bits, all ones for padding. */
  function Bits(x: int): (b: int)
    requires -1 <= x < 64
    ensures 0 <= b < 64
  {
    if x == -1 then 63 else x
  }

  lemma LowBits(x: int)
    requires -1 <= x < 64
    ensures Low(x) % 64 == Bits(x) && Low(x) / 16 % 4 == Bits(x) / 16 && Low(x) % 16 == Bits(x) % 16
    ensures Low(x) / 4 % 16 == Bits(x) / 4 && Low(x) % 4 == Bits(x) % 4
  {
  }

  /** Where padding is not expected it counts as six one bits. */
  lemma PaddingActsAsOnes(x: int, y: int)
    requires -1 <= x < 64 && -1 <= y < 64
    ensures First(x, y) as int == Bits(x) * 4 + Bits(y) / 16
    ensures Second(x, y) as int == Bits(x) % 16 * 16 + Bits(y) / 4
    ensures Third(x, y) as int == Bits(x) % 4 * 64 + Bits(y)
  {
    LowBits(x);
    LowBits(y);
    hide Low;
    hide Bits;
  }

  function ValAt(buf: string, i: nat): (x: int)
    ensures -1 <= x < 64
  {
    if i < |buf| then Val(buf[i]) else -1
  }

  /** The last block, of at most four characters: it ends at the first padding. */
  function LastBlock(buf: string): seq<Octet> {
    var x1 := if buf == [] then 0 else Val(buf[0]);   // an empty text: the NUL behind it
    var x2, x3, x4 := ValAt(buf, 1), ValAt(buf, 2), ValAt(buf, 3);
    if x2 == -1 then []
    else if x3 == -1 then [First(x1, x2)]
    else if x4 == -1 then [First(x1, x2), Second(x2, x3)]
    else [First(x1, x2), Second(x2, x3), Third(x3, x4)]
  }

  function Decoded(buf: string): seq<Octet> {
    if |buf| <= 4 then LastBlock(buf)
    else
      var x1, x2, x3, x4 := Val(buf[0]), Val(buf[1]), Val(buf[2]), Val(buf[3]);
      [First(x1, x2), Second(x2, x3), Third(x3, x4)] + Decoded(buf[4..])
  }

  // ----- Octets to sextets -----

  function Block(a: Octet, b: Octet, c: Octet): (s: string)
    ensures |s| == 4
  {
    var x, y, z := a as int, b as int, c as int;
    [Char(x / 4), Char(x % 4 * 16 + y / 16), Char(y % 16 * 4 + z / 64), Char(z % 64)]
  }

  function Rest(buf: seq<Octet>): string
    requires |buf| < 3
  {
    if buf == [] then []
    else if |buf| == 1 then Block(buf[0], 0, 0)[..2] + "=="
    else Block(buf[0], buf[1], 0)[..3] + "="
  }

  function Encoded(buf: seq<Octet>): string {
    if |buf| < 3 then Rest(buf) else Block(buf[0], buf[1], buf[2]) + Encoded(buf[3..])
  }

  // ----- Blocks as numbers -----

  /** Four characters and three octets are one number of 24 bits, the first ones the high ones. */
  lemma BlockIsNumber(a: Octet, b: Octet, c: Octet)
    ensures var s := Block(a, b, c);
            Val(s[0]) * 262144 + Val(s[1]) * 4096 + Val(s[2]) * 64 + Val(s[3]) ==
            a as int * 65536 + b as int * 256 + c as int
  {
    hide Val;
    hide Char;
    var x, y, z := a as int, b as int, c as int;
    assert x == x / 4 * 4 + x % 4 && y == y / 16 * 16 + y % 16 && z == z / 64 * 64 + z % 64;
  }

  lemma OctetsAreNumber(x1: int, x2: int, x3: int, x4: int)
    requires 0 <= x1 < 64 && 0 <= x2 < 64 && 0 <= x3 < 64 && 0 <= x4 < 64
    ensures First(x1, x2) as int * 65536 + Second(x2, x3) as int * 256 + Third(x3, x4) as int ==
            x1 * 262144 + x2 * 4096 + x3 * 64 + x4
  {
    assert x2 == x2 / 16 * 16 + x2 % 16 && x3 == x3 / 4 * 4 + x3 % 4;
    assert x2 / 16 % 4 == x2 / 16 && x3 / 4 % 16 == x3 / 4;
  }

  // ----- Inverses -----

  lemma ValuesOfBlock(a: Octet, b: Octet, c: Octet)
    ensures var s := Block(a, b, c);
            && Val(s[0]) == a as int / 4 && Val(s[1]) == a as int % 4 * 16 + b as int / 16
            && Val(s[2]) == b as int % 16 * 4 + c as int / 64 && Val(s[3]) == c as int % 64
  {
    hide Val;
    hide Char;
  }

  lemma JoinFirst(a: int, b: int)
    requires 0 <= a < 256 && 0 <= b < 256
    ensures First(a / 4, a % 4 * 16 + b / 16) == a as Octet
  {
  }

  lemma JoinSecond(b: int, c: int, h: int)
    requires 0 <= b < 256 && 0 <= c < 256 && 0 <= h < 4
    ensures Second(h * 16 + b / 16, b % 16 * 4 + c / 64) == b as Octet
  {
    assert (h * 16 + b / 16) % 16 == b / 16;
    assert (b % 16 * 4 + c / 64) / 4 == b % 16;
  }

  lemma JoinThird(c: int, h: int)
    requires 0 <= c < 256 && 0 <= h < 16
    ensures Third(h * 4 + c / 64, c % 64) == c as Octet
  {
  }

  lemma BlockRoundTrip(a: Octet, b: Octet, c: Octet)
    ensures var s := Block(a, b, c);
            var x1, x2, x3, x4 := Val(s[0]), Val(s[1]), Val(s[2]), Val(s[3]);
            && 0 <= x1 && 0 <= x2 && 0 <= x3 && 0 <= x4
            && First(x1, x2) == a && Second(x2, x3) == b && Third(x3, x4) == c
  {
    hide Val;
    hide Block;
    hide First;
    hide Second;
    hide Third;
    ValuesOfBlock(a, b, c);
    JoinFirst(a as int, b as int);
    JoinSecond(b as int, c as int, a as int % 4);
    JoinThird(c as int, b as int % 16);
  }

  lemma PaddingIsNoValue()
    ensures Val('=') == -1
  {
  }

  /** The last block of a whole text is a block, a padded block or nothing. */
  lemma LastBlockRoundTrip(buf: seq<Octet>)
    requires |buf| <= 3
    ensures LastBlock(if |buf| < 3 then Rest(buf) else Block(buf[0], buf[1], buf[2])) == buf
  {
    hide Val;
    hide Block;
    hide First;
    hide Second;
    hide Third;
    PaddingIsNoValue();
    if buf != [] {
      BlockRoundTrip(buf[0], if |buf| > 1 then buf[1] else 0, if |buf| > 2 then buf[2] else 0);
    }
  }

  /** Decoding undoes encoding, for every string of octets. */
  lemma {:induction false} DecodeUndoesEncode(buf: seq<Octet>)
    ensures Decoded(Encoded(buf)) == buf
    ensures |Encoded(buf)| == (|buf| + 2) / 3 * 4
  {
    hide Val;
    hide Block;
    hide First;
    hide Second;
    hide Third;
    hide LastBlock;
    if |buf| >= 3 {
      var s, t := Block(buf[0], buf[1], buf[2]), Encoded(buf[3..]);
      BlockRoundTrip(buf[0], buf[1], buf[2]);
      DecodeUndoesEncode(buf[3..]);
      if |buf| == 3 {
        LastBlockRoundTrip(buf);
        assert buf[3..] == [] && s + t == s;
      } else {
        assert (s + t)[4..] == t;
        assert buf == [buf[0], buf[1], buf[2]] + buf[3..];
      }
    } else {
      LastBlockRoundTrip(buf);
    }
  }

  /** The texts an encoder produces: whole blocks, padding only at the end, unused bits zero. */
  predicate Canonical(t: string) {
    if t == [] then true
    else
      && |t| >= 4 && InAlphabet(t[0]) && InAlphabet(t[1])
      && if |t| > 4 || t[3] != '=' then InAlphabet(t[2]) && InAlphabet(t[3]) && Canonical(t[4..])
         else if t[2] != '=' then InAlphabet(t[2]) && Val(t[2]) % 4 == 0
         else Val(t[1]) % 16 == 0
  }

  /** Every encoding is canonical, so the canonical texts are exactly the encodings. */
  lemma {:induction false} EncodedIsCanonical(buf: seq<Octet>)
    ensures Canonical(Encoded(buf))
    decreases |buf|
  {
    if buf == [] {
    } else if |buf| < 3 {
      RestIsCanonical(buf);
    } else {
      EncodedIsCanonical(buf[3..]);
      BlockIsCanonical(buf[0], buf[1], buf[2], Encoded(buf[3..]));
    }
  }

  lemma BlockIsCanonical(a: Octet, b: Octet, c: Octet, rest: string)
    requires Canonical(rest)
    ensures Canonical(Block(a, b, c) + rest)
  {
    var t := Block(a, b, c) + rest;
    assert t[4..] == rest;
    PaddingIsNoLetter();
  }

  lemma PaddingIsNoLetter()
    ensures !InAlphabet('=')
  {
  }

  lemma RestIsCanonical(buf: seq<Octet>)
    requires 1 <= |buf| <= 2
    ensures Canonical(Rest(buf))
  {
    var x := buf[0] as int;
    assert Val(Char(x % 4 * 16)) == x % 4 * 16;
    if |buf| == 2 {
      var y := buf[1] as int;
      assert Val(Char(y % 16 * 4)) == y % 16 * 4;
    }
  }

  lemma ResplitBlock(x1: int, x2: int, x3: int, x4: int)
    requires 0 <= x1 < 64 && 0 <= x2 < 64 && 0 <= x3 < 64 && 0 <= x4 < 64
    ensures Block(First(x1, x2), Second(x2, x3), Third(x3, x4)) == [Char(x1), Char(x2), Char(x3), Char(x4)]
  {
    hide Char;
    SplitFirst(x1, x2);
    SplitSecond(x2, x3);
    SplitThird(x3, x4);
  }

  lemma SplitFirst(x1: int, x2: int)
    requires 0 <= x1 < 64 && 0 <= x2 < 64
    ensures First(x1, x2) as int / 4 == x1 && First(x1, x2) as int % 4 == x2 / 16
  {
  }

  lemma SplitSecond(x2: int, x3: int)
    requires 0 <= x2 < 64 && 0 <= x3 < 64
    ensures Second(x2, x3) as int / 16 == x2 % 16 && Second(x2, x3) as int % 16 == x3 / 4
  {
  }

  lemma SplitThird(x3: int, x4: int)
    requires 0 <= x3 < 64 && 0 <= x4 < 64
    ensures Third(x3, x4) as int / 64 == x3 % 4 && Third(x3, x4) as int % 64 == x4
  {
  }

  lemma AlphabetIsNotPadding(c: char)
    requires InAlphabet(c)
    ensures c != '=' && Val(c) != -1
  {
  }

  lemma PaddedBlocks(x1: int, x2: int, x3: int)
    requires 0 <= x1 < 64 && 0 <= x2 < 64 && 0 <= x3 < 64
    ensures x2 % 16 == 0 ==> Block(First(x1, x2), 0, 0)[..2] == [Char(x1), Char(x2)]
    ensures x3 % 4 == 0 ==> Block(First(x1, x2), Second(x2, x3), 0)[..3] == [Char(x1), Char(x2), Char(x3)]
  {
    hide Char;
    SplitFirst(x1, x2);
    SplitSecond(x2, x3);
  }

  lemma LastBlockCanonical(t: string)
    requires |t| == 4 && Canonical(t)
    ensures Encoded(LastBlock(t)) == t
  {
    hide Val;
    hide Char;
    hide InAlphabet;
    hide Block;
    hide First;
    hide Second;
    hide Third;
    PaddingIsNoValue();
    forall i | 0 <= i < 4 && InAlphabet(t[i]) ensures 0 <= Val(t[i]) && t[i] != '=' && Char(Val(t[i])) == t[i] {
      CharOfVal(t[i]);
      AlphabetIsNotPadding(t[i]);
    }
    assert t[4..] == [];
    if t[3] != '=' {
      ResplitBlock(Val(t[0]), Val(t[1]), Val(t[2]), Val(t[3]));
      assert LastBlock(t)[3..] == [];
    } else {
      PaddedBlocks(Val(t[0]), Val(t[1]), if t[2] != '=' then Val(t[2]) else 0);
    }
  }

  /** Encoding undoes decoding, for every canonical text. */
  lemma {:induction false} EncodeUndoesDecode(t: string)
    requires Canonical(t)
    ensures Encoded(Decoded(t)) == t
  {
    hide Val;
    hide Char;
    hide InAlphabet;
    hide Block;
    hide First;
    hide Second;
    hide Third;
    hide LastBlock;
    if |t| == 4 {
      LastBlockCanonical(t);
    } else if |t| > 4 {
      forall i | 0 <= i < 4 ensures 0 <= Val(t[i]) && Char(Val(t[i])) == t[i] {
        CharOfVal(t[i]);
      }
      EncodeUndoesDecode(t[4..]);
      ResplitBlock(Val(t[0]), Val(t[1]), Val(t[2]), Val(t[3]));
      assert Decoded(t)[3..] == Decoded(t[4..]);
      assert t == [t[0], t[1], t[2], t[3]] + t[4..];
    } else {
      EmptyText();
    }
  }

  lemma EmptyText()
    ensures LastBlock([]) == []
  {
  }

  // ----- The loops -----

  lemma DecodedStep(buf: string, i: nat)
    requires i + 4 < |buf|
    ensures var x1, x2, x3, x4 := Val(buf[i]), Val(buf[i + 1]), Val(buf[i + 2]), Val(buf[i + 3]);
            Decoded(buf[i..]) == [First(x1, x2), Second(x2, x3), Third(x3, x4)] + Decoded(buf[i + 4..])
  {
    hide First;
    hide Second;
    hide Third;
    hide Val;
    assert buf[i..][4..] == buf[i + 4..];
  }

  method Put<T>(out: array<T>, j: nat, c: T)
    requires j < out.Length
    modifies out
    ensures out[..j + 1] == old(out[..j]) + [c]
  {
    out[j] := c;
  }

  /** None of the writes leaves the allocation; `newlen` is the number of octets before the NUL. */
  method DecodeString(buf: string) returns (out: array<Octet>, newlen: nat)
    ensures newlen < out.Length && out[..newlen] == Decoded(buf) && out[newlen] == 0
  {
    hide First;
    hide Second;
    hide Third;
    hide Val;
    hide Decoded;
    var len := |buf|;
    out := new Octet[len * 3 / 4 + 8];
    var i, j := 0, 0;
    assert buf[0..] == buf && out[..0] == [];
    while i + 4 < len
      invariant 0 <= i <= len && 0 <= j && 4 * j == 3 * i && j + 8 <= out.Length
      invariant Decoded(buf) == out[..j] + Decoded(buf[i..])
    {
      ghost var before := out[..j];
      DecodedStep(buf, i);
      var x1, x2, x3, x4 := Val(buf[i]), Val(buf[i + 1]), Val(buf[i + 2]), Val(buf[i + 3]);
      Put(out, j, First(x1, x2));
      Put(out, j + 1, Second(x2, x3));
      Put(out, j + 2, Third(x3, x4));
      Text.Assoc(before, [First(x1, x2), Second(x2, x3), Third(x3, x4)], Decoded(buf[i + 4..]));
      i := i + 4;
      j := j + 3;
    }
    newlen := DecodeLast(buf[i..], out, j);
    DecodedLast(buf[i..]);
    out[newlen] := 0;
  }

  lemma DecodedLast(rest: string)
    requires |rest| <= 4
    ensures Decoded(rest) == LastBlock(rest)
  {
  }

  /** The nested tests after the loop. */
  method DecodeLast(rest: string, out: array<Octet>, at: nat) returns (j: nat)
    requires |rest| <= 4 && at + 4 <= out.Length
    modifies out
    ensures j < out.Length && out[..j] == old(out[..at]) + LastBlock(rest)
  {
    hide First;
    hide Second;
    hide Third;
    hide Val;
    j := at;
    var x1 := if rest == [] then 0 else Val(rest[0]);
    var x2, x3, x4 := ValAt(rest, 1), ValAt(rest, 2), ValAt(rest, 3);
    if x2 != -1 {
      Put(out, j, First(x1, x2));
      j := j + 1;
      if x3 != -1 {
        Put(out, j, Second(x2, x3));
        j := j + 1;
        if x4 != -1 {
          Put(out, j, Third(x3, x4));
          j := j + 1;
        }
      }
    }
  }

  lemma EncodedStep(buf: seq<Octet>, i: nat)
    requires i + 3 <= |buf|
    ensures Encoded(buf[i..]) == Block(buf[i], buf[i + 1], buf[i + 2]) + Encoded(buf[i + 3..])
  {
    hide Block;
    assert buf[i..][3..] == buf[i + 3..];
  }

  /** The encoder; `newlen` is the length of the text before the NUL. */
  method EncodeString(buf: seq<Octet>) returns (out: array<char>, newlen: nat)
    ensures newlen < out.Length && out[..newlen] == Encoded(buf) && out[newlen] == '\0'
  {
    hide Block;
    hide Encoded;
    var triplets := |buf| / 3;
    out := new char[triplets * 4 + 8];
    var i, ptr := 0, 0;
    ghost var done := 0;
    assert buf[0..] == buf && out[..0] == [];
    while i < triplets * 3
      invariant 0 <= done <= triplets && i == 3 * done && ptr == 4 * done
      invariant Encoded(buf) == out[..ptr] + Encoded(buf[i..])
    {
      EncodedStep(buf, i);
      Text.Assoc(out[..ptr], Block(buf[i], buf[i + 1], buf[i + 2]), Encoded(buf[i + 3..]));
      PutBlock(out, ptr, buf[i], buf[i + 1], buf[i + 2]);
      i := i + 3;
      ptr := ptr + 4;
      done := done + 1;
    }
    newlen := EncodeRest(buf[i..], out, ptr);
    EncodedRest(buf[i..]);
    out[newlen] := '\0';
  }

  method PutBlock(out: array<char>, ptr: nat, a: Octet, b: Octet, c: Octet)
    requires ptr + 4 <= out.Length
    modifies out
    ensures out[..ptr + 4] == old(out[..ptr]) + Block(a, b, c)
  {
    hide Char;
    var x, y, z := a as int, b as int, c as int;
    Put(out, ptr, Char(x / 4));
    Put(out, ptr + 1, Char(x % 4 * 16 + y / 16));
    Put(out, ptr + 2, Char(y % 16 * 4 + z / 64));
    Put(out, ptr + 3, Char(z % 64));
  }

  lemma EncodedRest(rest: seq<Octet>)
    requires |rest| < 3
    ensures Encoded(rest) == Rest(rest)
  {
  }

  method EncodeRest(rest: seq<Octet>, out: array<char>, at: nat) returns (ptr: nat)
    requires |rest| < 3 && at + 8 <= out.Length
    modifies out
    ensures ptr < out.Length && out[..ptr] == old(out[..at]) + Rest(rest)
  {
    hide Char;
    hide Rest;
    RestIs(rest);
    ptr := at;
    if rest != [] {
      var a, b := rest[0] as int, if |rest| == 2 then rest[1] as int else 0;
      Put(out, ptr, Char(a / 4));
      Put(out, ptr + 1, Char(a % 4 * 16 + b / 16));
      Put(out, ptr + 2, if |rest| == 2 then Char(b % 16 * 4) else '=');
      Put(out, ptr + 3, '=');
      ptr := ptr + 4;
    }
  }

  lemma RestIs(rest: seq<Octet>)
    requires |rest| < 3
    ensures rest == [] ==> Rest(rest) == []
    ensures rest != [] ==>
              var a, b := rest[0] as int, if |rest| == 2 then rest[1] as int else 0;
              Rest(rest) == [Char(a / 4), Char(a % 4 * 16 + b / 16), if |rest| == 2 then Char(b % 16 * 4) else '=', '=']
  {
    hide Char;
  }
}
