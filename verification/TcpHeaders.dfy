/** What the header block of a message says about its length, in terms of its text. */
module TcpHeaders {
  import opened Text
  import opened Numerals
  import opened TcpFraming
  import opened TcpRoundTrip

  // ----- `atoi` on a text taken apart -----

  predicate White(c: char) {
    var code := c as int;
    code == 32 || 9 <= code <= 13
  }

  predicate AllWhite(s: string) {
    forall k :: 0 <= k < |s| ==> White(s[k])
  }

  /** Digits that end the text or stand before a character that is none. */
  predicate Numeral(digits: string, rest: string) {
    && digits != [] && (forall k :: 0 <= k < |digits| ==> '0' <= digits[k] <= '9')
    && (rest != [] ==> !('0' <= rest[0] <= '9'))
  }

  /** Saturated to 64 bits, then the low 32 bits, both as signed numbers. */
  ghost predicate Truncated(v: int, r: int) {
    var l := if v < -0x8000_0000_0000_0000 then -0x8000_0000_0000_0000
             else if v > 0x7FFF_FFFF_FFFF_FFFF then 0x7FFF_FFFF_FFFF_FFFF
             else v;
    -0x8000_0000 <= r <= 0x7FFF_FFFF && (l - r) % 0x1_0000_0000 == 0
  }

  lemma Int32Exactly(v: int)
    ensures -0x8000_0000 <= Int32(v) <= 0x7FFF_FFFF && (v - Int32(v)) % 0x1_0000_0000 == 0
    ensures -0x8000_0000 <= v <= 0x7FFF_FFFF ==> Int32(v) == v
  {
  }

  lemma {:induction false} SkipsWhite(ws: string, s: string)
    requires AllWhite(ws) && s != [] && !White(s[0])
    ensures SkipSpace(ws + s) == s
  {
    if ws == [] {
      assert ws + s == s;
    } else {
      assert (ws + s)[1..] == ws[1..] + s;
      SkipsWhite(ws[1..], s);
    }
  }

  lemma {:induction false} NumberStops(digits: string, rest: string, acc: nat)
    requires forall k :: 0 <= k < |digits| ==> '0' <= digits[k] <= '9'
    requires rest != [] ==> !('0' <= rest[0] <= '9')
    ensures LeadingNumber(digits + rest, acc) == LeadingNumber(digits, acc)
    decreases |digits|
  {
    if digits == [] {
      assert digits + rest == rest;
    } else {
      assert (digits + rest)[1..] == digits[1..] + rest;
      NumberStops(digits[1..], rest, 10 * acc + DigitValue(digits[0]));
    }
  }

  lemma NumberIsValue(digits: string, rest: string)
    requires Numeral(digits, rest)
    ensures LeadingNumber(digits + rest, 0) == Value(digits, Decimal)
  {
    NumberStops(digits, rest, 0);
    LeadingNumberIsValue([], digits);
    assert [] + digits == digits;
    ValueOfEmpty();
  }

  /** White space, a sign or none, digits, anything else: the number, saturated and truncated. */
  lemma AtoiReads(ws: string, sign: string, digits: string, rest: string)
    requires AllWhite(ws) && sign in ["", "+", "-"] && Numeral(digits, rest)
    ensures var n: int := Value(digits, Decimal);
            Truncated(if sign == "-" then -n else n, Atoi(ws + sign + digits + rest))
  {
    hide Value;
    hide LeadingNumber;
    hide SkipSpace;
    var t := sign + (digits + rest);
    assert ws + sign + digits + rest == ws + t;
    assert t[0] == if sign == "" then digits[0] else sign[0];
    SkipsWhite(ws, t);
    NumberIsValue(digits, rest);
    SignedPart(sign, digits + rest);
    var n: int := Value(digits, Decimal);
    AtoiOf(ws + t, t, sign == "-", digits + rest, n);
  }

  lemma SignedPart(sign: string, s: string)
    requires sign in ["", "+", "-"] && s != [] && '0' <= s[0] <= '9'
    ensures var t := sign + s;
            && ((t[0] == '-') <==> sign == "-")
            && (if t[0] == '-' || t[0] == '+' then t[1..] else t) == s
  {
  }

  lemma AtoiOf(s: string, t: string, negative: bool, digits: string, n: int)
    requires SkipSpace(s) == t != [] && (t[0] == '-' <==> negative) && n == LeadingNumber(digits, 0)
    requires digits == if t[0] == '-' || t[0] == '+' then t[1..] else t
    ensures Truncated(if negative then -n else n, Atoi(s))
  {
    hide SkipSpace;
    hide LeadingNumber;
    var v := if negative then -n else n;
    Int32Exactly(if v < -LONG_MAX - 1 then -LONG_MAX - 1 else if v > LONG_MAX then LONG_MAX else v);
    hide Int32;
  }

  // ----- The four spellings of the length header -----

  /** `needle` stands at `j`, in any case. */
  predicate Spelled(s: string, needle: string, j: int) {
    0 <= j && j + |needle| <= |s| && SameLetters(s[j..j + |needle|], needle)
  }

  predicate Absent(s: string, needle: string) {
    forall j :: 0 <= j < |s| ==> !Spelled(s, needle, j)
  }

  /** The spellings, in the order in which they are looked for. */
  function Spelling(k: nat): (needle: string)
    requires k < 4
    ensures |needle| > 0
  {
    if k == 0 then "\r\ncontent-length:"
    else if k == 1 then "\r\ncontent-length "
    else if k == 2 then "\r\nl:"
    else "\r\nl "
  }

  lemma SpellingsAreLower(k: nat)
    requires k < 4
    ensures Lower(Spelling(k)) == Spelling(k)
  {
    assert forall i :: 0 <= i < |Spelling(k)| ==> LowerChar(Spelling(k)[i]) == Spelling(k)[i];
  }

  lemma LowerOfSlice(s: string, i: nat, j: nat)
    requires i <= j <= |s|
    ensures Lower(s)[i..j] == Lower(s[i..j])
  {
  }

  lemma SpelledIsOccurs(s: string, k: nat, j: int)
    requires k < 4
    ensures Occurs(Lower(s), Spelling(k), j) <==> Spelled(s, Spelling(k), j)
  {
    var needle := Spelling(k);
    if 0 <= j && j + |needle| <= |s| {
      SpellingsAreLower(k);
      LowerOfSlice(s, j, j + |needle|);
      LowerExactly(s[j..j + |needle|], needle);
    }
    hide SameLetters;
    hide Lower;
    hide Spelling;
  }

  lemma FoundSpelling(s: string, k: nat, r: int)
    requires k < 4
    requires r == -1 ==> Absent(s, Spelling(k))
    requires r != -1 ==> Spelled(s, Spelling(k), r) && forall j :: 0 <= j < r ==> !Spelled(s, Spelling(k), j)
    ensures Find(Lower(s), Spelling(k)) == r
  {
    hide Find;
    hide Spelled;
    hide Lower;
    hide Spelling;
    forall j | 0 <= j && (r == -1 || j <= r)
      ensures Occurs(Lower(s), Spelling(k), j) <==> Spelled(s, Spelling(k), j)
    {
      SpelledIsOccurs(s, k, j);
    }
    if r != -1 { assert 0 <= r by { SpelledFits(s, Spelling(k), r); } }
    forall j | 0 <= j && (r == -1 || j < r) ensures !Occurs(Lower(s), Spelling(k), j) {
      if j >= |s| { SpelledFits(s, Spelling(k), j); }
    }
    FindIsLeftmost(Lower(s), Spelling(k), r);
  }

  lemma SpelledFits(s: string, needle: string, j: int)
    requires needle != []
    ensures Spelled(s, needle, j) ==> 0 <= j < |s|
  {
  }

  /** The search goes through the spellings in order. */
  lemma FirstSpelling(s: string, k: nat, r: int)
    requires k < 4 && r >= 0
    requires forall m :: 0 <= m < k ==> Absent(s, Spelling(m))
    requires Spelled(s, Spelling(k), r) && forall j :: 0 <= j < r ==> !Spelled(s, Spelling(k), j)
    ensures FindLengthHeader(s) == r
  {
    hide Find;
    hide Spelled;
    hide Absent;
    FoundSpelling(s, k, r);
    if k > 0 { FoundSpelling(s, 0, -1); }
    if k > 1 { FoundSpelling(s, 1, -1); }
    if k > 2 { FoundSpelling(s, 2, -1); }
    assert Spelling(0) == CLEN_HEADER && Spelling(1) == CLEN_HEADER2;
    assert Spelling(2) == CLEN_HEADER_COMPACT && Spelling(3) == CLEN_HEADER_COMPACT2;
  }

  lemma NoSpelling(s: string)
    requires forall m :: 0 <= m < 4 ==> Absent(s, Spelling(m))
    ensures FindLengthHeader(s) == -1
  {
    hide Find;
    hide Absent;
    FoundSpelling(s, 0, -1);
    FoundSpelling(s, 1, -1);
    FoundSpelling(s, 2, -1);
    FoundSpelling(s, 3, -1);
    assert Spelling(0) == CLEN_HEADER && Spelling(1) == CLEN_HEADER2;
    assert Spelling(2) == CLEN_HEADER_COMPACT && Spelling(3) == CLEN_HEADER_COMPACT2;
  }

  // ----- A message without a length header -----

  /** Without one of the four spellings, in any case, the body is presumed empty. */
  lemma NoHeaderNoBody(head: string)
    requires '\0' !in head && forall m :: 0 <= m < 4 ==> Absent(head, Spelling(m))
    ensures ContentLength(head) == Some(0)
  {
    NoSpelling(head);
    hide FindLengthHeader;
    hide Absent;
  }

  /** A head without terminator, NUL and length header is a message of its own, whatever follows. */
  lemma MessageWithoutLength(head: string, rest: string)
    requires head != [] && '\0' !in head && |head| + 4 <= 0x7FFF_FFFF
    requires forall j :: 0 <= j < |head| ==> !Occurs(head + "\r\n\r\n", "\r\n\r\n", j)
    requires forall m :: 0 <= m < 4 ==> Absent(head, Spelling(m))
    ensures var m := head + "\r\n\r\n";
            && WellFormed(m) && NextStep(m + rest) == Deliver(|head| + 4)
            && Frame(m + rest) == Frame(rest).(messages := [m] + Frame(rest).messages)
  {
    hide ContentLength;
    hide Find;
    hide Absent;
    hide Int32;
    var m := head + "\r\n\r\n";
    assert m[|head|..|head| + 4] == END_HEADERS;
    FindIsLeftmost(m, END_HEADERS, |head|);
    NoHeaderNoBody(head);
    assert m[..|head|] == head;
    StepOfItem(Message(m), rest);
    assert (m + rest)[|m|..] == rest && (m + rest)[..|m|] == m;
    hide NextStep;
  }

  // ----- A message with one -----

  /** The header's line: its spelling in any case; a colon unless the spelling has one; white space. */
  predicate LengthLine(line: string, k: nat)
    requires k < 4
  {
    var n := |Spelling(k)|;
    && n <= |line| && SameLetters(line[..n], Spelling(k))
    && if k % 2 == 0 then AllBlank(line[n..])
       else exists c :: n <= c < |line| && line[c] == ':' && AllBlank(line[n..c]) && AllBlank(line[c + 1..])
  }

  predicate AllBlank(s: string) {
    forall i :: 0 <= i < |s| ==> s[i] == ' ' || s[i] == '\t'
  }

  /** Where the colon of a line is. */
  ghost predicate ColonAt(line: string, c: nat) {
    c < |line| && line[c] == ':' && AllBlank(line[c + 1..]) && forall i :: 0 <= i < c ==> line[i] != ':'
  }

  /** The spelling a line starts with, letter by letter, and what stands behind it. */
  lemma LetterOfLine(line: string, k: nat, i: nat)
    requires k < 4 && LengthLine(line, k) && i < |line|
    ensures i < |Spelling(k)| ==> SameLetter(line[i], Spelling(k)[i])
    ensures i >= |Spelling(k)| ==> line[i] == ' ' || line[i] == '\t' || line[i] == ':'
  {
    hide SameLetter;
    hide Spelling;
    var n := |Spelling(k)|;
    if i < n {
      assert line[..n][i] == line[i];
    } else if k % 2 == 0 {
      assert line[n..][i - n] == line[i];
    } else {
      var d :| n <= d < |line| && line[d] == ':' && AllBlank(line[n..d]) && AllBlank(line[d + 1..]);
      assert i < d ==> line[n..d][i - n] == line[i];
      assert i > d ==> line[d + 1..][i - d - 1] == line[i];
    }
  }

  lemma SpellingLetters(k: nat, i: nat)
    requires k < 4 && i < |Spelling(k)|
    ensures Spelling(k)[i] == '\r' <==> i == 0
    ensures Spelling(k)[i] == ':' <==> k % 2 == 0 && i == |Spelling(k)| - 1
    ensures Spelling(k)[i] != '\0'
  {
  }

  lemma ColonOfLine(line: string, k: nat) returns (c: nat)
    requires k < 4 && LengthLine(line, k)
    ensures ColonAt(line, c)
  {
    var n := |Spelling(k)|;
    if k % 2 == 0 {
      c := n - 1;
      LetterOfLine(line, k, c);
      SpellingLetters(k, c);
      assert line[c + 1..] == line[n..];
    } else {
      c :| n <= c < |line| && line[c] == ':' && AllBlank(line[n..c]) && AllBlank(line[c + 1..]);
    }
    hide Spelling;
    hide LengthLine;
    forall i | 0 <= i < c ensures line[i] != ':' {
      if i < n {
        LetterOfLine(line, k, i);
        SpellingLetters(k, i);
      } else {
        assert line[n..c][i - n] == line[i];
      }
    }
  }

  /** The line starts with CR and has no other; it holds no NUL. */
  lemma LineCharacters(line: string, k: nat)
    requires k < 4 && LengthLine(line, k)
    ensures line != [] && forall i :: 0 <= i < |line| ==> (line[i] == '\r' <==> i == 0)
    ensures '\0' !in line
  {
    hide Spelling;
    forall i | 0 <= i < |line| ensures (line[i] == '\r' <==> i == 0) && line[i] != '\0' {
      LetterOfLine(line, k, i);
      if i < |Spelling(k)| { SpellingLetters(k, i); }
    }
  }

  /** A line does not begin like an earlier spelling. */
  lemma LineDiffers(line: string, k: nat, m: nat) returns (i: nat)
    requires m < k < 4 && LengthLine(line, k)
    ensures i < |Spelling(m)| && i < |line| && !SameLetter(line[i], Spelling(m)[i])
  {
    i := if m / 2 == k / 2 then |Spelling(k)| - 1 else 2;
    LetterOfLine(line, k, i);
    hide LengthLine;
    assert Spelling(k)[i] in "c: l" && Spelling(m)[i] in "c: l" && Spelling(k)[i] != Spelling(m)[i];
  }

  lemma MismatchAt(s: string, needle: string, j: nat, i: nat)
    requires i < |needle| && (j + i < |s| ==> !SameLetter(s[j + i], needle[i]))
    ensures !Spelled(s, needle, j)
  {
    hide SameLetter;
    if j + |needle| <= |s| {
      assert s[j..j + |needle|][i] == s[j + i];
    }
  }

  function Block(head: string, line: string, n: nat): string {
    head + line + Print(n, Decimal)
  }

  /** No spelling that the head does not hold starts anywhere but at the line. */
  lemma SpellingStaysOut(head: string, line: string, n: nat, k: nat, m: nat, j: nat)
    requires m <= k < 4 && LengthLine(line, k) && Absent(head, Spelling(m))
    requires j != |head| || m < k
    ensures !Spelled(Block(head, line, n), Spelling(m), j)
  {
    var block, needle := Block(head, line, n), Spelling(m);
    LineCharacters(line, k);
    DigitIsNoReturn(Print(n, Decimal));
    hide LengthLine;
    hide Print;
    if j + |needle| <= |head| {
      assert block[j..j + |needle|] == head[j..j + |needle|];
      assert !Spelled(head, needle, j);
    } else if j < |head| {
      SpellingLetters(m, |head| - j);
      assert block[|head|] == line[0];
      MismatchAt(block, needle, j, |head| - j);
    } else if j == |head| {
      var i := LineDiffers(line, k, m);
      assert block[j + i] == line[i];
      MismatchAt(block, needle, j, i);
    } else {
      SpellingLetters(m, 0);
      if j < |block| { NoReturnBehind(head, line, n, k, j); }
      MismatchAt(block, needle, j, 0);
    }
  }

  lemma NoReturnBehind(head: string, line: string, n: nat, k: nat, j: nat)
    requires k < 4 && LengthLine(line, k) && |head| < j < |Block(head, line, n)|
    ensures Block(head, line, n)[j] != '\r'
  {
    hide LengthLine;
    hide Print;
    LineCharacters(line, k);
    var d := Print(n, Decimal);
    DigitIsNoReturn(d);
    var block := Block(head, line, n);
    if j < |head| + |line| {
      assert block[j] == line[j - |head|];
    } else {
      assert block[j] == d[j - |head| - |line|];
    }
  }

  lemma DigitIsNoReturn(d: string)
    requires AllDigits(d, Decimal)
    ensures '\r' !in d && '\0' !in d && ':' !in d
  {
    assert forall i :: 0 <= i < |d| ==> IsDigit(d[i], Decimal);
  }

  lemma HeaderOfBlock(head: string, line: string, n: nat, k: nat)
    requires k < 4 && LengthLine(line, k) && forall m :: 0 <= m <= k ==> Absent(head, Spelling(m))
    ensures FindLengthHeader(Block(head, line, n)) == |head|
  {
    hide LengthLine;
    hide Print;
    var block := Block(head, line, n);
    LineIsSpelled(head, line, n, k);
    hide Spelled;
    forall m, j | 0 <= m < k && 0 <= j < |block| ensures !Spelled(block, Spelling(m), j) {
      SpellingStaysOut(head, line, n, k, m, j);
    }
    forall j | 0 <= j < |head| ensures !Spelled(block, Spelling(k), j) {
      SpellingStaysOut(head, line, n, k, k, j);
    }
    FirstSpelling(block, k, |head|);
  }

  lemma LineIsSpelled(head: string, line: string, n: nat, k: nat)
    requires k < 4 && LengthLine(line, k)
    ensures Spelled(Block(head, line, n), Spelling(k), |head|)
  {
    hide Spelling;
    hide Print;
    hide SameLetters;
    assert Block(head, line, n)[|head|..|head| + |Spelling(k)|] == line[..|Spelling(k)|];
  }

  lemma ColonOfBlock(head: string, line: string, n: nat, c: nat)
    requires ColonAt(line, c)
    ensures FindFrom(Block(head, line, n), ":", |head|) == |head| + c
    ensures Block(head, line, n)[|head| + c + 1..] == line[c + 1..] + Print(n, Decimal)
  {
    hide FindFrom;
    hide Print;
    hide AllBlank;
    var block, d := Block(head, line, n), Print(n, Decimal);
    ColonIsFirst(head, line + d, c);
    assert block == head + (line + d);
    assert (line + d)[c + 1..] == line[c + 1..] + d;
    assert (head + (line + d))[|head| + (c + 1)..] == (line + d)[c + 1..];
  }

  lemma ColonIsFirst(head: string, tail: string, c: nat)
    requires c < |tail| && tail[c] == ':' && forall i :: 0 <= i < c ==> tail[i] != ':'
    ensures FindFrom(head + tail, ":", |head|) == |head| + c
  {
    hide FindFrom;
    var s := head + tail;
    assert s[|head| + c..|head| + c + 1] == ":";
    forall j | |head| <= j < |head| + c ensures !Occurs(s, ":", j) {
      assert s[j..j + 1][0] == tail[j - |head|];
    }
    FindFromIsLeftmost(s, ":", |head|, |head| + c);
  }

  lemma NumberOfLine(ws: string, n: nat)
    requires AllBlank(ws) && n <= 0x7FFF_FFFF
    ensures Atoi(ws + Print(n, Decimal)) == n
  {
    hide Atoi;
    hide Value;
    hide Print;
    var d := Print(n, Decimal);
    PrintIsNumeral(n);
    AtoiReads(ws, "", d, "");
    ValueOfPrint(n, Decimal);
    assert ws + "" + d + "" == ws + d;
    OnlyResidue(n, Atoi(ws + d));
  }

  lemma PrintIsNumeral(n: nat)
    ensures Numeral(Print(n, Decimal), "")
  {
    hide Print;
    var d := Print(n, Decimal);
    forall i | 0 <= i < |d| ensures '0' <= d[i] <= '9' {
      assert IsDigit(d[i], Decimal);
    }
  }

  lemma OnlyResidue(n: nat, r: int)
    requires n <= 0x7FFF_FFFF && Truncated(n, r)
    ensures r == n
  {
  }

  /** Each of the four spellings, in any case, announces the number behind its colon. */
  lemma LengthOfBlock(head: string, line: string, n: nat, k: nat)
    requires k < 4 && LengthLine(line, k) && '\0' !in head && n <= 0x7FFF_FFFF
    requires forall m :: 0 <= m <= k ==> Absent(head, Spelling(m))
    ensures ContentLength(Block(head, line, n)) == Some(n)
  {
    hide *;
    var c := ColonOfLine(line, k);
    HeaderOfBlock(head, line, n, k);
    ColonOfBlock(head, line, n, c);
    NumberAfterColon(line, c, n);
    BlockHasNoNul(head, line, n, k);
    ContentLengthFrom(Block(head, line, n), |head|, |head| + c, n);
  }

  lemma NumberAfterColon(line: string, c: nat, n: nat)
    requires ColonAt(line, c) && n <= 0x7FFF_FFFF
    ensures c < |line| && Atoi(line[c + 1..] + Print(n, Decimal)) == n
  {
    NumberOfLine(line[c + 1..], n);
  }

  lemma BlockHasNoNul(head: string, line: string, n: nat, k: nat)
    requires k < 4 && LengthLine(line, k) && '\0' !in head
    ensures CString(Block(head, line, n)) == Block(head, line, n)
    ensures |Block(head, line, n)| > |head| + |line|
  {
    hide CString;
    hide Print;
    hide LengthLine;
    LineCharacters(line, k);
    DigitIsNoReturn(Print(n, Decimal));
  }

  /** So a head, such a line with the length of the body, and the body make a message. */
  lemma MessageWithLength(head: string, line: string, k: nat, body: string)
    requires k < 4 && LengthLine(line, k) && head != [] && '\0' !in head
    requires forall m :: 0 <= m <= k ==> Absent(head, Spelling(m))
    requires var m := Block(head, line, |body|) + "\r\n\r\n" + body; |m| <= 0x7FFF_FFFF
    requires var block := Block(head, line, |body|);
             forall j :: 0 <= j < |block| ==> !Occurs(block + "\r\n\r\n", "\r\n\r\n", j)
    ensures WellFormed(Block(head, line, |body|) + "\r\n\r\n" + body)
  {
    hide ContentLength;
    hide Find;
    hide LengthLine;
    hide Absent;
    var block := Block(head, line, |body|);
    var m := block + "\r\n\r\n" + body;
    LengthOfBlock(head, line, |body|, k);
    hide Block;
    assert (block + "\r\n\r\n")[|block|..|block| + 4] == END_HEADERS;
    FindIsLeftmost(block + "\r\n\r\n", END_HEADERS, |block|);
    FindInPrefix(block + "\r\n\r\n", body, END_HEADERS);
    assert m[..|block|] == block;
    assert block != [] by { BlockIsNotEmpty(head, line, |body|); }
  }

  lemma BlockIsNotEmpty(head: string, line: string, n: nat)
    requires head != []
    ensures Block(head, line, n) != []
  {
    hide Print;
  }

  /** A spelling that ends in a space, with no colon after it, cannot be read. */
  lemma NoColonCannotBeRead(head: string, line: string, k: nat)
    requires k < 4 && Spelled(head + line, Spelling(k), |head|) && ':' !in line && '\0' !in head + line
    requires forall m :: 0 <= m < k ==> Absent(head + line, Spelling(m))
    requires forall j :: 0 <= j < |head| ==> !Spelled(head + line, Spelling(k), j)
    ensures ContentLength(head + line) == None
  {
    hide Spelled;
    hide Absent;
    var s := head + line;
    FirstSpelling(s, k, |head|);
    NoColonBehind(head, line);
    hide FindLengthHeader;
    hide FindFrom;
  }

  lemma NoColonBehind(head: string, line: string)
    requires ':' !in line
    ensures FindFrom(head + line, ":", |head|) == -1
  {
    hide FindFrom;
    var s := head + line;
    forall j | |head| <= j < |s| ensures !Occurs(s, ":", j) {
      assert s[j] == line[j - |head|];
      assert s[j..j + 1] == [s[j]];
    }
    FindFromIsLeftmost(s, ":", |head|, -1);
  }

  // ----- Messages that are not there yet -----

  /** Of a message that is not complete nothing is delivered. */
  lemma IncompleteWaits(m: string, p: string)
    requires WellFormed(m) && p < m
    ensures Frame(p) == Framed([], p, Waiting)
  {
    hide ContentLength;
    hide Find;
    hide Int32;
    var q := m[|p|..];
    assert p + q == m;
    StepOfItem(Message(m), []);
    assert m + [] == m;
    if !NextStep(p).NeedMore? {
      StepIsStable(p, q);
    }
  }

  /** A length more negative than the header block is long stops the connection, whatever comes. */
  lemma NegativeTotalWaitsForEver(s: string, h: nat, clen: int, rest: string)
    requires Find(s, END_HEADERS) == h && h > 0 && ContentLength(s[..h]) == Some(clen)
    requires -0x8000_0000 <= h + 4 + clen < 0
    ensures Frame(s + rest) == Framed([], s + rest, Waiting)
  {
    hide ContentLength;
    hide Find;
    hide Int32;
    FindInPrefix(s, rest, END_HEADERS);
    assert (s + rest)[..h] == s[..h];
    Int32Exactly(h + 4 + clen);
  }
}
