/** The IPv6 printer, and a parser of section 2.2 of RFC 4291 that undoes it. */
module Ipv6Text {
  import opened Text
  import opened Numerals

  newtype Octet = n: int | 0 <= n < 256
  type Word = n: nat | n < 65536

  const NWORDS := 8
  const TMP_SIZE := 46  // "ffff:ffff:ffff:ffff:ffff:ffff:255.255.255.255" and its NUL

  // ----- The elided run -----

  datatype Run = Run(base: int, len: int)

  /** words[base..base + len] are zeros. */
  ghost predicate ZeroRun(words: seq<Word>, base: int, len: int) {
    0 <= base && 0 <= len && base + len <= |words| && forall k :: base <= k < base + len ==> words[k] == 0
  }

  /** The leftmost of the longest zero runs of length at least 2 (sections 4.2.2 and 4.2.3 of RFC 5952). */
  ghost predicate IsElided(words: seq<Word>, best: Run) {
    if best.base == -1 then forall b, l :: l >= 2 ==> !ZeroRun(words, b, l)
    else
      && best.len >= 2 && ZeroRun(words, best.base, best.len)
      && (forall b, l :: ZeroRun(words, b, l) ==> l <= best.len)
      && (forall b :: 0 <= b < best.base ==> !ZeroRun(words, b, best.len))
  }

  lemma ElidedIsUnique(words: seq<Word>, a: Run, b: Run)
    requires IsElided(words, a) && IsElided(words, b)
    ensures a.base == b.base && (a.base != -1 ==> a.len == b.len)
  {
  }

  /** No run is elided exactly if no two neighbouring words are zero. */
  lemma NothingElided(words: seq<Word>, best: Run)
    requires IsElided(words, best)
    ensures best.base == -1 <==> forall i :: 0 <= i && i + 1 < |words| ==> words[i] != 0 || words[i + 1] != 0
  {
    if best.base == -1 {
      forall i | 0 <= i && i + 1 < |words| ensures words[i] != 0 || words[i + 1] != 0 {
        assert !ZeroRun(words, i, 2);
      }
    } else {
      assert words[best.base] == 0 && words[best.base + 1] == 0;
    }
  }

  /** The run elided is all zeros, no run of zeros is longer, and none as long comes before it. */
  lemma ElidedIsLongest(words: seq<Word>, best: Run, b: nat, e: nat)
    requires IsElided(words, best) && best.base != -1
    requires b < e <= |words| && forall k :: b <= k < e ==> words[k] == 0
    ensures 0 <= best.base && best.base + best.len <= |words|
    ensures forall k :: best.base <= k < best.base + best.len ==> words[k] == 0
    ensures e - b < best.len || (e - b == best.len && best.base <= b)
  {
    assert ZeroRun(words, b, e - b);
  }

  /** `best` over runs that end at or before `i`, where the run `cur` may still be open. */
  ghost predicate BestSoFar(words: seq<Word>, i: nat, best: Run)
    requires i <= |words|
  {
    if best.base == -1 then forall b, l :: l >= 1 && b + l <= i ==> !ZeroRun(words, b, l)
    else
      && best.len >= 1 && ZeroRun(words, best.base, best.len) && best.base + best.len <= i
      && (forall b, l :: ZeroRun(words, b, l) && b + l <= i ==> l <= best.len)
      && (forall b :: 0 <= b < best.base ==> !ZeroRun(words, b, best.len))
  }

  function Better(best: Run, cur: Run): Run {
    if best.base == -1 || cur.len > best.len then cur else best
  }

  method FindElided(words: array<Word>) returns (best: Run)
    requires words.Length == NWORDS
    ensures IsElided(words[..], best)
  {
    ghost var ws := words[..];
    best := Run(-1, 0);
    var cur := Run(-1, 0);
    for i := 0 to NWORDS
      invariant ws == words[..]
      invariant cur.base == -1 ==> BestSoFar(ws, i, best) && (i > 0 ==> ws[i - 1] != 0)
      invariant cur.base != -1 ==>
        && 0 <= cur.base < i && cur.len == i - cur.base && ZeroRun(ws, cur.base, cur.len)
        && (cur.base > 0 ==> ws[cur.base - 1] != 0) && BestSoFar(ws, cur.base, best)
    {
      if words[i] == 0 {
        if cur.base == -1 {
          cur := Run(i, 1);
        } else {
          cur := cur.(len := cur.len + 1);
        }
      } else if cur.base != -1 {
        CloseRun(ws, i, best, cur);
        if best.base == -1 || cur.len > best.len {
          best := cur;
        }
        cur := cur.(base := -1);
        SkipWord(ws, i, best);
      } else {
        SkipWord(ws, i, best);
      }
    }
    if cur.base != -1 {
      CloseRun(ws, NWORDS, best, cur);
      if best.base == -1 || cur.len > best.len {
        best := cur;
      }
    }
    if best.base != -1 && best.len < 2 {
      best := best.(base := -1);
    }
  }

  /** The run `cur`, bounded on its left, ends at `i`. */
  lemma CloseRun(words: seq<Word>, i: nat, best: Run, cur: Run)
    requires i <= |words| && 0 <= cur.base < i && cur.len == i - cur.base && ZeroRun(words, cur.base, cur.len)
    requires cur.base > 0 ==> words[cur.base - 1] != 0
    requires BestSoFar(words, cur.base, best)
    ensures BestSoFar(words, i, Better(best, cur))
  {
    forall b, l | b < cur.base < b + l ensures !ZeroRun(words, b, l) {
      assert cur.base > 0 ==> words[cur.base - 1] != 0;
    }
  }

  lemma SkipWord(words: seq<Word>, i: nat, best: Run)
    requires i < |words| && words[i] != 0 && BestSoFar(words, i, best)
    ensures BestSoFar(words, i + 1, best)
  {
    forall b, l | l >= 1 && b + l == i + 1 ensures !ZeroRun(words, b, l) {
      assert words[i] != 0;
    }
  }

  // ----- The text -----

  function WordsOf(src: seq<Octet>): (words: seq<Word>)
    requires |src| == 16
    ensures |words| == NWORDS
  {
    seq(NWORDS, i requires 0 <= i < NWORDS => src[2 * i] as int * 256 + src[2 * i + 1] as int)
  }

  /** words[i..j] in hexadecimal. */
  function HexFields(words: seq<Word>, i: nat, j: nat): (fields: seq<string>)
    requires i <= j <= |words|
    ensures |fields| == j - i
  {
    seq(j - i, k requires 0 <= k < j - i => Print(words[i + k], Hex))
  }

  function DottedFields(src: seq<Octet>): (fields: seq<string>)
    ensures |fields| == |src|
  {
    seq(|src|, k requires 0 <= k < |src| => Print(src[k] as int, Decimal))
  }

  /** `_inet_ntop4` */
  function Ipv4(src: seq<Octet>): string {
    Join(DottedFields(src), '.')
  }

  /** An IPv4 address embedded in the last four octets. */
  predicate Embedded(words: seq<Word>, best: Run)
    requires |words| == NWORDS
  {
    best.base == 0 && (best.len == 6 || (best.len == 5 && words[5] == 0xffff))
  }

  /** The dotted form is for six leading zero words, or five and ffff (section 2.5.5 of RFC 4291), and no more. */
  lemma EmbeddedExactly(words: seq<Word>, best: Run)
    requires |words| == NWORDS && IsElided(words, best)
    ensures Embedded(words, best) <==>
            && (forall i :: 0 <= i < 5 ==> words[i] == 0)
            && ((words[5] == 0 && words[6] != 0) || words[5] == 65535)
  {
    if forall i :: 0 <= i < 5 ==> words[i] == 0 {
      assert ZeroRun(words, 0, 5);
      assert words[5] == 0 ==> ZeroRun(words, 0, 6);
      assert words[5] == 0 && words[6] == 0 ==> ZeroRun(words, 0, 7);
      if best.base == -1 {
      } else {
        assert best.base != 0 ==> !ZeroRun(words, 0, best.len);
      }
    }
    if best.base == 0 {
      assert ZeroRun(words, 0, best.len);
      assert best.len < 8 ==> !ZeroRun(words, 0, best.len + 1);
    }
  }

  function RightFields(src: seq<Octet>, best: Run): seq<string>
    requires |src| == 16 && 0 <= best.base && 2 <= best.len && best.base + best.len <= NWORDS
  {
    var words := WordsOf(src);
    if Embedded(words, best) then HexFields(words, best.len, 6) + [Ipv4(src[12..])]
    else HexFields(words, best.base + best.len, NWORDS)
  }

  /** The presentation form with the run `best` elided. */
  function Ipv6(src: seq<Octet>, best: Run): string
    requires |src| == 16
    requires best.base == -1 || (0 <= best.base && 2 <= best.len && best.base + best.len <= NWORDS)
  {
    var words := WordsOf(src);
    if best.base == -1 then Join(HexFields(words, 0, NWORDS), ':')
    else Join(HexFields(words, 0, best.base), ':') + "::" + Join(RightFields(src, best), ':')
  }

  lemma {:induction false} ShortHex(n: nat, k: nat)
    requires k < 4 && n < [16, 256, 4096, 65536][k]
    ensures |Print(n, Hex)| <= k + 1
  {
    if n < 16 {
    } else {
      ShortHex(n / 16, k - 1);
    }
  }

  lemma {:induction false} ShortDecimal(n: nat, k: nat)
    requires k < 3 && n < [10, 100, 1000][k]
    ensures |Print(n, Decimal)| <= k + 1
  {
    if n < 10 {
    } else {
      ShortDecimal(n / 10, k - 1);
    }
  }

  lemma ShortIpv4(src: seq<Octet>)
    requires |src| == 4
    ensures |Ipv4(src)| <= 15
  {
    var f := DottedFields(src);
    ShortDecimal(src[0] as int, 2);
    ShortDecimal(src[1] as int, 2);
    ShortDecimal(src[2] as int, 2);
    ShortDecimal(src[3] as int, 2);
    assert f == [f[0], f[1], f[2]] + [f[3]];
    assert [f[0], f[1], f[2]] == [f[0], f[1]] + [f[2]] && [f[0], f[1]] == [f[0]] + [f[1]];
    JoinSnoc([f[0], f[1], f[2]], f[3], '.');
    JoinSnoc([f[0], f[1]], f[2], '.');
    JoinSnoc([f[0]], f[1], '.');
  }

  // ----- The printer -----

  /** `sprintf` at tmp[tp..], and its NUL. */
  method PutString(tmp: array<char>, tp: nat, s: string) returns (end: nat)
    requires tp + |s| < tmp.Length
    modifies tmp
    ensures end == tp + |s| && tmp[..end] == old(tmp[..tp]) + s
  {
    forall k | 0 <= k < |s| { tmp[tp + k] := s[k]; }
    end := tp + |s|;
    tmp[end] := '\0';
  }

  method PutChar(tmp: array<char>, tp: nat, c: char) returns (end: nat)
    requires tp < tmp.Length
    modifies tmp
    ensures end == tp + 1 && tmp[..end] == old(tmp[..tp]) + [c]
  {
    tmp[tp] := c;
    end := tp + 1;
  }

  method ReadWords(src: seq<Octet>) returns (words: array<Word>)
    requires |src| == 16
    ensures fresh(words) && words.Length == NWORDS && words[..] == WordsOf(src)
  {
    words := new Word[NWORDS](_ => 0);
    for i := 0 to 16
      invariant forall k :: 0 <= k < NWORDS ==>
        words[k] == if 2 * k + 1 < i then src[2 * k] as int * 256 + src[2 * k + 1] as int
                    else if 2 * k < i then src[2 * k] as int * 256
                    else 0
    {
      words[i / 2] := words[i / 2] + if i % 2 == 0 then src[i] as int * 256 else src[i] as int;
    }
  }

  /** The text once the first `i` words are printed. */
  ghost function Printed(words: seq<Word>, best: Run, i: nat): string
    requires |words| == NWORDS && i <= NWORDS
    requires best.base == -1 || (0 <= best.base && 2 <= best.len && best.base + best.len <= NWORDS)
  {
    if best.base == -1 || i <= best.base then Join(HexFields(words, 0, i), ':')
    else if i <= best.base + best.len then Join(HexFields(words, 0, best.base), ':') + ":"
    else Join(HexFields(words, 0, best.base), ':') + "::" + Join(HexFields(words, best.base + best.len, i), ':')
  }

  lemma HexFieldsSnoc(words: seq<Word>, i: nat, j: nat)
    requires i <= j < |words|
    ensures HexFields(words, i, j + 1) == HexFields(words, i, j) + [Print(words[j], Hex)]
    ensures |Print(words[j], Hex)| <= 4
  {
    ShortHex(words[j], 3);
  }

  /** A word outside the run is printed after a colon unless it is the first. */
  lemma PrintedStep(words: seq<Word>, best: Run, i: nat)
    requires |words| == NWORDS && i < NWORDS
    requires best.base == -1 || (0 <= best.base && 2 <= best.len && best.base + best.len <= NWORDS)
    requires !(best.base != -1 && best.base <= i < best.base + best.len)
    ensures Printed(words, best, i + 1) == Printed(words, best, i) + (if i != 0 then ":" else "") + Print(words[i], Hex)
    ensures |Print(words[i], Hex)| <= 4
  {
    hide Print;
    hide Join;
    var from := if best.base == -1 || i < best.base then 0 else best.base + best.len;
    var fields, word := HexFields(words, from, i), Print(words[i], Hex);
    HexFieldsSnoc(words, from, i);
    JoinSnoc(fields, word, ':');
    JoinEmpty(':');
    if from > 0 {
      var left := Join(HexFields(words, 0, best.base), ':');
      assert left + "::" == left + ":" + ":";
      assert i > from ==>
               left + "::" + (Join(fields, ':') + ":" + word) == left + "::" + Join(fields, ':') + ":" + word;
      assert i == from ==> left + "::" + ([] + word) == left + ":" + ":" + word;
    } else {
      assert i == 0 ==> [] + [] + word == word;
    }
  }


  /** `_inet_ntop4`: None is the null pointer for a buffer that is too small. */
  function Ntop4(src: seq<Octet>, size: int): Option<string> {
    if |Ipv4(src)| >= size then None else Some(Ipv4(src))
  }

  /** The text and its NUL fit the buffer, or there is no result. */
  lemma Ntop4Fits(src: seq<Octet>, size: int)
    ensures Ntop4(src, size) == if |Ipv4(src)| + 1 <= size then Some(Ipv4(src)) else None
  {
  }

  ghost predicate ValidRun(best: Run) {
    best.base == -1 || (0 <= best.base && 2 <= best.len && best.base + best.len <= NWORDS)
  }

  lemma PrintedInRun(words: seq<Word>, best: Run, i: nat)
    requires |words| == NWORDS && ValidRun(best) && best.base != -1 && best.base <= i < best.base + best.len
    ensures Printed(words, best, i + 1) == Printed(words, best, i) + (if i == best.base then ":" else "")
  {
    hide Join;
  }

  lemma PrintedAll(src: seq<Octet>, best: Run)
    requires |src| == 16 && ValidRun(best) && !Embedded(WordsOf(src), best)
    ensures Ipv6(src, best) == Printed(WordsOf(src), best, NWORDS) +
                               (if best.base != -1 && best.base + best.len == NWORDS then ":" else "")
  {
    hide Join;
    JoinEmpty(':');
  }

  lemma PrintedEmbedded(src: seq<Octet>, best: Run)
    requires |src| == 16 && ValidRun(best) && Embedded(WordsOf(src), best)
    ensures Ipv6(src, best) == Printed(WordsOf(src), best, 6) + ":" + Ipv4(src[12..])
  {
    hide Join;
    var words := WordsOf(src);
    var fields := HexFields(words, best.len, 6);
    JoinEmpty(':');
    JoinSnoc(fields, Ipv4(src[12..]), ':');
    assert HexFields(words, 0, 0) == [];
  }

  /** The formatting loop; the text always fits the local buffer. */
  method Format(src: seq<Octet>, words: array<Word>, best: Run, tmp: array<char>) returns (tp: nat)
    requires |src| == 16 && words.Length == NWORDS && words[..] == WordsOf(src) && ValidRun(best)
    requires tmp.Length == TMP_SIZE
    modifies tmp
    ensures tp + 1 <= TMP_SIZE && tmp[..tp] == Ipv6(src, best)
  {
    hide Ipv6;
    hide Printed;
    hide Print;
    hide Ipv4;
    ghost var ws := WordsOf(src);
    tp := 0;
    PrintedNone(ws, best);
    assert tmp[..0] == [];
    var i := 0;
    while i < NWORDS
      invariant 0 <= i <= NWORDS
      invariant tp <= 5 * i && (best.base == 0 ==> tp <= 1 + 5 * if i > best.len then i - best.len else 0)
      invariant tmp[..tp] == Printed(ws, best, i)
      invariant Embedded(ws, best) ==> i <= 6
    {
      if best.base != -1 && best.base <= i < best.base + best.len {
        PrintedInRun(ws, best, i);
        if i == best.base {
          tp := PutChar(tmp, tp, ':');
        }
        i := i + 1;
        continue;
      }
      PrintedStep(ws, best, i);
      ghost var before := tmp[..tp];
      if i != 0 {
        tp := PutChar(tmp, tp, ':');
      }
      assert tmp[..tp] == before + if i != 0 then ":" else "";
      if i == 6 && best.base == 0 && (best.len == 6 || (best.len == 5 && words[5] == 0xffff)) {
        PrintedEmbedded(src, best);
        ShortIpv4(src[12..]);
        var text := Ntop4(src[12..], TMP_SIZE - tp);
        assert text.Some?;
        tp := PutString(tmp, tp, text.value);
        return;
      }
      assert words[i] == ws[i];
      tp := PutString(tmp, tp, Print(words[i], Hex));
      i := i + 1;
    }
    PrintedAll(src, best);
    ghost var before := tmp[..tp];
    if best.base != -1 && best.base + best.len == NWORDS {
      tp := PutChar(tmp, tp, ':');
    }
    assert tmp[..tp] == before + if best.base != -1 && best.base + best.len == NWORDS then ":" else "";
  }

  lemma PrintedNone(words: seq<Word>, best: Run)
    requires |words| == NWORDS && ValidRun(best)
    ensures Printed(words, best, 0) == []
  {
  }

  // ----- The parser -----

  /** One group of at most four hexadecimal digits. */
  function ParseGroup(field: string): Option<seq<Octet>> {
    if 1 <= |field| <= 4 && AllDigits(field, Hex) && Value(field, Hex) < 65536 then
      Some([(Value(field, Hex) / 256) as Octet, (Value(field, Hex) % 256) as Octet])
    else None
  }

  function ParseDecimal(field: string): Option<Octet> {
    if 1 <= |field| <= 3 && AllDigits(field, Decimal) && Value(field, Decimal) < 256 then
      Some(Value(field, Decimal) as Octet)
    else None
  }

  function ParseIpv4(text: string): Option<seq<Octet>> {
    var f := Split(text, '.');
    if |f| != 4 then None
    else match (ParseDecimal(f[0]), ParseDecimal(f[1]), ParseDecimal(f[2]), ParseDecimal(f[3]))
      case (Some(a), Some(b), Some(c), Some(d)) => Some([a, b, c, d])
      case _ => None
  }

  /** Groups of two octets each; the last field may be a dotted IPv4 address. */
  function ParseFields(fields: seq<string>, last: bool): Option<seq<Octet>> {
    if fields == [] then Some([])
    else
      var n := |fields| - 1;
      match (ParseFields(fields[..n], false),
             if last && '.' in fields[n] then ParseIpv4(fields[n]) else ParseGroup(fields[n]))
      case (Some(front), Some(back)) => Some(front + back)
      case _ => None
  }

  function SplitOrNone(text: string): seq<string> {
    if text == [] then [] else Split(text, ':')
  }

  /** Section 2.2 of RFC 4291: full form, "::" for one or more zero groups, IPv4 in the last four octets. */
  function ParseIpv6(text: string): Option<seq<Octet>> {
    var p := Find(text, "::");
    if p < 0 then
      match ParseFields(SplitOrNone(text), true)
      case Some(octets) => if |octets| == 16 then Some(octets) else None
      case None => None
    else
      match (ParseFields(SplitOrNone(text[..p]), false), ParseFields(SplitOrNone(text[p + 2..]), true))
      case (Some(left), Some(right)) =>
        if |left| + |right| <= 14 then Some(left + Zeros(16 - |left| - |right|) + right) else None
      case _ => None
  }

  function Zeros(n: nat): seq<Octet> {
    seq(n, _ => 0)
  }

  // ----- Round trip -----

  lemma GroupRoundTrip(w: Word, hi: Octet, lo: Octet)
    requires w == hi as int * 256 + lo as int
    ensures ParseGroup(Print(w, Hex)) == Some([hi, lo])
    ensures ':' !in Print(w, Hex) && '.' !in Print(w, Hex)
  {
    hide Print;
    hide Value;
    ValueOfPrint(w, Hex);
    ShortHex(w, 3);
    NoSeparators(Print(w, Hex), Hex);
  }

  lemma NoSeparators(s: string, r: Radix)
    requires AllDigits(s, r)
    ensures ':' !in s && '.' !in s
  {
    forall i | 0 <= i < |s| ensures s[i] != ':' && s[i] != '.' {
      assert IsDigit(s[i], r);
    }
  }

  /** The groups of words[i..j] read back as the octets they were made of. */
  lemma {:induction false} HexFieldsRoundTrip(src: seq<Octet>, i: nat, j: nat)
    requires |src| == 16 && i <= j <= NWORDS
    ensures ParseFields(HexFields(WordsOf(src), i, j), false) == Some(src[2 * i..2 * j])
    ensures forall k :: 0 <= k < j - i ==> var f := HexFields(WordsOf(src), i, j)[k]; f != [] && ':' !in f && '.' !in f
    decreases j
  {
    hide Print;
    hide ParseGroup;
    if i < j {
      HexFieldsRoundTrip(src, i, j - 1);
      LastGroup(src, i, j);
    } else {
      assert HexFields(WordsOf(src), i, j) == [];
      assert src[2 * i..2 * j] == [];
    }
  }

  /** One more group and its two octets. */
  lemma LastGroup(src: seq<Octet>, i: nat, j: nat)
    requires |src| == 16 && i < j <= NWORDS
    requires ParseFields(HexFields(WordsOf(src), i, j - 1), false) == Some(src[2 * i..2 * (j - 1)])
    ensures ParseFields(HexFields(WordsOf(src), i, j), false) == Some(src[2 * i..2 * j])
    ensures var f := Print(WordsOf(src)[j - 1], Hex);
            && f != [] && ':' !in f && '.' !in f
            && HexFields(WordsOf(src), i, j) == HexFields(WordsOf(src), i, j - 1) + [f]
  {
    hide Print;
    hide ParseGroup;
    hide HexFields;
    var words := WordsOf(src);
    var front, f := HexFields(words, i, j - 1), Print(words[j - 1], Hex);
    HexFieldsSnoc(words, i, j - 1);
    GroupRoundTrip(words[j - 1], src[2 * (j - 1)], src[2 * (j - 1) + 1]);
    assert (front + [f])[..|front|] == front;
    assert src[2 * i..2 * j] == src[2 * i..2 * (j - 1)] + [src[2 * (j - 1)], src[2 * (j - 1) + 1]];
  }

  lemma ParseLastGroup(fields: seq<string>)
    requires forall k :: 0 <= k < |fields| ==> '.' !in fields[k]
    ensures ParseFields(fields, true) == ParseFields(fields, false)
  {
  }

  lemma DecimalRoundTrip(v: Octet)
    ensures ParseDecimal(Print(v as int, Decimal)) == Some(v)
    ensures ':' !in Print(v as int, Decimal) && '.' !in Print(v as int, Decimal)
  {
    hide Print;
    hide Value;
    ValueOfPrint(v as int, Decimal);
    ShortDecimal(v as int, 2);
    NoSeparators(Print(v as int, Decimal), Decimal);
  }

  lemma Ipv4RoundTrip(src: seq<Octet>)
    requires |src| == 4
    ensures ParseIpv4(Ipv4(src)) == Some(src)
    ensures '.' in Ipv4(src) && ':' !in Ipv4(src)
  {
    hide Print;
    hide ParseDecimal;
    hide Split;
    var f := DottedFields(src);
    forall k | 0 <= k < 4
      ensures ParseDecimal(f[k]) == Some(src[k]) && ':' !in f[k] && '.' !in f[k]
    {
      DecimalRoundTrip(src[k]);
    }
    SplitOfJoin(f, '.');
    JoinAvoids(f, '.', ':');
    assert Ipv4(src)[|Join(f[..3], '.')|] == '.';
    assert src == [src[0], src[1], src[2], src[3]];
  }

  lemma ParseWithIpv4(front: seq<string>, v4: string)
    requires ParseFields(front, false).Some? && '.' in v4 && ParseIpv4(v4).Some?
    ensures ParseFields(front + [v4], true) == Some(ParseFields(front, false).value + ParseIpv4(v4).value)
  {
    hide ParseIpv4;
    hide ParseGroup;
    assert (front + [v4])[..|front|] == front;
  }

  /** The fields to the right of "::" read back as the octets after the elided run. */
  lemma RightRoundTrip(src: seq<Octet>, best: Run)
    requires |src| == 16 && ValidRun(best) && best.base != -1
    ensures ParseFields(RightFields(src, best), true) == Some(src[2 * (best.base + best.len)..])
    ensures forall k :: 0 <= k < |RightFields(src, best)| ==>
              RightFields(src, best)[k] != [] && ':' !in RightFields(src, best)[k]
  {
    hide Ipv4;
    hide ParseIpv4;
    hide ParseFields;
    hide HexFields;
    hide WordsOf;
    var words := WordsOf(src);
    if Embedded(words, best) {
      var front := HexFields(words, best.len, 6);
      HexFieldsRoundTrip(src, best.len, 6);
      Ipv4RoundTrip(src[12..]);
      ParseWithIpv4(front, Ipv4(src[12..]));
      assert src[2 * best.len..12] + src[12..] == src[2 * best.len..];
    } else {
      HexFieldsRoundTrip(src, best.base + best.len, NWORDS);
      ParseLastGroup(HexFields(words, best.base + best.len, NWORDS));
      assert src[2 * (best.base + best.len)..16] == src[2 * (best.base + best.len)..];
    }
  }

  lemma SplitOrNoneOfJoin(fields: seq<string>)
    requires forall k :: 0 <= k < |fields| ==> fields[k] != [] && ':' !in fields[k]
    ensures SplitOrNone(Join(fields, ':')) == fields
  {
    hide Split;
    if fields != [] {
      SplitOfJoin(fields, ':');
      JoinIsolatesSeparators(fields, ':');
    }
  }

  lemma DoubleColonPosition(left: seq<string>, right: string)
    requires forall k :: 0 <= k < |left| ==> left[k] != [] && ':' !in left[k]
    ensures Find(Join(left, ':') + "::" + right, "::") == |Join(left, ':')|
  {
    hide Find;
    hide Join;
    var a := Join(left, ':');
    var s := a + "::" + right;
    JoinEmpty(':');
    JoinIsolatesSeparators(left, ':');
    assert s[|a|..|a| + 2] == "::";
    forall j | 0 <= j < |a| ensures !Occurs(s, "::", j) {
      assert s[j..j + 2][0] == a[j] && s[j..j + 2][1] == s[j + 1];
      assert j + 1 < |a| ==> s[j + 1] == a[j + 1];
    }
    FindIsLeftmost(s, "::", |a|);
  }

  lemma NoDoubleColon(fields: seq<string>)
    requires forall k :: 0 <= k < |fields| ==> fields[k] != [] && ':' !in fields[k]
    ensures Find(Join(fields, ':'), "::") == -1
  {
    hide Find;
    hide Join;
    var s := Join(fields, ':');
    forall j | 0 <= j ensures !Occurs(s, "::", j) {
      if j + 2 <= |s| {
        NotTwoSeparators(fields, ':', j);
        assert s[j..j + 2][0] == s[j] && s[j..j + 2][1] == s[j + 1];
      }
    }
    FindIsLeftmost(s, "::", -1);
  }

  /** Every elided word is two zero octets. */
  lemma ElidedOctets(src: seq<Octet>, best: Run)
    requires |src| == 16 && ValidRun(best) && best.base != -1 && ZeroRun(WordsOf(src), best.base, best.len)
    ensures src[2 * best.base..2 * (best.base + best.len)] == Zeros(2 * best.len)
  {
    forall k | 2 * best.base <= k < 2 * (best.base + best.len) ensures src[k] == 0 {
      assert WordsOf(src)[k / 2] == 0;
    }
  }

  lemma ElidedIsValid(words: seq<Word>, best: Run)
    requires |words| == NWORDS && IsElided(words, best)
    ensures ValidRun(best)
  {
  }

  /** Parsing the printed text gives back the sixteen octets, for every address. */
  lemma RoundTrip(src: seq<Octet>, best: Run)
    requires |src| == 16 && ValidRun(best) && IsElided(WordsOf(src), best)
    ensures ParseIpv6(Ipv6(src, best)) == Some(src)
  {
    hide Join;
    hide Find;
    hide HexFields;
    hide RightFields;
    hide ParseFields;
    hide SplitOrNone;
    var words := WordsOf(src);
    if best.base == -1 {
      var fields := HexFields(words, 0, NWORDS);
      HexFieldsRoundTrip(src, 0, NWORDS);
      ParseLastGroup(fields);
      NoDoubleColon(fields);
      SplitOrNoneOfJoin(fields);
      assert src[0..16] == src;
    } else {
      var left, right := HexFields(words, 0, best.base), RightFields(src, best);
      var a, b := Join(left, ':'), Join(right, ':');
      HexFieldsRoundTrip(src, 0, best.base);
      RightRoundTrip(src, best);
      DoubleColonPosition(left, b);
      SplitOrNoneOfJoin(left);
      SplitOrNoneOfJoin(right);
      assert (a + "::" + b)[..|a|] == a && (a + "::" + b)[|a| + 2..] == b;
      ElidedOctets(src, best);
      var i, j := 2 * best.base, 2 * (best.base + best.len);
      assert src == src[0..i] + src[i..j] + src[j..];
    }
  }

  // ----- The entry point -----

  /** `_inet_ntop6`: None is the null pointer for a `size` that is too small. */
  method Ntop6(src: seq<Octet>, size: nat) returns (text: Option<string>)
    requires |src| == 16
    ensures exists best :: IsElided(WordsOf(src), best) && ValidRun(best) &&
              text == if |Ipv6(src, best)| + 1 > size then None else Some(Ipv6(src, best))
    ensures text.Some? ==> ParseIpv6(text.value) == Some(src)
    ensures size >= 46 ==> text.Some?
  {
    hide Ipv6;
    hide ParseIpv6;
    var words := ReadWords(src);
    var best := FindElided(words);
    var tmp := new char[TMP_SIZE];
    var tp := Format(src, words, best, tmp);
    tmp[tp] := '\0';
    ElidedIsValid(words[..], best);
    RoundTrip(src, best);
    if tp + 1 > size { return None; }
    assert tmp[..tp] == Ipv6(src, best);
    return Some(tmp[..tp]);
  }
}
