/**
 * What the SIP-over-TCP receiver is meant to compute: the framing of a byte
 * stream into messages by Content-Length (section 18.3 of RFC 3261), as one
 * pure function of the stream. TcpStream.dfy does it in place, chunk by chunk.
 */
module TcpFraming {
  import opened Text
  import opened Numerals

  const END_HEADERS := "\r\n\r\n"
  const CLEN_HEADER := "\r\ncontent-length:"
  const CLEN_HEADER2 := "\r\ncontent-length "
  const CLEN_HEADER_COMPACT := "\r\nl:"
  const CLEN_HEADER_COMPACT2 := "\r\nl "
  const INT_MAX: int := 0x7FFF_FFFF
  const LONG_MAX: int := 0x7FFF_FFFF_FFFF_FFFF

  // ----- Content-Length -----

  predicate IsSpace(c: char) {
    c == ' ' || '\t' <= c <= '\r'
  }

  function SkipSpace(s: string): string {
    if s != [] && IsSpace(s[0]) then SkipSpace(s[1..]) else s
  }

  /** Value of `acc` followed by the leading decimal digits of `s`. */
  function LeadingNumber(s: string, acc: nat): nat {
    if s != [] && IsDigit(s[0], Decimal) then LeadingNumber(s[1..], 10 * acc + DigitValue(s[0])) else acc
  }

  /** Two's complement truncation to a 32-bit int. */
  function Int32(v: int): (r: int)
    ensures -INT_MAX - 1 <= r <= INT_MAX
  {
    (v + INT_MAX + 1) % (2 * INT_MAX + 2) - INT_MAX - 1
  }

  /** `atoi`: a `strtol` that saturates at the long range, truncated to int. */
  function Atoi(s: string): int {
    var t := SkipSpace(s);
    var negative := t != [] && t[0] == '-';
    var digits := if t != [] && (t[0] == '-' || t[0] == '+') then t[1..] else t;
    var n := LeadingNumber(digits, 0);
    var v: int := if negative then 0 - n else n;
    Int32(if v < -LONG_MAX - 1 then -LONG_MAX - 1 else if v > LONG_MAX then LONG_MAX else v)
  }

  /** Position of the length header: the four spellings in the source's order. */
  function FindLengthHeader(headers: string): int {
    var h := Lower(headers);
    var a := Find(h, CLEN_HEADER);
    if a >= 0 then a else
    var b := Find(h, CLEN_HEADER2);
    if b >= 0 then b else
    var c := Find(h, CLEN_HEADER_COMPACT);
    if c >= 0 then c else Find(h, CLEN_HEADER_COMPACT2)
  }

  /**
   * The body length announced by a header block, given as a C string; 0 when it
   * has no length header. None: the spelling without colon matched and no colon
   * follows, and the source then reads through a pointer outside the buffer.
   */
  function AnnouncedLength(headers: string): Option<int> {
    var p := FindLengthHeader(headers);
    if p < 0 then Some(0) else
    var colon := FindFrom(headers, ":", p);
    if colon < 0 then None else Some(Atoi(headers[colon + 1..]))
  }

  function ContentLength(block: string): Option<int> {
    AnnouncedLength(CString(block))
  }

  // ----- Framing -----

  datatype Step =
    | NeedMore                // no complete message yet
    | KeepAlive               // CRLFCRLF between messages
    | Deliver(len: nat)       // a complete message of this many bytes
    | BadLength               // see ContentLength

  /** What one turn of the framing loop does with the bytes not yet consumed. */
  function NextStep(s: string): (r: Step)
    ensures r.Deliver? ==> r.len <= |s|
    ensures r.KeepAlive? ==> |s| >= 4
  {
    var h := Find(s, END_HEADERS);
    if h < 0 then NeedMore
    else if h == 0 then KeepAlive
    else match ContentLength(s[..h])
      case None => BadLength
      case Some(clen) =>
        var msglen := Int32(h + 4 + clen);
        // the comparison is unsigned, so a negative length never fits
        if msglen < 0 || msglen > |s| then NeedMore else Deliver(msglen)
  }

  /** How the loop left the stream: waiting for bytes, or never returning. */
  datatype Halt = Waiting | Spinning | Faulted

  datatype Framed = Framed(messages: seq<string>, rest: string, halt: Halt)

  /** Framing of a whole stream at once. */
  function Frame(s: string): (f: Framed)
    ensures |f.rest| <= |s|
    decreases |s|
  {
    match NextStep(s)
    case NeedMore => Framed([], s, Waiting)
    case BadLength => Framed([], s, Faulted)
    case KeepAlive => Frame(s[4..])
    case Deliver(n) =>
      if n == 0 then Framed([], s, Spinning)   // consumes nothing, for ever
      else
        var f := Frame(s[n..]);
        f.(messages := [s[..n]] + f.messages)
  }

  lemma EmptyNeedsMore()
    ensures NextStep([]).NeedMore?
  {
  }

  /** More bytes never change a decision already taken. */
  lemma StepIsStable(p: string, q: string)
    requires !NextStep(p).NeedMore?
    ensures NextStep(p + q) == NextStep(p)
  {
    hide ContentLength;
    hide Int32;
    hide Find;
    FindInPrefix(p, q, END_HEADERS);
    var h := Find(p, END_HEADERS);
    assert h > 0 ==> (p + q)[..h] == p[..h];
  }

  /** Framing a concatenation is framing its parts one after the other. */
  lemma {:induction false} FrameConcat(p: string, q: string)
    ensures var a := Frame(p);
            Frame(p + q) ==
              if a.halt.Waiting? then
                var b := Frame(a.rest + q);
                Framed(a.messages + b.messages, b.rest, b.halt)
              else a.(rest := a.rest + q)
    decreases |p|
  {
    hide NextStep;
    match NextStep(p)
    case NeedMore =>
      assert [] + Frame(p + q).messages == Frame(p + q).messages;
    case BadLength =>
      StepIsStable(p, q);
    case KeepAlive =>
      StepIsStable(p, q);
      assert (p + q)[4..] == p[4..] + q;
      FrameConcat(p[4..], q);
    case Deliver(n) =>
      StepIsStable(p, q);
      if n > 0 {
        assert (p + q)[n..] == p[n..] + q;
        assert (p + q)[..n] == p[..n];
        FrameConcat(p[n..], q);
        var a, b := Frame(p[n..]), Frame(Frame(p[n..]).rest + q);
        assert [p[..n]] + (a.messages + b.messages) == [p[..n]] + a.messages + b.messages;
      }
  }

  // ----- Chunk independence -----

  function Flatten(chunks: seq<string>): string {
    if chunks == [] then [] else chunks[0] + Flatten(chunks[1..])
  }

  /** The receiver's state after one more read; a loop that never returned reads nothing. */
  function FeedOne(f: Framed, chunk: string): Framed {
    if f.halt.Waiting? then
      var g := Frame(f.rest + chunk);
      g.(messages := f.messages + g.messages)
    else f.(rest := f.rest + chunk)
  }

  function Feed(f: Framed, chunks: seq<string>): Framed
    decreases |chunks|
  {
    if chunks == [] then f else Feed(FeedOne(f, chunks[0]), chunks[1..])
  }

  const FRESH := Framed([], [], Waiting)

  lemma {:induction false} FeedIsFrame(done: string, chunks: seq<string>)
    ensures Feed(Frame(done), chunks) == Frame(done + Flatten(chunks))
    decreases |chunks|
  {
    hide NextStep;
    if chunks == [] {
      assert done + [] == done;
    } else {
      FrameConcat(done, chunks[0]);
      FeedIsFrame(done + chunks[0], chunks[1..]);
      assert done + chunks[0] + Flatten(chunks[1..]) == done + Flatten(chunks);
    }
  }

  /** However the stream is cut into reads, the same messages and leftover come out. */
  lemma ChunkIndependence(chunks: seq<string>, chunks': seq<string>)
    requires Flatten(chunks) == Flatten(chunks')
    ensures Feed(FRESH, chunks) == Feed(FRESH, chunks') == Frame(Flatten(chunks))
  {
    assert Frame([]) == FRESH;
    FeedIsFrame([], chunks);
    FeedIsFrame([], chunks');
    assert [] + Flatten(chunks) == Flatten(chunks);
  }

  // ----- When the loop returns -----

  /** The cursor of the loop, started at the front of `s`, gets to position `at`. */
  predicate Reaches(s: string, at: nat)
    decreases |s|
  {
    at == 0 ||
    match NextStep(s)
    case KeepAlive => at >= 4 && Reaches(s[4..], at - 4)
    case Deliver(n) => 0 < n <= at && Reaches(s[n..], at - n)
    case _ => false
  }

  /** The first header block, if complete, has a length that can be read. */
  predicate Readable(s: string) {
    var h := Find(s, END_HEADERS);
    h > 0 ==> ContentLength(s[..h]).Some?
  }

  /** The first header block, if complete, and its length add up to nothing. */
  predicate Cancels(s: string) {
    var h := Find(s, END_HEADERS);
    h > 0 && ContentLength(s[..h]).Some? && Int32(h + 4 + ContentLength(s[..h]).value) == 0
  }

  lemma HaltsHere(s: string)
    ensures NextStep(s).BadLength? <==> !Readable(s)
    ensures NextStep(s) == Deliver(0) <==> Cancels(s)
  {
    hide Find;
    hide ContentLength;
    hide Int32;
  }

  /** Some position of `s` the cursor gets to stops the loop the way `Frame` says. */
  lemma {:induction false} HaltIsReached(s: string) returns (at: nat)
    ensures at <= |s| && Reaches(s, at)
    ensures Frame(s).halt.Spinning? ==> Cancels(s[at..])
    ensures Frame(s).halt.Faulted? ==> !Readable(s[at..])
    decreases |s|
  {
    hide NextStep;
    hide Readable;
    hide Cancels;
    HaltsHere(s);
    assert s[0..] == s;
    var n := match NextStep(s) case KeepAlive => 4 case Deliver(m) => m case _ => 0;
    at := 0;
    if n == 0 {
    } else {
      at := HaltIsReached(s[n..]);
      assert s[n..][at..] == s[n + at..];
      at := n + at;
    }
  }

  /** A position the cursor gets to decides how the rest of the framing ends. */
  lemma {:induction false} HaltFrom(s: string, at: nat)
    requires at <= |s| && Reaches(s, at)
    ensures Frame(s).halt == Frame(s[at..]).halt
    decreases |s|
  {
    hide NextStep;
    if at == 0 {
      assert s[0..] == s;
    } else {
      var n := match NextStep(s) case KeepAlive => 4 case Deliver(m) => m case _ => 0;
      HaltFrom(s[n..], at - n);
      assert s[n..][at - n..] == s[at..];
    }
  }

  /**
   * The loop spins for ever exactly if its cursor gets to a header block whose size
   * and announced length cancel, and reads astray exactly if it gets to one whose
   * length cannot be read.
   */
  lemma HaltsExactly(s: string)
    ensures Frame(s).halt.Spinning? <==> exists at :: 0 <= at <= |s| && Reaches(s, at) && Cancels(s[at..])
    ensures Frame(s).halt.Faulted? <==> exists at :: 0 <= at <= |s| && Reaches(s, at) && !Readable(s[at..])
  {
    hide NextStep;
    hide Readable;
    hide Cancels;
    hide Reaches;
    var found := HaltIsReached(s);
    forall at | 0 <= at <= |s| && Reaches(s, at)
      ensures Cancels(s[at..]) ==> Frame(s).halt.Spinning?
      ensures !Readable(s[at..]) ==> Frame(s).halt.Faulted?
    {
      HaltFrom(s, at);
      HaltsHere(s[at..]);
    }
  }

  /** The loop returns exactly if every header block its cursor gets to has a readable length that leaves it moving. */
  lemma ReturnsExactly(s: string)
    ensures Frame(s).halt.Waiting? <==>
            forall at :: 0 <= at <= |s| && Reaches(s, at) ==> Readable(s[at..]) && !Cancels(s[at..])
  {
    hide Readable;
    hide Cancels;
    hide Reaches;
    hide Frame;
    HaltsExactly(s);
  }

  /** The first header block, if complete, announces a non-negative length that fits an int. */
  predicate SaneLength(s: string) {
    var h := Find(s, END_HEADERS);
    h > 0 ==> match ContentLength(s[..h])
              case None => false
              case Some(clen) => 0 <= clen && h + 4 + clen <= INT_MAX
  }

  lemma SaneStep(s: string)
    requires SaneLength(s)
    ensures Readable(s) && !Cancels(s)
  {
    hide Find;
    hide ContentLength;
  }

  /** In particular the loop returns when the header blocks it gets to have ordinary lengths. */
  lemma SaneLengthsReturn(s: string)
    requires forall at :: 0 <= at <= |s| && Reaches(s, at) ==> SaneLength(s[at..])
    ensures Frame(s).halt.Waiting?
  {
    hide Readable;
    hide Cancels;
    hide Reaches;
    hide Frame;
    hide SaneLength;
    forall at | 0 <= at <= |s| && Reaches(s, at) ensures Readable(s[at..]) && !Cancels(s[at..]) {
      SaneStep(s[at..]);
    }
    ReturnsExactly(s);
  }

  lemma SpinningLengthHeader()
    ensures FindLengthHeader("A\r\nl:-12") == 1
  {
    hide FindFrom;
    hide Find;
    var h := "a\r\nl:-12";
    assert Lower("A\r\nl:-12") == h;
    assert h[1..5] == CLEN_HEADER_COMPACT;
    assert !Occurs(h, CLEN_HEADER_COMPACT, 0) by { assert h[0..4][0] == 'a'; }
    FindIsLeftmost(h, CLEN_HEADER, -1);
    FindIsLeftmost(h, CLEN_HEADER2, -1);
    FindIsLeftmost(h, CLEN_HEADER_COMPACT, 1);
  }

  lemma SpinningHeader()
    ensures ContentLength("A\r\nl:-12") == Some(-12)
  {
    hide Atoi;
    hide FindFrom;
    hide FindLengthHeader;
    hide CString;
    var h := "A\r\nl:-12";
    assert h[4..5] == ":" && h[5..] == "-12";
    forall j | 1 <= j < 4 ensures !Occurs(h, ":", j) { assert h[j..j + 1][0] == h[j]; }
    FindFromIsLeftmost(h, ":", 1, 4);
    SpinningLengthHeader();
    AtoiMinusTwelve();
    assert '\0' !in h;
  }

  lemma AtoiMinusTwelve()
    ensures Atoi("-12") == -12
  {
    assert "-12"[1..] == "12" && "12"[1..] == "2" && "2"[1..] == "";
    assert LeadingNumber("12", 0) == LeadingNumber("2", 1) == LeadingNumber("", 12);
  }

  /** A length that cancels the header block is handed up as an empty message for ever. */
  lemma NegativeLengthSpins()
    ensures Frame("A\r\nl:-12\r\n\r\n") == Framed([], "A\r\nl:-12\r\n\r\n", Spinning)
  {
    hide Find;
    hide ContentLength;
    var s := "A\r\nl:-12\r\n\r\n";
    assert s[8..12] == END_HEADERS && s[..8] == "A\r\nl:-12";
    forall j | 0 <= j < 8 ensures !Occurs(s, END_HEADERS, j) {
      assert s[j..j + 4][0] == s[j] && s[j..j + 4][2] == s[j + 2];
    }
    FindIsLeftmost(s, END_HEADERS, 8);
    SpinningHeader();
  }
}
