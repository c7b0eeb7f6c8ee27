/**
 * The TCP connection of the SIP stack: an in-place receive buffer that grows,
 * shrinks and is shifted, and the partial-write loop of the sender.
 */
module TcpStream {
  import opened Text
  import opened TcpFraming

  const SIP_MESSAGE_MAX_LENGTH := 8000
  const GROWTH := 1000

  /** `memchr` over a[from..to]: index of the first `c`, or -1. */
  method MemChr(a: array<char>, from: nat, to: nat, c: char) returns (p: int)
    requires from <= to <= a.Length
    ensures p == -1 || (from <= p < to && a[p] == c)
    ensures forall j :: from <= j < (if p == -1 then to else p) ==> a[j] != c
  {
    p := from;
    while p < to
      invariant from <= p <= to
      invariant forall j :: from <= j < p ==> a[j] != c
    {
      if a[p] == c { return; }
      p := p + 1;
    }
    p := -1;
  }

  lemma SliceOfSlice<T>(s: seq<T>, lo: nat, hi: nat, i: nat, j: nat)
    requires lo <= hi <= |s| && i <= j <= hi - lo
    ensures s[lo..hi][i..j] == s[lo + i..lo + j]
  {
    var t := s[lo..hi];
    assert forall k :: 0 <= k < j - i ==> t[i..j][k] == t[i + k] == s[lo + (i + k)];
    assert t[i..j] == s[lo + i..lo + j];
  }

  lemma OccursStartsWith<T>(s: seq<T>, needle: seq<T>, k: int)
    requires needle != [] && Occurs(s, needle, k)
    ensures s[k] == needle[0]
  {
    assert s[k..k + |needle|][0] == s[k];
  }

  /** `strstr` for binary data: offset of the first occurrence of `needle`, or -1. */
  method BufferFind(a: array<char>, off: nat, len: nat, needle: string) returns (p: int)
    requires off + len <= a.Length && needle != []
    ensures p == Find(a[off..off + len], needle)
  {
    hide Find;
    ghost var hay := a[off..off + len];
    var search, end := off, off + len;
    while search < end
      invariant off <= search <= end
      invariant forall k :: 0 <= k < search - off ==> !Occurs(hay, needle, k)
    {
      var q := MemChr(a, search, end, needle[0]);
      assert forall k :: 0 <= k < len ==> hay[k] == a[off + k];
      ghost var seen := if q == -1 then len else q - off;
      forall k | 0 <= k < seen ensures !Occurs(hay, needle, k) {
        if search - off <= k && Occurs(hay, needle, k) { OccursStartsWith(hay, needle, k); }
      }
      if q == -1 || q + |needle| > end { break; }
      SliceOfSlice(a[..], off, off + len, seen, seen + |needle|);
      if a[q..q + |needle|] == needle {
        FindIsLeftmost(hay, needle, seen);
        return q - off;
      }
      search := q + 1;
    }
    FindIsLeftmost(hay, needle, -1);
    p := -1;
  }

  /** What one `recv` on the connection yields. */
  datatype Received = Data(bytes: string) | Eof | WouldBlock | Error

  datatype Status = Success | UndefinedError

  class Stream {
    var buf: array?<char>          // null until the first read
    var buflen: nat
    ghost var received: string     // every byte read since the connection was opened
    var delivered: seq<string>     // every message passed up since then
    var halt: Halt                 // not Waiting: the framing loop never returned

    ghost function Contents(): string
      reads this, buf
      requires buflen <= if buf == null then 0 else buf.Length
    {
      if buf == null then [] else buf[..buflen]
    }

    /** The invariant is chunk independence itself: reads so far == framing at once. */
    ghost predicate Valid()
      reads this, buf
    {
      && (buf == null ==> buflen == 0)
      && (buf != null ==> buflen <= buf.Length && buf.Length >= SIP_MESSAGE_MAX_LENGTH)
      && Frame(received).messages == delivered
      && Frame(received).halt == halt
      && (halt.Waiting? ==> Frame(received).rest == Contents())
    }

    constructor ()
      ensures Valid() && halt.Waiting? && received == [] && delivered == []
    {
      buf, buflen, received, delivered, halt := null, 0, [], [], Waiting;
    }

    /** Room for at least one byte: allocate, grow a full buffer, shrink an empty one. */
    method MakeRoom()
      requires Valid() && halt.Waiting?
      modifies this`buf
      ensures Valid() && buf != null && buflen < buf.Length
      ensures buf == old(buf) || fresh(buf)
      ensures Contents() == old(Contents())
      ensures buf.Length == (if old(buf) == null || old(buflen) == 0 then 8000
                             else if old(buflen) == old(buf.Length) then old(buf.Length) + 1000
                             else old(buf.Length))
    {
      if buf == null {
        buf := new char[SIP_MESSAGE_MAX_LENGTH];
      }
      if buf.Length - buflen <= 0 {
        var bigger := new char[buf.Length + GROWTH];
        forall i | 0 <= i < buf.Length { bigger[i] := buf[i]; }
        assert bigger[..buflen] == buf[..buflen];
        buf := bigger;
      }
      if buflen == 0 && buf.Length > SIP_MESSAGE_MAX_LENGTH {
        buf := new char[SIP_MESSAGE_MAX_LENGTH];
      }
    }

    /** The announced length of the header block buf[off..off + h]. */
    method LengthOfBlock(off: nat, h: nat) returns (clen: Option<int>)
      requires buf != null && off + h < buflen <= buf.Length && buf[off + h] == END_HEADERS[0]
      modifies buf
      ensures buf[..] == old(buf[..])
      ensures clen == ContentLength(buf[off..off + h])
    {
      ghost var block := buf[off..off + h];
      buf[off + h] := '\0';
      assert buf[off..buflen] == block + ['\0'] + buf[off + h + 1..buflen];
      CStringStopsAtNul(block, buf[off + h + 1..buflen]);
      clen := AnnouncedLength(CString(buf[off..buflen]));
      buf[off + h] := END_HEADERS[0];
      assert buf[off..off + h] == block;
    }

    /** One turn of the loop: what the bytes from `consumed` on call for. */
    method PeekMessage(consumed: nat) returns (step: Step)
      requires buf != null && consumed < buflen <= buf.Length
      modifies buf
      ensures buf[..] == old(buf[..])
      ensures step == NextStep(buf[consumed..buflen])
    {
      hide ContentLength;
      hide Int32;
      ghost var here := buf[consumed..buflen];
      var endHeaders := BufferFind(buf, consumed, buflen - consumed, END_HEADERS);
      if endHeaders == -1 { return NeedMore; }
      if endHeaders == 0 { return KeepAlive; }
      SliceOfSlice(buf[..], consumed, buflen, 0, endHeaders);
      SliceOfSlice(buf[..], consumed, buflen, endHeaders, endHeaders + 4);
      var clen := LengthOfBlock(consumed, endHeaders);
      assert buf[consumed..buflen] == here;
      if clen.None? { return BadLength; }
      var msglen := Int32(endHeaders + 4 + clen.value);
      step := if msglen < 0 || msglen > buflen - consumed then NeedMore else Deliver(msglen);
    }

    /**
     * Consume the complete messages at the front of the buffer. While a length
     * header is looked up a NUL stands in the buffer; at the end it is as before.
     */
    method HandleMessages() returns (consumed: nat, messages: seq<string>, outcome: Halt)
      requires buf != null && buflen <= buf.Length
      modifies buf
      ensures buf[..] == old(buf[..])
      ensures consumed <= buflen
      ensures Frame(buf[..buflen]) == Framed(messages, buf[consumed..buflen], outcome)
    {
      hide NextStep;
      hide Frame;
      ghost var s := buf[..buflen];
      consumed, messages, outcome := 0, [], Waiting;
      EmptyNeedsMore();
      assert s[0..] == s && s[|s|..] == [] && [] + Frame(s).messages == Frame(s).messages;
      FrameStops([]);
      while buflen > consumed
        invariant consumed <= buflen && outcome.Waiting?
        invariant buf[..] == old(buf[..])
        invariant Frame(s) == Prepend(messages, Frame(s[consumed..]))
        decreases buflen - consumed
      {
        var step := PeekMessage(consumed);
        assert buf[consumed..buflen] == s[consumed..];
        FrameStops(s[consumed..]);
        match step
        case NeedMore => break;
        case BadLength => outcome := Faulted; break;
        case KeepAlive =>
          FrameAfter(s, consumed, 4);
          consumed := consumed + 4;
        case Deliver(msglen) =>
          if msglen == 0 { outcome := Spinning; break; }
          FrameAfter(s, consumed, msglen);
          PrependTwice(messages, [s[consumed..consumed + msglen]], Frame(s[consumed + msglen..]));
          assert buf[consumed..consumed + msglen] == s[consumed..consumed + msglen];
          messages := messages + [buf[consumed..consumed + msglen]];
          consumed := consumed + msglen;
      }
      assert buf[consumed..buflen] == s[consumed..];
    }

    /**
     * One readable event. `Data(bytes)` are the bytes the kernel holds; as many as
     * fit are taken. Losing the connection empties the record for the next one.
     */
    method Recv(input: Received) returns (status: Status, taken: nat)
      requires Valid() && halt.Waiting?
      requires input.Data? ==> input.bytes != []
      modifies this, buf
      ensures Valid()
      ensures input.Data? ==> 0 < taken <= |input.bytes| && received == old(received) + input.bytes[..taken]
      ensures input.Data? ==> old(delivered) <= delivered && status.Success?
      ensures input.WouldBlock? ==> received == old(received) && delivered == old(delivered) && status.Success?
      ensures input.Eof? || input.Error? ==> received == [] && delivered == [] && status.UndefinedError?
      ensures !input.Data? ==> halt.Waiting? && taken == 0
    {
      hide NextStep;
      hide Frame;
      MakeRoom();
      taken := 0;
      match input
      case WouldBlock => status := Success;
      case Eof => Close(); status := UndefinedError;
      case Error => Close(); status := UndefinedError;
      case Data(bytes) =>
        taken := Accept(bytes); status := Success;
    }

    /** The bytes are appended, framed, and what was consumed is shifted out. */
    method Accept(bytes: string) returns (taken: nat)
      requires Valid() && halt.Waiting? && bytes != []
      requires buf != null && buflen < buf.Length
      modifies this, buf
      ensures Valid() && buf == old(buf)
      ensures 0 < taken <= |bytes| && received == old(received) + bytes[..taken]
      ensures taken == |bytes| || taken == buf.Length - old(buflen)
      ensures old(delivered) <= delivered
    {
      hide NextStep;
      hide Frame;
      taken := if |bytes| < buf.Length - buflen then |bytes| else buf.Length - buflen;
      ghost var before, chunk := Contents(), bytes[..taken];
      forall i | 0 <= i < taken { buf[buflen + i] := bytes[i]; }
      buflen := buflen + taken;
      assert Contents() == before + chunk;
      FrameConcat(received, chunk);
      received := received + chunk;
      var consumed, messages, outcome := HandleMessages();
      delivered, halt := delivered + messages, outcome;
      if outcome.Waiting? && consumed > 0 {
        Discard(consumed);
      }
    }

    /** `memmove` the bytes after `consumed` to the front. */
    method Discard(consumed: nat)
      requires buf != null && consumed <= buflen <= buf.Length
      modifies this`buflen, buf
      ensures buflen == old(buflen) - consumed && buf[..buflen] == old(buf[consumed..buflen])
    {
      if buflen > consumed {
        forall i | 0 <= i < buflen - consumed { buf[i] := buf[consumed + i]; }
        buflen := buflen - consumed;
      } else {
        buflen := 0;
      }
    }

    method Close()
      modifies this
      ensures Valid() && halt.Waiting? && received == [] && delivered == []
    {
      buf, buflen, received, delivered, halt := null, 0, [], [], Waiting;
    }
  }

  /** Framing stops where a step consumes nothing. */
  lemma FrameStops(s: string)
    ensures NextStep(s).NeedMore? ==> Frame(s) == Framed([], s, Waiting)
    ensures NextStep(s).BadLength? ==> Frame(s) == Framed([], s, Faulted)
    ensures NextStep(s) == Deliver(0) ==> Frame(s) == Framed([], s, Spinning)
  {
    hide NextStep;
  }

  lemma PrependTwice(a: seq<string>, b: seq<string>, f: Framed)
    ensures Prepend(a, Prepend(b, f)) == Prepend(a + b, f)
  {
    assert a + (b + f.messages) == a + b + f.messages;
  }

  /** Framing goes on after the `n` bytes a step consumes. */
  lemma FrameAfter(s: string, at: nat, n: nat)
    requires at + n <= |s| && n > 0
    requires NextStep(s[at..]) == Deliver(n) || (NextStep(s[at..]) == KeepAlive && n == 4)
    ensures NextStep(s[at..]).KeepAlive? ==> Frame(s[at..]) == Frame(s[at + n..])
    ensures NextStep(s[at..]).Deliver? ==> Frame(s[at..]) == Prepend([s[at..at + n]], Frame(s[at + n..]))
  {
    hide NextStep;
    assert s[at..][n..] == s[at + n..] && s[at..][..n] == s[at..at + n];
  }

  ghost function Prepend(messages: seq<string>, f: Framed): Framed {
    f.(messages := messages + f.messages)
  }
}
