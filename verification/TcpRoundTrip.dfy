/** Sender and receiver together: what is sent is what is delivered. */
module TcpRoundTrip {
  import opened Text
  import opened Numerals
  import opened TcpFraming

  /** What travels on a connection: messages and CRLFCRLF keep-alives. */
  datatype Item = Ping | Message(text: string)

  /** One header terminator ends a non-empty header block that announces the body exactly. */
  predicate WellFormed(m: string) {
    var h := Find(m, END_HEADERS);
    h > 0 && |m| <= INT_MAX && ContentLength(m[..h]) == Some(|m| - h - 4)
  }

  predicate AllWellFormed(items: seq<Item>) {
    forall i :: 0 <= i < |items| && items[i].Message? ==> WellFormed(items[i].text)
  }

  function Bytes(item: Item): string {
    if item.Ping? then END_HEADERS else item.text
  }

  function Encode(items: seq<Item>): string {
    if items == [] then [] else Bytes(items[0]) + Encode(items[1..])
  }

  function Messages(items: seq<Item>): seq<string> {
    if items == [] then []
    else (if items[0].Ping? then [] else [items[0].text]) + Messages(items[1..])
  }

  lemma StepOfItem(item: Item, rest: string)
    requires item.Message? ==> WellFormed(item.text)
    ensures item.Ping? ==> NextStep(Bytes(item) + rest) == KeepAlive
    ensures item.Message? ==> NextStep(Bytes(item) + rest) == Deliver(|item.text|) && |item.text| > 0
  {
    hide ContentLength;
    hide Int32;
    match item
    case Ping => FindIsLeftmost(END_HEADERS, END_HEADERS, 0);
    case Message(m) => Int32OfSmall(|m|);
    StepIsStable(Bytes(item), rest);
  }

  lemma {:induction false} FrameOfEncoding(items: seq<Item>)
    requires AllWellFormed(items)
    ensures Frame(Encode(items)) == Framed(Messages(items), [], Waiting)
  {
    hide NextStep;
    hide WellFormed;
    if items == [] {
      EmptyNeedsMore();
    } else {
      var rest := Encode(items[1..]);
      StepOfItem(items[0], rest);
      assert (Bytes(items[0]) + rest)[|Bytes(items[0])|..] == rest;
      assert (Bytes(items[0]) + rest)[..|Bytes(items[0])|] == Bytes(items[0]);
      FrameOfEncoding(items[1..]);
    }
  }

  /** Any list of messages and keep-alives, cut into reads in any way, comes out whole. */
  lemma Delivery(items: seq<Item>, chunks: seq<string>)
    requires AllWellFormed(items) && Flatten(chunks) == Encode(items)
    ensures Feed(FRESH, chunks) == Framed(Messages(items), [], Waiting)
  {
    hide NextStep;
    hide WellFormed;
    ChunkIndependence(chunks, chunks);
    FrameOfEncoding(items);
  }

  // ----- The sender -----

  /** One turn of the send loop: bytes accepted (at most those offered), a full socket, or an error. */
  datatype Sent = Wrote(n: nat) | Blocked(selected: int) | Broken

  datatype SendResult = Returned(code: int) | StillSending

  datatype Transfer = Transfer(result: SendResult, wire: string)

  /** Outcome of sending `msg` against a socket that answers `turns`. */
  function Send(msg: string, turns: seq<Sent>): (t: Transfer)
    ensures t.wire <= msg
    decreases |turns|
  {
    if turns == [] then Transfer(StillSending, []) else
    match turns[0]
    case Broken => Transfer(Returned(-1), [])
    case Blocked(selected) =>
      if selected < 0 then Transfer(Returned(-1), []) else Send(msg, turns[1..])
    case Wrote(n) =>
      if n == 0 || msg == [] then Transfer(Returned(0), [])
      else if n < |msg| then
        var t := Send(msg[n..], turns[1..]);
        t.(wire := msg[..n] + t.wire)
      else Transfer(Returned(0), msg)
  }

  /** Bytes the socket is ready to take before its first zero-length write. */
  function Offered(turns: seq<Sent>): nat {
    if turns == [] || turns[0] == Wrote(0) then 0
    else (if turns[0].Wrote? then turns[0].n else 0) + Offered(turns[1..])
  }

  /** Success means the whole message went out exactly if no zero-length write cut it short. */
  lemma {:induction false} SuccessIsWholeMessage(msg: string, turns: seq<Sent>)
    requires Send(msg, turns).result == Returned(0)
    ensures Send(msg, turns).wire == msg <==> Offered(turns) >= |msg|
    decreases |turns|
  {
    match turns[0]
    case Blocked(selected) => SuccessIsWholeMessage(msg, turns[1..]);
    case Broken => assert false;
    case Wrote(n) =>
      if 0 < n < |msg| {
        SuccessIsWholeMessage(msg[n..], turns[1..]);
        var w := Send(msg[n..], turns[1..]).wire;
        assert msg == msg[..n] + msg[n..];
        assert msg[..n] + w == msg <==> w == msg[n..] by {
          assert (msg[..n] + w)[n..] == w;
        }
      }
  }

  /** The answers go on offering the socket: no error, no write of zero bytes, and the message not through yet. */
  predicate StillGoing(msg: string, turns: seq<Sent>) {
    && (forall k :: 0 <= k < |turns| ==>
          match turns[k] case Broken => false case Blocked(selected) => selected >= 0 case Wrote(n) => n > 0)
    && ((forall k :: 0 <= k < |turns| ==> !turns[k].Wrote?) || Offered(turns) < |msg|)
  }

  predicate Fatal(t: Sent) {
    t.Broken? || (t.Blocked? && t.selected < 0)
  }

  lemma StillGoingStep(msg: string, turns: seq<Sent>, k: nat)
    requires turns != [] && 1 <= k <= |turns|
    requires !(turns[0].Wrote? && (turns[0].n == 0 || turns[0].n >= |msg|)) && !Fatal(turns[0])
    ensures var rest := if turns[0].Wrote? then msg[turns[0].n..] else msg;
            StillGoing(msg, turns[..k]) <==> StillGoing(rest, turns[1..][..k - 1])
  {
    var a, b := turns[..k], turns[1..][..k - 1];
    assert a[1..] == b;
    assert a == [turns[0]] + b;
    assert forall i :: 0 <= i < |a| ==> a[i] == if i == 0 then turns[0] else b[i - 1];
    assert forall i :: 0 <= i < |b| ==> a[i + 1] == b[i];
    if turns[0].Blocked? {
      if forall i :: 0 <= i < |b| ==> !b[i].Wrote? {
        assert forall i :: 0 <= i < |a| ==> !a[i].Wrote?;
      }
    } else if forall i :: 0 <= i < |b| ==> !b[i].Wrote? {
      NothingOffered(b);
    }
  }

  lemma {:induction false} NothingOffered(turns: seq<Sent>)
    requires forall i :: 0 <= i < |turns| ==> !turns[i].Wrote?
    ensures Offered(turns) == 0
  {
    if turns == [] {
    } else {
      NothingOffered(turns[1..]);
    }
  }

  /** Failure is reported exactly if an error comes up while the message is still on its way. */
  lemma {:induction false} FailureIsReported(msg: string, turns: seq<Sent>)
    ensures Send(msg, turns).result == Returned(-1) <==>
            exists k :: 0 <= k < |turns| && Fatal(turns[k]) && StillGoing(msg, turns[..k])
    decreases |turns|
  {
    hide StillGoing;
    if turns == [] {
    } else if Fatal(turns[0]) {
      GoingAtFirst(msg, turns);
    } else if turns[0].Wrote? && (turns[0].n == 0 || turns[0].n >= |msg|) {
      forall k | 0 < k < |turns| ensures !StillGoing(msg, turns[..k]) {
        OverAtFirst(msg, turns[..k]);
      }
    } else {
      var rest := if turns[0].Wrote? then msg[turns[0].n..] else msg;
      FailureIsReported(rest, turns[1..]);
      FailureStep(msg, rest, turns);
    }
  }

  lemma GoingAtFirst(msg: string, turns: seq<Sent>)
    requires turns != []
    ensures StillGoing(msg, turns[..0])
  {
  }

  lemma OverAtFirst(msg: string, turns: seq<Sent>)
    requires turns != [] && turns[0].Wrote? && (turns[0].n == 0 || turns[0].n >= |msg|)
    ensures !StillGoing(msg, turns)
  {
  }

  lemma FailureStep(msg: string, rest: string, turns: seq<Sent>)
    requires turns != [] && !Fatal(turns[0]) && !(turns[0].Wrote? && (turns[0].n == 0 || turns[0].n >= |msg|))
    requires rest == if turns[0].Wrote? then msg[turns[0].n..] else msg
    ensures (exists k :: 0 <= k < |turns| && Fatal(turns[k]) && StillGoing(msg, turns[..k])) <==>
            (exists k :: 0 <= k < |turns[1..]| && Fatal(turns[1..][k]) && StillGoing(rest, turns[1..][..k]))
  {
    hide StillGoing;
    hide Fatal;
    forall k | 0 <= k < |turns| - 1
      ensures StillGoing(msg, turns[..k + 1]) <==> StillGoing(rest, turns[1..][..k])
      ensures turns[1..][k] == turns[k + 1]
    {
      StillGoingStep(msg, turns, k + 1);
    }
    if k :| 0 <= k < |turns| && Fatal(turns[k]) && StillGoing(msg, turns[..k]) {
      assert Fatal(turns[1..][k - 1]) && StillGoing(rest, turns[1..][..k - 1]);
    }
    if k :| 0 <= k < |turns[1..]| && Fatal(turns[1..][k]) && StillGoing(rest, turns[1..][..k]) {
      assert Fatal(turns[k + 1]) && StillGoing(msg, turns[..k + 1]);
    }
  }

  /** Two bytes of BYE, then a write of none: reported as success. */
  lemma ZeroWriteTruncates()
    ensures Send("BYE", [Wrote(2), Wrote(0)]) == Transfer(Returned(0), "BY")
  {
    assert [Wrote(2), Wrote(0)][1..] == [Wrote(0)];
  }

  /**
   * The partial-write loop. `turns` are the answers of `send` (and of `select`
   * after a full socket); `wire` is what the connection accepted.
   */
  method SendSockinfo(message: string, turns: seq<Sent>) returns (result: SendResult, wire: string)
    ensures Transfer(result, wire) == Send(message, turns)
  {
    hide Send;
    var msg := message;
    wire := [];
    ResumeNothing(Send(message, turns));
    assert turns[0..] == turns;
    for k := 0 to |turns|
      invariant Send(message, turns) == Resume(wire, Send(msg, turns[k..]))
    {
      SendTurn(msg, turns, k);
      match turns[k]
      case Broken =>
        return Returned(-1), wire;
      case Blocked(selected) =>
        if selected < 0 { return Returned(-1), wire; }
      case Wrote(n) =>
        var i := if n <= |msg| then n else |msg|;
        if i == 0 { return Returned(0), wire; }
        if i == |msg| { return Returned(0), wire + msg; }
        ResumeTwice(wire, msg[..i], Send(msg[i..], turns[k + 1..]));
        wire, msg := wire + msg[..i], msg[i..];
    }
    SendNone(msg);
    assert turns[|turns|..] == [] && wire + [] == wire;
    result := StillSending;
  }

  /** What the k-th answer of the socket makes of the message. */
  lemma SendTurn(msg: string, turns: seq<Sent>, k: nat)
    requires k < |turns|
    ensures turns[k].Broken? || (turns[k].Blocked? && turns[k].selected < 0) ==>
              Send(msg, turns[k..]) == Transfer(Returned(-1), [])
    ensures turns[k].Blocked? && turns[k].selected >= 0 ==> Send(msg, turns[k..]) == Send(msg, turns[k + 1..])
    ensures turns[k].Wrote? && (turns[k].n == 0 || msg == []) ==> Send(msg, turns[k..]) == Transfer(Returned(0), [])
    ensures turns[k].Wrote? && 0 < turns[k].n < |msg| ==>
              Send(msg, turns[k..]) == Resume(msg[..turns[k].n], Send(msg[turns[k].n..], turns[k + 1..]))
    ensures turns[k].Wrote? && turns[k].n >= |msg| > 0 ==> Send(msg, turns[k..]) == Transfer(Returned(0), msg)
  {
    assert turns[k..][1..] == turns[k + 1..];
  }

  lemma SendNone(msg: string)
    ensures Send(msg, []) == Transfer(StillSending, [])
  {
  }

  lemma ResumeNothing(t: Transfer)
    ensures Resume([], t) == t
  {
  }

  ghost function Resume(wire: string, t: Transfer): Transfer {
    t.(wire := wire + t.wire)
  }

  lemma ResumeTwice(a: string, b: string, t: Transfer)
    ensures Resume(a, Resume(b, t)) == Resume(a + b, t)
  {
    assert a + (b + t.wire) == a + b + t.wire;
  }

  // ----- End to end -----

  /** One attempt per item, each on its own socket answers. */
  function WireOf(items: seq<Item>, turns: seq<seq<Sent>>): string
    requires |items| == |turns|
  {
    if items == [] then []
    else Send(Bytes(items[0]), turns[0]).wire + WireOf(items[1..], turns[1..])
  }

  ghost predicate AllSent(items: seq<Item>, turns: seq<seq<Sent>>)
    requires |items| == |turns|
  {
    forall i :: 0 <= i < |items| ==>
      Send(Bytes(items[i]), turns[i]).result == Returned(0) && Offered(turns[i]) >= |Bytes(items[i])|
  }

  lemma {:induction false} WireIsEncoding(items: seq<Item>, turns: seq<seq<Sent>>)
    requires |items| == |turns| && AllSent(items, turns)
    ensures WireOf(items, turns) == Encode(items)
  {
    if items == [] {
    } else {
      SuccessIsWholeMessage(Bytes(items[0]), turns[0]);
      WireIsEncoding(items[1..], turns[1..]);
    }
  }

  /** Any partial writes on one side and any reads on the other deliver exactly the messages sent. */
  lemma SendReceive(items: seq<Item>, turns: seq<seq<Sent>>, chunks: seq<string>)
    requires |items| == |turns| && AllSent(items, turns) && AllWellFormed(items)
    requires Flatten(chunks) == WireOf(items, turns)
    ensures Feed(FRESH, chunks) == Framed(Messages(items), [], Waiting)
  {
    WireIsEncoding(items, turns);
    Delivery(items, chunks);
  }

  // ----- A message the stack would build -----

  const LENGTH_LINE := "\r\nContent-Length: "

  function Compose(head: string, body: string): string {
    head + LENGTH_LINE + Print(|body|, Decimal) + END_HEADERS + body
  }

  /** A head that holds no terminator, no NUL and no length header of its own. */
  ghost predicate PlainHead(head: string) {
    && head != [] && '\0' !in head
    && Find(head + "\r\n", END_HEADERS) == -1
    && Find(Lower(head) + CLEN_HEADER, CLEN_HEADER) == |head|
  }

  /** One letter is such a head already. */
  lemma SomeHeadIsPlain()
    ensures PlainHead("A")
  {
    var t := Lower("A") + CLEN_HEADER;
    assert t[0] == 'a' && t[1..1 + |CLEN_HEADER|] == CLEN_HEADER;
    assert !Occurs(t, CLEN_HEADER, 0) by { assert t[0..|CLEN_HEADER|][0] == t[0]; }
    FindIsLeftmost(t, CLEN_HEADER, 1);
    FindIsLeftmost("A\r\n", END_HEADERS, -1);
  }

  lemma {:induction false} LeadingNumberIsValue(done: string, s: string)
    requires AllDigits(s, Decimal)
    ensures LeadingNumber(s, Value(done, Decimal)) == Value(done + s, Decimal)
    decreases |s|
  {
    if s == [] {
      assert done + s == done;
    } else {
      ValueOfSnoc(done, s[0], Decimal);
      LeadingNumberIsValue(done + [s[0]], s[1..]);
      assert done + [s[0]] + s[1..] == done + s;
    }
  }

  lemma Int32OfSmall(v: nat)
    requires v <= INT_MAX
    ensures Int32(v) == v
  {
  }

  lemma AtoiOfPrint(n: nat)
    requires n <= INT_MAX
    ensures Atoi(" " + Print(n, Decimal)) == n
  {
    hide Print;
    hide Value;
    hide LeadingNumber;
    hide Int32;
    var d := Print(n, Decimal);
    assert SkipSpace(" " + d) == d by {
      assert (" " + d)[1..] == d;
      assert IsDigit(d[0], Decimal);
    }
    assert LeadingNumber(d, 0) == n by {
      LeadingNumberIsValue([], d);
      assert [] + d == d && Value([], Decimal) == 0 by { ValueOfEmpty(); }
      ValueOfPrint(n, Decimal);
    }
    assert IsDigit(d[0], Decimal);
    Int32OfSmall(n);
  }

  lemma ValueOfEmpty()
    ensures Value([], Decimal) == 0
  {
  }

  /** No terminator starts before the one after the length line. */
  lemma NoEarlierTerminator(head: string, d: string, tail: string, j: nat)
    requires Find(head + "\r\n", END_HEADERS) == -1 && AllDigits(d, Decimal)
    requires j < |head| + |LENGTH_LINE| + |d|
    ensures !Occurs(head + (LENGTH_LINE + d + tail), END_HEADERS, j)
  {
    hide Find;
    var line := LENGTH_LINE + d + tail;
    var m, pre := head + line, head + "\r\n";
    if j + 2 <= |head| {
      assert m[..|pre|] == pre;
      assert pre[j..j + 4] == m[j..j + 4];
      NotFound(pre, END_HEADERS, j);
    } else if j < |head| {
      assert m[j + 1] == '\r';
    } else {
      var k := j - |head|;
      assert m[j] == line[k] && (k == 0 ==> m[j + 2] == 'C');
      assert k >= |LENGTH_LINE| ==> IsDigit(d[k - |LENGTH_LINE|], Decimal);
    }
    if Occurs(m, END_HEADERS, j) { OccursPointwise(m, END_HEADERS, j); }
  }

  lemma NotFound<T>(s: seq<T>, needle: seq<T>, j: nat)
    requires Find(s, needle) == -1
    ensures !Occurs(s, needle, j)
  {
  }

  lemma TerminatorOfComposed(head: string, body: string)
    requires PlainHead(head)
    ensures Find(Compose(head, body), END_HEADERS) == |head| + |LENGTH_LINE| + |Print(|body|, Decimal)|
  {
    hide Find;
    hide Print;
    var d := Print(|body|, Decimal);
    var m, h := Compose(head, body), |head| + |LENGTH_LINE| + |d|;
    assert m[h..h + 4] == END_HEADERS;
    assert m == head + (LENGTH_LINE + d + (END_HEADERS + body));
    forall j | 0 <= j < h ensures !Occurs(m, END_HEADERS, j) {
      NoEarlierTerminator(head, d, END_HEADERS + body, j);
    }
    FindIsLeftmost(m, END_HEADERS, h);
  }

  lemma OccursPointwise<T>(s: seq<T>, needle: seq<T>, i: int)
    requires Occurs(s, needle, i)
    ensures forall k :: 0 <= k < |needle| ==> s[i + k] == needle[k]
  {
    assert forall k :: 0 <= k < |needle| ==> s[i..i + |needle|][k] == needle[k];
  }

  lemma LowerOfComposed(head: string, d: string)
    ensures Lower(head + LENGTH_LINE + d) == Lower(head) + CLEN_HEADER + (" " + Lower(d))
  {
    assert Lower(LENGTH_LINE) == CLEN_HEADER + " ";
  }

  /** The length header of a composed block is the one the composer wrote. */
  lemma LengthHeaderOfComposed(head: string, d: string)
    requires Find(Lower(head) + CLEN_HEADER, CLEN_HEADER) == |head|
    ensures FindLengthHeader(head + LENGTH_LINE + d) == |head|
  {
    hide Find;
    LowerOfComposed(head, d);
    FindInPrefix(Lower(head) + CLEN_HEADER, " " + Lower(d), CLEN_HEADER);
  }

  lemma ColonOfComposed(head: string, d: string)
    ensures FindFrom(head + LENGTH_LINE + d, ":", |head|) == |head| + 16
  {
    hide FindFrom;
    var headers, colon := head + LENGTH_LINE + d, |head| + 16;
    assert headers[colon..colon + 1] == ":";
    forall j | |head| <= j < colon ensures !Occurs(headers, ":", j) {
      assert headers[j..j + 1][0] == LENGTH_LINE[j - |head|] != ':';
    }
    FindFromIsLeftmost(headers, ":", |head|, colon);
  }

  lemma NoNulInComposed(head: string, n: nat)
    requires '\0' !in head
    ensures CString(head + LENGTH_LINE + Print(n, Decimal)) == head + LENGTH_LINE + Print(n, Decimal)
  {
    hide Print;
    var d := Print(n, Decimal);
    assert forall i :: 0 <= i < |d| ==> IsDigit(d[i], Decimal);
    assert '\0' !in LENGTH_LINE;
    assert '\0' !in d;
  }

  lemma AfterColon(head: string, d: string)
    ensures |head| + 17 <= |head + LENGTH_LINE + d|
    ensures (head + LENGTH_LINE + d)[|head| + 17..] == " " + d
  {
  }

  lemma ContentLengthFrom(headers: string, p: nat, colon: nat, n: int)
    requires CString(headers) == headers && FindLengthHeader(headers) == p
    requires FindFrom(headers, ":", p) == colon && Atoi(headers[colon + 1..]) == n
    ensures ContentLength(headers) == Some(n)
  {
    hide CString;
    hide Atoi;
    hide FindFrom;
    hide FindLengthHeader;
  }

  lemma LengthOfComposed(head: string, n: nat)
    requires '\0' !in head && Find(Lower(head) + CLEN_HEADER, CLEN_HEADER) == |head| && n <= INT_MAX
    ensures ContentLength(head + LENGTH_LINE + Print(n, Decimal)) == Some(n)
  {
    hide *;
    var d := Print(n, Decimal);
    var headers := head + LENGTH_LINE + d;
    NoNulInComposed(head, n);
    LengthHeaderOfComposed(head, d);
    ColonOfComposed(head, d);
    AfterColon(head, d);
    AtoiOfPrint(n);
    ContentLengthFrom(headers, |head|, |head| + 16, n);
  }

  /** So round trips are not vacuous: every such head with any body is well formed. */
  lemma ComposedIsWellFormed(head: string, body: string)
    requires PlainHead(head) && |Compose(head, body)| <= INT_MAX
    ensures WellFormed(Compose(head, body))
  {
    hide ContentLength;
    hide Find;
    hide Print;
    TerminatorOfComposed(head, body);
    LengthOfComposed(head, |body|);
    var d := Print(|body|, Decimal);
    assert Compose(head, body)[..|head| + |LENGTH_LINE| + |d|] == head + LENGTH_LINE + d;
  }
}
