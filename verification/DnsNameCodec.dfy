/** Domain names written the way section 4.1.4 of RFC 1035 says, and text read back: the inverses of the expansion. */
module DnsNameCodec {
  import opened Text
  import opened DnsName

  predicate ValidLabels(labels: seq<Label>) {
    forall i :: 0 <= i < |labels| ==> 1 <= |labels[i]| <= 63
  }

  /** A length octet and the octets of each label. */
  function WireLabels(labels: seq<Label>): (wire: seq<Octet>)
    requires ValidLabels(labels)
  {
    if labels == [] then [] else [|labels[0]| as Octet] + labels[0] + WireLabels(labels[1..])
  }

  /** A whole name: its labels and the root. */
  function PlainName(labels: seq<Label>): seq<Octet>
    requires ValidLabels(labels)
  {
    WireLabels(labels) + [0]
  }

  /** The pointer to an offset: two one bits, then fourteen bits of it, the high ones first. */
  function Pointer(offset: nat): seq<Octet>
    requires offset < 16384
  {
    [(192 + offset / 256) as Octet, (offset % 256) as Octet]
  }

  /** A compressed name: some labels, then a pointer to where the rest is. */
  function CompressedName(labels: seq<Label>, offset: nat): seq<Octet>
    requires ValidLabels(labels) && offset < 16384
  {
    WireLabels(labels) + Pointer(offset)
  }

  /** These octets stand at `p`, within the message. */
  predicate WrittenAt(mem: seq<Octet>, M: nat, p: nat, wire: seq<Octet>)
    requires |mem| >= M + 2
  {
    p + |wire| <= M && mem[p..p + |wire|] == wire
  }

  lemma WrittenParts(mem: seq<Octet>, M: nat, p: nat, a: seq<Octet>, b: seq<Octet>)
    requires |mem| >= M + 2 && WrittenAt(mem, M, p, a + b)
    ensures WrittenAt(mem, M, p, a) && WrittenAt(mem, M, p + |a|, b)
  {
    assert mem[p..p + |a|] == mem[p..p + |a + b|][..|a|];
    assert mem[p + |a|..p + |a| + |b|] == mem[p..p + |a + b|][|a|..];
  }

  lemma OctetAt(mem: seq<Octet>, M: nat, p: nat, wire: seq<Octet>, i: nat)
    requires |mem| >= M + 2 && WrittenAt(mem, M, p, wire) && i < |wire|
    ensures mem[p + i] == wire[i]
  {
    assert mem[p..p + |wire|][i] == mem[p + i];
  }

  // ----- Pointers -----

  /** What a name with a pointer to `offset` stands for is what stands at `offset`, one hop further. */
  lemma PointerDenotes(mem: seq<Octet>, M: nat, p: nat, offset: nat, labels: seq<Label>, hops: nat)
    requires |mem| >= M + 2 && offset < 16384 && WrittenAt(mem, M, p, Pointer(offset)) && offset < M
    ensures mem[p] >= 192 && Target(mem, p) == offset
    ensures Denotes(mem, M, p, labels, hops + 1) <==> Denotes(mem, M, offset, labels, hops)
    ensures !Denotes(mem, M, p, labels, 0)
  {
    OctetAt(mem, M, p, Pointer(offset), 0);
    OctetAt(mem, M, p, Pointer(offset), 1);
    assert offset == offset / 256 * 256 + offset % 256;
  }

  // ----- Writing and expanding -----

  lemma LabelAt(mem: seq<Octet>, M: nat, p: nat, labels: seq<Label>, tail: seq<Octet>)
    requires |mem| >= M + 2 && ValidLabels(labels) && labels != []
    requires tail != [] && WrittenAt(mem, M, p, WireLabels(labels) + tail)
    ensures var w := |labels[0]|;
            && p + 1 + w < M && mem[p] as int == w && mem[p + 1..p + 1 + w] == labels[0]
            && WrittenAt(mem, M, p + 1 + w, WireLabels(labels[1..]) + tail)
  {
    var w, rest := |labels[0]|, WireLabels(labels[1..]) + tail;
    var head := [w as Octet];
    assert WireLabels(labels) == head + labels[0] + WireLabels(labels[1..]);
    Assoc(head + labels[0], WireLabels(labels[1..]), tail);
    hide WireLabels;
    hide WrittenAt;
    WrittenParts(mem, M, p, head + labels[0], rest);
    WrittenParts(mem, M, p, head, labels[0]);
    OctetAt(mem, M, p, head, 0);
    SliceAt(mem, M, p + 1, labels[0]);
    SliceAt(mem, M, p + 1 + w, rest);
  }

  lemma SliceAt(mem: seq<Octet>, M: nat, p: nat, wire: seq<Octet>)
    requires |mem| >= M + 2 && WrittenAt(mem, M, p, wire)
    ensures p + |wire| <= M && mem[p..p + |wire|] == wire
  {
  }

  /** One more label in front of a name. */
  lemma LabelDenotes(mem: seq<Octet>, M: nat, p: nat, labels: seq<Label>, hops: nat)
    requires |mem| >= M + 2 && labels != [] && 1 <= |labels[0]| <= 63
    requires var w := |labels[0]|;
             && p + 1 + w < M && mem[p] as int == w && mem[p + 1..p + 1 + w] == labels[0]
             && Denotes(mem, M, p + 1 + w, labels[1..], hops)
    ensures Denotes(mem, M, p, labels, hops)
    ensures var q := p + 1 + |labels[0]|;
            && WireLength(mem, M, p) == 1 + |labels[0]| + WireLength(mem, M, q)
            && CostToLastPointer(mem, M, p, labels, hops) ==
               if hops == 0 then 0 else 1 + |labels[0]| + CostToLastPointer(mem, M, q, labels[1..], hops)
  {
  }

  /** A whole name denotes its labels, without a pointer. */
  lemma {:induction false} PlainDenotes(mem: seq<Octet>, M: nat, p: nat, labels: seq<Label>)
    requires |mem| >= M + 2 && ValidLabels(labels) && WrittenAt(mem, M, p, PlainName(labels))
    ensures Denotes(mem, M, p, labels, 0) && WireLength(mem, M, p) == |PlainName(labels)| - 1
    decreases |labels|
  {
    if labels == [] {
      assert PlainName([]) == [0];
      OctetAt(mem, M, p, [0], 0);
    } else {
      LabelAt(mem, M, p, labels, [0]);
      PlainDenotes(mem, M, p + 1 + |labels[0]|, labels[1..]);
      LabelDenotes(mem, M, p, labels, 0);
    }
  }

  lemma PointerCost(mem: seq<Octet>, M: nat, p: nat, offset: nat, rest: seq<Label>, hops: nat)
    requires |mem| >= M + 2 && offset < 16384 && WrittenAt(mem, M, p, Pointer(offset)) && offset < M
    requires Denotes(mem, M, offset, rest, hops)
    ensures Denotes(mem, M, p, rest, hops + 1) && WireLength(mem, M, p) == 2
    ensures CostToLastPointer(mem, M, p, rest, hops + 1) == 2 + CostToLastPointer(mem, M, offset, rest, hops)
  {
    PointerDenotes(mem, M, p, offset, rest, hops);
  }

  /** A compressed name denotes its labels and then those its pointer leads to. */
  lemma {:induction false} CompressedDenotes(mem: seq<Octet>, M: nat, p: nat, labels: seq<Label>, offset: nat,
      rest: seq<Label>, hops: nat)
    requires |mem| >= M + 2 && ValidLabels(labels) && offset < 16384 && offset < M
    requires WrittenAt(mem, M, p, CompressedName(labels, offset)) && Denotes(mem, M, offset, rest, hops)
    ensures Denotes(mem, M, p, labels + rest, hops + 1)
    ensures CostToLastPointer(mem, M, p, labels + rest, hops + 1) ==
            |CompressedName(labels, offset)| + CostToLastPointer(mem, M, offset, rest, hops)
    ensures WireLength(mem, M, p) == |CompressedName(labels, offset)|
    decreases |labels|
  {
    hide Denotes;
    hide CostToLastPointer;
    hide WireLength;
    hide WrittenAt;
    hide Pointer;
    PointerLength(offset);
    if labels == [] {
      assert [] + Pointer(offset) == Pointer(offset) && [] + rest == rest;
      PointerCost(mem, M, p, offset, rest, hops);
    } else {
      LabelAt(mem, M, p, labels, Pointer(offset));
      CompressedDenotes(mem, M, p + 1 + |labels[0]|, labels[1..], offset, rest, hops);
      assert (labels + rest)[1..] == labels[1..] + rest;
      LabelDenotes(mem, M, p, labels + rest, hops + 1);
    }
  }

  lemma PointerLength(offset: nat)
    requires offset < 16384
    ensures |Pointer(offset)| == 2
  {
  }

  /** Expansion gives back the labels of a whole name, for every name that fits the message. */
  lemma PlainRoundTrip(mem: seq<Octet>, M: nat, p: nat, labels: seq<Label>)
    requires |mem| >= M + 2 && ValidLabels(labels) && WrittenAt(mem, M, p, PlainName(labels))
    ensures Name(mem, M, p, 0) == Some(labels) && WireLength(mem, M, p) == |PlainName(labels)| - 1
  {
    PlainDenotes(mem, M, p, labels);
    DenotedIsName(mem, M, p, labels, 0, 0);
  }

  /**
   * And of a compressed one, unless its octets and those gone through behind its pointer, up
   * to the last pointer there, reach the size of the message: then it is refused.
   */
  lemma CompressedRoundTrip(mem: seq<Octet>, M: nat, p: nat, labels: seq<Label>, offset: nat,
      rest: seq<Label>, hops: nat)
    requires |mem| >= M + 2 && ValidLabels(labels) && offset < 16384 && offset < M
    requires WrittenAt(mem, M, p, CompressedName(labels, offset)) && Denotes(mem, M, offset, rest, hops)
    ensures Name(mem, M, p, 0) ==
            if |CompressedName(labels, offset)| + CostToLastPointer(mem, M, offset, rest, hops) < M
            then Some(labels + rest) else None
    ensures WireLength(mem, M, p) == |CompressedName(labels, offset)|
  {
    CompressedDenotes(mem, M, p, labels, offset, rest, hops);
    DenotedIsName(mem, M, p, labels + rest, hops + 1, 0);
  }

  /** So a name compressed against a whole one, both in one message, always expands. */
  lemma SuffixRoundTrip(mem: seq<Octet>, M: nat, p: nat, labels: seq<Label>, offset: nat, rest: seq<Label>)
    requires |mem| >= M + 2 && ValidLabels(labels) && ValidLabels(rest) && offset < 16384
    requires WrittenAt(mem, M, offset, PlainName(rest)) && offset + |PlainName(rest)| <= p
    requires WrittenAt(mem, M, p, CompressedName(labels, offset))
    ensures Name(mem, M, p, 0) == Some(labels + rest)
  {
    PlainDenotes(mem, M, offset, rest);
    CompressedRoundTrip(mem, M, p, labels, offset, rest, 0);
  }

  // ----- The text read back -----

  /** A reader of the text: the labels done, the one at hand, and whether a backslash came last. */
  datatype Reader = Reader(done: seq<Label>, current: Label, escaped: bool)

  function Read(r: Reader, c: Octet): Reader {
    if r.escaped then Reader(r.done, r.current + [c], false)
    else if c == 92 then r.(escaped := true)
    else if c == 46 then Reader(r.done + [r.current], [], false)
    else Reader(r.done, r.current + [c], false)
  }

  function ReadAll(text: seq<Octet>): Reader {
    if text == [] then Reader([], [], false) else Read(ReadAll(text[..|text| - 1]), text[|text| - 1])
  }

  /** The labels of a text: cut at the dots that no backslash precedes, without the backslashes. */
  function LabelsOf(text: seq<Octet>): seq<Label> {
    ReadAll(text).done + [ReadAll(text).current]
  }

  lemma ReadSnoc(text: seq<Octet>, c: Octet)
    ensures ReadAll(text + [c]) == Read(ReadAll(text), c)
  {
    assert (text + [c])[..|text|] == text;
  }

  lemma ReadEscaped(text: seq<Octet>, c: Octet)
    requires !ReadAll(text).escaped
    ensures ReadAll(text + EscapedOctet(c)) == ReadAll(text).(current := ReadAll(text).current + [c])
  {
    hide ReadAll;
    if c == 46 || c == 92 {
      ReadSnoc(text, 92);
      ReadSnoc(text + [92], c);
      assert text + [92] + [c] == text + [92, c];
    } else {
      ReadSnoc(text, c);
    }
  }

  lemma {:induction false} ReadLabel(text: seq<Octet>, lab: Label)
    requires !ReadAll(text).escaped
    ensures ReadAll(text + Escaped(lab)) == ReadAll(text).(current := ReadAll(text).current + lab)
    decreases |lab|
  {
    hide ReadAll;
    hide EscapedOctet;
    if lab == [] {
      assert text + [] == text && ReadAll(text).current + [] == ReadAll(text).current;
    } else {
      var init, c := lab[..|lab| - 1], lab[|lab| - 1];
      ReadLabel(text, init);
      ReadEscaped(text + Escaped(init), c);
      Assoc(text, Escaped(init), EscapedOctet(c));
      assert ReadAll(text).current + init + [c] == ReadAll(text).current + lab;
    }
  }

  lemma ReadNothing()
    ensures ReadAll([]) == Reader([], [], false)
  {
  }

  /** A label after a dot. */
  lemma ReadOneMore(text: seq<Octet>, lab: Label)
    requires !ReadAll(text).escaped
    ensures ReadAll(text + [DOT] + Escaped(lab)) == Reader(ReadAll(text).done + [ReadAll(text).current], lab, false)
  {
    hide ReadAll;
    hide Escaped;
    ReadSnoc(text, 46);
    ReadLabel(text + [46], lab);
    assert [] + lab == lab;
  }

  lemma {:induction false} ReadDotted(labels: seq<Label>)
    requires labels != []
    ensures ReadAll(Dotted(labels)) == Reader(labels[..|labels| - 1], labels[|labels| - 1], false)
  {
    hide Escaped;
    hide ReadAll;
    var n := |labels| - 1;
    if n == 0 {
      ReadNothing();
      ReadLabel([], labels[0]);
      assert [] + Escaped(labels[0]) == Escaped(labels[0]) && [] + labels[0] == labels[0];
      assert labels[..0] == [];
    } else {
      var init := labels[..n];
      ReadDotted(init);
      ReadOneMore(Dotted(init), labels[n]);
      assert init[..n - 1] + [init[n - 1]] == init;
    }
  }

  /** The labels can be read back from the text, whatever octets they hold. */
  lemma TextRoundTrip(labels: seq<Label>)
    requires labels != []
    ensures LabelsOf(Dotted(labels)) == labels
  {
    ReadDotted(labels);
    hide ReadAll;
    hide Dotted;
  }
}
