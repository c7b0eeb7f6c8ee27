/** Expansion of compressed domain names (section 4.1.4 of RFC 1035). */
module DnsName {
  import opened Text

  newtype Octet = n: int | 0 <= n < 256

  const DOT: Octet := 46
  const BACKSLASH: Octet := 92

  type Label = seq<Octet>

  // ----- The name at a position -----

  /** Where the pointer at `p` points. */
  function Target(mem: seq<Octet>, p: nat): nat
    requires p + 1 < |mem| && mem[p] >= 192
  {
    (mem[p] as int - 192) * 256 + mem[p + 1] as int
  }

  /**
   * The labels of the name at `p` in a message of `M` octets, of which `copied` were
   * already gone through: None for a malformed name and for one whose pointers are
   * followed after the octets gone through reach the size of the message.
   */
  function Name(mem: seq<Octet>, M: nat, p: nat, copied: nat): Option<seq<Label>>
    requires |mem| >= M + 2
    decreases if copied < M then M - copied else 0, if p <= M then M - p else 0
  {
    if p > M then None
    else if mem[p] == 0 then Some([])
    else if mem[p] < 64 then
      var w := mem[p] as int;
      if p + w >= M then None
      else
        match Name(mem, M, p + 1 + w, copied + 1 + w)
        case None => None
        case Some(rest) => Some([mem[p + 1..p + 1 + w]] + rest)
    else if mem[p] >= 192 then
      if Target(mem, p) >= M || copied + 2 >= M then None
      else Name(mem, M, Target(mem, p), copied + 2)
    else None
  }

  /** Octets from `p` to the end of the name as it stands there: up to its first pointer or zero. */
  function WireLength(mem: seq<Octet>, M: nat, p: nat): nat
    requires |mem| >= M + 2
    decreases if p <= M then M + 1 - p else 0
  {
    if p > M || mem[p] == 0 then 0
    else if mem[p] < 64 then 1 + mem[p] as int + WireLength(mem, M, p + 1 + mem[p] as int)
    else 2
  }

  // ----- Text form -----

  function EscapedOctet(c: Octet): seq<Octet> {
    if c == DOT || c == BACKSLASH then [BACKSLASH, c] else [c]
  }

  function Escaped(lab: Label): seq<Octet> {
    if lab == [] then [] else Escaped(lab[..|lab| - 1]) + EscapedOctet(lab[|lab| - 1])
  }

  function Dotted(labels: seq<Label>): seq<Octet> {
    if labels == [] then []
    else if |labels| == 1 then Escaped(labels[0])
    else Dotted(labels[..|labels| - 1]) + [DOT] + Escaped(labels[|labels| - 1])
  }

  lemma DottedSnoc(labels: seq<Label>, lab: Label)
    ensures Dotted(labels + [lab]) ==
            (if labels == [] then [] else Dotted(labels) + [DOT]) + Escaped(lab)
  {
    assert (labels + [lab])[..|labels|] == labels;
  }

  lemma {:induction false} EscapedIsLonger(lab: Label)
    ensures |Escaped(lab)| >= |lab|
  {
    if lab == [] {
    } else {
      EscapedIsLonger(lab[..|lab| - 1]);
    }
  }

  lemma {:induction false} DottedGrows(labels: seq<Label>, more: seq<Label>)
    ensures |Dotted(labels)| <= |Dotted(labels + more)|
    decreases |more|
  {
    if more == [] {
      assert labels + more == labels;
    } else {
      DottedSnoc(labels, more[0]);
      DottedGrows(labels + [more[0]], more[1..]);
      assert labels + [more[0]] + more[1..] == labels + more;
    }
  }

  // ----- The loop -----

  ghost function Prefixed(done: seq<Label>, name: Option<seq<Label>>): Option<seq<Label>> {
    match name case None => None case Some(rest) => Some(done + rest)
  }

  method PutOctet(dest: array<Octet>, at: nat, c: Octet) returns (pos: nat)
    requires at + |EscapedOctet(c)| <= dest.Length
    modifies dest
    ensures pos == at + |EscapedOctet(c)|
    ensures dest[..pos] == old(dest[..at]) + EscapedOctet(c)
  {
    pos := at;
    if c == DOT || c == BACKSLASH {
      dest[pos] := BACKSLASH;
      pos := pos + 1;
    }
    dest[pos] := c;
    pos := pos + 1;
  }

  /** Copies the label mem[start..start + len] to dest[at..], a backslash before dots and backslashes. */
  method CopyLabel(mem: seq<Octet>, M: nat, start: nat, len: nat, dest: array<Octet>, at: nat)
    returns (ok: bool, cp: nat, pos: nat)
    requires |mem| >= M + 2 && start <= M + 1 && 1 <= len
    requires at + len < dest.Length
    modifies dest
    ensures ok ==> cp == start + len <= M && at < pos < dest.Length
    ensures ok ==> dest[..pos] == old(dest[..at]) + Escaped(mem[start..start + len])
    ensures !ok ==> start + len > M || at + |Escaped(mem[start..start + len])| >= dest.Length
  {
    hide Escaped;
    cp, pos := start, at;
    EscapedEmpty();
    assert mem[start..start] == [];
    var w := len - 1;
    while w >= 0
      invariant -1 <= w < len && cp == start + (len - 1 - w)
      invariant cp > start ==> cp <= M
      invariant at + (cp - start) <= pos && pos + w + 1 < dest.Length
      invariant dest[..pos] == old(dest[..at]) + Escaped(mem[start..cp])
    {
      EscapedSnoc(mem, start, cp);
      if start + len <= M {
        EscapedSplit(mem, start, cp + 1, start + len);
      }
      if mem[cp] == DOT || mem[cp] == BACKSLASH {
        if pos + w + 2 >= dest.Length { return false, cp, pos; }
      }
      pos := PutOctet(dest, pos, mem[cp]);
      if cp >= M { return false, cp, pos; }
      w := w - 1;
      cp := cp + 1;
    }
    ok := true;
  }

  lemma EscapedEmpty()
    ensures Escaped([]) == []
  {
  }

  lemma EscapedPush(a: Label, c: Octet)
    ensures Escaped(a + [c]) == Escaped(a) + EscapedOctet(c)
  {
    assert (a + [c])[..|a|] == a;
  }

  lemma {:induction false} EscapedConcat(a: Label, b: Label)
    ensures Escaped(a + b) == Escaped(a) + Escaped(b)
    decreases |b|
  {
    hide Escaped;
    hide EscapedOctet;
    if b == [] {
      EscapedEmpty();
      assert a + b == a;
    } else {
      var b', c := b[..|b| - 1], b[|b| - 1];
      assert b == b' + [c];
      assert a + b == (a + b') + [c];
      EscapedConcat(a, b');
      EscapedPush(a + b', c);
      EscapedPush(b', c);
      assert Escaped(a) + (Escaped(b') + EscapedOctet(c)) == (Escaped(a) + Escaped(b')) + EscapedOctet(c);
    }
  }

  lemma EscapedSnoc(mem: seq<Octet>, i: nat, j: nat)
    requires i <= j < |mem|
    ensures Escaped(mem[i..j + 1]) == Escaped(mem[i..j]) + EscapedOctet(mem[j])
  {
    assert mem[i..j + 1] == mem[i..j] + [mem[j]];
    EscapedPush(mem[i..j], mem[j]);
  }

  lemma EscapedSplit(mem: seq<Octet>, i: nat, j: nat, k: nat)
    requires i <= j <= k <= |mem|
    ensures |Escaped(mem[i..k])| >= |Escaped(mem[i..j])| + (k - j)
  {
    assert mem[i..k] == mem[i..j] + mem[j..k];
    EscapedConcat(mem[i..j], mem[j..k]);
    EscapedIsLonger(mem[j..k]);
  }

  ghost function Lead(done: seq<Label>): seq<Octet> {
    if done == [] then [] else Dotted(done) + [DOT]
  }

  lemma PrefixedTwice(done: seq<Label>, lab: Label, name: Option<seq<Label>>)
    ensures Prefixed(done, Prefixed([lab], name)) == Prefixed(done + [lab], name)
  {
    if name.Some? { assert done + ([lab] + name.value) == done + [lab] + name.value; }
  }

  /** The cases of `Name` and `WireLength` at a position of the message, one step at a time. */
  lemma NameStep(mem: seq<Octet>, M: nat, p: nat, copied: nat)
    requires |mem| >= M + 2 && p <= M
    ensures mem[p] == 0 ==> Name(mem, M, p, copied) == Some([]) && WireLength(mem, M, p) == 0
    ensures 0 < mem[p] < 64 ==>
              var w := mem[p] as int;
              && WireLength(mem, M, p) == 1 + w + WireLength(mem, M, p + 1 + w)
              && Name(mem, M, p, copied) == if p + w >= M then None
                 else Prefixed([mem[p + 1..p + 1 + w]], Name(mem, M, p + 1 + w, copied + 1 + w))
    ensures mem[p] >= 192 ==>
              && WireLength(mem, M, p) == 2
              && Name(mem, M, p, copied) == if Target(mem, p) >= M || copied + 2 >= M then None
                 else Name(mem, M, Target(mem, p), copied + 2)
    ensures 64 <= mem[p] < 192 ==> Name(mem, M, p, copied) == None
  {
  }

  /** A label that does not fit leaves no way to complete the name. */
  lemma TooLong(mem: seq<Octet>, M: nat, p: nat, copied: nat, done: seq<Label>, limit: nat)
    requires |mem| >= M + 2 && p <= M && 0 < mem[p] < 64
    requires var w := mem[p] as int;
             p + w >= M || |Lead(done)| + w >= limit || |Lead(done)| + |Escaped(mem[p + 1..p + 1 + w])| >= limit
    ensures var name := Prefixed(done, Name(mem, M, p, copied));
            name.Some? ==> |Dotted(name.value)| >= limit
  {
    hide Name;
    hide Dotted;
    hide Escaped;
    var w := mem[p] as int;
    NameStep(mem, M, p, copied);
    if p + w < M {
      var lab := mem[p + 1..p + 1 + w];
      var rest := Name(mem, M, p + 1 + w, copied + 1 + w);
      EscapedIsLonger(lab);
      DottedSnoc(done, lab);
      PrefixedTwice(done, lab, rest);
      if rest.Some? { DottedGrows(done + [lab], rest.value); }
    }
  }

  /** Nothing expanded yet; nothing left to expand. */
  lemma PrefixedEnds(done: seq<Label>, name: Option<seq<Label>>)
    ensures Prefixed([], name) == name
    ensures Prefixed(done, Some([])) == Some(done)
    ensures Dotted([]) == []
  {
    if name.Some? { assert [] + name.value == name.value; }
    assert done + [] == done;
  }

  /** The label at `p`, behind a dot unless it is the first. */
  method ExpandLabel(mem: seq<Octet>, M: nat, p: nat, dest: array<Octet>, at: nat,
                     ghost done: seq<Label>, ghost copied: nat)
    returns (ok: bool, cp: nat, pos: nat)
    requires |mem| >= M + 2 && p <= M && 0 < mem[p] < 64
    requires at < dest.Length && dest[..at] == Dotted(done) && (at == 0 <==> done == [])
    modifies dest
    ensures ok ==> cp == p + 1 + mem[p] as int <= M && at < pos < dest.Length
    ensures ok ==> dest[..pos] == Dotted(done + [mem[p + 1..p + 1 + mem[p] as int]])
    ensures !ok ==> var name := Prefixed(done, Name(mem, M, p, copied));
                    name.Some? ==> |Dotted(name.value)| >= dest.Length
  {
    hide Name;
    hide Dotted;
    hide Escaped;
    var w := mem[p] as int;
    cp, pos := p + 1, at;
    if pos != 0 {
      // always room for the dot: a label leaves at least one octet free
      dest[pos] := DOT;
      pos := pos + 1;
    }
    assert dest[..pos] == Lead(done);
    if pos + w >= dest.Length {
      TooLong(mem, M, p, copied, done, dest.Length);
      return false, cp, pos;
    }
    ok, cp, pos := CopyLabel(mem, M, cp, w, dest, pos);
    if ok {
      DottedSnoc(done, mem[p + 1..p + 1 + w]);
    } else {
      TooLong(mem, M, p, copied, done, dest.Length);
    }
  }

  /**
   * The expansion loop. A negative result is the source's -1; otherwise the result is
   * the number of octets gone through at `comp`, without the terminating zero octet,
   * and `dest` holds the text and its NUL.
   */
  method Expand(mem: seq<Octet>, M: nat, comp: nat, dest: array<Octet>) returns (r: int)
    requires |mem| >= M + 2 && comp <= M && dest.Length >= 1
    modifies dest
    ensures r >= 0 <==> var name := Name(mem, M, comp, 0); name.Some? && |Dotted(name.value)| < dest.Length
    ensures r >= -1
    ensures r >= 0 ==> var text := Dotted(Name(mem, M, comp, 0).value);
                       r == WireLength(mem, M, comp) && dest[..|text| + 1] == text + [0]
  {
    hide Name;
    hide Dotted;
    hide WireLength;
    var cp: nat, pos: nat := comp, 0;
    var len := -1;
    var copied: nat := 0;
    ghost var done: seq<Label> := [];
    ghost var name := Name(mem, M, comp, 0);
    PrefixedEnds([], name);
    while mem[cp] != 0
      invariant cp <= M && pos < dest.Length
      invariant pos == 0 <==> done == []
      invariant dest[..pos] == Dotted(done)
      invariant name == Prefixed(done, Name(mem, M, cp, copied))
      invariant len < 0 ==> cp >= comp && WireLength(mem, M, comp) == cp - comp + WireLength(mem, M, cp)
      invariant len >= 0 ==> WireLength(mem, M, comp) == len
      decreases (if copied < M then M - copied else 0) + dest.Length - pos
    {
      NameStep(mem, M, cp, copied);
      var w := mem[cp] as int;
      if w < 64 {
        ghost var lab := mem[cp + 1..if cp + w < M then cp + 1 + w else cp + 1];
        PrefixedTwice(done, lab, Name(mem, M, cp + 1 + w, copied + 1 + w));
        ghost var before := pos;
        var ok;
        ok, cp, pos := ExpandLabel(mem, M, cp, dest, pos, done, copied);
        if !ok { return -1; }
        copied := copied + 1 + w;
        done := done + [lab];
      } else if w >= 192 {
        if len < 0 {
          len := cp + 1 - comp + 1;
        }
        cp := Target(mem, cp);
        if cp >= M { return -1; }
        copied := copied + 2;
        if copied >= M { return -1; }
      } else {
        return -1;
      }
    }
    NameStep(mem, M, cp, copied);
    PrefixedEnds(done, name);
    dest[pos] := 0;
    if len < 0 {
      len := cp - comp;
    }
    r := len;
  }

  // ----- What a name is, without the budget -----

  /** The name at `p` is these labels, reached over `hops` pointers (section 4.1.4 of RFC 1035). */
  ghost predicate Denotes(mem: seq<Octet>, M: nat, p: nat, labels: seq<Label>, hops: nat)
    requires |mem| >= M + 2
    decreases |labels| + hops
  {
    p <= M &&
    if mem[p] == 0 then labels == [] && hops == 0
    else if mem[p] < 64 then
      var w := mem[p] as int;
      p + w < M && labels != [] && labels[0] == mem[p + 1..p + 1 + w] &&
      Denotes(mem, M, p + 1 + w, labels[1..], hops)
    else mem[p] >= 192 && hops > 0 && Target(mem, p) < M && Denotes(mem, M, Target(mem, p), labels, hops - 1)
  }

  /** Octets gone through from `p` up to and including the last pointer of the name there. */
  ghost function CostToLastPointer(mem: seq<Octet>, M: nat, p: nat, labels: seq<Label>, hops: nat): (cost: nat)
    requires |mem| >= M + 2 && Denotes(mem, M, p, labels, hops)
    ensures hops > 0 ==> cost >= 2
    decreases |labels| + hops
  {
    if hops == 0 then 0
    else if mem[p] < 64 then
      1 + mem[p] as int + CostToLastPointer(mem, M, p + 1 + mem[p] as int, labels[1..], hops)
    else 2 + CostToLastPointer(mem, M, Target(mem, p), labels, hops - 1)
  }

  /** Sound: what the budgeted walk finds is the name at that position. */
  lemma {:induction false} NameIsDenoted(mem: seq<Octet>, M: nat, p: nat, copied: nat) returns (hops: nat)
    requires |mem| >= M + 2 && Name(mem, M, p, copied).Some?
    ensures Denotes(mem, M, p, Name(mem, M, p, copied).value, hops)
    decreases if copied < M then M - copied else 0, if p <= M then M - p else 0
  {
    hops := 0;
    if mem[p] == 0 {
    } else if mem[p] < 64 {
      var w := mem[p] as int;
      hops := NameIsDenoted(mem, M, p + 1 + w, copied + 1 + w);
      var rest := Name(mem, M, p + 1 + w, copied + 1 + w).value;
      assert ([mem[p + 1..p + 1 + w]] + rest)[1..] == rest;
    } else {
      var h := NameIsDenoted(mem, M, Target(mem, p), copied + 2);
      hops := h + 1;
    }
  }

  /**
   * Complete: a name is found exactly if it has no pointer, or the octets gone through up to
   * its last pointer are fewer than the message has.
   */
  lemma {:induction false} DenotedIsName(mem: seq<Octet>, M: nat, p: nat, labels: seq<Label>, hops: nat, copied: nat)
    requires |mem| >= M + 2 && Denotes(mem, M, p, labels, hops)
    ensures Name(mem, M, p, copied) ==
            if hops == 0 || copied + CostToLastPointer(mem, M, p, labels, hops) < M then Some(labels) else None
    decreases |labels| + hops
  {
    if mem[p] == 0 {
    } else if mem[p] < 64 {
      var w := mem[p] as int;
      DenotedIsName(mem, M, p + 1 + w, labels[1..], hops, copied + 1 + w);
      assert labels == [labels[0]] + labels[1..];
    } else {
      DenotedIsName(mem, M, Target(mem, p), labels, hops - 1, copied + 2);
    }
  }

  lemma {:induction false} DenotesIsUnique(mem: seq<Octet>, M: nat, p: nat,
                                           a: seq<Label>, h: nat, b: seq<Label>, k: nat)
    requires |mem| >= M + 2 && Denotes(mem, M, p, a, h) && Denotes(mem, M, p, b, k)
    ensures a == b && h == k
    decreases |a| + h
  {
    if mem[p] == 0 {
    } else if mem[p] < 64 {
      DenotesIsUnique(mem, M, p + 1 + mem[p] as int, a[1..], h, b[1..], k);
      assert a == [a[0]] + a[1..] && b == [b[0]] + b[1..];
    } else {
      DenotesIsUnique(mem, M, Target(mem, p), a, h - 1, b, k - 1);
    }
  }

  /** Walking from `p` over `n` labels and pointers leads to `q`. */
  ghost predicate Leads(mem: seq<Octet>, M: nat, p: nat, q: nat, n: nat)
    requires |mem| >= M + 2
    decreases n
  {
    if n == 0 then p == q
    else
      && p <= M
      && (0 < mem[p] < 64 || (mem[p] >= 192 && Target(mem, p) <= M))
      && Leads(mem, M, if mem[p] < 64 then p + 1 + mem[p] as int else Target(mem, p), q, n - 1)
  }

  lemma {:induction false} DenotesAlong(mem: seq<Octet>, M: nat, p: nat, q: nat, n: nat, labels: seq<Label>, hops: nat)
    returns (labels': seq<Label>, hops': nat)
    requires |mem| >= M + 2 && Leads(mem, M, p, q, n) && Denotes(mem, M, p, labels, hops)
    ensures Denotes(mem, M, q, labels', hops') && |labels'| + hops' + n == |labels| + hops
    decreases n
  {
    if n == 0 {
      labels', hops' := labels, hops;
    } else if mem[p] < 64 {
      labels', hops' := DenotesAlong(mem, M, p + 1 + mem[p] as int, q, n - 1, labels[1..], hops);
    } else {
      labels', hops' := DenotesAlong(mem, M, Target(mem, p), q, n - 1, labels, hops - 1);
    }
  }

  /** A compression loop has no name, so the expansion, which always ends, refuses it. */
  lemma CyclesAreRefused(mem: seq<Octet>, M: nat, p: nat, n: nat)
    requires |mem| >= M + 2 && n > 0 && Leads(mem, M, p, p, n)
    ensures Name(mem, M, p, 0) == None
  {
    if Name(mem, M, p, 0).Some? {
      var labels := Name(mem, M, p, 0).value;
      var hops := NameIsDenoted(mem, M, p, 0);
      var labels', hops' := DenotesAlong(mem, M, p, p, n, labels, hops);
      DenotesIsUnique(mem, M, p, labels, hops, labels', hops');
    }
  }
}
