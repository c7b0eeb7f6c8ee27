/** Where the wrapper breaks lines and what the printed text looks like, said of the characters alone. */
module WordWrapLayout {
  import opened WordWrap

  predicate SpaceOrTab(c: char) {
    c as int == 32 || c as int == 9
  }

  predicate Newline(c: char) {
    c as int == 10
  }

  // ----- The breaks -----

  /** The first newline at or after `s` is at `p`, and the run of them ends at `c`. */
  ghost predicate NewlineRun(d: string, s: nat, p: int, c: int) {
    && s <= p < c <= |d|
    && (forall k :: s <= k < p ==> !Newline(d[k]))
    && (forall k :: p <= k < c ==> Newline(d[k]))
    && (c < |d| ==> !Newline(d[c]))
  }

  /** After the newlines, if the first comes within `allowed` characters. */
  ghost predicate CutAfterNewlines(d: string, s: nat, allowed: nat, c: int) {
    exists p :: NewlineRun(d, s, p, c) && p <= s + allowed
  }

  /** Else, if the rest is longer than that, after the last blank among so many characters, or after them all. */
  ghost predicate CutAtWidth(d: string, s: nat, allowed: nat, c: int) {
    && s + allowed < |d| && (forall k :: s <= k <= s + allowed ==> !Newline(d[k]))
    && s < c <= s + allowed
    && (forall k :: c <= k < s + allowed ==> !SpaceOrTab(d[k]))
    && (SpaceOrTab(d[c - 1]) ||
        (c == s + allowed && forall k :: s <= k < s + allowed ==> !SpaceOrTab(d[k])))
  }

  /** No cut if the rest fits and holds no newline. */
  ghost predicate Fits(d: string, s: nat, allowed: nat) {
    |d| - s <= allowed && forall k :: s <= k < |d| ==> !Newline(d[k])
  }

  ghost predicate Cut(d: string, s: nat, allowed: nat, c: int) {
    || (c == -1 && Fits(d, s, allowed))
    || CutAfterNewlines(d, s, allowed, c)
    || CutAtWidth(d, s, allowed, c)
  }

  lemma CutIsFound(d: string, s: nat, allowed: nat)
    requires s <= |d| && allowed >= 1
    ensures Cut(d, s, allowed, NextCut(d, s, allowed))
  {
    var p := NewlineFrom(d, s);
    if p < |d| && p - s <= allowed {
      hide CutAtWidth;
      hide Fits;
      assert NewlineRun(d, s, p, NewlinesEnd(d, p));
    } else if |d| - s <= allowed {
      assert Fits(d, s, allowed);
    } else {
      WidthIsFound(d, s, allowed);
    }
  }

  lemma WidthIsFound(d: string, s: nat, allowed: nat)
    requires s + allowed < |d| && allowed >= 1 && NewlineFrom(d, s) > s + allowed
    ensures CutAtWidth(d, s, allowed, NextCut(d, s, allowed))
  {
    hide NewlineFrom;
    hide LastBreak;
  }

  lemma RunIsCut(d: string, s: nat, allowed: nat, p: int, c: int)
    requires allowed >= 1 && NewlineRun(d, s, p, c) && p <= s + allowed
    ensures NextCut(d, s, allowed) == c
  {
    assert Newline(d[p]);
    NewlineCut(d, s, p, allowed);
    if c < |d| {
      NewlinesEndIs(d, p, c);
    } else {
      var e := NewlinesEnd(d, p);
      assert e < |d| ==> Newline(d[e]);
    }
  }

  lemma WidthIsCut(d: string, s: nat, allowed: nat, c: int)
    requires allowed >= 1 && CutAtWidth(d, s, allowed, c)
    ensures NextCut(d, s, allowed) == c
  {
    var q := s + allowed;
    assert forall k :: s <= k <= q ==> d[k] != '\n' by {
      assert forall k :: s <= k <= q ==> !Newline(d[k]);
    }
    SizeCut(d, s, q, allowed);
    var r := LastBreak(d, s, q);
    hide NextCut;
    hide LastBreak;
    assert r > s ==> SpaceOrTab(d[r - 1]);
    assert r < c ==> !IsBlank(d[c - 1]);
  }

  lemma FitIsUncut(d: string, s: nat, allowed: nat)
    requires s <= |d| && allowed >= 1 && Fits(d, s, allowed)
    ensures NextCut(d, s, allowed) == -1
  {
    assert NoNewline(d, s, |d|) by {
      assert forall k :: s <= k < |d| ==> !Newline(d[k]);
    }
    NoCut(d, s, allowed);
  }

  /** A line is cut exactly there. */
  lemma CutExactly(d: string, s: nat, allowed: nat, c: int)
    requires s <= |d| && allowed >= 1
    ensures NextCut(d, s, allowed) == c <==> Cut(d, s, allowed, c)
  {
    CutIsFound(d, s, allowed);
    hide NextCut;
    hide CutAtWidth;
    hide Fits;
    hide NewlineRun;
    if c == -1 && Fits(d, s, allowed) {
      FitIsUncut(d, s, allowed);
    } else if CutAfterNewlines(d, s, allowed, c) {
      var p :| NewlineRun(d, s, p, c) && p <= s + allowed;
      RunIsCut(d, s, allowed, p, c);
    } else if CutAtWidth(d, s, allowed, c) {
      WidthIsCut(d, s, allowed, c);
    }
  }

  // ----- The printed text -----

  /** A newline is put behind a piece that does not end in one. */
  function Breaks(piece: string): nat {
    if piece != [] && Newline(piece[|piece| - 1]) then 0 else 1
  }

  /** Where the k-th piece is in the output. */
  function OffsetOf(ps: seq<string>, k: nat, indent: nat): nat
    requires k <= |ps|
  {
    if k == 0 then 0 else OffsetOf(ps[1..], k - 1, indent) + |ps[0]| + Breaks(ps[0]) + indent
  }

  /** The piece stands there; a newline if it has none and exactly the indent follow, then the next piece. */
  ghost predicate LaidOut(t: string, ps: seq<string>, k: nat, indent: nat)
    requires k < |ps|
  {
    var at, end := OffsetOf(ps, k, indent), OffsetOf(ps, k, indent) + |ps[k]|;
    && end <= |t| && t[at..end] == ps[k]
    && if k + 1 == |ps| then end == |t|
       else
         && end + Breaks(ps[k]) + indent <= |t|
         && (Breaks(ps[k]) == 1 ==> Newline(t[end]))
         && forall j :: end + Breaks(ps[k]) <= j < end + Breaks(ps[k]) + indent ==> t[j] as int == 32
  }

  lemma {:induction false} JoinedIsLaidOut(ps: seq<string>, k: nat, indent: nat)
    requires k < |ps|
    ensures LaidOut(Join(ps, indent), ps, k, indent)
    decreases k
  {
    var t := Join(ps, indent);
    if |ps| == 1 {
    } else {
      var rest := Join(ps[1..], indent);
      var n := |ps[0]| + Breaks(ps[0]) + indent;
      assert t == ps[0] + Break(ps[0], indent) + rest;
      assert |Break(ps[0], indent)| == Breaks(ps[0]) + indent;
      if k == 0 {
        var b := Break(ps[0], indent);
        assert forall j :: 0 <= j < |b| ==> t[|ps[0]| + j] == b[j];
      } else {
        JoinedIsLaidOut(ps[1..], k - 1, indent);
        ShiftedLayout(ps[0] + Break(ps[0], indent), rest, ps, k, indent);
      }
    }
  }

  lemma ShiftedLayout(front: string, rest: string, ps: seq<string>, k: nat, indent: nat)
    requires 0 < k < |ps| && |front| == |ps[0]| + Breaks(ps[0]) + indent
    requires LaidOut(rest, ps[1..], k - 1, indent)
    ensures LaidOut(front + rest, ps, k, indent)
  {
    var t, n := front + rest, |front|;
    var at := OffsetOf(ps[1..], k - 1, indent);
    assert OffsetOf(ps, k, indent) == n + at && ps[1..][k - 1] == ps[k];
    hide OffsetOf;
    hide Newline;
    assert t[n + at..n + at + |ps[k]|] == rest[at..at + |ps[k]|];
    assert forall j :: n <= j < |t| ==> t[j] == rest[j - n];
  }

  // ----- Tabs -----

  /** Characters since the last newline, `size` before the text. */
  function Column(t: string, size: nat): nat {
    if t == [] then size
    else if Newline(t[|t| - 1]) then 0
    else Column(t[..|t| - 1], size) + 1
  }

  lemma ColumnSnoc(t: string, c: char, size: nat)
    ensures Column(t + [c], size) == if Newline(c) then 0 else Column(t, size) + 1
  {
    assert (t + [c])[..|t|] == t;
  }

  lemma {:induction false} ColumnConcat(a: string, b: string, size: nat)
    ensures Column(a + b, size) == Column(b, Column(a, size))
    decreases |b|
  {
    if b == [] {
      assert a + b == a;
    } else {
      ColumnConcat(a, b[..|b| - 1], size);
      assert (a + b)[..|a + b| - 1] == a + b[..|b| - 1];
    }
  }

  lemma {:induction false} ColumnOfSpaces(n: nat, size: nat)
    ensures Column(Spaces(n), size) == size + n
  {
    if n == 0 {
    } else {
      assert Spaces(n)[..n - 1] == Spaces(n - 1);
      ColumnOfSpaces(n - 1, size);
    }
  }

  /** What one more character adds: itself, or for a tab one to eight spaces up to a multiple of eight columns. */
  ghost predicate Adds(before: string, c: char, more: string, size: nat) {
    if c as int == 9 then
      && 1 <= |more| <= 8 && (forall k :: 0 <= k < |more| ==> more[k] as int == 32)
      && (Column(before, size) + |more|) % 8 == 0
    else more == [c]
  }

  lemma ExpandedNothing(size: nat)
    ensures Expanded([], size) == [] && Column([], size) == size
  {
  }

  /** What the first character becomes, and the column behind it. */
  lemma ExpandedCons(c: char, s: string, size: nat) returns (own: string)
    ensures Expanded([c] + s, size) == own + Expanded(s, Column(own, size))
    ensures Adds([], c, own, size)
  {
    hide Expanded;
    hide Column;
    var d := [c] + s;
    assert d[0..] == d && d[1..] == s;
    ExpandedStep(d, 0, size);
    ExpandedNothing(size);
    if c == '\t' {
      own := Spaces(8 - size % 8);
      ColumnOfSpaces(8 - size % 8, size);
      assert size + (8 - size % 8) == 8 * (size / 8 + 1);
      assert ' ' as int == 32;
    } else {
      own := [c];
      ColumnSnoc([], c, size);
      assert [] + [c] == [c];
    }
  }

  lemma {:induction false} ExpandedAdds(s: string, c: char, size: nat) returns (more: string)
    ensures Expanded(s + [c], size) == Expanded(s, size) + more
    ensures Adds(Expanded(s, size), c, more, size)
    decreases |s|
  {
    hide Expanded;
    hide Column;
    ExpandedNothing(size);
    if s == [] {
      more := ExpandedCons(c, [], size);
      ExpandedNothing(Column(more, size));
      assert s + [c] == [c] && [c] + [] == [c] && more + [] == more && [] + more == more;
    } else {
      var own := ExpandedCons(s[0], s[1..], size);
      var own' := ExpandedCons(s[0], s[1..] + [c], size);
      SameAddition([], s[0], own, own', size);
      var next := Column(own, size);
      more := ExpandedAdds(s[1..], c, next);
      assert [s[0]] + s[1..] == s && [s[0]] + (s[1..] + [c]) == s + [c];
      assert own + (Expanded(s[1..], next) + more) == own + Expanded(s[1..], next) + more;
      ColumnConcat(own, Expanded(s[1..], next), size);
    }
  }

  lemma SameAddition(before: string, c: char, a: string, b: string, size: nat)
    requires Adds(before, c, a, size) && Adds(before, c, b, size)
    ensures a == b
  {
    hide Column;
    if c as int == 9 {
      assert |a| == |b|;
      forall k | 0 <= k < |a| ensures a[k] == b[k] {
        assert a[k] as int == b[k] as int;
      }
    }
  }

  // ----- The default value -----

  /** The default is shown behind the text, in quotes if empty, unless there is none or it is a flag's "false". */
  lemma DefaultIsShown(o: HelpOption)
    ensures WithDefault(o) == o.desc <==> !o.hasDefault || (o.isBoolean && o.defaultValue == "false")
    ensures WithDefault(o) != o.desc ==>
              WithDefault(o) == o.desc + " (default: " + (if o.defaultValue == "" then "\"\"" else o.defaultValue) + ")"
  {
    var shown := if o.defaultValue == "" then "\"\"" else o.defaultValue;
    assert " (default: " + "\"\"" + ")" == " (default: \"\")";
    assert o.desc + (" (default: " + shown + ")") == o.desc + " (default: " + shown + ")";
    assert |o.desc + (" (default: " + shown + ")")| > |o.desc|;
  }
}
