/**
 * The word wrapper of the option parser's help text: a cursor that rewinds to
 * the last space, against a greedy line-breaking specification.
 */
module WordWrap {
  import Text

  predicate IsBlank(c: char) {
    c == ' ' || c == '\t'
  }

  function Spaces(n: nat): (s: string)
    ensures |s| == n
    ensures forall i :: 0 <= i < n ==> s[i] == ' '
  {
    seq(n, _ => ' ')
  }

  // ----- Greedy line breaking -----

  /** First newline at or after `p`, or |d|. */
  function NewlineFrom(d: string, p: nat): (r: nat)
    requires p <= |d|
    ensures p <= r <= |d|
    ensures r < |d| ==> d[r] == '\n'
    ensures forall k :: p <= k < r ==> d[k] != '\n'
    decreases |d| - p
  {
    if p == |d| || d[p] == '\n' then p else NewlineFrom(d, p + 1)
  }

  /** End of the run of newlines that starts at `p`. */
  function NewlinesEnd(d: string, p: nat): (r: nat)
    requires p <= |d|
    ensures p <= r <= |d|
    ensures r < |d| ==> d[r] != '\n'
    ensures forall k :: p <= k < r ==> d[k] == '\n'
    decreases |d| - p
  {
    if p == |d| || d[p] != '\n' then p else NewlinesEnd(d, p + 1)
  }

  /** Last position in (s, q] that follows a blank, or s. */
  function LastBreak(d: string, s: nat, q: nat): (r: nat)
    requires s <= q <= |d|
    ensures s <= r <= q
    ensures r > s ==> IsBlank(d[r - 1])
    ensures forall k :: r <= k < q ==> !IsBlank(d[k])
    decreases q
  {
    if q == s || IsBlank(d[q - 1]) then q else LastBreak(d, s, q - 1)
  }

  /**
   * Where the line that starts at `s` is cut, or -1 if the rest fits: after the
   * newlines if one comes within `allowed` characters, else after the last blank
   * among them, else hard after `allowed` characters.
   */
  function NextCut(d: string, s: nat, allowed: nat): (c: int)
    requires s <= |d| && allowed >= 1
    ensures c == -1 || s < c <= |d|
  {
    var p := NewlineFrom(d, s);
    if p < |d| && p - s <= allowed then NewlinesEnd(d, p)
    else if |d| - s <= allowed then -1
    else
      var r := LastBreak(d, s, s + allowed);
      if r != s then r else s + allowed
  }

  predicate NoNewline(d: string, p: nat, q: nat)
    requires q <= |d|
  {
    forall k :: p <= k < q ==> d[k] != '\n'
  }

  predicate AllBlank(d: string, p: nat, q: nat)
    requires q <= |d|
  {
    forall k :: p <= k < q ==> IsBlank(d[k])
  }

  /** The first character of a line after a cut is not looked at. */
  function FirstTested(s: nat): nat {
    if s == 0 then 0 else s + 1
  }

  /** The pieces of `d` (text and sentinel) between the cuts. */
  function Pieces(d: string, s: nat, allowed: nat): (ps: seq<string>)
    requires s <= |d| && d != [] && allowed >= 1
    ensures ps != []
    decreases |d| - s
  {
    var c := NextCut(d, s, allowed);
    if c != -1 then [d[s..c]] + Pieces(d, c, allowed)
    else if AllBlank(d, FirstTested(s), |d|) then [[]]
    else [d[s..|d| - 1]]
  }

  /** What is put between a piece and the next. */
  function Break(piece: string, indent: nat): string {
    (if piece == [] || piece[|piece| - 1] != '\n' then "\n" else "") + Spaces(indent)
  }

  function Join(ps: seq<string>, indent: nat): string
    requires ps != []
  {
    if |ps| == 1 then ps[0] else ps[0] + Break(ps[0], indent) + Join(ps[1..], indent)
  }

  function Concat(ps: seq<string>): string {
    if ps == [] then [] else ps[0] + Concat(ps[1..])
  }

  // ----- The loop -----

  lemma NewlineCut(d: string, s: nat, p: nat, allowed: nat)
    requires s <= p < |d| && allowed >= 1 && p - s <= allowed
    requires d[p] == '\n' && forall k :: s <= k < p ==> d[k] != '\n'
    ensures NextCut(d, s, allowed) == NewlinesEnd(d, p)
  {
  }

  lemma NewlinesEndIs(d: string, p: nat, r: nat)
    requires p <= r < |d| && d[r] != '\n' && forall k :: p <= k < r ==> d[k] == '\n'
    ensures NewlinesEnd(d, p) == r
  {
  }

  lemma SizeCut(d: string, s: nat, q: nat, allowed: nat)
    requires s + allowed == q < |d| && allowed >= 1
    requires forall k :: s <= k <= q ==> d[k] != '\n'
    ensures NextCut(d, s, allowed) == var r := LastBreak(d, s, q); if r != s then r else q
  {
  }

  lemma NoCut(d: string, s: nat, allowed: nat)
    requires s <= |d| <= s + allowed && allowed >= 1
    requires NoNewline(d, s, |d|)
    ensures NextCut(d, s, allowed) == -1
  {
  }

  /** A cut emits the line, the break and the indent, and goes on from there. */
  lemma JoinAfterCut(d: string, s: nat, allowed: nat, indent: nat)
    requires s <= |d| && d != [] && allowed >= 1 && NextCut(d, s, allowed) != -1
    ensures var c := NextCut(d, s, allowed);
            Join(Pieces(d, s, allowed), indent) ==
            d[s..c] + (if d[c - 1] != '\n' then "\n" else "") + Spaces(indent) + Join(Pieces(d, c, allowed), indent)
  {
    hide NextCut;
    var c := NextCut(d, s, allowed);
    var rest := Pieces(d, c, allowed);
    assert ([d[s..c]] + rest)[1..] == rest;
    assert d[s..c][c - s - 1] == d[c - 1];
  }

  /**
   * One turn's tests at `current`: run over newlines, or rewind to the last space
   * when the line is full. `at` is where the cursor then stands.
   */
  method Advance(d: string, startLine: nat, current: nat, previous: nat, lastSpace: nat, allowed: nat)
    returns (at: nat, before: nat, appendNewLine: bool)
    requires startLine <= current < |d| && current - startLine <= allowed && allowed >= 1
    requires d[|d| - 1] != '\n' && previous <= current
    requires current > startLine ==> previous == current - 1
    requires NoNewline(d, startLine, current)
    requires lastSpace == LastBreak(d, startLine, current)
    ensures at < |d| && before < |d|
    ensures appendNewLine ==> at == NextCut(d, startLine, allowed) && d[at] != '\n'
    ensures appendNewLine ==> ((d[before] == '\n') <==> (d[at - 1] == '\n'))
    ensures !appendNewLine ==> at == current && d[current] != '\n' && current - startLine < allowed
  {
    hide NextCut;
    hide NewlinesEnd;
    at, before, appendNewLine := current, previous, false;
    while d[at] == '\n'
      invariant current <= at < |d| && appendNewLine == (at > current)
      invariant before == if appendNewLine then at - 1 else previous
      invariant forall k :: current <= k < at ==> d[k] == '\n'
      decreases |d| - at
    {
      before := at;
      at := at + 1;
      appendNewLine := true;
    }
    if appendNewLine {
      NewlineCut(d, startLine, current, allowed);
      NewlinesEndIs(d, current, at);
    } else if current - startLine >= allowed {
      SizeCut(d, startLine, current, allowed);
      if lastSpace != startLine {
        at := lastSpace;
        before := at;
      }
      appendNewLine := true;
    }
  }

  /** The finished line, a newline unless it ends in one, and the next line's indent. */
  method EmitLine(d: string, startLine: nat, current: nat, previous: nat, start: nat) returns (result: string)
    requires startLine <= current <= |d| && previous < |d|
    ensures result == d[startLine..current] + (if d[previous] != '\n' then "\n" else "") + Spaces(start)
  {
    result := d[startLine..current];
    if d[previous] != '\n' {
      result := result + "\n";
    }
    result := result + Spaces(start);
    if d[previous] != '\n' {
      result := result + d[current..current];
    }
  }

  lemma AllBlankStep(d: string, p: nat, q: nat)
    requires q < |d|
    ensures q <= p ==> AllBlank(d, p, q)
    ensures AllBlank(d, p, q + 1) <==> AllBlank(d, p, q) && (q < p || IsBlank(d[q]))
  {
    if AllBlank(d, p, q + 1) && p <= q { assert IsBlank(d[q]); }
  }

  lemma NoNewlineStep(d: string, p: nat, q: nat, r: nat)
    requires p <= q <= r <= |d|
    ensures NoNewline(d, p, p)
    ensures NoNewline(d, p, r) ==> NoNewline(d, q, r)
    ensures NoNewline(d, p, q) && q < |d| && d[q] != '\n' ==> NoNewline(d, p, q + 1)
  {
  }

  lemma LastBreakStep(d: string, s: nat, q: nat)
    requires s <= q <= |d|
    ensures LastBreak(d, s, s) == s
    ensures q > s ==> LastBreak(d, s, q) == if IsBlank(d[q - 1]) then q else LastBreak(d, s, q - 1)
  {
  }

  /** `d` is the text with its sentinel space. The loop ends for every input. */
  method Wrap(d: string, start: nat, allowed: nat) returns (result: string)
    requires d != [] && d[|d| - 1] == ' ' && allowed >= 1
    ensures result == Join(Pieces(d, 0, allowed), start)
  {
    hide Pieces;
    hide Join;
    hide NextCut;
    hide LastBreak;
    hide AllBlank;
    LastBreakStep(d, 0, 0);
    AllBlankStep(d, 0, 0);
    hide NoNewline;
    NoNewlineStep(d, 0, 0, 0);
    var current, previous, startLine, lastSpace, size := 0, 0, 0, 0, 0;
    var onlyWhiteSpace := true;
    result := [];
    while current != |d|
      invariant startLine <= current <= |d| && size == current - startLine <= allowed
      invariant previous == (if current == 0 then 0 else current - 1)
      invariant current == startLine ==> current == 0
      invariant NoNewline(d, startLine, current)
      invariant lastSpace == LastBreak(d, startLine, if current > startLine then current - 1 else current)
      invariant onlyWhiteSpace <==> AllBlank(d, FirstTested(startLine), current)
      invariant Join(Pieces(d, 0, allowed), start) == result + Join(Pieces(d, startLine, allowed), start)
      decreases |d| - startLine, |d| - current
    {
      LastBreakStep(d, startLine, current);
      AllBlankStep(d, FirstTested(startLine), current);
      if IsBlank(d[previous]) {
        lastSpace := current;
      }
      if !IsBlank(d[current]) {
        onlyWhiteSpace := false;
      }
      var appendNewLine;
      current, previous, appendNewLine := Advance(d, startLine, current, previous, lastSpace, allowed);
      if appendNewLine {
        JoinAfterCut(d, startLine, allowed, start);
        var line := EmitLine(d, startLine, current, previous, start);
        Text.Assoc(result, line, Join(Pieces(d, current, allowed), start));
        result := result + line;
        startLine := current;
        lastSpace := current;
        onlyWhiteSpace := true;
        size := 0;
      }
      LastBreakStep(d, startLine, current);
      AllBlankStep(d, FirstTested(startLine), current);
      NoNewlineStep(d, startLine, current, current);
      previous := current;
      current := current + 1;
      size := size + 1;
    }
    NoCut(d, startLine, allowed);
    LastPiece(d, startLine, allowed, start);
    if !onlyWhiteSpace {
      result := result + d[startLine..previous];
    }
  }

  lemma LastPiece(d: string, s: nat, allowed: nat, indent: nat)
    requires s <= |d| && d != [] && allowed >= 1 && NextCut(d, s, allowed) == -1
    ensures Join(Pieces(d, s, allowed), indent) == if AllBlank(d, FirstTested(s), |d|) then [] else d[s..|d| - 1]
  {
    hide NextCut;
  }

  // ----- What the output looks like -----

  /** A line cut off is its text, at most `allowed` characters, then newlines only. */
  lemma LineOfCut(d: string, s: nat, allowed: nat) returns (e: nat)
    requires s <= |d| && allowed >= 1 && NextCut(d, s, allowed) != -1
    ensures s <= e <= NextCut(d, s, allowed) && e - s <= allowed
    ensures NoNewline(d, s, e) && forall k :: e <= k < NextCut(d, s, allowed) ==> d[k] == '\n'
  {
    var p := NewlineFrom(d, s);
    e := if p < |d| && p - s <= allowed then p else NextCut(d, s, allowed);
  }

  ghost predicate Narrow(t: string, first: nat, w: nat) {
    && (forall j {:trigger NoNewline(t, 0, j)} :: 0 <= j <= |t| && NoNewline(t, 0, j) ==> j <= first)
    && (forall i, j {:trigger NoNewline(t, i, j)} :: 0 <= i <= j <= |t| && NoNewline(t, i, j) ==> j - i <= w)
  }

  /** Text, at least one newline, an indent, narrow text: narrow again. */
  lemma NarrowConcat(line: string, breaks: string, indent: nat, rest: string, allowed: nat)
    requires NoNewline(line, 0, |line|) && |line| <= allowed
    requires breaks != [] && forall k :: 0 <= k < |breaks| ==> breaks[k] == '\n'
    requires Narrow(rest, allowed, indent + allowed)
    ensures Narrow(line + breaks + Spaces(indent) + rest, allowed, indent + allowed)
  {
    var t := line + breaks + Spaces(indent) + rest;
    var b, r := |line| + |breaks|, |line| + |breaks| + indent;
    forall i: nat, j: nat | i <= j <= |t|
      ensures NoNewline(t, i, j) ==> j - i <= indent + allowed && (i == 0 ==> j <= allowed)
    {
      if i < b {
        if |line| < j && i < j {
          var k := if i < |line| then |line| else i;
          assert t[k] == breaks[k - |line|] == '\n';
        }
      } else if j > r {
        var q := if i < r then 0 else i - r;
        assert forall k :: 0 <= k < |rest| ==> t[r + k] == rest[k];
        assert NoNewline(t, i, j) ==> NoNewline(rest, q, j - r);
      }
    }
  }

  /** No output line is longer than `allowed` besides the indent; the first has no indent. */
  lemma {:induction false} LinesAreNarrow(d: string, s: nat, allowed: nat, indent: nat)
    requires s <= |d| && d != [] && allowed >= 1
    ensures Narrow(Join(Pieces(d, s, allowed), indent), allowed, indent + allowed)
    decreases |d| - s
  {
    hide Pieces;
    hide Join;
    var c := NextCut(d, s, allowed);
    if c == -1 {
      LastPiece(d, s, allowed, indent);
    } else {
      var e := LineOfCut(d, s, allowed);
      var rest := Join(Pieces(d, c, allowed), indent);
      LinesAreNarrow(d, c, allowed, indent);
      JoinAfterCut(d, s, allowed, indent);
      var breaks := d[e..c] + if d[c - 1] != '\n' then "\n" else "";
      assert d[s..c] + (if d[c - 1] != '\n' then "\n" else "") == d[s..e] + breaks;
      NarrowConcat(d[s..e], breaks, indent, rest, allowed);
    }
  }

  /** Start of the last line. */
  function LastStart(d: string, s: nat, allowed: nat): (r: nat)
    requires s <= |d| && allowed >= 1
    ensures s <= r <= |d|
    decreases |d| - s
  {
    var c := NextCut(d, s, allowed);
    if c == -1 then s else LastStart(d, c, allowed)
  }

  lemma CutBeforeSentinel(d: string, s: nat, allowed: nat)
    requires s < |d| && d[|d| - 1] == ' ' && allowed >= 1
    ensures NextCut(d, s, allowed) < |d|
  {
  }

  lemma {:induction false} PiecesCover(d: string, s: nat, allowed: nat)
    requires s < |d| && d[|d| - 1] == ' ' && allowed >= 1
    ensures LastStart(d, s, allowed) < |d|
    ensures var r := LastStart(d, s, allowed);
            Concat(Pieces(d, s, allowed)) ==
            if AllBlank(d, FirstTested(r), |d|) then d[s..r] else d[s..|d| - 1]
    decreases |d| - s
  {
    hide NextCut;
    hide AllBlank;
    hide Concat;
    var c := NextCut(d, s, allowed);
    if c == -1 {
      ConcatCons(d[s..s], []);
      ConcatCons(d[s..|d| - 1], []);
      assert d[s..s] == [];
    } else {
      CutBeforeSentinel(d, s, allowed);
      PiecesCover(d, c, allowed);
      ConcatCons(d[s..c], Pieces(d, c, allowed));
      var r := LastStart(d, c, allowed);
      assert d[s..c] + d[c..r] == d[s..r];
      assert d[s..c] + d[c..|d| - 1] == d[s..|d| - 1];
    }
  }

  lemma ConcatCons(p: string, ps: seq<string>)
    ensures Concat([p] + ps) == p + Concat(ps) && Concat([p]) == p
  {
    assert ([p] + ps)[1..] == ps;
    assert [p][1..] == [];
  }

  /** Exactly when a letter is lost: it stands alone on the last of several lines. */
  predicate LoneLastLetter(desc: string, allowed: nat)
    requires allowed >= 1
  {
    var r := LastStart(desc + " ", 0, allowed);
    0 < r < |desc| && !IsBlank(desc[r]) && AllBlank(desc, r + 1, |desc|)
  }

  /**
   * Without the inserted breaks and indents the output is a prefix of the text, and
   * after the first character of what is missing only blanks are missing.
   */
  lemma ContentKept(desc: string, allowed: nat)
    requires allowed >= 1
    ensures var kept := Concat(Pieces(desc + " ", 0, allowed));
            && kept <= desc
            && AllBlank(desc, |kept| + 1, |desc|)
            && (LoneLastLetter(desc, allowed) <==> |kept| < |desc| && !IsBlank(desc[|kept|]))
  {
    hide Pieces;
    hide LastStart;
    var d := desc + " ";
    PiecesCover(d, 0, allowed);
    var r, kept := LastStart(d, 0, allowed), Concat(Pieces(d, 0, allowed));
    assert d[..|desc|] == desc;
    assert forall k :: 0 <= k < |desc| ==> d[k] == desc[k];
    if AllBlank(d, FirstTested(r), |d|) {
      assert kept == desc[..r];
      assert AllBlank(desc, FirstTested(r), |desc|);
    } else {
      assert kept == desc;
      var k :| FirstTested(r) <= k < |d| && !IsBlank(d[k]);
      assert !IsBlank(desc[k]);
    }
  }

  lemma LoneLetterIsLost()
    ensures Join(Pieces("ab c ", 0, 3), 2) == "ab \n  "
  {
    var d := "ab c ";
    NewlineNone(d, 0);
    NewlineNone(d, 3);
    assert LastBreak(d, 0, 3) == 3;
    assert NextCut(d, 0, 3) == 3 && NextCut(d, 3, 3) == -1;
    assert AllBlank(d, 4, 5);
    assert Pieces(d, 3, 3) == [[]];
    assert d[0..3] == "ab " && d[2] == ' ';
    JoinAfterCut(d, 0, 3, 2);
    assert Spaces(2) == "  ";
  }

  lemma NewlineNone(d: string, p: nat)
    requires p <= |d| && NoNewline(d, p, |d|)
    ensures NewlineFrom(d, p) == |d|
  {
  }

  // ----- The whole description -----

  datatype HelpOption = HelpOption(desc: string, hasDefault: bool, defaultValue: string, isBoolean: bool)

  function WithDefault(o: HelpOption): string {
    if o.hasDefault && (!o.isBoolean || o.defaultValue != "false") then
      o.desc + (if o.defaultValue != "" then " (default: " + o.defaultValue + ")" else " (default: \"\")")
    else o.desc
  }

  /** Tabs widened to the next multiple of eight columns, `size` columns into the line. */
  function Expanded(s: string, size: nat): string {
    if s == [] then []
    else if s[0] == '\n' then [s[0]] + Expanded(s[1..], 0)
    else if s[0] == '\t' then Spaces(8 - size % 8) + Expanded(s[1..], size + (8 - size % 8))
    else [s[0]] + Expanded(s[1..], size + 1)
  }

  /** One character of the expansion, and the column after it. */
  lemma ExpandedStep(desc: string, c: nat, size: nat)
    requires c < |desc|
    ensures Expanded(desc[c..], size) ==
            if desc[c] == '\n' then [desc[c]] + Expanded(desc[c + 1..], 0)
            else if desc[c] == '\t' then Spaces(8 - size % 8) + Expanded(desc[c + 1..], size + (8 - size % 8))
            else [desc[c]] + Expanded(desc[c + 1..], size + 1)
  {
    assert desc[c..][1..] == desc[c + 1..];
  }

  method ExpandTabs(desc: string) returns (desc2: string)
    ensures desc2 == Expanded(desc, 0)
  {
    hide Expanded, Spaces;
    var size: nat := 0;
    desc2 := [];
    assert desc[0..] == desc;
    assert [] + Expanded(desc, 0) == Expanded(desc, 0);
    for c := 0 to |desc|
      invariant Expanded(desc, 0) == desc2 + Expanded(desc[c..], size)
    {
      ExpandedStep(desc, c, size);
      if desc[c] == '\n' {
        Text.Assoc(desc2, [desc[c]], Expanded(desc[c + 1..], 0));
        desc2 := desc2 + [desc[c]];
        size := 0;
      } else if desc[c] == '\t' {
        var skip := 8 - size % 8;
        Text.Assoc(desc2, Spaces(skip), Expanded(desc[c + 1..], size + skip));
        desc2 := desc2 + Spaces(skip);
        size := size + skip;
      } else {
        Text.Assoc(desc2, [desc[c]], Expanded(desc[c + 1..], size + 1));
        desc2 := desc2 + [desc[c]];
        size := size + 1;
      }
    }
    ExpandedNone(size);
    assert desc[|desc|..] == [];
  }

  lemma ExpandedNone(size: nat)
    ensures Expanded([], size) == []
  {
  }

  /** The characters that are not blank, in order. */
  function Solid(s: string): string {
    if s == [] then [] else (if IsBlank(s[0]) then [] else [s[0]]) + Solid(s[1..])
  }

  lemma SolidNone()
    ensures Solid([]) == []
  {
  }

  lemma SolidCons(c: char, s: string)
    ensures Solid([c] + s) == (if IsBlank(c) then [] else [c]) + Solid(s)
  {
    assert ([c] + s)[1..] == s;
  }

  lemma {:induction false} SolidConcat(a: string, b: string)
    ensures Solid(a + b) == Solid(a) + Solid(b)
  {
    hide Solid;
    if a == [] {
      SolidNone();
      assert a + b == b;
    } else {
      var own := if IsBlank(a[0]) then [] else [a[0]];
      SolidConcat(a[1..], b);
      SolidCons(a[0], a[1..]);
      SolidCons(a[0], a[1..] + b);
      assert [a[0]] + a[1..] == a && [a[0]] + (a[1..] + b) == a + b;
      Text.Assoc(own, Solid(a[1..]), Solid(b));
    }
  }

  lemma {:induction false} SolidSpaces(n: nat)
    ensures Solid(Spaces(n)) == []
  {
    if n == 0 {
    } else {
      assert Spaces(n)[1..] == Spaces(n - 1);
      SolidSpaces(n - 1);
    }
  }

  /** Expansion leaves no tab and changes nothing but blanks. */
  lemma {:induction false} ExpansionKeepsText(s: string, size: nat)
    ensures '\t' !in Expanded(s, size)
    ensures Solid(Expanded(s, size)) == Solid(s)
    decreases |s|
  {
    hide Spaces;
    hide Solid;
    if s == [] {
      SolidNone();
    } else {
      SolidCons(s[0], s[1..]);
      assert [s[0]] + s[1..] == s;
      if s[0] == '\t' {
        var skip := 8 - size % 8;
        ExpansionKeepsText(s[1..], size + skip);
        SolidConcat(Spaces(skip), Expanded(s[1..], size + skip));
        SolidSpaces(skip);
      } else {
        var next := if s[0] == '\n' then 0 else size + 1;
        ExpansionKeepsText(s[1..], next);
        SolidCons(s[0], Expanded(s[1..], next));
      }
    }
  }

  /** `allowed` is at least 10 for every caller. */
  method FormatDescription(o: HelpOption, start: nat, allowed: nat, tabExpansion: bool) returns (result: string)
    requires allowed >= 1
    ensures var text := if tabExpansion then Expanded(WithDefault(o), 0) else WithDefault(o);
            result == Join(Pieces(text + " ", 0, allowed), start)
  {
    var desc := WithDefault(o);
    if tabExpansion {
      desc := ExpandTabs(desc);
    }
    result := Wrap(desc + " ", start, allowed);
  }
}
