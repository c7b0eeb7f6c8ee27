/** C strings and substring search, as the C library calls of the stack see them. */
module Text {

  datatype Option<+T> = None | Some(value: T)

  /** The C string that starts a buffer: everything before the first NUL. */
  function CString(s: string): (r: string)
    ensures r <= s
    ensures '\0' !in r
    ensures '\0' !in s ==> r == s
    ensures |r| < |s| ==> s[|r|] == '\0'
  {
    if s == [] || s[0] == '\0' then [] else [s[0]] + CString(s[1..])
  }

  function LowerChar(c: char): char {
    if 'A' <= c <= 'Z' then c - 'A' + 'a' else c
  }

  function Lower(s: string): (r: string)
    ensures |r| == |s|
  {
    seq(|s|, i requires 0 <= i < |s| => LowerChar(s[i]))
  }

  /** The same letter in either case, by the codes of A to Z and a to z. */
  predicate SameLetter(c: char, d: char) {
    || c == d
    || (65 <= c as int <= 90 && d as int == c as int + 32)
    || (65 <= d as int <= 90 && c as int == d as int + 32)
  }

  predicate SameLetters(a: string, b: string) {
    |a| == |b| && forall i :: 0 <= i < |a| ==> SameLetter(a[i], b[i])
  }

  lemma LowerCharExactly(c: char, d: char)
    ensures LowerChar(c) == LowerChar(d) <==> SameLetter(c, d)
  {
  }

  /** Lowering makes two texts equal exactly if they differ in the case of letters only. */
  lemma LowerExactly(a: string, b: string)
    ensures Lower(a) == Lower(b) <==> SameLetters(a, b)
  {
    hide SameLetter;
    hide LowerChar;
    if |a| == |b| {
      forall i | 0 <= i < |a| ensures Lower(a)[i] == Lower(b)[i] <==> SameLetter(a[i], b[i]) {
        LowerCharExactly(a[i], b[i]);
      }
    }
  }

  lemma Assoc<T>(a: seq<T>, b: seq<T>, c: seq<T>)
    ensures a + b + c == a + (b + c)
  {
  }

  ghost predicate Occurs<T>(s: seq<T>, needle: seq<T>, i: int) {
    0 <= i && i + |needle| <= |s| && s[i..i + |needle|] == needle
  }

  /** Leftmost occurrence of `needle` at or after `from`, or -1. */
  function FindFrom<T(==)>(s: seq<T>, needle: seq<T>, from: nat): (r: int)
    ensures r == -1 || (from <= r && Occurs(s, needle, r))
    ensures forall j :: from <= j && (r == -1 || j < r) ==> !Occurs(s, needle, j)
    decreases |s| - from
  {
    if from + |needle| > |s| then -1
    else if s[from..from + |needle|] == needle then from
    else FindFrom(s, needle, from + 1)
  }

  function Find<T(==)>(s: seq<T>, needle: seq<T>): (r: int)
    ensures r == -1 || Occurs(s, needle, r)
    ensures forall j :: 0 <= j && (r == -1 || j < r) ==> !Occurs(s, needle, j)
  {
    FindFrom(s, needle, 0)
  }

  /** The two clauses of `Find` determine it. */
  lemma FindFromIsLeftmost<T>(s: seq<T>, needle: seq<T>, from: nat, r: int)
    requires r == -1 || (from <= r && Occurs(s, needle, r))
    requires forall j :: from <= j && (r == -1 || j < r) ==> !Occurs(s, needle, j)
    ensures FindFrom(s, needle, from) == r
  {
  }

  lemma FindIsLeftmost<T>(s: seq<T>, needle: seq<T>, r: int)
    requires r == -1 || Occurs(s, needle, r)
    requires forall j :: 0 <= j && (r == -1 || j < r) ==> !Occurs(s, needle, j)
    ensures Find(s, needle) == r
  {
  }

  /** A match found in a prefix is the match found in the whole. */
  lemma FindInPrefix<T>(p: seq<T>, q: seq<T>, needle: seq<T>)
    requires Find(p, needle) != -1
    ensures Find(p + q, needle) == Find(p, needle)
  {
    var r := Find(p, needle);
    assert (p + q)[r..r + |needle|] == p[r..r + |needle|];
    forall j | 0 <= j < r ensures !Occurs(p + q, needle, j) {
      assert (p + q)[j..j + |needle|] == p[j..j + |needle|];
      assert !Occurs(p, needle, j);
    }
    FindIsLeftmost(p + q, needle, r);
  }

  /** Writing a NUL into a buffer cuts its C string there. */
  lemma {:induction false} CStringStopsAtNul(p: string, q: string)
    ensures CString(p + ['\0'] + q) == CString(p)
  {
    var s := p + ['\0'] + q;
    if p == [] || p[0] == '\0' {
    } else {
      assert s[1..] == p[1..] + ['\0'] + q;
      CStringStopsAtNul(p[1..], q);
    }
  }

  // ----- Fields between separators -----

  function Join(fields: seq<string>, sep: char): string {
    if fields == [] then []
    else if |fields| == 1 then fields[0]
    else Join(fields[..|fields| - 1], sep) + [sep] + fields[|fields| - 1]
  }

  lemma JoinEmpty(sep: char)
    ensures Join([], sep) == []
  {
  }

  lemma JoinSnoc(fields: seq<string>, field: string, sep: char)
    ensures Join(fields + [field], sep) == (if fields == [] then [] else Join(fields, sep) + [sep]) + field
  {
    assert (fields + [field])[..|fields|] == fields;
  }

  /** The text cut at every separator, character by character from the left. */
  function Split(s: string, sep: char): (fields: seq<string>)
    ensures fields != []
  {
    if s == [] then [[]]
    else
      var fs := Split(s[..|s| - 1], sep);
      if s[|s| - 1] == sep then fs + [[]]
      else fs[..|fs| - 1] + [fs[|fs| - 1] + [s[|s| - 1]]]
  }

  lemma {:induction false} SplitLastField(a: string, field: string, sep: char)
    requires sep !in field
    ensures Split(a + [sep] + field, sep) == Split(a, sep) + [field]
    decreases |field|
  {
    var s := a + [sep] + field;
    if field == [] {
      assert s[..|s| - 1] == a;
    } else {
      assert s[..|s| - 1] == a + [sep] + field[..|field| - 1];
      SplitLastField(a, field[..|field| - 1], sep);
      assert field == field[..|field| - 1] + [field[|field| - 1]];
    }
  }

  lemma {:induction false} SplitOneField(field: string, sep: char)
    requires sep !in field
    ensures Split(field, sep) == [field]
  {
    if field == [] {
    } else {
      SplitOneField(field[..|field| - 1], sep);
      assert field == field[..|field| - 1] + [field[|field| - 1]];
    }
  }

  lemma {:induction false} SplitOfJoin(fields: seq<string>, sep: char)
    requires fields != [] && forall k :: 0 <= k < |fields| ==> sep !in fields[k]
    ensures Split(Join(fields, sep), sep) == fields
  {
    if |fields| == 1 {
      SplitOneField(fields[0], sep);
    } else {
      var init, last := fields[..|fields| - 1], fields[|fields| - 1];
      SplitOfJoin(init, sep);
      SplitLastField(Join(init, sep), last, sep);
      assert fields == init + [last];
    }
  }

  lemma {:induction false} JoinAvoids(fields: seq<string>, sep: char, c: char)
    requires c != sep && forall k :: 0 <= k < |fields| ==> c !in fields[k]
    ensures c !in Join(fields, sep)
  {
    if |fields| <= 1 {
    } else {
      JoinAvoids(fields[..|fields| - 1], sep, c);
    }
  }

  /** Joined non-empty fields neither start nor end with a separator, nor hold two in a row. */
  lemma {:induction false} JoinIsolatesSeparators(fields: seq<string>, sep: char)
    requires forall k :: 0 <= k < |fields| ==> fields[k] != [] && sep !in fields[k]
    ensures var s := Join(fields, sep);
            && (fields != [] ==> s != [] && s[0] != sep && s[|s| - 1] != sep)
            && (forall k :: 0 <= k && k + 1 < |s| ==> s[k] != sep || s[k + 1] != sep)
  {
    if |fields| <= 1 {
    } else {
      var init, last := fields[..|fields| - 1], fields[|fields| - 1];
      JoinIsolatesSeparators(init, sep);
      var a := Join(init, sep);
      var s := a + [sep] + last;
      forall k | 0 <= k && k + 1 < |s| ensures s[k] != sep || s[k + 1] != sep {
        if k > |a| { assert s[k] == last[k - |a| - 1]; }
        else if k == |a| { assert s[k + 1] == last[0]; }
        else if k == |a| - 1 { assert s[k] == a[|a| - 1]; }
        else { assert s[k] == a[k] && s[k + 1] == a[k + 1]; }
      }
    }
  }

  /** Two characters of the joined text that stand side by side are not both separators. */
  lemma NotTwoSeparators(fields: seq<string>, sep: char, k: nat)
    requires forall i :: 0 <= i < |fields| ==> fields[i] != [] && sep !in fields[i]
    requires k + 1 < |Join(fields, sep)|
    ensures Join(fields, sep)[k] != sep || Join(fields, sep)[k + 1] != sep
  {
    hide Join;
    JoinIsolatesSeparators(fields, sep);
  }
}
