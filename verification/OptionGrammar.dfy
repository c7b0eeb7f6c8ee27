/** Which arguments are flags, said by their characters alone. */
module OptionGrammar {
  import opened Text
  import opened Options

  /** 0-9, A-Z and a-z, by their codes. */
  predicate LetterOrDigit(c: char) {
    var code := c as int;
    48 <= code <= 57 || 65 <= code <= 90 || 97 <= code <= 122
  }

  /** Two characters or more: a letter or digit, then letters, digits, dashes and underscores. */
  predicate LongName(n: string) {
    |n| >= 2 && LetterOrDigit(n[0]) && forall k :: 0 <= k < |n| ==> LetterOrDigit(n[k]) || n[k] == '-' || n[k] == '_'
  }

  predicate Letters(s: string) {
    s != [] && forall k :: 0 <= k < |s| ==> LetterOrDigit(s[k])
  }

  /** `--name` */
  predicate ReadsLong(arg: string, desc: ArguDesc) {
    LongName(desc.name) && arg == "--" + desc.name && !desc.grouping && !desc.setValue && desc.value == ""
  }

  /** `--name=value` */
  predicate ReadsLongWithValue(arg: string, desc: ArguDesc) {
    LongName(desc.name) && arg == "--" + desc.name + "=" + desc.value && !desc.grouping && desc.setValue
  }

  /** `-abc` */
  predicate ReadsGroup(arg: string, desc: ArguDesc) {
    Letters(desc.name) && arg == "-" + desc.name && desc.grouping && !desc.setValue && desc.value == ""
  }

  predicate Reads(arg: string, desc: ArguDesc) {
    ReadsLong(arg, desc) || ReadsLongWithValue(arg, desc) || ReadsGroup(arg, desc)
  }

  lemma NameCharacters(c: char)
    ensures IsAlnum(c) <==> LetterOrDigit(c)
    ensures IsNameChar(c) <==> LetterOrDigit(c) || c == '-' || c == '_'
  {
  }

  lemma {:induction false} WholeName(n: string)
    requires forall k :: 0 <= k < |n| ==> IsNameChar(n[k])
    ensures NameLength(n) == |n|
  {
    if n == [] {
    } else {
      WholeName(n[1..]);
    }
  }

  lemma {:induction false} NameBefore(n: string, rest: string)
    requires forall k :: 0 <= k < |n| ==> IsNameChar(n[k])
    requires rest != [] && !IsNameChar(rest[0])
    ensures NameLength(n + rest) == |n|
  {
    if n == [] {
      assert n + rest == rest;
    } else {
      assert (n + rest)[1..] == n[1..] + rest;
      NameBefore(n[1..], rest);
    }
  }

  lemma LongNameCharacters(n: string)
    requires LongName(n)
    ensures IsAlnum(n[0]) && forall k :: 0 <= k < |n| ==> IsNameChar(n[k])
  {
  }

  lemma LongIsMatched(arg: string, desc: ArguDesc)
    requires ReadsLong(arg, desc)
    ensures Matched(arg) == Some(desc)
  {
    LongNameCharacters(desc.name);
    WholeName(desc.name);
    hide NameLength;
    assert arg[2..] == desc.name;
  }

  lemma LongWithValueIsMatched(arg: string, desc: ArguDesc)
    requires ReadsLongWithValue(arg, desc)
    ensures Matched(arg) == Some(desc)
  {
    var rest := "=" + desc.value;
    LongNameCharacters(desc.name);
    NameBefore(desc.name, rest);
    hide NameLength;
    hide IsNameChar;
    assert arg == "--" + (desc.name + rest);
    assert arg[2..] == desc.name + rest;
    assert (desc.name + rest)[|desc.name| + 1..] == desc.value;
  }

  lemma GroupIsMatched(arg: string, desc: ArguDesc)
    requires ReadsGroup(arg, desc)
    ensures Matched(arg) == Some(desc)
  {
    hide NameLength;
    assert arg[1..] == desc.name;
    assert arg[1] == desc.name[0] != '-';
  }

  lemma MatchedIsRead(arg: string)
    requires Matched(arg).Some?
    ensures Reads(arg, Matched(arg).value)
  {
    hide NameLength;
    var desc := Matched(arg).value;
    if "--" <= arg {
      var s := arg[2..];
      var n := NameLength(s);
      assert arg == "--" + s;
      assert n < |s| ==> s == s[..n] + "=" + s[n + 1..];
      assert n < |s| ==> "--" + (s[..n] + "=" + s[n + 1..]) == "--" + s[..n] + "=" + s[n + 1..];
      forall k | 0 <= k < n ensures LetterOrDigit(s[k]) || s[k] == '-' || s[k] == '_' {
        NameCharacters(s[k]);
      }
      NameCharacters(s[0]);
      assert desc.name == s[..n];
    } else {
      assert arg == "-" + arg[1..];
    }
  }

  /** An argument is read as a flag if and only if its characters spell that flag. */
  lemma MatchedExactly(arg: string, desc: ArguDesc)
    ensures Matched(arg) == Some(desc) <==> Reads(arg, desc)
  {
    hide Matched;
    hide ReadsLong;
    hide ReadsLongWithValue;
    hide ReadsGroup;
    if Matched(arg).Some? { MatchedIsRead(arg); }
    if ReadsLong(arg, desc) {
      LongIsMatched(arg, desc);
    } else if ReadsLongWithValue(arg, desc) {
      LongWithValueIsMatched(arg, desc);
    } else if ReadsGroup(arg, desc) {
      GroupIsMatched(arg, desc);
    }
  }

  /** The others are no flags. */
  lemma NoFlagExactly(arg: string)
    ensures Matched(arg) == None <==> forall desc :: !Reads(arg, desc)
  {
    hide Matched;
    hide Reads;
    forall desc ensures Matched(arg) == Some(desc) <==> Reads(arg, desc) {
      MatchedExactly(arg, desc);
    }
    if Matched(arg).Some? { assert Reads(arg, Matched(arg).value); }
  }
}
