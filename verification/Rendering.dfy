/** Settings written as a command line, in each form an option can be given, and parsed back. */
module Rendering {
  import opened Text
  import opened Options
  import opened OptionGrammar

  /** How the last letter of a group gets its value: implied, behind it, or from the next token. */
  datatype Tail = Implied | Attached(text: string) | NextToken(value: string)

  datatype Setting =
    | Inline(name: string, value: string)              // --name=value
    | Separate(name: string, value: string)            // --name value
    | Bare(name: string)                               // --name
    | Group(flags: string, last: char, tail: Tail)     // -abc, -abctext or -abc value

  function Behind(tail: Tail): string {
    if tail.Attached? then tail.text else ""
  }

  function Tokens(x: Setting): (tokens: seq<string>)
    ensures 1 <= |tokens| <= 2
  {
    match x
    case Inline(name, value) => ["--" + name + "=" + value]
    case Separate(name, value) => ["--" + name, value]
    case Bare(name) => ["--" + name]
    case Group(flags, last, tail) =>
      ["-" + (flags + [last] + Behind(tail))] + if tail.NextToken? then [tail.value] else []
  }

  function AllTokens(settings: seq<Setting>): seq<string> {
    if settings == [] then [] else Tokens(settings[0]) + AllTokens(settings[1..])
  }

  predicate Known(cfg: Config, n: string) {
    LongName(n) && n in cfg.options && cfg.options[n].longName == n
  }

  predicate KnownLetter(cfg: Config, c: char) {
    LetterOrDigit(c) && [c] in cfg.options
  }

  /** The form suits the options: exactly those with an implicit value are given none. */
  predicate WellWritten(cfg: Config, x: Setting) {
    match x
    case Inline(name, _) => Known(cfg, name)
    case Separate(name, _) => Known(cfg, name) && cfg.options[name].implicit.None?
    case Bare(name) => Known(cfg, name) && cfg.options[name].implicit.Some?
    case Group(flags, last, tail) =>
      && (forall k :: 0 <= k < |flags| ==> KnownLetter(cfg, flags[k]) && cfg.options[[flags[k]]].implicit.Some?)
      && KnownLetter(cfg, last) && (cfg.options[[last]].implicit.Some? <==> tail.Implied?)
      && (tail.Attached? ==> Letters(tail.text))
  }

  /** One option and the value it is given. */
  datatype Pair = Pair(option: OptionDetails, value: string)

  function ImpliedPair(d: OptionDetails): Pair {
    Pair(d, if d.implicit.Some? then d.implicit.value else "")
  }

  function FlagPairs(cfg: Config, flags: string): (pairs: seq<Pair>)
    requires forall k :: 0 <= k < |flags| ==> [flags[k]] in cfg.options
    ensures |pairs| == |flags|
  {
    seq(|flags|, k requires 0 <= k < |flags| => ImpliedPair(cfg.options[[flags[k]]]))
  }

  function LastPair(d: OptionDetails, tail: Tail): Pair {
    match tail
    case Implied => ImpliedPair(d)
    case Attached(text) => Pair(d, text)
    case NextToken(value) => Pair(d, value)
  }

  /** What a setting says. */
  function Pairs(cfg: Config, x: Setting): seq<Pair>
    requires WellWritten(cfg, x)
  {
    match x
    case Inline(name, value) => [Pair(cfg.options[name], value)]
    case Separate(name, value) => [Pair(cfg.options[name], value)]
    case Bare(name) => [ImpliedPair(cfg.options[name])]
    case Group(flags, last, tail) => FlagPairs(cfg, flags) + [LastPair(cfg.options[[last]], tail)]
  }

  ghost predicate AllWellWritten(cfg: Config, settings: seq<Setting>) {
    forall i :: 0 <= i < |settings| ==> WellWritten(cfg, settings[i])
  }

  function AllPairs(cfg: Config, settings: seq<Setting>): seq<Pair>
    requires AllWellWritten(cfg, settings)
  {
    if settings == [] then [] else Pairs(cfg, settings[0]) + AllPairs(cfg, settings[1..])
  }

  /** Every value is of its option's type. */
  predicate Acceptable(pairs: seq<Pair>) {
    forall i :: 0 <= i < |pairs| ==> pairs[i].option.accepts(pairs[i].value)
  }

  function EntriesOf(pairs: seq<Pair>): (es: seq<Entry>)
    ensures |es| == |pairs|
  {
    seq(|pairs|, i requires 0 <= i < |pairs| => EntryOf(pairs[i].option, pairs[i].value))
  }

  lemma PairsConcat(a: seq<Pair>, b: seq<Pair>)
    ensures EntriesOf(a + b) == EntriesOf(a) + EntriesOf(b)
    ensures Acceptable(a + b) <==> Acceptable(a) && Acceptable(b)
  {
    forall i | 0 <= i < |a| ensures (a + b)[i] == a[i] {
    }
    forall i | 0 <= i < |b| ensures (a + b)[|a| + i] == b[i] {
    }
    if Acceptable(a + b) {
      forall i | 0 <= i < |a| ensures a[i].option.accepts(a[i].value) {
        assert (a + b)[i].option.accepts((a + b)[i].value);
      }
      forall i | 0 <= i < |b| ensures b[i].option.accepts(b[i].value) {
        assert (a + b)[|a| + i].option.accepts((a + b)[|a| + i].value);
      }
    }
  }

  // ----- One setting -----

  predicate TakesToken(x: Setting) {
    x.Separate? || (x.Group? && x.tail.NextToken?)
  }

  function Classes(cfg: Config, x: Setting): (classes: seq<Token>)
    requires WellWritten(cfg, x)
    ensures |classes| == |Tokens(x)|
  {
    [OptionToken(EntriesOf(Pairs(cfg, x)))] + if TakesToken(x) then [TakenValue] else []
  }

  /** The flag a setting starts with. */
  function DescOf(x: Setting): ArguDesc {
    match x
    case Inline(name, value) => ArguDesc(name, false, true, value)
    case Separate(name, _) => ArguDesc(name, false, false, "")
    case Bare(name) => ArguDesc(name, false, false, "")
    case Group(flags, last, tail) => ArguDesc(flags + [last] + Behind(tail), true, false, "")
  }

  lemma GroupIsLetters(cfg: Config, x: Setting)
    requires WellWritten(cfg, x) && x.Group?
    ensures Letters(DescOf(x).name)
  {
  }

  /** The first token of a setting spells its flag and is not `--`. */
  lemma FlagOf(cfg: Config, x: Setting)
    requires WellWritten(cfg, x)
    ensures Matched(Tokens(x)[0]) == Some(DescOf(x)) && Tokens(x)[0] != "--"
  {
    hide Matched;
    if x.Group? { GroupIsLetters(cfg, x); }
    hide Letters;
    MatchedExactly(Tokens(x)[0], DescOf(x));
    MatchedExactly("--", DescOf(x));
    DashesAreNoFlag();
  }

  lemma DashesAreNoFlag()
    ensures Matched("--") == None
  {
    assert NameLength("--"[2..]) == 0;
  }

  /** The letters of a group from the i-th on, up to what stands behind the last. */
  lemma {:induction false} GroupSets(cfg: Config, argv: seq<string>, current: nat, x: Setting, i: nat)
    requires WellWritten(cfg, x) && x.Group? && i <= |x.flags|
    requires TakesToken(x) ==> current + 1 < |argv| && argv[current + 1] == x.tail.value
    ensures var pairs := Pairs(cfg, x)[i..];
            ParseGroup(cfg, argv, current, DescOf(x).name, i) ==
            if Acceptable(pairs) then Parsed(EntriesOf(pairs), TakesToken(x)) else Failed(IncorrectType)
    decreases |x.flags| - i
  {
    var s, pairs := DescOf(x).name, Pairs(cfg, x);
    var own := pairs[i];
    assert pairs[i..] == [own] + pairs[i + 1..];
    PairsConcat([own], pairs[i + 1..]);
    assert EntriesOf([own]) == [EntryOf(own.option, own.value)];
    assert Acceptable([own]) <==> own.option.accepts(own.value);
    if i == |x.flags| {
      assert s[i] == x.last && s[i + 1..] == Behind(x.tail);
      assert pairs[i + 1..] == [] && EntriesOf([own]) + [] == EntriesOf([own]);
    } else {
      assert s[i] == x.flags[i];
      GroupSets(cfg, argv, current, x, i + 1);
    }
  }

  /** One turn of the loop takes a setting as it was meant, or refuses a value of the wrong type. */
  lemma TurnOfSetting(cfg: Config, before: seq<string>, x: Setting, after: seq<string>, ledger: seq<Token>, next: nat)
    requires WellWritten(cfg, x) && |ledger| == |before|
    ensures var argv := before + Tokens(x) + after;
            && argv[|before|] != "--"
            && Turn(cfg, argv, ledger, next) ==
               if Acceptable(Pairs(cfg, x)) then Accepted(ledger + Classes(cfg, x), next) else Rejected(IncorrectType)
  {
    hide Matched;
    hide ParseGroup;
    var argv, current := before + Tokens(x) + after, |before|;
    FlagOf(cfg, x);
    assert argv[current] == Tokens(x)[0];
    assert TakesToken(x) ==> argv[current + 1] == Tokens(x)[1];
    var pairs := Pairs(cfg, x);
    if x.Group? {
      GroupSets(cfg, argv, current, x, 0);
      assert pairs[0..] == pairs;
    } else {
      assert EntriesOf(pairs) == [EntryOf(pairs[0].option, pairs[0].value)];
      assert Acceptable(pairs) <==> pairs[0].option.accepts(pairs[0].value);
    }
    assert ledger + [OptionToken(EntriesOf(pairs))] + (if TakesToken(x) then [TakenValue] else []) ==
           ledger + Classes(cfg, x);
  }

  // ----- All settings -----

  function AllClasses(cfg: Config, settings: seq<Setting>): (classes: seq<Token>)
    requires AllWellWritten(cfg, settings)
  {
    if settings == [] then [] else Classes(cfg, settings[0]) + AllClasses(cfg, settings[1..])
  }

  lemma {:induction false} ScanSettings(cfg: Config, before: seq<string>, settings: seq<Setting>,
      ledger: seq<Token>, next: nat)
    requires AllWellWritten(cfg, settings) && |ledger| == |before|
    ensures Scan(cfg, before + AllTokens(settings), ledger, next) ==
            if Acceptable(AllPairs(cfg, settings)) then Accepted(ledger + AllClasses(cfg, settings), next)
            else Rejected(IncorrectType)
    decreases |settings|
  {
    hide Turn;
    hide WellWritten;
    hide Tokens;
    hide Classes;
    hide Pairs;
    hide Acceptable;
    if settings == [] {
      assert before + [] == before && ledger + [] == ledger;
      assert Acceptable([]) by { NothingAcceptable(); }
    } else {
      var x, rest := settings[0], settings[1..];
      assert before + AllTokens(settings) == before + Tokens(x) + AllTokens(rest);
      TurnOfSetting(cfg, before, x, AllTokens(rest), ledger, next);
      PairsConcat(Pairs(cfg, x), AllPairs(cfg, rest));
      if Acceptable(Pairs(cfg, x)) {
        ScanSettings(cfg, before + Tokens(x), rest, ledger + Classes(cfg, x), next);
        assert ledger + Classes(cfg, x) + AllClasses(cfg, rest) == ledger + AllClasses(cfg, settings);
      }
    }
  }

  lemma NothingAcceptable()
    ensures Acceptable([]) && EntriesOf([]) == []
  {
  }

  /** The tokens of a setting add its entries and leave nothing over. */
  lemma ClassesAdd(cfg: Config, argv: seq<string>, x: Setting, ledger: seq<Token>)
    requires WellWritten(cfg, x) && |ledger| + |Classes(cfg, x)| <= |argv|
    ensures Entries(ledger + Classes(cfg, x)) == Entries(ledger) + EntriesOf(Pairs(cfg, x))
    ensures UnmatchedOf(argv, ledger + Classes(cfg, x)) == UnmatchedOf(argv, ledger)
  {
    hide Entries;
    hide UnmatchedOf;
    hide Pairs;
    var own := OptionToken(EntriesOf(Pairs(cfg, x)));
    LedgerSnoc(argv, ledger, own);
    if TakesToken(x) {
      LedgerSnoc(argv, ledger + [own], TakenValue);
      assert ledger + [own] + [TakenValue] == ledger + Classes(cfg, x);
    } else {
      assert ledger + [own] == ledger + Classes(cfg, x);
    }
  }

  lemma {:induction false} SettingsAdd(cfg: Config, argv: seq<string>, settings: seq<Setting>, ledger: seq<Token>)
    requires AllWellWritten(cfg, settings) && |ledger| + |AllClasses(cfg, settings)| <= |argv|
    ensures Entries(ledger + AllClasses(cfg, settings)) == Entries(ledger) + EntriesOf(AllPairs(cfg, settings))
    ensures UnmatchedOf(argv, ledger + AllClasses(cfg, settings)) == UnmatchedOf(argv, ledger)
    decreases |settings|
  {
    hide Entries;
    hide UnmatchedOf;
    hide Pairs;
    hide Classes;
    hide WellWritten;
    if settings == [] {
      NothingAcceptable();
      assert ledger + [] == ledger && Entries(ledger) + [] == Entries(ledger);
    } else {
      var x, rest := settings[0], settings[1..];
      ClassesAdd(cfg, argv, x, ledger);
      SettingsAdd(cfg, argv, rest, ledger + Classes(cfg, x));
      PairsConcat(Pairs(cfg, x), AllPairs(cfg, rest));
      assert ledger + Classes(cfg, x) + AllClasses(cfg, rest) == ledger + AllClasses(cfg, settings);
      Assoc(Entries(ledger), EntriesOf(Pairs(cfg, x)), EntriesOf(AllPairs(cfg, rest)));
    }
  }

  lemma {:induction false} OneClassEach(cfg: Config, settings: seq<Setting>)
    requires AllWellWritten(cfg, settings)
    ensures |AllClasses(cfg, settings)| == |AllTokens(settings)|
  {
    hide Classes;
    hide WellWritten;
    if settings == [] {
    } else {
      OneClassEach(cfg, settings[1..]);
    }
  }

  function CommandLine(program: string, settings: seq<Setting>): (argv: seq<string>)
    ensures argv != []
  {
    [program] + AllTokens(settings)
  }

  lemma ParsedSettings(cfg: Config, program: string, settings: seq<Setting>)
    requires AllWellWritten(cfg, settings)
    ensures var argv := CommandLine(program, settings);
            var pairs := AllPairs(cfg, settings);
            var ledger := [Program] + AllClasses(cfg, settings);
            && |ledger| == |argv|
            && Entries(ledger) == EntriesOf(pairs) && UnmatchedOf(argv, ledger) == []
            && Parse(cfg, argv) ==
               if Acceptable(pairs) && DefaultsAccepted(cfg, EntriesOf(pairs)) then Accepted(ledger, 0)
               else Rejected(IncorrectType)
  {
    hide Scan;
    hide DefaultsAccepted;
    hide Entries;
    hide UnmatchedOf;
    hide AllClasses;
    hide AllTokens;
    hide AllPairs;
    hide EntriesOf;
    hide Acceptable;
    var argv, ledger := CommandLine(program, settings), [Program] + AllClasses(cfg, settings);
    OneClassEach(cfg, settings);
    ScanSettings(cfg, [program], settings, [Program], 0);
    LedgerStart(argv);
    SettingsAdd(cfg, argv, settings, [Program]);
    assert [] + EntriesOf(AllPairs(cfg, settings)) == EntriesOf(AllPairs(cfg, settings));
    assert Remaining(cfg, argv, ledger, 0) == Accepted(ledger, 0);
  }

  /**
   * Settings written in any of the forms are refused exactly if one of their values, or the
   * default of an option without a setting, is not of its type. Otherwise parsing gives
   * the values back under their options' names, in order, and nothing unmatched.
   */
  lemma RoundTrip(cfg: Config, program: string, settings: seq<Setting>)
    requires AllWellWritten(cfg, settings)
    ensures var argv, pairs := CommandLine(program, settings), AllPairs(cfg, settings);
            var r := Parse(cfg, argv);
            && (r.Accepted? <==> Acceptable(pairs) && DefaultsAccepted(cfg, EntriesOf(pairs)))
            && (r.Rejected? ==> r.error == IncorrectType)
            && (r.Accepted? ==>
                  && UnmatchedOf(argv, r.ledger) == []
                  && |Entries(r.ledger)| == |pairs|
                  && forall i :: 0 <= i < |pairs| ==>
                       && Entries(r.ledger)[i].key == pairs[i].option.longName
                       && Entries(r.ledger)[i].value == pairs[i].value)
  {
    hide Parse;
    hide DefaultsAccepted;
    hide Acceptable;
    hide Entries;
    hide UnmatchedOf;
    hide AllPairs;
    ParsedSettings(cfg, program, settings);
  }

  /** In particular `--name value` for one option without an implicit value. */
  lemma TwoTokens(cfg: Config, program: string, name: string, value: string)
    requires Known(cfg, name) && cfg.options[name].implicit.None?
    requires cfg.options[name].accepts(value) && forall n :: n in cfg.options ==> cfg.options[n].default.None?
    ensures var r := Parse(cfg, [program, "--" + name, value]);
            && r.Accepted? && Entries(r.ledger) == [EntryOf(cfg.options[name], value)]
            && UnmatchedOf([program, "--" + name, value], r.ledger) == []
  {
    hide Parse;
    hide Entries;
    hide UnmatchedOf;
    hide LongName;
    var settings := [Separate(name, value)];
    assert settings[1..] == [];
    ParsedSettings(cfg, program, settings);
    assert CommandLine(program, settings) == [program, "--" + name, value];
    assert AllPairs(cfg, settings) == [Pair(cfg.options[name], value)];
  }

  /** In a justified ledger a token `--name=value` can only stand for that option with that value. */
  lemma RenderedFlagMeans(cfg: Config, argv: seq<string>, ledger: seq<Token>, i: nat, name: string, value: string)
    requires LedgerOk(cfg, argv, ledger) && 0 < i < |ledger| && ledger[i].OptionToken?
    requires Known(cfg, name) && argv[i] == "--" + name + "=" + value
    ensures ledger[i].entries == [EntryOf(cfg.options[name], value)] && cfg.options[name].accepts(value)
    ensures i + 1 < |ledger| ==> !ledger[i + 1].TakenValue?
  {
    hide Matched;
    FlagOf(cfg, Inline(name, value));
    assert TokenOk(cfg, argv, ledger, i);
    if i + 1 < |ledger| {
      assert TokenOk(cfg, argv, ledger, i + 1);
    }
  }
}
