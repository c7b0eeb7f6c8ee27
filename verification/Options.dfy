/**
 * What the command-line parser is meant to compute: a ledger that gives every
 * argv token its class and the option entries it contributes.
 * OptionParser.dfy does it with the mutable state of the source.
 */
module Options {
  import opened Text

  datatype Error = OptionSyntax | OptionNotExists | MissingArgument | IncorrectType

  /** A registered option; `accepts` is the parser of its value type. */
  datatype OptionDetails = OptionDetails(
    shortName: string, longName: string, isContainer: bool,
    implicit: Option<string>, default: Option<string>, accepts: string -> bool)

  /** Key of the option's store: the two names together, as the source hashes them. */
  function Hash(d: OptionDetails): string {
    d.longName + d.shortName
  }

  datatype Config = Config(options: map<string, OptionDetails>, positional: seq<string>, allowUnrecognised: bool)

  /** One parsed value of an option. */
  datatype Entry = Entry(hash: string, key: string, value: string)

  function EntryOf(d: OptionDetails, value: string): Entry {
    Entry(Hash(d), d.longName, value)
  }

  function Count(entries: seq<Entry>, hash: string): nat {
    if entries == [] then 0
    else Count(entries[..|entries| - 1], hash) + if entries[|entries| - 1].hash == hash then 1 else 0
  }

  // ----- One argument -----

  datatype ArguDesc = ArguDesc(name: string, grouping: bool, setValue: bool, value: string)

  predicate IsAlnum(c: char) {
    '0' <= c <= '9' || 'A' <= c <= 'Z' || 'a' <= c <= 'z'
  }

  predicate IsNameChar(c: char) {
    IsAlnum(c) || c == '-' || c == '_'
  }

  /** Number of name characters `s` starts with. */
  function NameLength(s: string): (n: nat)
    ensures n <= |s|
    ensures forall k :: 0 <= k < n ==> IsNameChar(s[k])
    ensures n < |s| ==> !IsNameChar(s[n])
  {
    if s == [] || !IsNameChar(s[0]) then 0 else 1 + NameLength(s[1..])
  }

  predicate AllAlnum(s: string) {
    forall k :: 0 <= k < |s| ==> IsAlnum(s[k])
  }

  /** `--name`, `--name=value` with a name of two characters or more, or `-abc`; None: not a flag. */
  function Matched(arg: string): Option<ArguDesc> {
    if "--" <= arg then
      var s := arg[2..];
      var n := NameLength(s);
      if n < 2 || !IsAlnum(s[0]) then None
      else if n == |s| then Some(ArguDesc(s, false, false, ""))
      else if s[n] == '=' then Some(ArguDesc(s[..n], false, true, s[n + 1..]))
      else None
    else if "-" <= arg && |arg| > 1 && AllAlnum(arg[1..]) then Some(ArguDesc(arg[1..], true, false, ""))
    else None
  }

  // ----- The ledger -----

  datatype Token =
    | Program
    | OptionToken(entries: seq<Entry>)   // a flag, with the values it sets
    | TakenValue                        // taken by the flag before it
    | DoubleDash
    | Positional(entry: Entry)
    | Unmatched

  function Contribution(t: Token): seq<Entry> {
    match t
    case OptionToken(es) => es
    case Positional(e) => [e]
    case _ => []
  }

  function Entries(ledger: seq<Token>): seq<Entry> {
    if ledger == [] then []
    else Entries(ledger[..|ledger| - 1]) + Contribution(ledger[|ledger| - 1])
  }

  /** The unmatched tokens, in argv order. */
  function UnmatchedOf(argv: seq<string>, ledger: seq<Token>): seq<string>
    requires |ledger| <= |argv|
  {
    if ledger == [] then []
    else
      var n := |ledger| - 1;
      UnmatchedOf(argv, ledger[..n]) + if ledger[n].Unmatched? then [argv[n]] else []
  }

  lemma LedgerStart(argv: seq<string>)
    requires argv != []
    ensures Entries([Program]) == [] && UnmatchedOf(argv, [Program]) == []
  {
    assert [Program][..0] == [];
  }

  lemma LedgerSnoc(argv: seq<string>, ledger: seq<Token>, t: Token)
    ensures Entries(ledger + [t]) == Entries(ledger) + Contribution(t)
    ensures |ledger| < |argv| ==>
              UnmatchedOf(argv, ledger + [t]) ==
              UnmatchedOf(argv, ledger) + (if t.Unmatched? then [argv[|ledger|]] else [])
  {
    assert (ledger + [t])[..|ledger|] == ledger;
  }

  // ----- The steps -----

  /** The entries a flag sets, and whether it took the next token as its value. */
  datatype Step = Failed(error: Error) | Parsed(entries: seq<Entry>, tookNext: bool)

  function ParseOption(d: OptionDetails, value: string): Step {
    if d.accepts(value) then Parsed([EntryOf(d, value)], false) else Failed(IncorrectType)
  }

  /** An implicit value if there is one, else the next argument. */
  function CheckedParseArg(argv: seq<string>, current: nat, d: OptionDetails): (step: Step)
    ensures step.Parsed? && step.tookNext ==> current + 1 < |argv|
  {
    if d.implicit.Some? then ParseOption(d, d.implicit.value)
    else if current + 1 >= |argv| then Failed(MissingArgument)
    else
      var step := ParseOption(d, argv[current + 1]);
      if step.Parsed? then step.(tookNext := true) else step
  }

  function Before(own: seq<Entry>, rest: Step): (step: Step)
  {
    if rest.Parsed? then rest.(entries := own + rest.entries) else rest
  }

  /** The letters of a group from the i-th on; the last, or one without implicit value, takes a value. */
  function ParseGroup(cfg: Config, argv: seq<string>, current: nat, s: string, i: nat): (step: Step)
    requires i <= |s|
    ensures step.Parsed? && step.tookNext ==> current + 1 < |argv|
    decreases |s| - i
  {
    if i == |s| then Parsed([], false)
    else if [s[i]] !in cfg.options then
      if cfg.allowUnrecognised then ParseGroup(cfg, argv, current, s, i + 1) else Failed(OptionNotExists)
    else
      var d := cfg.options[[s[i]]];
      if i + 1 == |s| then CheckedParseArg(argv, current, d)
      else if d.implicit.Some? then
        var step := ParseOption(d, d.implicit.value);
        if step.Failed? then step else Before(step.entries, ParseGroup(cfg, argv, current, s, i + 1))
      else ParseOption(d, s[i + 1..])
  }

  /** What the flag at `current` sets. */
  function FlagStep(cfg: Config, argv: seq<string>, current: nat, desc: ArguDesc): (step: Step)
    ensures step.Parsed? && step.tookNext ==> current + 1 < |argv|
  {
    if desc.grouping then ParseGroup(cfg, argv, current, desc.name, 0)
    else if desc.name !in cfg.options then Failed(OptionNotExists)
    else if desc.setValue then ParseOption(cfg.options[desc.name], desc.value)
    else CheckedParseArg(argv, current, cfg.options[desc.name])
  }

  datatype Consumption = ConsumeFailed(error: Error) | Consumed(entry: Entry, next: nat) | NotConsumed(next: nat)

  /** The next positional option that can still take a value. */
  function Consume(cfg: Config, a: string, entries: seq<Entry>, next: nat): Consumption
    decreases |cfg.positional| - next
  {
    if next >= |cfg.positional| then NotConsumed(next)
    else if cfg.positional[next] !in cfg.options then ConsumeFailed(OptionNotExists)
    else
      var d := cfg.options[cfg.positional[next]];
      if !d.isContainer && Count(entries, Hash(d)) > 0 then Consume(cfg, a, entries, next + 1)
      else if !d.accepts(a) then ConsumeFailed(IncorrectType)
      else Consumed(EntryOf(d, a), if d.isContainer then next else next + 1)
  }

  // ----- The whole command line -----

  datatype Outcome = Rejected(error: Error) | Accepted(ledger: seq<Token>, next: nat)

  /** One turn of the loop: the tokens consumed at |ledger|. */
  function Turn(cfg: Config, argv: seq<string>, ledger: seq<Token>, next: nat): (r: Outcome)
    requires |ledger| < |argv|
    ensures r.Accepted? ==> |ledger| < |r.ledger| <= |argv|
  {
    var current, arg := |ledger|, argv[|ledger|];
    match Matched(arg)
    case None =>
      if |arg| > 1 && arg[0] == '-' && !cfg.allowUnrecognised then Rejected(OptionSyntax)
      else
        (match Consume(cfg, arg, Entries(ledger), next)
         case ConsumeFailed(e) => Rejected(e)
         case Consumed(entry, next') => Accepted(ledger + [Positional(entry)], next')
         case NotConsumed(next') => Accepted(ledger + [Unmatched], next'))
    case Some(desc) =>
      if !desc.grouping && desc.name !in cfg.options && cfg.allowUnrecognised then
        Accepted(ledger + [Unmatched], next)
      else
        match FlagStep(cfg, argv, current, desc)
        case Failed(e) => Rejected(e)
        case Parsed(own, tookNext) =>
          Accepted(ledger + [OptionToken(own)] + if tookNext then [TakenValue] else [], next)
  }

  /** The flags, positionals and unmatched tokens up to `--` or the end. */
  function Scan(cfg: Config, argv: seq<string>, ledger: seq<Token>, next: nat): (r: Outcome)
    requires |ledger| <= |argv|
    ensures r.Accepted? ==> |ledger| <= |r.ledger| <= |argv|
    decreases |argv| - |ledger|
  {
    if |ledger| == |argv| then Accepted(ledger, next)
    else if argv[|ledger|] == "--" then Accepted(ledger + [DoubleDash], next)
    else
      match Turn(cfg, argv, ledger, next)
      case Rejected(e) => Rejected(e)
      case Accepted(ledger', next') => Scan(cfg, argv, ledger', next')
  }

  /** Defaults are parsed for the options that got no value. */
  predicate DefaultsAccepted(cfg: Config, entries: seq<Entry>) {
    forall n :: n in cfg.options ==>
      var d := cfg.options[n];
      d.default.Some? && Count(entries, Hash(d)) == 0 ==> d.accepts(d.default.value)
  }

  /** After `--`: positionals while they last, then unmatched tokens. */
  function Remaining(cfg: Config, argv: seq<string>, ledger: seq<Token>, next: nat): (r: Outcome)
    requires |ledger| <= |argv|
    ensures r.Accepted? ==> |r.ledger| == |argv|
    decreases |argv| - |ledger|
  {
    if |ledger| == |argv| then Accepted(ledger, next)
    else
      match Consume(cfg, argv[|ledger|], Entries(ledger), next)
      case ConsumeFailed(e) => Rejected(e)
      case Consumed(entry, next') => Remaining(cfg, argv, ledger + [Positional(entry)], next')
      case NotConsumed(next') => Accepted(ledger + seq(|argv| - |ledger|, _ => Unmatched), next')
  }

  function Parse(cfg: Config, argv: seq<string>): (r: Outcome)
    requires argv != []
    ensures r.Accepted? ==> |r.ledger| == |argv|
  {
    match Scan(cfg, argv, [Program], 0)
    case Rejected(e) => Rejected(e)
    case Accepted(ledger, next) =>
      if !DefaultsAccepted(cfg, Entries(ledger)) then Rejected(IncorrectType)
      else Remaining(cfg, argv, ledger, next)
  }

  // ----- Accounting -----

  ghost predicate AfterDash(ledger: seq<Token>, i: nat)
    requires i <= |ledger|
  {
    exists j :: 0 <= j < i && ledger[j].DoubleDash?
  }

  /** The entry of the option called `name`, with a value its type accepts. */
  predicate Gives(cfg: Config, name: string, value: string, e: Entry) {
    name in cfg.options && cfg.options[name].accepts(value) && e == EntryOf(cfg.options[name], value)
  }

  /** Without an implicit value, an option named by a flag needs one from the command line. */
  predicate NeedsValue(cfg: Config, name: string) {
    name in cfg.options && cfg.options[name].implicit.None?
  }

  /** The value a letter of a group has: implicit, the rest of the group, or what comes after it. */
  function LetterValue(cfg: Config, s: string, p: nat, after: string): string
    requires p < |s| && [s[p]] in cfg.options
  {
    if !NeedsValue(cfg, [s[p]]) then cfg.options[[s[p]]].implicit.value
    else if p + 1 < |s| then s[p + 1..]
    else after
  }

  /** From position `from` on, only the last letter of the group needs a value. */
  predicate LastNeedsValue(cfg: Config, s: string, from: nat) {
    from < |s| && NeedsValue(cfg, [s[|s| - 1]]) && forall p :: from <= p < |s| - 1 ==> !NeedsValue(cfg, [s[p]])
  }

  /** The flag's value is the next token. */
  predicate TakesNext(cfg: Config, arg: string) {
    match Matched(arg)
    case None => false
    case Some(desc) =>
      if desc.grouping then LastNeedsValue(cfg, desc.name, 0)
      else !desc.setValue && NeedsValue(cfg, desc.name)
  }

  /** The entry of the letter at `p`. */
  predicate LetterGives(cfg: Config, s: string, from: nat, after: string, p: nat, e: Entry) {
    from <= p < |s| && [s[p]] in cfg.options && Gives(cfg, [s[p]], LetterValue(cfg, s, p, after), e)
  }

  /** The letter at `p` of the group needs a value. */
  predicate NeedyLetter(cfg: Config, s: string, p: nat) {
    p < |s| && NeedsValue(cfg, [s[p]])
  }

  /** The letter at `p` has its place, is unrecognised and allowed, or belongs to the last letter's value. */
  predicate LetterCovered(cfg: Config, s: string, places: seq<nat>, p: nat) {
    || p in places
    || (cfg.allowUnrecognised && p < |s| && [s[p]] !in cfg.options)
    || (places != [] && places[|places| - 1] < p && NeedyLetter(cfg, s, places[|places| - 1]))
  }

  /**
   * The entries are those of the letters at `places`, in order, none but the last in need
   * of a value, and every letter from `from` on is covered.
   */
  predicate GroupGives(cfg: Config, s: string, from: nat, after: string, es: seq<Entry>, places: seq<nat>) {
    && |places| == |es|
    && (forall m :: 0 <= m < |es| ==> LetterGives(cfg, s, from, after, places[m], es[m]))
    && (forall m :: 0 <= m < |places| - 1 ==> places[m] < places[m + 1] && !NeedyLetter(cfg, s, places[m]))
    && (forall p :: from <= p < |s| ==> LetterCovered(cfg, s, places, p))
  }

  /** The entries are what the flag at `i` says: its option or letters, and their values. */
  ghost predicate FlagGives(cfg: Config, argv: seq<string>, i: nat, es: seq<Entry>)
    requires i < |argv|
  {
    var after := if i + 1 < |argv| then argv[i + 1] else "";
    (TakesNext(cfg, argv[i]) ==> i + 1 < |argv|) &&
    match Matched(argv[i])
    case None => false
    case Some(desc) =>
      if desc.grouping then exists places :: GroupGives(cfg, desc.name, 0, after, es, places)
      else
        && |es| == 1 && desc.name in cfg.options
        && Gives(cfg, desc.name,
                 if desc.setValue then desc.value
                 else if NeedsValue(cfg, desc.name) then after
                 else cfg.options[desc.name].implicit.value,
                 es[0])
  }

  /** A positional option that takes one value has one already. */
  predicate Filled(cfg: Config, name: string, entries: seq<Entry>) {
    name in cfg.options && !cfg.options[name].isContainer && Count(entries, Hash(cfg.options[name])) > 0
  }

  ghost predicate FilledUpTo(cfg: Config, entries: seq<Entry>, n: nat) {
    n <= |cfg.positional| && forall j :: 0 <= j < n ==> Filled(cfg, cfg.positional[j], entries)
  }

  /** The `j`-th positional option is the first with room after `before`, and the entry is its. */
  ghost predicate FillsAt(cfg: Config, before: seq<Entry>, e: Entry, j: nat) {
    && FilledUpTo(cfg, before, j) && j < |cfg.positional|
    && !Filled(cfg, cfg.positional[j], before) && Gives(cfg, cfg.positional[j], e.value, e)
  }

  ghost predicate PositionalEntry(cfg: Config, before: seq<Entry>, e: Entry) {
    exists j :: FillsAt(cfg, before, e, j)
  }

  /** No flag, no `--`, and not refused for a leading dash. */
  predicate Plain(cfg: Config, arg: string) {
    arg != "--" && Matched(arg).None? && (cfg.allowUnrecognised || |arg| <= 1 || arg[0] != '-')
  }

  /** A long flag that no option has and that may stay. */
  predicate Unrecognised(cfg: Config, arg: string) {
    && cfg.allowUnrecognised && Matched(arg).Some?
    && !Matched(arg).value.grouping && Matched(arg).value.name !in cfg.options
  }

  /** The token before `i` is a flag whose value is the next token. */
  predicate Awaited(cfg: Config, argv: seq<string>, ledger: seq<Token>, i: nat)
    requires i <= |ledger| <= |argv|
  {
    i > 0 && ledger[i - 1].OptionToken? && TakesNext(cfg, argv[i - 1])
  }

  /** Each class means what it says about the token at `i`. */
  ghost predicate TokenOk(cfg: Config, argv: seq<string>, ledger: seq<Token>, i: nat)
    requires i < |ledger| <= |argv|
  {
    (ledger[i].TakenValue? <==> Awaited(cfg, argv, ledger, i)) &&
    match ledger[i]
    case Program => i == 0
    case OptionToken(es) =>
      i > 0 && !AfterDash(ledger, i) && FlagGives(cfg, argv, i, es) && (!cfg.allowUnrecognised ==> es != [])
    case TakenValue =>
      i > 0 && !AfterDash(ledger, i) &&
      (ledger[i - 1].OptionToken? ==>
         var es := ledger[i - 1].entries; es != [] && es[|es| - 1].value == argv[i])
    case DoubleDash => i > 0 && !AfterDash(ledger, i) && argv[i] == "--"
    case Positional(e) =>
      && i > 0 && e.value == argv[i] && PositionalEntry(cfg, Entries(ledger[..i]), e)
      && (AfterDash(ledger, i) || Plain(cfg, argv[i]))
    case Unmatched =>
      && i > 0
      && (|| (!AfterDash(ledger, i) && Unrecognised(cfg, argv[i]))
          || ((AfterDash(ledger, i) || Plain(cfg, argv[i])) &&
              FilledUpTo(cfg, Entries(ledger[..i]), |cfg.positional|)))
  }

  ghost predicate LedgerOk(cfg: Config, argv: seq<string>, ledger: seq<Token>) {
    && 0 < |ledger| <= |argv|
    && forall i :: 0 <= i < |ledger| ==> TokenOk(cfg, argv, ledger, i)
  }

  /** Tokens already classed stay as they are when more are classed. */
  lemma AppendKeepsLedger(cfg: Config, argv: seq<string>, ledger: seq<Token>, t: Token)
    requires LedgerOk(cfg, argv, ledger) && |ledger| < |argv|
    requires TokenOk(cfg, argv, ledger + [t], |ledger|)
    ensures LedgerOk(cfg, argv, ledger + [t])
    ensures AfterDash(ledger + [t], |ledger| + 1) <==> AfterDash(ledger, |ledger|) || t.DoubleDash?
  {
    var ledger' := ledger + [t];
    hide FlagGives;
    hide PositionalEntry;
    hide TakesNext;
    forall i | 0 <= i < |ledger| ensures TokenOk(cfg, argv, ledger', i) {
      AfterDashPrefix(ledger, t, i);
      assert TokenOk(cfg, argv, ledger, i);
      assert ledger'[..i] == ledger[..i];
    }
    AfterDashPrefix(ledger, t, |ledger|);
    assert ledger'[|ledger|] == t;
  }

  lemma AfterDashPrefix(ledger: seq<Token>, t: Token, i: nat)
    requires i <= |ledger|
    ensures AfterDash(ledger + [t], i) <==> AfterDash(ledger, i)
  {
    assert forall j :: 0 <= j < i ==> (ledger + [t])[j] == ledger[j];
  }

  lemma {:induction false} CountGrows(entries: seq<Entry>, more: seq<Entry>, hash: string)
    ensures Count(entries + more, hash) >= Count(entries, hash)
    decreases |more|
  {
    if more == [] {
      assert entries + more == entries;
    } else {
      CountGrows(entries, more[..|more| - 1], hash);
      assert (entries + more)[..|entries + more| - 1] == entries + more[..|more| - 1];
    }
  }

  /** What is filled stays filled. */
  lemma StillFilled(cfg: Config, entries: seq<Entry>, more: seq<Entry>, n: nat)
    requires FilledUpTo(cfg, entries, n)
    ensures FilledUpTo(cfg, entries + more, n)
  {
    hide Count;
    forall j | 0 <= j < n ensures Filled(cfg, cfg.positional[j], entries + more) {
      assert Filled(cfg, cfg.positional[j], entries);
      CountGrows(entries, more, Hash(cfg.options[cfg.positional[j]]));
    }
  }

  lemma FillsAtOnce(cfg: Config, before: seq<Entry>, e: Entry, j: nat, next: nat)
    requires FillsAt(cfg, before, e, j) && FilledUpTo(cfg, before, next)
    ensures next <= j && (next < |cfg.positional| && !Filled(cfg, cfg.positional[next], before) ==> j == next)
  {
    hide Filled;
    hide Gives;
  }

  lemma NowFilled(cfg: Config, entries: seq<Entry>, next: nat, a: string)
    requires FilledUpTo(cfg, entries, next) && next < |cfg.positional| && cfg.positional[next] in cfg.options
    ensures var d := cfg.options[cfg.positional[next]];
            FilledUpTo(cfg, entries + [EntryOf(d, a)], if d.isContainer then next else next + 1)
  {
    var d := cfg.options[cfg.positional[next]];
    var entries' := entries + [EntryOf(d, a)];
    assert entries'[..|entries'| - 1] == entries;
    StillFilled(cfg, entries, [EntryOf(d, a)], next);
  }

  /**
   * With everything before `next` filled, a token fills the first positional option that
   * has room, or there is none and all are filled.
   */
  lemma {:induction false} ConsumeExactly(cfg: Config, a: string, entries: seq<Entry>, next: nat)
    requires FilledUpTo(cfg, entries, next)
    ensures var c := Consume(cfg, a, entries, next);
            && (c.Consumed? ==>
                  && c.entry.value == a && PositionalEntry(cfg, entries, c.entry)
                  && FilledUpTo(cfg, entries + [c.entry], c.next))
            && (c.NotConsumed? <==> FilledUpTo(cfg, entries, |cfg.positional|))
            && (c.NotConsumed? ==> c.next == |cfg.positional|)
            && forall e :: PositionalEntry(cfg, entries, e) && e.value == a ==> c.Consumed? && c.entry == e
    decreases |cfg.positional| - next
  {
    hide Count;
    forall e | PositionalEntry(cfg, entries, e) && e.value == a
      ensures next < |cfg.positional|
      ensures !Filled(cfg, cfg.positional[next], entries) ==> FillsAt(cfg, entries, e, next)
    {
      var j :| FillsAt(cfg, entries, e, j);
      FillsAtOnce(cfg, entries, e, j, next);
    }
    if next == |cfg.positional| {
    } else {
      var name := cfg.positional[next];
      if Filled(cfg, name, entries) {
        ConsumeExactly(cfg, a, entries, next + 1);
      } else if name in cfg.options && cfg.options[name].accepts(a) {
        assert FillsAt(cfg, entries, EntryOf(cfg.options[name], a), next);
        NowFilled(cfg, entries, next, a);
      }
    }
  }

  /** A group's entries are those of its letters, in order. */
  lemma {:induction false} GroupEntries(cfg: Config, argv: seq<string>, current: nat, s: string, i: nat)
    returns (places: seq<nat>)
    requires i <= |s|
    ensures var step := ParseGroup(cfg, argv, current, s, i);
            var after := if current + 1 < |argv| then argv[current + 1] else "";
            step.Parsed? ==>
              && GroupGives(cfg, s, i, after, step.entries, places)
              && (step.tookNext <==> LastNeedsValue(cfg, s, i))
              && (step.tookNext ==> step.entries != [] && step.entries[|step.entries| - 1].value == argv[current + 1])
              && (!cfg.allowUnrecognised && i < |s| ==> step.entries != [])
    decreases |s| - i
  {
    hide GroupGives;
    hide Gives;
    places := [];
    var after := if current + 1 < |argv| then argv[current + 1] else "";
    if i == |s| {
      NoLetter(cfg, s, after);
    } else if [s[i]] in cfg.options {
      var d := cfg.options[[s[i]]];
      if i + 1 < |s| && d.implicit.Some? {
        places := GroupEntries(cfg, argv, current, s, i + 1);
        var rest := ParseGroup(cfg, argv, current, s, i + 1);
        if rest.Parsed? && d.accepts(d.implicit.value) {
          FirstLetter(cfg, s, i, after, rest.entries, places);
        }
        places := [i] + places;
      } else {
        places := [i];
        if d.accepts(LetterValue(cfg, s, i, after)) { OnlyLetter(cfg, s, i, after); }
      }
    } else if cfg.allowUnrecognised {
      places := GroupEntries(cfg, argv, current, s, i + 1);
      var rest := ParseGroup(cfg, argv, current, s, i + 1);
      if rest.Parsed? { SkippedLetter(cfg, s, i, after, rest.entries, places); }
    }
  }

  lemma NoLetter(cfg: Config, s: string, after: string)
    ensures GroupGives(cfg, s, |s|, after, [], [])
  {
  }

  /** A letter that takes a value, or the last one. */
  lemma OnlyLetter(cfg: Config, s: string, i: nat, after: string)
    requires i < |s| && [s[i]] in cfg.options && (i + 1 == |s| || NeedsValue(cfg, [s[i]]))
    requires cfg.options[[s[i]]].accepts(LetterValue(cfg, s, i, after))
    ensures GroupGives(cfg, s, i, after, [EntryOf(cfg.options[[s[i]]], LetterValue(cfg, s, i, after))], [i])
  {
    forall p | i <= p < |s| ensures LetterCovered(cfg, s, [i], p) {
      assert p == i ==> [i][0] == p;
    }
  }

  lemma SkippedLetter(cfg: Config, s: string, i: nat, after: string, es: seq<Entry>, places: seq<nat>)
    requires i < |s| && [s[i]] !in cfg.options && cfg.allowUnrecognised
    requires GroupGives(cfg, s, i + 1, after, es, places)
    ensures GroupGives(cfg, s, i, after, es, places)
  {
    hide Gives;
    hide NeedyLetter;
    forall m | 0 <= m < |es| ensures LetterGives(cfg, s, i, after, places[m], es[m]) {
      assert LetterGives(cfg, s, i + 1, after, places[m], es[m]);
    }
  }

  /** A letter with an implicit value before a group. */
  lemma FirstLetter(cfg: Config, s: string, i: nat, after: string, es: seq<Entry>, places: seq<nat>)
    requires i + 1 < |s| && [s[i]] in cfg.options && !NeedsValue(cfg, [s[i]])
    requires GroupGives(cfg, s, i + 1, after, es, places)
    requires cfg.options[[s[i]]].accepts(cfg.options[[s[i]]].implicit.value)
    ensures var d := cfg.options[[s[i]]];
            GroupGives(cfg, s, i, after, [EntryOf(d, d.implicit.value)] + es, [i] + places)
  {
    hide NeedyLetter;
    hide LetterCovered;
    hide Gives;
    hide LetterValue;
    var d := cfg.options[[s[i]]];
    var es', places' := [EntryOf(d, d.implicit.value)] + es, [i] + places;
    assert LetterGives(cfg, s, i, after, i, es'[0]) && !NeedyLetter(cfg, s, i) by { FirstGives(cfg, s, i, after); }
    forall m | 0 <= m < |es'| ensures LetterGives(cfg, s, i, after, places'[m], es'[m]) {
      if m > 0 {
        assert LetterGives(cfg, s, i + 1, after, places[m - 1], es[m - 1]);
      }
    }
    forall m | 0 <= m < |places'| - 1 ensures places'[m] < places'[m + 1] && !NeedyLetter(cfg, s, places'[m]) {
      if m > 0 {
        assert places'[m] == places[m - 1] && places'[m + 1] == places[m];
      } else {
        assert LetterGives(cfg, s, i + 1, after, places[0], es[0]);
      }
    }
    forall p | i <= p < |s| ensures LetterCovered(cfg, s, places', p) {
      StillCovered(cfg, s, places, i, p);
    }
  }

  lemma FirstGives(cfg: Config, s: string, i: nat, after: string)
    requires i < |s| && [s[i]] in cfg.options && !NeedsValue(cfg, [s[i]])
    requires cfg.options[[s[i]]].accepts(cfg.options[[s[i]]].implicit.value)
    ensures var d := cfg.options[[s[i]]];
            LetterGives(cfg, s, i, after, i, EntryOf(d, d.implicit.value)) && !NeedyLetter(cfg, s, i)
  {
  }

  lemma StillCovered(cfg: Config, s: string, places: seq<nat>, i: nat, p: nat)
    requires p == i || LetterCovered(cfg, s, places, p)
    ensures LetterCovered(cfg, s, [i] + places, p)
  {
    hide NeedyLetter;
    var places' := [i] + places;
    if p == i {
      assert places'[0] == p;
    } else if p in places {
      var m :| 0 <= m < |places| && places[m] == p;
      assert places'[m + 1] == p;
    } else if places != [] {
      assert places'[|places'| - 1] == places[|places| - 1];
    }
  }

  /** A truthful ledger, with no flag waiting and the positional options before `next` filled. */
  ghost predicate Going(cfg: Config, argv: seq<string>, ledger: seq<Token>, next: nat) {
    && LedgerOk(cfg, argv, ledger) && !Awaited(cfg, argv, ledger, |ledger|)
    && FilledUpTo(cfg, Entries(ledger), next)
  }

  lemma AppendKeepsGoing(cfg: Config, argv: seq<string>, ledger: seq<Token>, t: Token, next: nat)
    requires Going(cfg, argv, ledger, next) && |ledger| < |argv|
    requires TokenOk(cfg, argv, ledger + [t], |ledger|)
    ensures FilledUpTo(cfg, Entries(ledger + [t]), next)
    ensures LedgerOk(cfg, argv, ledger + [t])
    ensures t.OptionToken? || Going(cfg, argv, ledger + [t], next)
    ensures AfterDash(ledger + [t], |ledger| + 1) <==> AfterDash(ledger, |ledger|) || t.DoubleDash?
  {
    hide TokenOk;
    hide FilledUpTo;
    hide Entries;
    AppendKeepsLedger(cfg, argv, ledger, t);
    LedgerSnoc(argv, ledger, t);
    StillFilled(cfg, Entries(ledger), Contribution(t), next);
  }

  lemma PlainKeepsGoing(cfg: Config, argv: seq<string>, ledger: seq<Token>, next: nat)
    requires Going(cfg, argv, ledger, next) && |ledger| < |argv|
    requires AfterDash(ledger, |ledger|) || Plain(cfg, argv[|ledger|])
    ensures var c, n := Consume(cfg, argv[|ledger|], Entries(ledger), next), |ledger| + 1;
            && (c.Consumed? ==>
                  && Going(cfg, argv, ledger + [Positional(c.entry)], c.next)
                  && (AfterDash(ledger + [Positional(c.entry)], n) <==> AfterDash(ledger, |ledger|)))
            && (c.NotConsumed? ==>
                  && Going(cfg, argv, ledger + [Unmatched], c.next) && c.next == |cfg.positional|
                  && (AfterDash(ledger + [Unmatched], n) <==> AfterDash(ledger, |ledger|)))
  {
    var c := Consume(cfg, argv[|ledger|], Entries(ledger), next);
    ConsumeExactly(cfg, argv[|ledger|], Entries(ledger), next);
    hide Consume;
    hide FilledUpTo;
    hide Plain;
    hide Entries;
    hide PositionalEntry;
    if c.Consumed? {
      var t := Positional(c.entry);
      AfterDashPrefix(ledger, t, |ledger|);
      assert (ledger + [t])[..|ledger|] == ledger;
      AppendKeepsGoing(cfg, argv, ledger, t, next);
      LedgerSnoc(argv, ledger, t);
    } else if c.NotConsumed? {
      AfterDashPrefix(ledger, Unmatched, |ledger|);
      assert (ledger + [Unmatched])[..|ledger|] == ledger;
      AppendKeepsGoing(cfg, argv, ledger, Unmatched, c.next);
    }
  }

  lemma TurnKeepsLedger(cfg: Config, argv: seq<string>, ledger: seq<Token>, next: nat)
    requires Going(cfg, argv, ledger, next) && |ledger| < |argv| && !AfterDash(ledger, |ledger|)
    requires argv[|ledger|] != "--"
    ensures var r := Turn(cfg, argv, ledger, next);
            r.Accepted? ==> Going(cfg, argv, r.ledger, r.next) && !AfterDash(r.ledger, |r.ledger|)
  {
    hide Matched;
    hide FlagStep;
    hide Consume;
    hide FlagGives;
    hide FilledUpTo;
    hide TakesNext;
    hide Entries;
    var current, arg := |ledger|, argv[|ledger|];
    if Matched(arg).None? {
      if Plain(cfg, arg) { PlainKeepsGoing(cfg, argv, ledger, next); }
    } else if Unrecognised(cfg, arg) {
      AfterDashPrefix(ledger, Unmatched, current);
      AppendKeepsGoing(cfg, argv, ledger, Unmatched, next);
    } else {
      var step := FlagStep(cfg, argv, current, Matched(arg).value);
      if step.Parsed? {
        FlagEntries(cfg, argv, current, Matched(arg).value);
        FlagKeepsLedger(cfg, argv, ledger, next, step.entries, step.tookNext);
      }
    }
  }

  lemma FlagKeepsLedger(cfg: Config, argv: seq<string>, ledger: seq<Token>, next: nat, es: seq<Entry>, tookNext: bool)
    requires Going(cfg, argv, ledger, next) && |ledger| < |argv| && !AfterDash(ledger, |ledger|)
    requires FlagGives(cfg, argv, |ledger|, es) && (!cfg.allowUnrecognised ==> es != [])
    requires tookNext <==> TakesNext(cfg, argv[|ledger|])
    requires tookNext ==> |ledger| + 1 < |argv| && es != [] && es[|es| - 1].value == argv[|ledger| + 1]
    ensures var ledger' := ledger + [OptionToken(es)] + if tookNext then [TakenValue] else [];
            Going(cfg, argv, ledger', next) && !AfterDash(ledger', |ledger'|)
  {
    hide FlagGives;
    hide TakesNext;
    hide LedgerOk;
    hide FilledUpTo;
    hide Entries;
    var own := OptionToken(es);
    NotEmpty(cfg, argv, ledger);
    AfterDashPrefix(ledger, own, |ledger|);
    AppendKeepsGoing(cfg, argv, ledger, own, next);
    if tookNext {
      AfterDashPrefix(ledger + [own], TakenValue, |ledger| + 1);
      AppendKeepsLedger(cfg, argv, ledger + [own], TakenValue);
      LedgerSnoc(argv, ledger + [own], TakenValue);
      assert Entries(ledger + [own]) + [] == Entries(ledger + [own]);
    } else {
      assert ledger + [own] + [] == ledger + [own];
    }
  }

  lemma NotEmpty(cfg: Config, argv: seq<string>, ledger: seq<Token>)
    requires LedgerOk(cfg, argv, ledger)
    ensures 0 < |ledger| <= |argv|
  {
  }

  /** What a flag sets is what it says, and whether it took the next token can be seen from it. */
  lemma FlagEntries(cfg: Config, argv: seq<string>, current: nat, desc: ArguDesc)
    requires current < |argv| && Matched(argv[current]) == Some(desc)
    ensures var step := FlagStep(cfg, argv, current, desc);
            step.Parsed? ==>
              && FlagGives(cfg, argv, current, step.entries)
              && (step.tookNext <==> TakesNext(cfg, argv[current]))
              && (step.tookNext ==> step.entries != [] && step.entries[|step.entries| - 1].value == argv[current + 1])
              && (!cfg.allowUnrecognised ==> step.entries != [])
  {
    hide ParseGroup;
    hide GroupGives;
    hide LastNeedsValue;
    if desc.grouping {
      var places := GroupEntries(cfg, argv, current, desc.name, 0);
    }
  }

  lemma {:induction false} ScanKeepsLedger(cfg: Config, argv: seq<string>, ledger: seq<Token>, next: nat)
    requires Going(cfg, argv, ledger, next) && !AfterDash(ledger, |ledger|)
    ensures var r := Scan(cfg, argv, ledger, next);
            r.Accepted? ==>
              && Going(cfg, argv, r.ledger, r.next)
              && (|r.ledger| == |argv| || AfterDash(r.ledger, |r.ledger|))
    decreases |argv| - |ledger|
  {
    hide Turn;
    hide FlagGives;
    hide TakesNext;
    hide FilledUpTo;
    hide Entries;
    if |ledger| == |argv| {
    } else {
      if argv[|ledger|] == "--" {
        AfterDashPrefix(ledger, DoubleDash, |ledger|);
        AppendKeepsGoing(cfg, argv, ledger, DoubleDash, next);
      } else {
        TurnKeepsLedger(cfg, argv, ledger, next);
        var r := Turn(cfg, argv, ledger, next);
        if r.Accepted? { ScanKeepsLedger(cfg, argv, r.ledger, r.next); }
      }
    }
  }

  lemma {:induction false} UnmatchedTail(cfg: Config, argv: seq<string>, ledger: seq<Token>, n: nat)
    requires Going(cfg, argv, ledger, |cfg.positional|) && |ledger| + n <= |argv| && AfterDash(ledger, |ledger|)
    ensures LedgerOk(cfg, argv, ledger + seq(n, _ => Unmatched))
    decreases n
  {
    hide FilledUpTo;
    hide Entries;
    if n == 0 {
      assert ledger + seq(n, _ => Unmatched) == ledger;
    } else {
      AfterDashPrefix(ledger, Unmatched, |ledger|);
      assert (ledger + [Unmatched])[..|ledger|] == ledger;
      AppendKeepsGoing(cfg, argv, ledger, Unmatched, |cfg.positional|);
      UnmatchedTail(cfg, argv, ledger + [Unmatched], n - 1);
      assert ledger + seq(n, _ => Unmatched) == ledger + [Unmatched] + seq(n - 1, _ => Unmatched);
    }
  }

  lemma {:induction false} RemainingKeepsLedger(cfg: Config, argv: seq<string>, ledger: seq<Token>, next: nat)
    requires Going(cfg, argv, ledger, next) && (|ledger| == |argv| || AfterDash(ledger, |ledger|))
    ensures var r := Remaining(cfg, argv, ledger, next); r.Accepted? ==> LedgerOk(cfg, argv, r.ledger)
    decreases |argv| - |ledger|
  {
    hide Consume;
    hide TokenOk;
    hide FilledUpTo;
    hide Entries;
    if |ledger| == |argv| {
    } else {
      var c := Consume(cfg, argv[|ledger|], Entries(ledger), next);
      PlainKeepsGoing(cfg, argv, ledger, next);
      if c.Consumed? {
        RemainingKeepsLedger(cfg, argv, ledger + [Positional(c.entry)], c.next);
      } else if c.NotConsumed? {
        ConsumeExactly(cfg, argv[|ledger|], Entries(ledger), next);
        UnmatchedTail(cfg, argv, ledger, |argv| - |ledger|);
      }
    }
  }

  lemma Start(cfg: Config, argv: seq<string>)
    requires argv != []
    ensures Going(cfg, argv, [Program], 0) && !AfterDash([Program], 1)
  {
  }

  /** Every accepted command line has a ledger that classes each token exactly once and truthfully. */
  lemma Accounting(cfg: Config, argv: seq<string>)
    requires argv != []
    ensures var r := Parse(cfg, argv);
            r.Accepted? ==> |r.ledger| == |argv| && LedgerOk(cfg, argv, r.ledger)
  {
    hide Scan;
    hide Remaining;
    Start(cfg, argv);
    ScanKeepsLedger(cfg, argv, [Program], 0);
    var r := Scan(cfg, argv, [Program], 0);
    if r.Accepted? { RemainingKeepsLedger(cfg, argv, r.ledger, r.next); }
  }
}
