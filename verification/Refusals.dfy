/** What each refusal of a command line says, and what its counts and leftovers are. */
module Refusals {
  import opened Text
  import opened Options
  import opened CommandLines

  // ----- The leftovers and the counts -----

  /** The leftover arguments are the unmatched ones, in the order of the command line. */
  lemma {:induction false} UnmatchedInOrder(argv: seq<string>, ledger: seq<Token>, i: nat)
    requires i < |ledger| <= |argv|
    ensures UnmatchedOf(argv, ledger[..i]) + (if ledger[i].Unmatched? then [argv[i]] else []) <=
            UnmatchedOf(argv, ledger)
    decreases |ledger|
  {
    var n := |ledger| - 1;
    if i == n {
    } else {
      UnmatchedInOrder(argv, ledger[..n], i);
      assert ledger[..n][..i] == ledger[..i];
    }
  }

  ghost function UnmatchedPlaces(ledger: seq<Token>): set<int> {
    set i | 0 <= i < |ledger| && ledger[i].Unmatched?
  }

  lemma PlacesSnoc(ledger: seq<Token>, t: Token)
    ensures UnmatchedPlaces(ledger + [t]) == UnmatchedPlaces(ledger) + if t.Unmatched? then {|ledger|} else {}
  {
    var l := ledger + [t];
    forall i | 0 <= i < |ledger| ensures l[i] == ledger[i] {
    }
    assert l[|ledger|] == t;
  }

  lemma {:induction false} UnmatchedAreAll(argv: seq<string>, ledger: seq<Token>)
    requires |ledger| <= |argv|
    ensures |UnmatchedOf(argv, ledger)| == |UnmatchedPlaces(ledger)|
  {
    if ledger == [] {
      assert UnmatchedPlaces(ledger) == {};
    } else {
      var front, t := ledger[..|ledger| - 1], ledger[|ledger| - 1];
      assert ledger == front + [t];
      UnmatchedAreAll(argv, front);
      PlacesSnoc(front, t);
    }
  }

  ghost function Carriers(entries: seq<Entry>, hash: string): set<int> {
    set i | 0 <= i < |entries| && entries[i].hash == hash
  }

  lemma CarriersSnoc(entries: seq<Entry>, e: Entry, hash: string)
    ensures Carriers(entries + [e], hash) == Carriers(entries, hash) + if e.hash == hash then {|entries|} else {}
  {
    var l := entries + [e];
    forall i | 0 <= i < |entries| ensures l[i] == entries[i] {
    }
    assert l[|entries|] == e;
  }

  /** An option's count is how many entries carry its hash. */
  lemma {:induction false} CountIsNumber(entries: seq<Entry>, hash: string)
    ensures Count(entries, hash) == |Carriers(entries, hash)|
  {
    if entries == [] {
      assert Carriers(entries, hash) == {};
    } else {
      var front, e := entries[..|entries| - 1], entries[|entries| - 1];
      assert entries == front + [e];
      CountIsNumber(front, hash);
      CarriersSnoc(front, e, hash);
      assert |entries| - 1 !in Carriers(front, hash);
    }
  }

  // ----- Refusals -----

  function After(argv: seq<string>, i: nat): string {
    if i + 1 < |argv| then argv[i + 1] else ""
  }

  /** The letter at `p` has a value that is not of its type. */
  predicate LetterRefused(cfg: Config, s: string, p: int, after: string) {
    0 <= p < |s| && [s[p]] in cfg.options && !cfg.options[[s[p]]].accepts(LetterValue(cfg, s, p, after))
  }

  predicate LetterUnknown(cfg: Config, s: string, p: int) {
    0 <= p < |s| && [s[p]] !in cfg.options
  }

  /** The flag names an option that is not registered; strictly, one letter of a group is enough. */
  ghost predicate FlagUnknown(cfg: Config, desc: ArguDesc) {
    !cfg.allowUnrecognised &&
    if desc.grouping then exists p :: LetterUnknown(cfg, desc.name, p) else desc.name !in cfg.options
  }

  /** The value of a flag is not of its type. */
  ghost predicate FlagRefused(cfg: Config, desc: ArguDesc, after: string) {
    if desc.grouping then exists p :: LetterRefused(cfg, desc.name, p, after)
    else
      && desc.name in cfg.options
      && !cfg.options[desc.name].accepts(
           if desc.setValue then desc.value
           else if NeedsValue(cfg, desc.name) then after
           else cfg.options[desc.name].implicit.value)
  }

  /** The first positional option with room is `j`. */
  ghost predicate FirstWithRoom(cfg: Config, before: seq<Entry>, j: int) {
    0 <= j < |cfg.positional| && FilledUpTo(cfg, before, j) && !Filled(cfg, cfg.positional[j], before)
  }

  /** Why the argument behind a truthful ledger is refused. */
  ghost predicate Stumbles(cfg: Config, argv: seq<string>, ledger: seq<Token>, e: Error)
    requires |ledger| < |argv|
  {
    var i, arg := |ledger|, argv[|ledger|];
    var flag := !AfterDash(ledger, i) && Matched(arg).Some?;
    var plain := AfterDash(ledger, i) || Plain(cfg, arg);
    match e
    case OptionSyntax =>
      !AfterDash(ledger, i) && arg != "--" && Matched(arg).None? && |arg| > 1 && arg[0] == '-' && !cfg.allowUnrecognised
    case OptionNotExists =>
      || (flag && FlagUnknown(cfg, Matched(arg).value))
      || (plain && exists j :: FirstWithRoom(cfg, Entries(ledger), j) && cfg.positional[j] !in cfg.options)
    case MissingArgument => flag && TakesNext(cfg, arg) && i + 1 == |argv|
    case IncorrectType =>
      || (flag && FlagRefused(cfg, Matched(arg).value, After(argv, i)))
      || (plain && exists j :: FirstWithRoom(cfg, Entries(ledger), j) && cfg.positional[j] in cfg.options &&
                               !cfg.options[cfg.positional[j]].accepts(arg))
  }

  lemma {:induction false} GroupStumbles(cfg: Config, argv: seq<string>, current: nat, s: string, i: nat)
    requires i <= |s| && current < |argv| && ParseGroup(cfg, argv, current, s, i).Failed?
    ensures var e := ParseGroup(cfg, argv, current, s, i).error;
            && (e.OptionNotExists? ==> !cfg.allowUnrecognised && exists p :: LetterUnknown(cfg, s, p))
            && (e.MissingArgument? ==> LastNeedsValue(cfg, s, i) && current + 1 == |argv|)
            && (e.IncorrectType? ==> exists p :: LetterRefused(cfg, s, p, After(argv, current)))
            && !e.OptionSyntax?
    decreases |s| - i
  {
    if i == |s| {
    } else if [s[i]] !in cfg.options {
      assert LetterUnknown(cfg, s, i);
      if cfg.allowUnrecognised { GroupStumbles(cfg, argv, current, s, i + 1); }
    } else {
      var d := cfg.options[[s[i]]];
      var v := LetterValue(cfg, s, i, After(argv, current));
      if i + 1 < |s| && d.implicit.Some? && d.accepts(d.implicit.value) {
        GroupStumbles(cfg, argv, current, s, i + 1);
      } else {
        assert !d.accepts(v) ==> LetterRefused(cfg, s, i, After(argv, current));
      }
    }
  }

  lemma FlagStumbles(cfg: Config, argv: seq<string>, current: nat, desc: ArguDesc)
    requires current < |argv| && Matched(argv[current]) == Some(desc)
    requires FlagStep(cfg, argv, current, desc).Failed?
    requires desc.grouping || desc.name in cfg.options || !cfg.allowUnrecognised
    ensures var e := FlagStep(cfg, argv, current, desc).error;
            && (e.OptionNotExists? ==> FlagUnknown(cfg, desc))
            && (e.MissingArgument? ==> TakesNext(cfg, argv[current]) && current + 1 == |argv|)
            && (e.IncorrectType? ==> FlagRefused(cfg, desc, After(argv, current)))
            && !e.OptionSyntax?
  {
    hide Matched;
    hide ParseGroup;
    if desc.grouping { GroupStumbles(cfg, argv, current, desc.name, 0); }
  }

  lemma {:induction false} ConsumeStumbles(cfg: Config, a: string, entries: seq<Entry>, next: nat)
    requires FilledUpTo(cfg, entries, next) && Consume(cfg, a, entries, next).ConsumeFailed?
    ensures var e := Consume(cfg, a, entries, next).error;
            && (e.OptionNotExists? ==> exists j :: FirstWithRoom(cfg, entries, j) && cfg.positional[j] !in cfg.options)
            && (e.IncorrectType? ==> exists j :: FirstWithRoom(cfg, entries, j) && cfg.positional[j] in cfg.options &&
                                       !cfg.options[cfg.positional[j]].accepts(a))
            && (e.OptionNotExists? || e.IncorrectType?)
    decreases |cfg.positional| - next
  {
    hide Count;
    if next == |cfg.positional| {
    } else if Filled(cfg, cfg.positional[next], entries) {
      ConsumeStumbles(cfg, a, entries, next + 1);
    } else {
      assert FirstWithRoom(cfg, entries, next);
    }
  }

  lemma TurnStumbles(cfg: Config, argv: seq<string>, ledger: seq<Token>, next: nat)
    requires Going(cfg, argv, ledger, next) && |ledger| < |argv| && !AfterDash(ledger, |ledger|)
    requires argv[|ledger|] != "--" && Turn(cfg, argv, ledger, next).Rejected?
    ensures Stumbles(cfg, argv, ledger, Turn(cfg, argv, ledger, next).error)
  {
    hide Matched;
    hide FlagStep;
    hide Consume;
    hide FilledUpTo;
    hide TakesNext;
    hide Entries;
    hide LedgerOk;
    hide FlagRefused;
    hide FlagUnknown;
    hide FirstWithRoom;
    var arg := argv[|ledger|];
    if Matched(arg).None? {
      if Plain(cfg, arg) { ConsumeStumbles(cfg, arg, Entries(ledger), next); }
    } else {
      FlagStumbles(cfg, argv, |ledger|, Matched(arg).value);
    }
  }

  lemma {:induction false} ScanStumbles(cfg: Config, argv: seq<string>, ledger: seq<Token>, next: nat)
    returns (l: seq<Token>)
    requires Going(cfg, argv, ledger, next) && !AfterDash(ledger, |ledger|) && Scan(cfg, argv, ledger, next).Rejected?
    ensures LedgerOk(cfg, argv, l) && |l| < |argv| && Stumbles(cfg, argv, l, Scan(cfg, argv, ledger, next).error)
    decreases |argv| - |ledger|
  {
    hide Turn;
    hide Stumbles;
    hide LedgerOk;
    hide Awaited;
    hide FilledUpTo;
    NotEmpty(cfg, argv, ledger);
    var r := Turn(cfg, argv, ledger, next);
    if r.Rejected? {
      TurnStumbles(cfg, argv, ledger, next);
      l := ledger;
    } else {
      TurnKeepsLedger(cfg, argv, ledger, next);
      l := ScanStumbles(cfg, argv, r.ledger, r.next);
    }
  }

  lemma {:induction false} RemainingStumbles(cfg: Config, argv: seq<string>, ledger: seq<Token>, next: nat)
    returns (l: seq<Token>)
    requires Going(cfg, argv, ledger, next) && (|ledger| == |argv| || AfterDash(ledger, |ledger|))
    requires Remaining(cfg, argv, ledger, next).Rejected?
    ensures LedgerOk(cfg, argv, l) && |l| < |argv| && Stumbles(cfg, argv, l, Remaining(cfg, argv, ledger, next).error)
    decreases |argv| - |ledger|
  {
    hide Consume;
    hide LedgerOk;
    hide Awaited;
    hide FilledUpTo;
    hide Entries;
    hide FirstWithRoom;
    NotEmpty(cfg, argv, ledger);
    var c := Consume(cfg, argv[|ledger|], Entries(ledger), next);
    if c.ConsumeFailed? {
      ConsumeStumbles(cfg, argv[|ledger|], Entries(ledger), next);
      l := ledger;
    } else {
      hide Stumbles;
      PlainKeepsGoing(cfg, argv, ledger, next);
      l := RemainingStumbles(cfg, argv, ledger + [Positional(c.entry)], c.next);
    }
  }

  /**
   * A refusal tells the truth: behind a truthful ledger of the arguments before it there is one
   * with the fault that the error names, or a default that is needed is not of its type.
   */
  lemma RefusalMeans(cfg: Config, argv: seq<string>) returns (ledger: seq<Token>)
    requires argv != [] && Parse(cfg, argv).Rejected?
    ensures LedgerOk(cfg, argv, ledger)
    ensures var e := Parse(cfg, argv).error;
            || (|ledger| < |argv| && Stumbles(cfg, argv, ledger, e))
            || (e.IncorrectType? && !DefaultsAccepted(cfg, Entries(ledger)))
  {
    hide Scan;
    hide Remaining;
    hide DefaultsAccepted;
    hide Entries;
    hide LedgerOk;
    hide Stumbles;
    hide Awaited;
    hide FilledUpTo;
    Start(cfg, argv);
    var r := Scan(cfg, argv, [Program], 0);
    if r.Rejected? {
      ledger := ScanStumbles(cfg, argv, [Program], 0);
    } else {
      ScanKeepsLedger(cfg, argv, [Program], 0);
      if DefaultsAccepted(cfg, Entries(r.ledger)) {
        ledger := RemainingStumbles(cfg, argv, r.ledger, r.next);
      } else {
        ledger := r.ledger;
      }
    }
  }
}
