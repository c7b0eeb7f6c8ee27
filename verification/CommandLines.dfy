/**
 * The converse of the ledger's accounting: a command line with a truthful ledger is
 * accepted, and that ledger is the only one.
 */
module CommandLines {
  import opened Text
  import opened Options

  /** Just after the first `--` at or after `i`, or the end. */
  function MainEnd(ledger: seq<Token>, i: nat): (n: nat)
    requires i <= |ledger|
    ensures i <= n <= |ledger|
    decreases |ledger| - i
  {
    if i == |ledger| then i else if ledger[i].DoubleDash? then i + 1 else MainEnd(ledger, i + 1)
  }

  /** Every token is classed truthfully, and the defaults needed before the last arguments are of their type. */
  ghost predicate Truthful(cfg: Config, argv: seq<string>, ledger: seq<Token>) {
    && |ledger| == |argv| && LedgerOk(cfg, argv, ledger)
    && DefaultsAccepted(cfg, Entries(ledger[..MainEnd(ledger, 0)]))
  }

  // ----- One flag -----

  /** The first letter of a group is one of its places exactly if it is registered. */
  lemma FirstPlace(cfg: Config, s: string, i: nat, after: string, es: seq<Entry>, places: seq<nat>)
    requires GroupGives(cfg, s, i, after, es, places) && i < |s|
    ensures if [s[i]] in cfg.options
            then es != [] && places[0] == i && LetterGives(cfg, s, i, after, i, es[0])
            else cfg.allowUnrecognised && i !in places
  {
    hide NeedyLetter;
    hide Gives;
    assert LetterCovered(cfg, s, places, i);
    if places != [] {
      assert LetterGives(cfg, s, i, after, places[|places| - 1], es[|es| - 1]);
      assert LetterGives(cfg, s, i, after, places[0], es[0]);
    }
    if i in places {
      var m :| 0 <= m < |places| && places[m] == i;
      assert LetterGives(cfg, s, i, after, places[m], es[m]);
      Increasing(cfg, s, i, after, es, places, m);
    }
  }

  lemma {:induction false} Increasing(cfg: Config, s: string, i: nat, after: string, es: seq<Entry>, places: seq<nat>,
      m: nat)
    requires GroupGives(cfg, s, i, after, es, places) && m < |places|
    ensures places[0] <= places[m] && (m > 0 ==> places[0] < places[m])
    decreases m
  {
    hide NeedyLetter;
    hide LetterGives;
    hide LetterCovered;
    if m == 0 {
    } else {
      Increasing(cfg, s, i, after, es, places, m - 1);
      assert places[m - 1] < places[m - 1 + 1];
    }
  }

  /** Entries that are those of the letters of a group are what parsing it sets. */
  lemma {:induction false} GroupFollows(cfg: Config, argv: seq<string>, current: nat, s: string, i: nat,
      es: seq<Entry>, places: seq<nat>)
    requires i <= |s| && current < |argv|
    requires LastNeedsValue(cfg, s, i) ==> current + 1 < |argv|
    requires GroupGives(cfg, s, i, if current + 1 < |argv| then argv[current + 1] else "", es, places)
    ensures ParseGroup(cfg, argv, current, s, i) == Parsed(es, LastNeedsValue(cfg, s, i))
    decreases |s| - i
  {
    var after := if current + 1 < |argv| then argv[current + 1] else "";
    if i == |s| {
      assert es != [] ==> LetterGives(cfg, s, i, after, places[0], es[0]);
    } else {
      FirstPlace(cfg, s, i, after, es, places);
      if [s[i]] !in cfg.options {
        RestOfGroup(cfg, s, i, after, es, places);
        GroupFollows(cfg, argv, current, s, i + 1, es, places);
      } else if i + 1 < |s| && !NeedyLetter(cfg, s, i) {
        RestOfGroup(cfg, s, i, after, es, places);
        GroupFollows(cfg, argv, current, s, i + 1, es[1..], places[1..]);
        assert es == [es[0]] + es[1..];
      } else {
        OnlyPlace(cfg, s, i, after, es, places);
        assert es == [es[0]];
      }
    }
  }

  /** What follows a letter that takes no value is a group too. */
  lemma RestOfGroup(cfg: Config, s: string, i: nat, after: string, es: seq<Entry>, places: seq<nat>)
    requires GroupGives(cfg, s, i, after, es, places) && i < |s| && !NeedyLetter(cfg, s, i)
    ensures if [s[i]] in cfg.options
            then es != [] && places != [] && GroupGives(cfg, s, i + 1, after, es[1..], places[1..])
            else GroupGives(cfg, s, i + 1, after, es, places)
  {
    hide NeedyLetter;
    hide Gives;
    hide LetterValue;
    hide LetterCovered;
    FirstPlace(cfg, s, i, after, es, places);
    var n := if [s[i]] in cfg.options then 1 else 0;
    var es', places' := es[n..], places[n..];
    forall m | 0 <= m < |es'| ensures LetterGives(cfg, s, i + 1, after, places'[m], es'[m]) {
      assert LetterGives(cfg, s, i, after, places[m + n], es[m + n]);
      if n == 1 {
        Increasing(cfg, s, i, after, es, places, m + 1);
      } else {
        assert places[m] in places;
      }
    }
    forall p | i + 1 <= p < |s| ensures LetterCovered(cfg, s, places', p) {
      assert LetterCovered(cfg, s, places, p);
      if n == 1 { StillCoveredAfter(cfg, s, places, i, p); } else { assert places' == places; }
    }
    forall m | 0 <= m < |places'| - 1 ensures places'[m] < places'[m + 1] && !NeedyLetter(cfg, s, places'[m]) {
      assert places[m + n] < places[m + n + 1] && !NeedyLetter(cfg, s, places[m + n]);
    }
    assert n == 0 ==> es' == es && places' == places;
  }

  lemma StillCoveredAfter(cfg: Config, s: string, places: seq<nat>, i: nat, p: nat)
    requires places != [] && places[0] == i < p && LetterCovered(cfg, s, places, p) && !NeedyLetter(cfg, s, i)
    ensures LetterCovered(cfg, s, places[1..], p)
  {
    hide NeedyLetter;
    if p in places {
      var m :| 0 <= m < |places| && places[m] == p;
      assert places[1..][m - 1] == p;
    } else if |places| > 1 {
      assert places[1..][|places| - 2] == places[|places| - 1];
    }
  }

  /** A letter that takes a value, and the last letter, is the end of its group. */
  lemma OnlyPlace(cfg: Config, s: string, i: nat, after: string, es: seq<Entry>, places: seq<nat>)
    requires GroupGives(cfg, s, i, after, es, places) && i < |s| && [s[i]] in cfg.options
    requires i + 1 == |s| || NeedyLetter(cfg, s, i)
    ensures |es| == 1
  {
    hide NeedyLetter;
    FirstPlace(cfg, s, i, after, es, places);
    assert |es| > 1 ==> places[0] < places[1] && LetterGives(cfg, s, i, after, places[1], es[1]);
  }

  lemma FlagFollows(cfg: Config, argv: seq<string>, current: nat, es: seq<Entry>)
    requires current < |argv| && FlagGives(cfg, argv, current, es)
    ensures Matched(argv[current]).Some?
    ensures !Matched(argv[current]).value.grouping ==> Matched(argv[current]).value.name in cfg.options
    ensures FlagStep(cfg, argv, current, Matched(argv[current]).value) == Parsed(es, TakesNext(cfg, argv[current]))
  {
    hide Matched;
    hide ParseGroup;
    hide GroupGives;
    hide LastNeedsValue;
    var desc := Matched(argv[current]).value;
    if desc.grouping {
      var after := if current + 1 < |argv| then argv[current + 1] else "";
      var places :| GroupGives(cfg, desc.name, 0, after, es, places);
      GroupFollows(cfg, argv, current, desc.name, 0, es, places);
    } else {
      assert es == [es[0]];
    }
  }

  // ----- The whole command line -----

  /** The ledger before `k` says about the token at `k` what the whole ledger says. */
  lemma PrefixSees(cfg: Config, argv: seq<string>, ledger: seq<Token>, k: nat)
    requires k <= |ledger| <= |argv|
    ensures AfterDash(ledger[..k], k) <==> AfterDash(ledger, k)
    ensures Awaited(cfg, argv, ledger[..k], k) <==> Awaited(cfg, argv, ledger, k)
  {
    hide TakesNext;
    assert forall j :: 0 <= j < k ==> ledger[..k][j] == ledger[j];
  }

  lemma PlainFollows(cfg: Config, argv: seq<string>, ledger: seq<Token>, k: nat, next: nat)
    requires LedgerOk(cfg, argv, ledger) && 0 < k < |ledger|
    requires ledger[k].Positional? || (ledger[k].Unmatched? && (AfterDash(ledger, k) || !Unrecognised(cfg, argv[k])))
    requires FilledUpTo(cfg, Entries(ledger[..k]), next)
    ensures var c := Consume(cfg, argv[k], Entries(ledger[..k]), next);
            if ledger[k].Positional? then c.Consumed? && c.entry == ledger[k].entry else c.NotConsumed?
  {
    ConsumeExactly(cfg, argv[k], Entries(ledger[..k]), next);
    assert TokenOk(cfg, argv, ledger, k);
    hide Consume;
    hide FilledUpTo;
    hide PositionalEntry;
    hide Entries;
    hide TakesNext;
  }

  /** One turn of the loop goes on along the ledger. */
  lemma TurnFollows(cfg: Config, argv: seq<string>, ledger: seq<Token>, k: nat, next: nat)
    requires LedgerOk(cfg, argv, ledger) && |ledger| == |argv| && 0 < k < |ledger| && !AfterDash(ledger, k)
    requires Going(cfg, argv, ledger[..k], next) && argv[k] != "--"
    ensures var r := Turn(cfg, argv, ledger[..k], next);
            r.Accepted? && r.ledger == ledger[..|r.ledger|]
  {
    hide Matched;
    hide FlagStep;
    hide Consume;
    hide FlagGives;
    hide FilledUpTo;
    hide TakesNext;
    hide Entries;
    hide PositionalEntry;
    var t := ledger[k];
    PrefixSees(cfg, argv, ledger, k);
    assert TokenOk(cfg, argv, ledger, k);
    assert ledger[..k + 1] == ledger[..k] + [t];
    if t.OptionToken? {
      FlagFollows(cfg, argv, k, t.entries);
      if TakesNext(cfg, argv[k]) {
        assert TokenOk(cfg, argv, ledger, k + 1);
        assert ledger[..k + 2] == ledger[..k] + [t] + [TakenValue];
      } else {
        assert ledger[..k] + [t] + [] == ledger[..k + 1];
      }
    } else if t.Positional? || !Unrecognised(cfg, argv[k]) {
      PlainFollows(cfg, argv, ledger, k, next);
    }
  }

  lemma {:induction false} MainEndSkips(ledger: seq<Token>, k: nat, n: nat)
    requires k <= n <= |ledger| && !AfterDash(ledger, n)
    ensures MainEnd(ledger, k) == MainEnd(ledger, n)
    decreases n - k
  {
    if k == n {
    } else {
      MainEndSkips(ledger, k + 1, n);
    }
  }

  /** Only `--` can be the separator, and the first `--` is. */
  lemma DashIsDash(cfg: Config, argv: seq<string>, ledger: seq<Token>, k: nat)
    requires LedgerOk(cfg, argv, ledger) && 0 < k < |ledger| && !AfterDash(ledger, k)
    requires !Awaited(cfg, argv, ledger, k)
    ensures ledger[k].DoubleDash? <==> argv[k] == "--"
  {
    hide TakesNext;
    hide PositionalEntry;
    hide FilledUpTo;
    assert TokenOk(cfg, argv, ledger, k);
  }

  lemma {:induction false} ScanFollows(cfg: Config, argv: seq<string>, ledger: seq<Token>, k: nat, next: nat)
    requires LedgerOk(cfg, argv, ledger) && |ledger| == |argv| && 0 < k <= |ledger| && !AfterDash(ledger, k)
    requires Going(cfg, argv, ledger[..k], next)
    ensures var r := Scan(cfg, argv, ledger[..k], next);
            r.Accepted? && r.ledger == ledger[..MainEnd(ledger, k)]
    decreases |ledger| - k
  {
    hide Turn;
    hide LedgerOk;
    hide FilledUpTo;
    hide Entries;
    hide TakesNext;
    PrefixSees(cfg, argv, ledger, k);
    if k == |ledger| {
    } else {
      DashIsDash(cfg, argv, ledger, k);
      if argv[k] == "--" {
        assert ledger[..k + 1] == ledger[..k] + [DoubleDash];
      } else {
        TurnFollows(cfg, argv, ledger, k, next);
        TurnKeepsLedger(cfg, argv, ledger[..k], next);
        var r := Turn(cfg, argv, ledger[..k], next);
        PrefixSees(cfg, argv, ledger, |r.ledger|);
        MainEndSkips(ledger, k, |r.ledger|);
        ScanFollows(cfg, argv, ledger, |r.ledger|, r.next);
      }
    }
  }

  /** After `--` there is nothing but positional and unmatched tokens. */
  lemma ClassAfterDash(cfg: Config, argv: seq<string>, ledger: seq<Token>, k: nat)
    requires LedgerOk(cfg, argv, ledger) && 0 < k < |ledger| && AfterDash(ledger, k)
    ensures ledger[k].Positional? || ledger[k].Unmatched?
  {
    assert TokenOk(cfg, argv, ledger, k);
  }

  /** Once no positional option has room, the rest is unmatched. */
  lemma {:induction false} RestIsUnmatched(cfg: Config, argv: seq<string>, ledger: seq<Token>, k: nat)
    requires LedgerOk(cfg, argv, ledger) && 0 < k <= |ledger| && AfterDash(ledger, k)
    requires FilledUpTo(cfg, Entries(ledger[..k]), |cfg.positional|)
    ensures ledger == ledger[..k] + seq(|ledger| - k, _ => Unmatched)
    decreases |ledger| - k
  {
    NotEmpty(cfg, argv, ledger);
    hide LedgerOk;
    hide FilledUpTo;
    hide Entries;
    if k == |ledger| {
      assert ledger == ledger[..k] + seq(0, _ => Unmatched);
    } else {
      ClassAfterDash(cfg, argv, ledger, k);
      PlainFollows(cfg, argv, ledger, k, |cfg.positional|);
      ConsumeExactly(cfg, argv[k], Entries(ledger[..k]), |cfg.positional|);
      assert ledger[..k + 1] == ledger[..k] + [ledger[k]];
      LedgerSnoc(argv, ledger[..k], ledger[k]);
      StillFilled(cfg, Entries(ledger[..k]), Contribution(ledger[k]), |cfg.positional|);
      RestIsUnmatched(cfg, argv, ledger, k + 1);
    }
  }

  lemma {:induction false} RemainingFollows(cfg: Config, argv: seq<string>, ledger: seq<Token>, k: nat, next: nat)
    requires LedgerOk(cfg, argv, ledger) && |ledger| == |argv| && 0 < k <= |ledger|
    requires Going(cfg, argv, ledger[..k], next) && (k == |ledger| || AfterDash(ledger, k))
    ensures var r := Remaining(cfg, argv, ledger[..k], next); r.Accepted? && r.ledger == ledger
    decreases |ledger| - k
  {
    hide LedgerOk;
    hide FilledUpTo;
    hide Entries;
    hide Consume;
    hide Awaited;
    if k == |ledger| {
      assert ledger[..k] == ledger;
    } else {
      PrefixSees(cfg, argv, ledger, k);
      ClassAfterDash(cfg, argv, ledger, k);
      PlainFollows(cfg, argv, ledger, k, next);
      PlainKeepsGoing(cfg, argv, ledger[..k], next);
      if ledger[k].Positional? {
        assert ledger[..k + 1] == ledger[..k] + [ledger[k]];
        RemainingFollows(cfg, argv, ledger, k + 1, Consume(cfg, argv[k], Entries(ledger[..k]), next).next);
      } else {
        ConsumeExactly(cfg, argv[k], Entries(ledger[..k]), next);
        RestIsUnmatched(cfg, argv, ledger, k);
      }
    }
  }

  lemma ProgramFirst(cfg: Config, argv: seq<string>, ledger: seq<Token>)
    requires LedgerOk(cfg, argv, ledger)
    ensures ledger[..1] == [Program] && MainEnd(ledger, 0) == MainEnd(ledger, 1) && !AfterDash(ledger, 1)
  {
    assert TokenOk(cfg, argv, ledger, 0);
  }

  /**
   * A command line is accepted with a ledger if and only if that ledger is truthful; so no
   * command line has two truthful ledgers, and one is refused only if it has none.
   */
  lemma ParsedExactly(cfg: Config, argv: seq<string>, ledger: seq<Token>)
    requires argv != []
    ensures var r := Parse(cfg, argv);
            r.Accepted? && r.ledger == ledger <==> Truthful(cfg, argv, ledger)
  {
    hide Scan;
    hide Remaining;
    hide LedgerOk;
    hide DefaultsAccepted;
    hide Entries;
    Accounting(cfg, argv);
    if |ledger| == |argv| && LedgerOk(cfg, argv, ledger) {
      Start(cfg, argv);
      ProgramFirst(cfg, argv, ledger);
      ScanFollows(cfg, argv, ledger, 1, 0);
      ScanKeepsLedger(cfg, argv, [Program], 0);
      var r := Scan(cfg, argv, [Program], 0);
      PrefixSees(cfg, argv, ledger, |r.ledger|);
      RemainingFollows(cfg, argv, ledger, |r.ledger|, r.next);
    }
  }

  /** A command line is refused if and only if it has no truthful ledger. */
  lemma RefusedExactly(cfg: Config, argv: seq<string>)
    requires argv != []
    ensures Parse(cfg, argv).Rejected? <==> forall ledger :: !Truthful(cfg, argv, ledger)
  {
    hide Parse;
    hide Truthful;
    var r := Parse(cfg, argv);
    if r.Accepted? { ParsedExactly(cfg, argv, r.ledger); }
    forall ledger | Truthful(cfg, argv, ledger) ensures r.Accepted? {
      ParsedExactly(cfg, argv, ledger);
    }
  }
}
