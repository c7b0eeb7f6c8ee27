/** The command-line parser with the state its source mutates, against Options. */
module OptionParser {
  import opened Text
  import opened Options

  datatype KeyValue = KeyValue(key: string, value: string)

  /** Store of one option: how many values were parsed into it. */
  datatype OptionValue = OptionValue(count: nat, hasDefault: bool)

  datatype ParseResult = Failure(error: Error) | Success(
    keys: map<string, string>, values: map<string, OptionValue>,
    sequential: seq<KeyValue>, unmatched: seq<string>)
  {
    /** How often an option was given, under one of its names. */
    function Count(name: string): nat
      requires Success?
    {
      if name in keys && keys[name] in values then values[keys[name]].count else 0
    }
  }

  ghost function KeyValues(entries: seq<Entry>): seq<KeyValue> {
    seq(|entries|, i requires 0 <= i < |entries| => KeyValue(entries[i].key, entries[i].value))
  }

  function CountOf(parsed: map<string, OptionValue>, hash: string): nat {
    if hash in parsed then parsed[hash].count else 0
  }

  /** Option hashes are distinct, and a name leads to the option that carries it. */
  ghost predicate WellFormed(cfg: Config) {
    && (forall m, n ::
          (m in cfg.options && n in cfg.options && Hash(cfg.options[m]) == Hash(cfg.options[n])) ==>
          cfg.options[m] == cfg.options[n])
    && (forall n :: n in cfg.options ==> n == cfg.options[n].shortName || n == cfg.options[n].longName)
    && (forall m, n ::
          (m in cfg.options && n in cfg.options && (n == cfg.options[m].shortName || n == cfg.options[m].longName)) ==>
          cfg.options[m] == cfg.options[n])
  }

  // ----- One argument -----

  /** Reads the name character by character. */
  method ParseArgument(arg: string) returns (desc: Option<ArguDesc>)
    ensures desc == Matched(arg)
  {
    if "--" <= arg {
      desc := ParseLong(arg);
    } else if "-" <= arg {
      desc := ParseShort(arg);
    } else {
      desc := None;
    }
  }

  method ParseLong(arg: string) returns (desc: Option<ArguDesc>)
    requires "--" <= arg
    ensures desc == Matched(arg)
  {
    hide NameLength;
    ghost var s := arg[2..];
    assert forall k :: 0 <= k < |s| ==> s[k] == arg[2 + k];
    var p := 2;
    var name := [];
    if p < |arg| && IsAlnum(arg[p]) {
      name := name + [arg[p]];
      p := p + 1;
      while p < |arg| && IsNameChar(arg[p])
        invariant 3 <= p <= |arg| && name == s[..p - 2]
        invariant forall k :: 0 <= k < p - 2 ==> IsNameChar(s[k])
      {
        name := name + [arg[p]];
        p := p + 1;
      }
      NameEndsAt(s, p - 2);
      assert s[0] == arg[2];
      if |name| > 1 {
        if p < |arg| && arg[p] == '=' {
          assert s[p - 2] == '=' && s[p - 2 + 1..] == arg[p + 1..];
          return Some(ArguDesc(name, false, true, arg[p + 1..]));
        }
        if p == |arg| {
          assert s[..p - 2] == s;
          return Some(ArguDesc(name, false, false, ""));
        }
      }
    } else {
      assert NameLength(s) >= 2 ==> s[0] == arg[2];
    }
    desc := None;
  }

  method ParseShort(arg: string) returns (desc: Option<ArguDesc>)
    requires "-" <= arg && !("--" <= arg)
    ensures desc == Matched(arg)
  {
    ghost var s := arg[1..];
    assert forall k :: 0 <= k < |s| ==> s[k] == arg[1 + k];
    var p := 1;
    var name := [];
    while p < |arg| && IsAlnum(arg[p])
      invariant 1 <= p <= |arg| && name == s[..p - 1]
      invariant forall k :: 0 <= k < p - 1 ==> IsAlnum(s[k])
    {
      name := name + [arg[p]];
      p := p + 1;
    }
    if name != [] && p == |arg| {
      assert s[..p - 1] == s;
      return Some(ArguDesc(name, true, false, ""));
    }
    assert p < |arg| ==> !IsAlnum(s[p - 1]);
    desc := None;
  }

  lemma {:induction false} NameEndsAt(s: string, n: nat)
    requires n <= |s| && (forall k :: 0 <= k < n ==> IsNameChar(s[k])) && (n < |s| ==> !IsNameChar(s[n]))
    ensures NameLength(s) == n
  {
    if n == 0 {
    } else {
      NameEndsAt(s[1..], n - 1);
    }
  }

  // ----- The parser -----

  class OptionParser {
    const cfg: Config
    var sequential: seq<KeyValue>
    var parsed: map<string, OptionValue>
    ghost var entries: seq<Entry>

    /** The entries of the command line so far are what both stores hold. */
    ghost predicate Valid()
      reads this
    {
      && sequential == KeyValues(entries)
      && forall h :: CountOf(parsed, h) == Count(entries, h)
    }

    constructor (cfg: Config)
      ensures this.cfg == cfg && Valid() && entries == [] && parsed == map[]
    {
      this.cfg := cfg;
      sequential, parsed, entries := [], map[], [];
    }

    method ParseOption(d: OptionDetails, arg: string) returns (ok: bool)
      requires Valid()
      modifies this
      ensures ok == d.accepts(arg)
      ensures ok ==> Valid() && entries == old(entries) + [EntryOf(d, arg)]
      ensures parsed.Keys == old(parsed.Keys) + {Hash(d)}
      ensures Defaulted(parsed) == old(Defaulted(parsed))
    {
      var hash := Hash(d);
      var result := if hash in parsed then parsed[hash] else OptionValue(0, false);
      parsed := parsed[hash := result.(count := result.count + 1)];
      if !d.accepts(arg) { return false; }
      sequential := sequential + [KeyValue(d.longName, arg)];
      entries := entries + [EntryOf(d, arg)];
      assert entries[..|entries| - 1] == old(entries);
      ok := true;
    }

    /** An implicit value if there is one, else the next argument, and `current` moves over it. */
    method CheckedParseArg(argv: seq<string>, current: nat, d: OptionDetails) returns (step: Step, now: nat)
      requires Valid()
      modifies this
      ensures step == Options.CheckedParseArg(argv, current, d)
      ensures step.Parsed? ==> Valid() && entries == old(entries) + step.entries
      ensures step.Parsed? ==> now == if step.tookNext then current + 1 else current
      ensures Defaulted(parsed) == old(Defaulted(parsed))
    {
      now := current;
      var value: string;
      if current + 1 >= |argv| {
        if d.implicit.None? { return Failed(MissingArgument), now; }
        value := d.implicit.value;
      } else if d.implicit.Some? {
        value := d.implicit.value;
      } else {
        value := argv[current + 1];
        now := now + 1;
      }
      var ok := ParseOption(d, value);
      step := if ok then Parsed([EntryOf(d, value)], now > current) else Failed(IncorrectType);
    }

    /** The letters of a group; `now` is where the cursor then stands. */
    method ParseGroup(argv: seq<string>, current: nat, s: string) returns (error: Option<Error>, now: nat)
      requires Valid() && current < |argv|
      modifies this
      ensures var step := Options.ParseGroup(cfg, argv, current, s, 0);
              && (step.Failed? ==> error == Some(step.error))
              && (step.Parsed? ==> error == None && Valid() && entries == old(entries) + step.entries
                                   && now == if step.tookNext then current + 1 else current)
      ensures Defaulted(parsed) == old(Defaulted(parsed))
    {
      hide Options.ParseGroup;
      now := current;
      ghost var was := entries;
      ghost var whole := Options.ParseGroup(cfg, argv, current, s, 0);
      ghost var own: seq<Entry> := [];
      BeforeNothing(whole);
      for i := 0 to |s|
        invariant Valid() && now == current && entries == was + own
        invariant whole == Before(own, Options.ParseGroup(cfg, argv, current, s, i))
        invariant Defaulted(parsed) == old(Defaulted(parsed))
      {
        GroupStep(cfg, argv, current, s, i);
        var name := [s[i]];
        if name !in cfg.options {
          if cfg.allowUnrecognised { continue; }
          return Some(OptionNotExists), now;
        }
        var value := cfg.options[name];
        if i + 1 == |s| {
          var step;
          step, now := CheckedParseArg(argv, current, value);
          if step.Failed? { return Some(step.error), now; }
          assert was + (own + step.entries) == was + own + step.entries;
          return None, now;
        } else if value.implicit.Some? {
          var ok := ParseOption(value, value.implicit.value);
          if !ok { return Some(IncorrectType), now; }
          ghost var more := [EntryOf(value, value.implicit.value)];
          BeforeTwice(own, more, Options.ParseGroup(cfg, argv, current, s, i + 1));
          assert was + (own + more) == was + own + more;
          own := own + more;
        } else {
          var ok := ParseOption(value, s[i + 1..]);
          if !ok { return Some(IncorrectType), now; }
          assert was + (own + [EntryOf(value, s[i + 1..])]) == was + own + [EntryOf(value, s[i + 1..])];
          return None, now;
        }
      }
      error := None;
      GroupStep(cfg, argv, current, s, |s|);
      assert own + [] == own;
    }

    /** The next positional that can still take a value takes it. */
    method ConsumePositional(a: string, from: nat) returns (error: Option<Error>, consumed: bool, next: nat)
      requires Valid()
      modifies this
      ensures var c := Consume(cfg, a, old(entries), from);
              match c
              case ConsumeFailed(e) => error == Some(e)
              case Consumed(entry, n) =>
                error == None && consumed && next == n && Valid() && entries == old(entries) + [entry]
              case NotConsumed(n) => error == None && !consumed && next == n && Valid() && entries == old(entries)
      ensures Defaulted(parsed) == old(Defaulted(parsed))
      ensures parsed.Keys >= old(parsed.Keys)
    {
      error, consumed, next := None, false, from;
      while next < |cfg.positional|
        invariant Valid() && entries == old(entries) && parsed.Keys >= old(parsed.Keys)
        invariant Consume(cfg, a, old(entries), from) == Consume(cfg, a, old(entries), next)
        invariant Defaulted(parsed) == old(Defaulted(parsed))
        decreases |cfg.positional| - next
      {
        if cfg.positional[next] !in cfg.options {
          return Some(OptionNotExists), false, next;
        }
        var d := cfg.options[cfg.positional[next]];
        if !d.isContainer {
          var hash := Hash(d);
          if hash !in parsed {
            parsed := parsed[hash := OptionValue(0, false)];
          }
          if parsed[hash].count == 0 {
            var ok := ParseOption(d, a);
            return if ok then None else Some(IncorrectType), ok, next + 1;
          }
          next := next + 1;
          continue;
        }
        var ok := ParseOption(d, a);
        return if ok then None else Some(IncorrectType), ok, next;
      }
    }

    /** One turn of the loop at `current`. */
    method TurnAt(argv: seq<string>, ghost ledger: seq<Token>, current: nat, next: nat, unmatched: seq<string>)
      returns (error: Option<Error>, now: nat, nextPositional: nat, left: seq<string>)
      requires Valid() && |ledger| == current < |argv| && entries == Entries(ledger)
      requires unmatched == UnmatchedOf(argv, ledger)
      modifies this
      ensures var r := Turn(cfg, argv, ledger, next);
              && (r.Rejected? ==> error == Some(r.error))
              && (r.Accepted? ==> error == None && now == |r.ledger| && nextPositional == r.next && Valid()
                                  && entries == Entries(r.ledger) && left == UnmatchedOf(argv, r.ledger))
      ensures Defaulted(parsed) == old(Defaulted(parsed))
    {
      hide Matched;
      hide Consume;
      hide Options.ParseGroup;
      hide Entries;
      hide UnmatchedOf;
      error, now, nextPositional, left := None, current, next, unmatched;
      var arg := argv[current];
      var desc := ParseArgument(arg);
      LedgerSnoc(argv, ledger, Unmatched);
      assert entries + [] == entries && unmatched + [] == unmatched;
      if desc.None? {
        if |arg| > 1 && arg[0] == '-' {
          if !cfg.allowUnrecognised { return Some(OptionSyntax), now, next, left; }
        }
        ghost var c := Consume(cfg, arg, Entries(ledger), next);
        var consumed;
        error, consumed, nextPositional := ConsumePositional(arg, next);
        if error.Some? { return; }
        if consumed {
          LedgerSnoc(argv, ledger, Positional(c.entry));
        } else {
          left := left + [arg];
        }
        now := current + 1;
        return;
      }
      ghost var step := FlagStep(cfg, argv, current, desc.value);
      if desc.value.grouping {
        error, now := ParseGroup(argv, current, desc.value.name);
      } else {
        var name := desc.value.name;
        if name !in cfg.options {
          if cfg.allowUnrecognised {
            left := left + [arg];
            now := current + 1;
            return;
          }
          return Some(OptionNotExists), now, next, left;
        }
        var opt := cfg.options[name];
        if desc.value.setValue {
          var ok := ParseOption(opt, desc.value.value);
          error := if ok then None else Some(IncorrectType);
        } else {
          var checked;
          checked, now := CheckedParseArg(argv, current, opt);
          error := if checked.Failed? then Some(checked.error) else None;
        }
      }
      if error.None? {
        TurnLedger(argv, ledger, step.entries, step.tookNext);
      }
      now := now + 1;
    }

    /** Default values for the options without a value, and a store for every option. */
    method ParseDefaults() returns (error: Option<Error>)
      requires Valid() && WellFormed(cfg) && Defaulted(parsed) == {}
      modifies this`parsed
      ensures error == if DefaultsAccepted(cfg, entries) then None else Some(IncorrectType)
      ensures Valid()
      ensures error.None? ==> forall n :: n in cfg.options ==>
                && Hash(cfg.options[n]) in parsed
                && (Hash(cfg.options[n]) in Defaulted(parsed) <==> UsesDefault(cfg.options[n], entries))
    {
      hide WellFormed;
      hide DefaultOk;
      hide UsesDefault;
      hide Defaulted;
      hide Settled;
      var names := cfg.options.Keys;
      ghost var done: set<string> := {};
      NothingSettled(cfg, entries, parsed);
      while names != {}
        invariant names <= cfg.options.Keys && Valid()
        invariant Defaulted(parsed) <= done <= parsed.Keys
        invariant forall n :: n in cfg.options ==> Settled(cfg.options[n], entries, parsed, done)
        invariant forall n :: n in cfg.options.Keys - names ==> Hash(cfg.options[n]) in done
        decreases |names|
      {
        var n :| n in names;
        var d := cfg.options[n];
        ghost var was := parsed;
        SettledMeans(d, entries, parsed, done);
        var ok := DefaultFor(d, n, done);
        if !ok {
          SomeDefaultRefused(cfg, n, entries);
          return Some(IncorrectType);
        }
        SettledStep(cfg, n, entries, was, parsed, done);
        done := done + {Hash(d)};
        names := names - {n};
      }
      forall n | n in cfg.options
        ensures DefaultOk(cfg.options[n], entries)
        ensures Hash(cfg.options[n]) in Defaulted(parsed) <==> UsesDefault(cfg.options[n], entries)
      {
        SettledMeans(cfg.options[n], entries, parsed, done);
      }
      AllDefaultsOk(cfg, entries);
      error := None;
    }

    /** The default of one option, unless it has a value or its default already. */
    method DefaultFor(d: OptionDetails, ghost n: string, ghost done: set<string>) returns (ok: bool)
      requires Valid() && n in cfg.options && cfg.options[n] == d
      requires Defaulted(parsed) <= done
      requires Hash(d) in done ==> DefaultOk(d, entries) && (Hash(d) in Defaulted(parsed) <==> UsesDefault(d, entries))
      modifies this`parsed
      ensures ok == DefaultOk(d, entries)
      ensures ok ==> Valid() && parsed.Keys == old(parsed.Keys) + {Hash(d)}
      ensures ok ==> Defaulted(parsed) ==
                     old(Defaulted(parsed)) + if UsesDefault(d, entries) then {Hash(d)} else {}
      ensures !ok ==> parsed == old(parsed)
    {
      var hash := Hash(d);
      assert CountOf(parsed, hash) == Count(entries, hash);
      var store := if hash in parsed then parsed[hash] else OptionValue(0, false);
      if d.default.Some? && store.count == 0 && !store.hasDefault {
        if !d.accepts(d.default.value) { return false; }
        store := store.(hasDefault := true);
      }
      parsed := parsed[hash := store];
      ok := true;
    }

    /** Both names of every option lead to its store. */
    method FinaliseAliases() returns (keys: map<string, string>)
      requires WellFormed(cfg)
      ensures forall n :: n in cfg.options ==> n in keys && keys[n] == Hash(cfg.options[n])
      ensures forall n :: n in keys ==> NamesOption(cfg, n)
    {
      hide WellFormed;
      hide NamesOption;
      hide Hash;
      keys := map[];
      var names := cfg.options.Keys;
      while names != {}
        invariant names <= cfg.options.Keys
        invariant forall n :: n in cfg.options.Keys - names ==> n in keys
        invariant forall n :: n in cfg.options && n in keys ==> keys[n] == Hash(cfg.options[n])
        invariant forall n :: n in keys ==> NamesOption(cfg, n)
        decreases |names|
      {
        var n :| n in names;
        var d := cfg.options[n];
        NameOf(cfg, n);
        forall m | m in cfg.options && (m == d.shortName || m == d.longName) ensures cfg.options[m] == d {
          NameLeads(cfg, n, m);
        }
        keys := keys[d.shortName := Hash(d)];
        keys := keys[d.longName := Hash(d)];
        BothNameOption(cfg, n);
        names := names - {n};
      }
    }

    /** What is left after `--`. */
    method ParseRemaining(argv: seq<string>, ghost ledger: seq<Token>, from: nat, next: nat, unmatched: seq<string>)
      returns (error: Option<Error>, left: seq<string>)
      requires Valid() && |ledger| == from <= |argv| && entries == Entries(ledger)
      requires unmatched == UnmatchedOf(argv, ledger)
      modifies this
      ensures var r := Remaining(cfg, argv, ledger, next);
              && (r.Rejected? ==> error == Some(r.error))
              && (r.Accepted? ==> error == None && Valid() && entries == Entries(r.ledger)
                                  && left == UnmatchedOf(argv, r.ledger))
      ensures parsed.Keys >= old(parsed.Keys) && Defaulted(parsed) == old(Defaulted(parsed))
    {
      hide Consume;
      hide Entries;
      hide Defaulted;
      hide UnmatchedOf;
      left := unmatched;
      var current, nextPositional := from, next;
      ghost var l := ledger;
      while current < |argv|
        invariant |l| == current <= |argv| && Valid() && entries == Entries(l) && left == UnmatchedOf(argv, l)
        invariant Remaining(cfg, argv, ledger, next) == Remaining(cfg, argv, l, nextPositional)
        invariant parsed.Keys >= old(parsed.Keys) && Defaulted(parsed) == old(Defaulted(parsed))
      {
        ghost var c := Consume(cfg, argv[current], Entries(l), nextPositional);
        var e, consumed, n := ConsumePositional(argv[current], nextPositional);
        if e.Some? { return e, left; }
        nextPositional := n;
        if !consumed { break; }
        LedgerSnoc(argv, l, Positional(c.entry));
        assert left + [] == left;
        l := l + [Positional(c.entry)];
        current := current + 1;
      }
      ghost var start := l;
      while current != |argv|
        invariant |start| <= |l| == current <= |argv| && entries == Entries(l) && left == UnmatchedOf(argv, l)
        invariant l == start + seq(current - |start|, _ => Unmatched)
        invariant Valid() && parsed.Keys >= old(parsed.Keys) && Defaulted(parsed) == old(Defaulted(parsed))
        decreases |argv| - current
      {
        LedgerSnoc(argv, l, Unmatched);
        assert entries + [] == entries;
        left := left + [argv[current]];
        l := l + [Unmatched];
        current := current + 1;
      }
      error := None;
      assert start + seq(0, _ => Unmatched) == start;
    }

    /** The whole command line, for a parser that has parsed nothing yet. */
    method Parse(argv: seq<string>) returns (result: ParseResult)
      requires argv != [] && WellFormed(cfg) && Valid() && entries == [] && parsed == map[]
      modifies this
      ensures match Options.Parse(cfg, argv)
              case Rejected(e) => result == Failure(e)
              case Accepted(ledger, _) =>
                && result.Success?
                && result.sequential == KeyValues(Entries(ledger))
                && result.unmatched == UnmatchedOf(argv, ledger)
                && (forall n :: n in cfg.options ==> result.Count(n) == Count(Entries(ledger), Hash(cfg.options[n])))
                && (forall n :: !NamesOption(cfg, n) ==> result.Count(n) == 0)
                && forall n :: n in cfg.options ==>
                     (Hash(cfg.options[n]) in Defaulted(result.values) <==>
                        && cfg.options[n].default.Some?
                        && Count(Entries(Scan(cfg, argv, [Program], 0).ledger), Hash(cfg.options[n])) == 0)
    {
      hide Turn;
      hide Remaining;
      hide Entries;
      hide UnmatchedOf;
      hide WellFormed;
      var current, consumeRemaining, nextPositional := 1, false, 0;
      var unmatched := [];
      ghost var ledger := [Program];
      LedgerStart(argv);
      while current != |argv|
        invariant |ledger| == current <= |argv| && Valid() && entries == Entries(ledger)
        invariant unmatched == UnmatchedOf(argv, ledger) && Defaulted(parsed) == {} && !consumeRemaining
        invariant Scan(cfg, argv, [Program], 0) == Scan(cfg, argv, ledger, nextPositional)
        decreases |argv| - current
      {
        if argv[current] == "--" {
          LedgerSnoc(argv, ledger, DoubleDash);
          assert entries + [] == entries && unmatched + [] == unmatched;
          consumeRemaining := true;
          ledger := ledger + [DoubleDash];
          current := current + 1;
          break;
        }
        ghost var r := Turn(cfg, argv, ledger, nextPositional);
        var error, now, next, left := TurnAt(argv, ledger, current, nextPositional, unmatched);
        if error.Some? { return Failure(error.value); }
        ledger := r.ledger;
        current, nextPositional, unmatched := now, next, left;
      }
      assert Scan(cfg, argv, [Program], 0) == Accepted(ledger, nextPositional);
      var error := ParseDefaults();
      if error.Some? { return Failure(error.value); }
      if consumeRemaining {
        error, unmatched := ParseRemaining(argv, ledger, current, nextPositional, unmatched);
        if error.Some? { return Failure(error.value); }
      } else {
        RemainingNothing(cfg, argv, ledger, nextPositional);
      }
      var keys := FinaliseAliases();
      result := Success(keys, parsed, sequential, unmatched);
    }
  }

  lemma GroupStep(cfg: Config, argv: seq<string>, current: nat, s: string, i: nat)
    requires i <= |s|
    ensures Options.ParseGroup(cfg, argv, current, s, i) ==
            if i == |s| then Parsed([], false)
            else if [s[i]] !in cfg.options then
              if cfg.allowUnrecognised then Options.ParseGroup(cfg, argv, current, s, i + 1)
              else Failed(OptionNotExists)
            else
              var d := cfg.options[[s[i]]];
              if i + 1 == |s| then Options.CheckedParseArg(argv, current, d)
              else if d.implicit.Some? then
                if d.accepts(d.implicit.value) then
                  Before([EntryOf(d, d.implicit.value)], Options.ParseGroup(cfg, argv, current, s, i + 1))
                else Failed(IncorrectType)
              else if d.accepts(s[i + 1..]) then Parsed([EntryOf(d, s[i + 1..])], false)
              else Failed(IncorrectType)
  {
  }

  lemma RemainingNothing(cfg: Config, argv: seq<string>, ledger: seq<Token>, next: nat)
    requires |ledger| == |argv|
    ensures Remaining(cfg, argv, ledger, next) == Accepted(ledger, next)
  {
  }

  /** The tokens of a flag contribute its entries. */
  lemma TurnLedger(argv: seq<string>, ledger: seq<Token>, own: seq<Entry>, tookNext: bool)
    requires |ledger| + (if tookNext then 1 else 0) < |argv|
    ensures var ledger' := ledger + [OptionToken(own)] + if tookNext then [TakenValue] else [];
            Entries(ledger') == Entries(ledger) + own && UnmatchedOf(argv, ledger') == UnmatchedOf(argv, ledger)
  {
    hide Entries;
    hide UnmatchedOf;
    LedgerSnoc(argv, ledger, OptionToken(own));
    if tookNext {
      LedgerSnoc(argv, ledger + [OptionToken(own)], TakenValue);
      assert Entries(ledger) + own + [] == Entries(ledger) + own;
    } else {
      assert ledger + [OptionToken(own)] + [] == ledger + [OptionToken(own)];
    }
  }

  ghost predicate DefaultOk(d: OptionDetails, entries: seq<Entry>) {
    d.default.Some? && Count(entries, Hash(d)) == 0 ==> d.accepts(d.default.value)
  }

  lemma SameHash(cfg: Config, m: string, n: string)
    requires WellFormed(cfg) && m in cfg.options && n in cfg.options
    requires Hash(cfg.options[m]) == Hash(cfg.options[n])
    ensures cfg.options[m] == cfg.options[n]
  {
  }

  lemma NameOf(cfg: Config, n: string)
    requires WellFormed(cfg) && n in cfg.options
    ensures n == cfg.options[n].shortName || n == cfg.options[n].longName
  {
  }

  lemma NameLeads(cfg: Config, m: string, n: string)
    requires WellFormed(cfg) && m in cfg.options && n in cfg.options
    requires n == cfg.options[m].shortName || n == cfg.options[m].longName
    ensures cfg.options[m] == cfg.options[n]
  {
  }

  lemma SomeDefaultRefused(cfg: Config, n: string, entries: seq<Entry>)
    requires n in cfg.options && !DefaultOk(cfg.options[n], entries)
    ensures !DefaultsAccepted(cfg, entries)
  {
  }

  lemma AllDefaultsOk(cfg: Config, entries: seq<Entry>)
    requires forall n :: n in cfg.options ==> DefaultOk(cfg.options[n], entries)
    ensures DefaultsAccepted(cfg, entries)
  {
    forall n | n in cfg.options
      ensures var d := cfg.options[n];
              d.default.Some? && Count(entries, Hash(d)) == 0 ==> d.accepts(d.default.value)
    {
      assert DefaultOk(cfg.options[n], entries);
    }
  }

  lemma BeforeNothing(step: Step)
    ensures Before([], step) == step
  {
    if step.Parsed? { assert [] + step.entries == step.entries; }
  }

  lemma BeforeTwice(a: seq<Entry>, b: seq<Entry>, step: Step)
    ensures Before(a, Before(b, step)) == Before(a + b, step)
  {
    if step.Parsed? { assert a + (b + step.entries) == a + b + step.entries; }
  }

  /** The short or the long name of an option. */
  ghost predicate NamesOption(cfg: Config, n: string) {
    exists m :: m in cfg.options && (n == cfg.options[m].shortName || n == cfg.options[m].longName)
  }

  lemma BothNameOption(cfg: Config, n: string)
    requires n in cfg.options
    ensures NamesOption(cfg, cfg.options[n].shortName) && NamesOption(cfg, cfg.options[n].longName)
  {
  }

  /** An option registered under its two names makes a well-formed configuration. */
  lemma OneOptionIsWellFormed(d: OptionDetails, allow: bool)
    requires d.shortName != d.longName
    ensures WellFormed(Config(map[d.shortName := d, d.longName := d], [d.longName], allow))
  {
  }

  /** The stores that hold a default. */
  ghost function Defaulted(parsed: map<string, OptionValue>): set<string> {
    set h | h in parsed && parsed[h].hasDefault
  }

  /** An option that was looked at has its default exactly if it uses it, and then it is of its type. */
  ghost predicate Settled(d: OptionDetails, entries: seq<Entry>, parsed: map<string, OptionValue>, done: set<string>) {
    Hash(d) in done ==> DefaultOk(d, entries) && (Hash(d) in Defaulted(parsed) <==> UsesDefault(d, entries))
  }

  lemma SettledMeans(d: OptionDetails, entries: seq<Entry>, parsed: map<string, OptionValue>, done: set<string>)
    requires Settled(d, entries, parsed, done)
    ensures Hash(d) in done ==> DefaultOk(d, entries) && (Hash(d) in Defaulted(parsed) <==> UsesDefault(d, entries))
  {
  }

  lemma NothingSettled(cfg: Config, entries: seq<Entry>, parsed: map<string, OptionValue>)
    ensures forall n :: n in cfg.options ==> Settled(cfg.options[n], entries, parsed, {})
  {
  }

  lemma SettledStep(cfg: Config, n: string, entries: seq<Entry>, was: map<string, OptionValue>,
      now: map<string, OptionValue>, done: set<string>)
    requires WellFormed(cfg) && n in cfg.options && DefaultOk(cfg.options[n], entries) && Defaulted(was) <= done
    requires forall m :: m in cfg.options ==> Settled(cfg.options[m], entries, was, done)
    requires Hash(cfg.options[n]) in done ==>
               (Hash(cfg.options[n]) in Defaulted(was) <==> UsesDefault(cfg.options[n], entries))
    requires Defaulted(now) ==
             Defaulted(was) + if UsesDefault(cfg.options[n], entries) then {Hash(cfg.options[n])} else {}
    ensures Defaulted(now) <= done + {Hash(cfg.options[n])}
    ensures forall m :: m in cfg.options ==> Settled(cfg.options[m], entries, now, done + {Hash(cfg.options[n])})
  {
    hide WellFormed;
    hide DefaultOk;
    hide UsesDefault;
    hide Defaulted;
    hide Hash;
    forall m | m in cfg.options
      ensures Settled(cfg.options[m], entries, now, done + {Hash(cfg.options[n])})
    {
      if Hash(cfg.options[m]) == Hash(cfg.options[n]) {
        SameHash(cfg, m, n);
      } else {
        assert Settled(cfg.options[m], entries, was, done);
      }
    }
  }

  /** A default is used: there is one, and the command line gave no value. */
  ghost predicate UsesDefault(d: OptionDetails, entries: seq<Entry>) {
    d.default.Some? && Count(entries, Hash(d)) == 0
  }
}
