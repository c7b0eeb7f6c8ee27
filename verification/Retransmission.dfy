/** Retransmission of a 200 OK until its ACK arrives: one pass over the dialogs, and whole runs. */
module Retransmission {
  import opened Text

  const MAX_TRIES := 9

  /** A clock reading that is not before `earlier`. */
  method ReadClock(earlier: int) returns (t: int)
    ensures earlier <= t
  {
    t := *;
    if t < earlier { t := earlier; }
  }

  // --- What may happen to one dialog, in order ---

  datatype Event =
    | Armed(answer: string, timer: int)                    // a 200 OK is stored
    | Resent(carried: Option<string>, seen: int, at: int)  // a try, with the message put on the wire
    | GaveUp                                               // the 200 OK is dropped
    | Acked                                                // the ACK arrived

  datatype Phase = Idle | Waiting(tries: nat, timer: int) | Broken

  /** The delay set after a try. */
  function Delay(tries: nat): nat {
    if tries == 1 then 1 else if tries == 2 then 2 else 4
  }

  /** One event of the discipline; `Broken` when the event is not allowed. */
  function Next(p: Phase, e: Event): Phase {
    match e
    case Armed(_, timer) => if p.Broken? then Broken else Waiting(0, timer)
    case Resent(_, seen, at) =>
      if p.Waiting? && p.tries < MAX_TRIES && p.timer < seen <= at
      then Waiting(p.tries + 1, at + Delay(p.tries + 1))
      else Broken
    case GaveUp => if p.Waiting? && p.tries == MAX_TRIES then Idle else Broken
    case Acked => if p.Broken? then Broken else Idle
  }

  function Replay(log: seq<Event>): Phase {
    if log == [] then Idle else Next(Replay(log[..|log| - 1]), log[|log| - 1])
  }

  lemma ReplaySnoc(log: seq<Event>, e: Event)
    ensures Replay(log + [e]) == Next(Replay(log), e)
  {
    assert (log + [e])[..|log|] == log;
  }

  /** The timer in force after the m-th event of a series that starts with `Armed`. */
  function TimerAfter(e: Event, m: nat): int {
    match e
    case Armed(_, timer) => timer
    case Resent(_, _, at) => at + Delay(m)
    case _ => 0
  }

  /** The m-th try after position a comes only once the timer set before it has run out. */
  predicate Try(log: seq<Event>, a: nat, m: nat)
    requires 0 < m && a + m < |log|
  {
    && log[a + m].Resent?
    && TimerAfter(log[a + m - 1], m - 1) < log[a + m].seen <= log[a + m].at
  }

  predicate Tries(log: seq<Event>, a: nat, s: nat)
    requires a + s < |log|
  {
    forall m :: 1 <= m <= s ==> Try(log, a, m)
  }

  /** A dialog in its s-th try was armed exactly s + 1 events ago, and tried s times since. */
  lemma {:induction false} WaitingHistory(log: seq<Event>)
    requires Replay(log).Waiting?
    ensures var s := Replay(log).tries;
      && s <= MAX_TRIES && s < |log|
      && log[|log| - 1 - s].Armed?
      && Tries(log, |log| - 1 - s, s)
      && Replay(log).timer == TimerAfter(log[|log| - 1], s)
  {
    var n := |log| - 1;
    var before := log[..n];
    if !log[n].Resent? {
    } else {
      WaitingHistory(before);
      var s := Replay(before).tries;
      var a := n - 1 - s;
      forall m | 1 <= m <= s + 1 ensures Try(log, a, m) {
        if m <= s {
          assert Try(before, a, m);
        }
      }
    }
  }

  lemma {:induction false} PrefixNotBroken(log: seq<Event>, n: nat)
    requires n <= |log| && !Replay(log).Broken?
    ensures !Replay(log[..n]).Broken?
    decreases |log| - n
  {
    if n < |log| {
      PrefixNotBroken(log, n + 1);
      assert log[..n + 1][..n] == log[..n];
    } else {
      assert log[..n] == log;
    }
  }

  /**
   * After the answer armed at position a: its first try once the armed timer has run out, the
   * second more than a second after the first, the third more than two after that, and every
   * further one more than four after the one before.
   */
  predicate OnSchedule(log: seq<Event>, a: nat, m: nat)
    requires 0 < m && a + m < |log|
  {
    var before, e := log[a + m - 1], log[a + m];
    && e.Resent? && e.seen <= e.at
    && (m == 1 ==> before.Armed? && before.timer < e.seen)
    && (m > 1 ==> before.Resent?)
    && (m == 2 ==> before.at + 1 < e.seen)
    && (m == 3 ==> before.at + 2 < e.seen)
    && (m >= 4 ==> before.at + 4 < e.seen)
  }

  predicate KeepsSchedule(log: seq<Event>, a: nat, s: nat)
    requires a + s < |log|
  {
    forall m :: 1 <= m <= s ==> OnSchedule(log, a, m)
  }

  lemma TryOnSchedule(log: seq<Event>, a: nat, m: nat)
    requires 0 < m && a + m < |log| && log[a].Armed? && Try(log, a, m)
    requires m > 1 ==> Try(log, a, m - 1)
    ensures OnSchedule(log, a, m)
  {
  }

  /** Every try belongs to an armed answer, is at most its ninth, and keeps the schedule. */
  lemma {:induction false} TriesKeepSchedule(log: seq<Event>, b: nat) returns (s: nat)
    requires !Replay(log).Broken? && b < |log| && log[b].Resent?
    ensures 1 <= s <= 9 && s <= b && log[b - s].Armed?
    ensures KeepsSchedule(log, b - s, s)
  {
    hide OnSchedule;
    PrefixNotBroken(log, b + 1);
    var before := log[..b + 1];
    WaitingHistory(before);
    s := Replay(before).tries;
    var a := b - s;
    ScheduleOf(before, a, s);
    forall m | 1 <= m <= s ensures OnSchedule(log, a, m) {
      ScheduleOfPrefix(log, b + 1, a, m);
    }
  }

  lemma ScheduleOf(log: seq<Event>, a: nat, s: nat)
    requires a + s < |log| && log[a].Armed? && Tries(log, a, s)
    ensures KeepsSchedule(log, a, s)
  {
    hide OnSchedule;
    hide Try;
    forall m | 1 <= m <= s ensures OnSchedule(log, a, m) {
      assert Try(log, a, m) && (m > 1 ==> Try(log, a, m - 1));
      TryOnSchedule(log, a, m);
    }
  }

  lemma ScheduleOfPrefix(log: seq<Event>, n: nat, a: nat, m: nat)
    requires n <= |log| && 0 < m && a + m < n && OnSchedule(log[..n], a, m)
    ensures OnSchedule(log, a, m)
  {
  }

  /** The timer a try leaves behind: 1 second after the first, 2 after the second, 4 after each further one. */
  lemma {:induction false} TimerInNumbers(log: seq<Event>, e: Event)
    requires e.Resent? && !Replay(log + [e]).Broken?
    ensures Replay(log).Waiting? && Replay(log).tries < 9 && Replay(log).timer < e.seen <= e.at
    ensures var tries := Replay(log).tries + 1;
            Replay(log + [e]) == Waiting(tries, e.at + if tries == 1 then 1 else if tries == 2 then 2 else 4)
  {
    ReplaySnoc(log, e);
  }

  /** A try is in order as soon as the timer has run out, and eight came before it at most; giving up, after nine. */
  lemma {:induction false} TryIsInOrder(log: seq<Event>, e: Event)
    requires Replay(log).Waiting?
    ensures e.Resent? ==>
              (!Replay(log + [e]).Broken? <==> Replay(log).tries < 9 && Replay(log).timer < e.seen <= e.at)
    ensures e.GaveUp? ==> (!Replay(log + [e]).Broken? <==> Replay(log).tries == 9)
    ensures e.Armed? ==> Replay(log + [e]) == Waiting(0, e.timer)
    ensures e.Acked? ==> Replay(log + [e]) == Idle
  {
    ReplaySnoc(log, e);
  }

  /** A 200 OK is given up only after exactly nine tries, each in its time. */
  lemma {:induction false} NineTriesBeforeGivingUp(log: seq<Event>, i: nat)
    requires !Replay(log).Broken? && i < |log| && log[i] == GaveUp
    ensures i > 9 && log[i - 10].Armed?
    ensures Tries(log, i - 10, 9)
    ensures KeepsSchedule(log, i - 10, 9)
  {
    hide OnSchedule;
    PrefixNotBroken(log, i + 1);
    assert log[..i + 1][..i] == log[..i];
    WaitingHistory(log[..i]);
    var a := i - 10;
    forall m | 1 <= m <= 9 ensures Try(log, a, m) {
      assert Try(log[..i], a, m);
    }
    ScheduleOf(log, a, 9);
  }

  /** No 200 OK is tried more than nine times. */
  lemma {:induction false} AtMostNineTries(log: seq<Event>, a: nat, b: nat)
    requires !Replay(log).Broken? && a <= b <= |log|
    requires forall i :: a <= i < b ==> log[i].Resent?
    ensures b - a <= 9
  {
    if a == b {
    } else {
      var s := TriesKeepSchedule(log, b - 1);
      assert log[b - 1 - s].Armed?;
    }
  }

  // --- One dialog ---

  datatype State = State(id: int, established: bool, ok200: Option<string>, count: nat, timer: int)

  /** The dialog the pass looks at: known to the user, alive, and without its ACK. */
  predicate Pending(s: State) {
    s.id >= 1 && s.established && s.ok200.Some?
  }

  predicate Overdue(s: State) { Pending(s) && s.count == MAX_TRIES }

  predicate Due(s: State, now: int) { Pending(s) && s.count != MAX_TRIES && s.timer < now }

  /** An answer of a living dialog known to the user: due when its timer has run out, overdue after nine tries. */
  lemma DueInNumbers(s: State, now: int)
    ensures Due(s, now) <==> s.id >= 1 && s.established && s.ok200.Some? && s.count != 9 && s.timer < now
    ensures Overdue(s) <==> s.id >= 1 && s.established && s.ok200.Some? && s.count == 9
  {
  }

  class Dialog {
    var id: int
    var established: bool
    var ok200: Option<string>
    var count: nat
    var timer: int
    ghost var log: seq<Event>

    ghost function Now(): State
      reads this
    {
      State(id, established, ok200, count, timer)
    }

    ghost function Snap(): Snapshot
      reads this
    {
      Snapshot(Now(), log)
    }

    /** The fields agree with the log; live dialogs have an id and the others have none. */
    ghost predicate Valid()
      reads this
    {
      && (if established then id >= 1 else id == -1)
      && count <= MAX_TRIES
      && Replay(log) == (if ok200.None? then Idle else Waiting(count, timer))
    }

    /** `_eXosip_dialog_init_as_uas`, once `_eXosip_update` has run. */
    constructor (newId: int, now: int)
      requires newId >= 1
      ensures Valid() && log == []
      ensures Now() == State(newId, true, None, 0, now)
    {
      id, established, ok200, count, timer := newId, true, None, 0, now;
      log := [];
    }

    /** `_eXosip_dialog_set_200ok`. */
    method Set200Ok(answer: string, now: int)
      requires Valid()
      modifies this
      ensures Valid() && log == old(log) + [Armed(answer, now + 1)]
      ensures Now() == old(Now()).(ok200 := Some(answer), count := 0, timer := now + 1)
    {
      hide Replay;
      ReplaySnoc(log, Armed(answer, now + 1));
      timer := now + 1;
      count := 0;
      ok200 := Some(answer);
      log := log + [Armed(answer, now + 1)];
    }

    /** The ACK arrives: no more retransmission. */
    method ProcessAck()
      requires Valid()
      modifies this
      ensures Valid() && log == old(log) + [Acked]
      ensures Now() == old(Now()).(ok200 := None, count := 0)
    {
      hide Replay;
      ReplaySnoc(log, Acked);
      count := 0;
      ok200 := None;
      log := log + [Acked];
    }

    /** The 200 OK is dropped and the call terminated, if that succeeds. */
    method GiveUp()
      requires Valid() && Overdue(Now())
      modifies this
      ensures Valid() && log == old(log) + [GaveUp]
      ensures Now() == AfterGivingUp(old(Now()), established)
      ensures ok200 == None && count == 0 && id == (if established then old(id) else -1)
    {
      hide Replay;
      ReplaySnoc(log, GaveUp);
      count := 0;
      ok200 := None;
      log := log + [GaveUp];
      var terminated: bool := *;
      if terminated {
        established := false;
        id := -1;
      }
    }

    /** The counter goes up and the timer is set anew. */
    method SetTimer(now: int) returns (at: int)
      modifies this`count, this`timer
      ensures count == old(count) + 1 && now <= at
      ensures timer == at + if count == 1 then 1 else if count == 2 then 2 else 4
    {
      at := now;
      count := count + 1;
      if count == 1 {
        at := ReadClock(now);
        timer := at + 1;
      }
      if count == 2 {
        at := ReadClock(now);
        timer := at + 2;
      }
      if count >= 3 {
        at := ReadClock(now);
        timer := at + 4;
      }
    }

    /** The counter, the timer and the log of a try. */
    method CountTry(ghost carried: Option<string>, now: int)
      requires Valid() && Due(Now(), now)
      modifies this
      ensures Valid() && TryLogged(old(log), log, carried, now)
      ensures Now() == AfterTry(old(Now()), log[|old(log)|].at)
      ensures count == old(count) + 1
    {
      hide Replay;
      var at := SetTimer(now);
      ReplaySnoc(log, Resent(carried, now, at));
      log := log + [Resent(carried, now, at)];
    }
  }

  function AfterGivingUp(s: State, alive: bool): State {
    s.(ok200 := None, count := 0, established := alive, id := if alive then s.id else -1)
  }

  function AfterTry(s: State, at: int): State
  {
    s.(count := s.count + 1, timer := at + Delay(s.count + 1))
  }

  predicate TryLogged(was: seq<Event>, log: seq<Event>, carried: Option<string>, now: int) {
    && |log| == |was| + 1 && log[..|was|] == was
    && log[|was|].Resent? && log[|was|].carried == carried
    && log[|was|].seen == now <= log[|was|].at
  }

  // --- One pass over a call ---

  /** A dialog and its log, as a value. */
  datatype Snapshot = Snapshot(state: State, log: seq<Event>)

  predicate GivenUp(was: Snapshot, now: Snapshot) {
    && now.log == was.log + [GaveUp]
    && now.state == AfterGivingUp(was.state, now.state.established)
  }

  predicate Tried(was: Snapshot, now: Snapshot, carried: Option<string>, seen: int)
  {
    && TryLogged(was.log, now.log, carried, seen)
    && now.state == AfterTry(was.state, now.log[|was.log|].at)
  }

  /**
   * What a pass does to the dialog at position i. A dialog behind the first one is
   * seen again after its try, so its ninth try is followed at once by giving up.
   */
  ghost predicate Passed(was: Snapshot, now: Snapshot, carried: Option<string>, seen: int, i: nat)
  {
    if Overdue(was.state) then GivenUp(was, now)
    else if Due(was.state, seen) then
      if was.state.count + 1 == MAX_TRIES && i > 0
      then exists mid: Snapshot :: Tried(was, mid, carried, seen) && GivenUp(mid, now)
      else Tried(was, now, carried, seen)
    else now == was
  }

  /** Giving up drops the answer and its count; the dialog lives on or loses its number. */
  lemma GivenUpMeans(was: Snapshot, now: Snapshot)
    ensures GivenUp(was, now) <==>
            && now.log == was.log + [GaveUp] && now.state.ok200 == None && now.state.count == 0
            && now.state.timer == was.state.timer
            && now.state.id == if now.state.established then was.state.id else -1
  {
  }

  /** A try raises the count and sets the timer 1, 2 or 4 seconds after it. */
  lemma TriedMeans(was: Snapshot, now: Snapshot, carried: Option<string>, seen: int)
    ensures Tried(was, now, carried, seen) <==>
            && |now.log| == |was.log| + 1 && now.log[..|was.log|] == was.log
            && var e := now.log[|was.log|];
               && e == Resent(carried, seen, if e.Resent? then e.at else 0) && seen <= e.at
               && now.state.count == was.state.count + 1
               && now.state.timer == e.at + (if now.state.count == 1 then 1 else if now.state.count == 2 then 2 else 4)
               && now.state.id == was.state.id && now.state.established == was.state.established
               && now.state.ok200 == was.state.ok200
  {
  }

  /** The message every try of a pass carries: the first dialog's answer, unless that was dropped. */
  function Carried(first: State): Option<string> {
    if Overdue(first) then None else first.ok200
  }

  class Call {
    var id: int
    var dialogs: seq<Dialog>

    constructor ()
      ensures id == -1 && dialogs == []
    {
      id, dialogs := -1, [];
    }

    ghost predicate Valid()
      reads this, dialogs
    {
      && (forall i :: 0 <= i < |dialogs| ==> dialogs[i].Valid())
      && (forall i, j :: 0 <= i < j < |dialogs| ==> dialogs[i] != dialogs[j])
    }

    ghost function Snapshots(): (all: seq<Snapshot>)
      reads this, dialogs
      ensures |all| == |dialogs| && forall i :: 0 <= i < |all| ==> all[i] == dialogs[i].Snap()
    {
      seq(|dialogs|, i requires 0 <= i < |dialogs| reads this, dialogs => dialogs[i].Snap())
    }

    /** The body of the loop for the dialog at j: says whether it was a try. */
    method Visit(j: nat, now: int) returns (tried: bool)
      requires Valid() && j < |dialogs|
      modifies dialogs[j]
      ensures Valid() && Snapshots() == old(Snapshots())[j := dialogs[j].Snap()]
      ensures tried == Due(old(Snapshots())[j].state, now)
      ensures Visited(old(Snapshots())[j], dialogs[j].Snap(), tried, old(Snapshots())[0].state.ok200, now)
    {
      hide Replay;
      var jd := dialogs[j];
      label before:
      tried := false;
      if jd.id >= 1 && jd.established && jd.ok200.Some? {
        if jd.count == MAX_TRIES {
          jd.GiveUp();
        } else if jd.timer < now {
          jd.CountTry(dialogs[0].ok200, now);
          tried := true;
        }
      }
      forall i | 0 <= i < |dialogs| && i != j
        ensures dialogs[i].Valid() && dialogs[i].Snap() == old(dialogs[i].Snap())
      {
        assert old(dialogs[i].Valid());
      }
    }

    /**
     * The pass. Each try moves the cursor back to the first dialog, and the loop then
     * steps to the second; it ends because a dialog is tried at most once.
     */
    method Pass(now: int)
      requires Valid() && |dialogs| > 0
      modifies dialogs
      ensures Valid()
      ensures PassedAll(old(Snapshots()), Snapshots(), now)
    {
      hide *;
      ghost var was := Snapshots();
      ghost var carried := Carried(was[0].state);
      ghost var seen: nat := 0;    // the dialogs before it are settled, except ...
      ghost var again: int := -1;  // ... this one, if any: at its ninth try in this pass
      var j := 0;
      while j < |dialogs|
        invariant Valid() && 0 <= j <= seen <= |dialogs| == |was|
        invariant again == -1 || 0 < j <= again < seen
        invariant seen > 0 ==> j > 0 && Snapshots()[0].state.ok200 == carried
        invariant forall i :: seen <= i < |was| ==> Snapshots()[i] == was[i]
        invariant forall i :: 0 <= i < seen && i != again ==> Settled(was, i, Snapshots()[i], carried, now)
        invariant again >= 0 ==> AtNinth(was[again], Snapshots()[again], carried, now)
        decreases |was| - seen, again, |was| - j
      {
        ghost var before := Snapshots()[j];
        if j < seen && j != again { SettledIsQuiet(was, j, before, carried, now); }
        if j == again { NinthIsOverdue(was[j], before, carried, now); }
        if j == 0 { DueCarriesOwn(was[0].state, now); }
        ghost var sent := Snapshots()[0].state.ok200;
        var tried := Visit(j, now);
        ghost var after := Snapshots()[j];
        if j == 0 { FirstIsCarried(was[0], after, tried, now); }
        if tried {
          SettleTried(was, j, after, carried, now);
          if j > 0 && after.state.count == MAX_TRIES {
            again := j;
          }
          seen := seen + 1;
          j := 0;
        } else if j == seen {
          SettleUntried(was, j, after, sent, carried, now);
          seen := seen + 1;
        } else if j == again {
          SettleNinth(was, j, before, after, carried, now);
          again := -1;
        } else {
          VisitedQuietly(before, after, carried, now);
        }
        j := j + 1;
      }
      forall i | 0 <= i < |was| ensures Passed(was[i], Snapshots()[i], carried, now, i) {
        SettledIsQuiet(was, i, Snapshots()[i], carried, now);
      }
      ThenAllPassed(was, Snapshots(), now);
    }
  }

  /** The effect of one visit on one dialog. */
  ghost predicate Visited(was: Snapshot, after: Snapshot, tried: bool, carried: Option<string>, now: int) {
    if tried then Due(was.state, now) && Tried(was, after, carried, now)
    else if Overdue(was.state) then GivenUp(was, after)
    else after == was
  }

  ghost predicate PassedAll(was: seq<Snapshot>, after: seq<Snapshot>, now: int)
    requires |was| > 0
  {
    && |after| == |was|
    && forall i :: 0 <= i < |was| ==> Passed(was[i], after[i], Carried(was[0].state), now, i)
  }

  /** A dialog the rest of the pass leaves alone; the first one is not visited again. */
  ghost predicate Settled(was: seq<Snapshot>, i: nat, after: Snapshot, carried: Option<string>, now: int)
    requires i < |was|
  {
    && Passed(was[i], after, carried, now, i)
    && !Due(after.state, now)
    && (i > 0 ==> !Overdue(after.state))
  }

  ghost predicate AtNinth(was: Snapshot, after: Snapshot, carried: Option<string>, now: int) {
    && Due(was.state, now) && was.state.count + 1 == MAX_TRIES
    && Tried(was, after, carried, now)
    && Overdue(after.state)
  }

  lemma SettleUntried(was: seq<Snapshot>, i: nat, after: Snapshot, sent: Option<string>,
                      carried: Option<string>, now: int)
    requires i < |was| && !Due(was[i].state, now)
    requires Visited(was[i], after, false, sent, now)
    ensures Settled(was, i, after, carried, now)
  {
  }

  lemma SettleNinth(was: seq<Snapshot>, i: nat, mid: Snapshot, after: Snapshot, carried: Option<string>, now: int)
    requires 0 < i < |was| && AtNinth(was[i], mid, carried, now)
    requires Visited(mid, after, false, carried, now)
    ensures Settled(was, i, after, carried, now)
  {
  }

  lemma SettleTried(was: seq<Snapshot>, i: nat, after: Snapshot, carried: Option<string>, now: int)
    requires i < |was| && Visited(was[i], after, true, carried, now)
    ensures if i > 0 && after.state.count == MAX_TRIES
            then AtNinth(was[i], after, carried, now)
            else Settled(was, i, after, carried, now)
  {
  }

  lemma DueCarriesOwn(first: State, now: int)
    ensures Due(first, now) ==> Carried(first) == first.ok200
  {
  }

  lemma FirstIsCarried(was: Snapshot, after: Snapshot, tried: bool, now: int)
    requires Visited(was, after, tried, was.state.ok200, now)
    ensures after.state.ok200 == Carried(was.state)
  {
  }

  lemma ThenAllPassed(was: seq<Snapshot>, after: seq<Snapshot>, now: int)
    requires |after| == |was| > 0
    requires forall i :: 0 <= i < |was| ==> Passed(was[i], after[i], Carried(was[0].state), now, i)
    ensures PassedAll(was, after, now)
  {
  }

  lemma VisitedQuietly(was: Snapshot, after: Snapshot, carried: Option<string>, now: int)
    requires Visited(was, after, false, carried, now) && !Overdue(was.state)
    ensures after == was
  {
  }

  lemma SettledIsQuiet(was: seq<Snapshot>, i: nat, after: Snapshot, carried: Option<string>, now: int)
    requires i < |was| && Settled(was, i, after, carried, now)
    ensures !Due(after.state, now) && (i > 0 ==> !Overdue(after.state))
    ensures Passed(was[i], after, carried, now, i)
  {
  }

  lemma NinthIsOverdue(was: Snapshot, after: Snapshot, carried: Option<string>, now: int)
    requires AtNinth(was, after, carried, now)
    ensures Overdue(after.state) && !Due(after.state, now)
  {
  }

  /** After a pass no dialog waits past its timer with tries left. */
  lemma NothingLeftDue(was: seq<Snapshot>, after: seq<Snapshot>, now: int, i: nat)
    requires |was| > 0 && PassedAll(was, after, now) && i < |was|
    ensures !Due(after[i].state, now)
  {
    assert Passed(was[i], after[i], Carried(was[0].state), now, i);
  }

  /** The try of a due dialog is the first thing the pass logs for it, and what the try carries. */
  lemma DueIsTried(was: seq<Snapshot>, after: seq<Snapshot>, now: int, i: nat)
    requires |was| > 0 && PassedAll(was, after, now) && i < |was| && Due(was[i].state, now)
    ensures var n := |was[i].log|;
      && |after[i].log| > n && after[i].log[..n] == was[i].log
      && after[i].log[n].Resent? && after[i].log[n].carried == Carried(was[0].state)
  {
    var carried, n := Carried(was[0].state), |was[i].log|;
    assert Passed(was[i], after[i], carried, now, i);
    if was[i].state.count + 1 == MAX_TRIES && i > 0 {
      var mid: Snapshot :| Tried(was[i], mid, carried, now) && GivenUp(mid, after[i]);
      assert after[i].log[..n] == mid.log[..n];
    }
  }

  /** A pass puts a due dialog's own 200 OK on the wire exactly when it is first, or the first one's is the same. */
  lemma OwnAnswerIsCarried(was: seq<Snapshot>, after: seq<Snapshot>, now: int, i: nat)
    requires |was| > 0 && PassedAll(was, after, now) && i < |was| && Due(was[i].state, now)
    ensures |after[i].log| > |was[i].log| && after[i].log[|was[i].log|].Resent?
    ensures after[i].log[|was[i].log|].carried == was[i].state.ok200 <==>
            (i == 0 || (!Overdue(was[0].state) && was[0].state.ok200 == was[i].state.ok200))
  {
    hide PassedAll;
    DueIsTried(was, after, now, i);
  }

  /** Two dialogs of a forked call: only the second one's answer is due at time 6. */
  function Forked(): (was: seq<Snapshot>)
    ensures |was| == 2
  {
    [Snapshot(State(1, true, Some("first"), 0, 6), [Armed("first", 6)]),
     Snapshot(State(2, true, Some("second"), 0, 1), [Armed("second", 1)])]
  }

  /** Whatever a pass makes of the forked call, the second answer's try carries the first answer. */
  lemma SecondAnswerIsNotResent(after: seq<Snapshot>)
    requires PassedAll(Forked(), after, 6)
    ensures after[0] == Forked()[0]
    ensures |after[1].log| == 2 && after[1].log[0] == Armed("second", 1)
    ensures after[1].log[1].Resent? && after[1].log[1].carried == Some("first")
  {
    var was := Forked();
    assert Passed(was[0], after[0], Carried(was[0].state), 6, 0);
    assert Passed(was[1], after[1], Carried(was[0].state), 6, 1);
    DueIsTried(was, after, 6, 1);
    assert after[1].log[0] == after[1].log[..1][0];
  }

  /** A dialog whose 200 OK has just been sent. */
  method AnsweredDialog(id: int, answer: string, now: int) returns (d: Dialog)
    requires id >= 1
    ensures fresh(d) && d.Valid()
    ensures d.Snap() == Snapshot(State(id, true, Some(answer), 0, now + 1), [Armed(answer, now + 1)])
  {
    hide Replay;
    d := new Dialog(id, 0);
    d.Set200Ok(answer, now);
  }

  /** The forked call, built by the code's own steps. */
  method ForkedCall() returns (call: Call)
    ensures fresh(call) && call.Valid() && call.Snapshots() == Forked() && |call.dialogs| == 2
    ensures fresh(call.dialogs[0]) && fresh(call.dialogs[1])
  {
    hide Dialog.Valid;
    hide Dialog.Snap;
    var second := AnsweredDialog(2, "second", 0);
    var first := AnsweredDialog(1, "first", 5);
    call := new Call();
    call.dialogs := [first, second];
  }

  /** A pass over the forked call. */
  method PassOverForkedCall() returns (call: Call)
    ensures fresh(call) && call.Valid() && |call.dialogs| == 2
    ensures call.dialogs[0].log == [Armed("first", 6)]
    ensures |call.dialogs[1].log| == 2 && call.dialogs[1].log[0] == Armed("second", 1)
    ensures call.dialogs[1].log[1].Resent? && call.dialogs[1].log[1].carried == Some("first")
  {
    hide Replay;
    hide PassedAll;
    call := ForkedCall();
    assert forall d :: d in call.dialogs ==> d == call.dialogs[0] || d == call.dialogs[1];
    call.Pass(6);
    SecondAnswerIsNotResent(call.Snapshots());
  }

  /** In a call with one dialog every try carries that dialog's own 200 OK. */
  lemma LoneDialogResendsItsOwn(was: seq<Snapshot>, after: seq<Snapshot>, now: int)
    requires |was| == 1 && PassedAll(was, after, now) && Due(was[0].state, now)
    ensures after[0].log[..|was[0].log|] == was[0].log
    ensures |after[0].log| == |was[0].log| + 1 && after[0].log[|was[0].log|].Resent?
    ensures after[0].log[|was[0].log|].carried == was[0].state.ok200
  {
    assert Passed(was[0], after[0], Carried(was[0].state), now, 0);
  }

  // --- The pass over every call ---

  ghost predicate CallPassed(id: int, was: seq<Snapshot>, after: seq<Snapshot>, now: int) {
    if id >= 1 && |was| > 0 then PassedAll(was, after, now) else after == was
  }

  ghost function DialogsOf(calls: seq<Call>): set<Dialog>
    reads calls
  {
    set k, i | 0 <= k < |calls| && 0 <= i < |calls[k].dialogs| :: calls[k].dialogs[i]
  }

  ghost predicate Apart(calls: seq<Call>)
    reads calls, DialogsOf(calls)
  {
    && (forall k :: 0 <= k < |calls| ==> calls[k].Valid())
    && (forall k, l, d :: 0 <= k < |calls| && 0 <= l < |calls| && k != l && d in calls[k].dialogs ==>
          d !in calls[l].dialogs)
  }

  twostate lemma Undisturbed(call: Call)
    requires unchanged(call) && forall d :: d in call.dialogs ==> unchanged(d)
    requires old(call.Valid())
    ensures call.Valid() && call.Snapshots() == old(call.Snapshots())
  {
    forall i | 0 <= i < |call.dialogs|
      ensures call.dialogs[i].Valid() && call.dialogs[i].Snap() == old(call.dialogs[i].Snap())
    {
      assert call.dialogs[i] in call.dialogs;
      assert old(call.dialogs[i].Valid());
    }
  }

  /** `_eXosip_retransmit_lost200ok`: every call with an id and a dialog gets its pass. */
  method RetransmitLost200Ok(calls: seq<Call>, now: int)
    requires Apart(calls)
    modifies DialogsOf(calls)
    ensures Apart(calls)
    ensures forall k :: 0 <= k < |calls| ==>
              if calls[k].id >= 1 && |calls[k].dialogs| > 0
              then PassedAll(old(calls[k].Snapshots()), calls[k].Snapshots(), now)
              else calls[k].Snapshots() == old(calls[k].Snapshots())
  {
    hide Passed, PassedAll, Replay, Call.Valid, Call.Snapshots;
    var k := 0;
    while k < |calls|
      invariant 0 <= k <= |calls| && Apart(calls)
      invariant forall l :: 0 <= l < k ==>
                  CallPassed(calls[l].id, old(calls[l].Snapshots()), calls[l].Snapshots(), now)
      invariant forall l :: k <= l < |calls| ==> calls[l].Snapshots() == old(calls[l].Snapshots())
    {
      if calls[k].id >= 1 && |calls[k].dialogs| > 0 {
        label before:
        calls[k].Pass(now);
        forall l | 0 <= l < |calls| && l != k
          ensures calls[l].Valid() && calls[l].Snapshots() == old@before(calls[l].Snapshots())
        {
          Undisturbed@before(calls[l]);
        }
      }
      k := k + 1;
    }
  }
}
