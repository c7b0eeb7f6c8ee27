/** The numbers that `_eXosip_update` gives to calls, subscriptions, notifications and dialogs. */
module Identifiers {
  import opened Text

  const LAST_ID := 32767

  // --- The numbering as a function ---

  /** An identifier, and whether its holder is alive: a dialog may be over, the others never are. */
  datatype Slot = Slot(id: int, alive: bool)

  predicate NeedsId(s: Slot) { s.alive && s.id < 1 }

  /** How many holders wait for an identifier. */
  function Waiting(slots: seq<Slot>): (n: nat)
    ensures n <= |slots|
  {
    if slots == [] then 0
    else Waiting(slots[..|slots| - 1]) + (if NeedsId(slots[|slots| - 1]) then 1 else 0)
  }

  function Numbered(s: Slot, next: int): Slot {
    if !s.alive then s.(id := -1) else if s.id < 1 then s.(id := next) else s
  }

  /** The slots after numbering them in order from `start`. */
  function NumberedAll(slots: seq<Slot>, start: int): (r: seq<Slot>)
    ensures |r| == |slots|
  {
    if slots == [] then []
    else
      var front := slots[..|slots| - 1];
      NumberedAll(front, start) + [Numbered(slots[|slots| - 1], start + Waiting(front))]
  }

  lemma {:induction false} WaitingAppend(a: seq<Slot>, b: seq<Slot>)
    ensures Waiting(a + b) == Waiting(a) + Waiting(b)
  {
    if b == [] {
      assert a + b == a;
    } else {
      WaitingAppend(a, b[..|b| - 1]);
      assert (a + b)[..|a + b| - 1] == a + b[..|b| - 1];
    }
  }

  lemma NumberedSnoc(slots: seq<Slot>, s: Slot, start: int)
    ensures NumberedAll(slots + [s], start) == NumberedAll(slots, start) + [Numbered(s, start + Waiting(slots))]
  {
    assert (slots + [s])[..|slots|] == slots;
  }

  lemma {:induction false} NumberedAppend(a: seq<Slot>, b: seq<Slot>, start: int)
    ensures NumberedAll(a + b, start) == NumberedAll(a, start) + NumberedAll(b, start + Waiting(a))
  {
    if b == [] {
      assert a + b == a;
    } else {
      hide NumberedAll;
      hide Waiting;
      var front, s := b[..|b| - 1], b[|b| - 1];
      NumberedAppend(a, front, start);
      NumberedAppendOne(a, front, s, start);
      assert b == front + [s];
    }
  }

  lemma NumberedAppendOne(a: seq<Slot>, b: seq<Slot>, s: Slot, start: int)
    requires NumberedAll(a + b, start) == NumberedAll(a, start) + NumberedAll(b, start + Waiting(a))
    ensures NumberedAll(a + (b + [s]), start) == NumberedAll(a, start) + NumberedAll(b + [s], start + Waiting(a))
  {
    hide NumberedAll;
    hide Waiting;
    hide Numbered;
    WaitingAppend(a, b);
    NumberedSnoc(b, s, start + Waiting(a));
    NumberedSnoc(a + b, s, start);
    Assoc(a, b, [s]);
    Assoc(NumberedAll(a, start), NumberedAll(b, start + Waiting(a)), [Numbered(s, start + Waiting(a) + Waiting(b))]);
  }

  /** Slot by slot: the number given depends on how many waited before. */
  lemma {:induction false} NumberedAt(slots: seq<Slot>, start: int, i: nat)
    requires i < |slots|
    ensures NumberedAll(slots, start)[i] == Numbered(slots[i], start + Waiting(slots[..i]))
  {
    var front := slots[..|slots| - 1];
    if i == |slots| - 1 {
    } else {
      NumberedAt(front, start, i);
      assert front[..i] == slots[..i];
    }
  }

  lemma {:induction false} WaitingGrows(slots: seq<Slot>, i: nat, j: nat)
    requires i < j <= |slots|
    ensures Waiting(slots[..i]) <= Waiting(slots[..j])
    ensures NeedsId(slots[i]) ==> Waiting(slots[..i]) < Waiting(slots[..j])
  {
    assert slots[..j][..j - 1] == slots[..j - 1];
    if i == j - 1 {
    } else {
      WaitingGrows(slots, i, j - 1);
    }
  }

  /** No two holders share a positive identifier. */
  predicate Distinct(slots: seq<Slot>) {
    forall i, j :: 0 <= i < j < |slots| && slots[i].id >= 1 ==> slots[i].id != slots[j].id
  }

  /** No living holder already has one of the n numbers from `start` on. */
  predicate Unused(slots: seq<Slot>, start: int, n: nat) {
    forall i :: 0 <= i < |slots| && slots[i].alive && slots[i].id >= 1 ==>
      !(start <= slots[i].id < start + n)
  }

  /** The living keep an identifier they had, and all of them have one. */
  predicate Kept(was: Slot, now: Slot) {
    && now.alive == was.alive && (now.alive <==> now.id >= 1)
    && (was.alive && was.id >= 1 ==> now.id == was.id)
  }

  lemma NumberingIsStable(slots: seq<Slot>, start: int, i: nat)
    requires i < |slots| && start >= 1
    ensures Kept(slots[i], NumberedAll(slots, start)[i])
    ensures var now := NumberedAll(slots, start)[i];
            && now.alive == slots[i].alive
            && (!slots[i].alive ==> now.id == -1)
            && (slots[i].alive && slots[i].id >= 1 ==> now.id == slots[i].id)
            && (slots[i].alive && slots[i].id < 1 ==> now.id >= start)
  {
    NumberedAt(slots, start, i);
  }

  /** The first holder that waits gets the start, and each further one the next number. */
  lemma NumbersInOrder(slots: seq<Slot>, start: int, i: nat, j: nat)
    requires i < j < |slots| && NeedsId(slots[i]) && NeedsId(slots[j])
    requires forall k :: i < k < j ==> !NeedsId(slots[k])
    ensures (forall k :: 0 <= k < i ==> !NeedsId(slots[k])) ==> NumberedAll(slots, start)[i].id == start
    ensures NumberedAll(slots, start)[j].id == NumberedAll(slots, start)[i].id + 1
  {
    NumberedAt(slots, start, i);
    NumberedAt(slots, start, j);
    if forall k :: 0 <= k < i ==> !NeedsId(slots[k]) { NoneWait(slots, 0, i); }
    assert slots[..i + 1][..i] == slots[..i];
    NoneWait(slots, i + 1, j);
    assert slots[..0] == [];
  }

  lemma {:induction false} NoneWait(slots: seq<Slot>, i: nat, j: nat)
    requires i <= j <= |slots| && forall k :: i <= k < j ==> !NeedsId(slots[k])
    ensures Waiting(slots[..j]) == Waiting(slots[..i])
  {
    if i == j {
    } else {
      NoneWait(slots, i, j - 1);
      assert slots[..j][..j - 1] == slots[..j - 1];
    }
  }

  /** Numbers that are not in use give distinct identifiers. */
  lemma UnusedStaysDistinct(slots: seq<Slot>, start: int)
    requires start >= 1 && Distinct(slots) && Unused(slots, start, Waiting(slots))
    ensures Distinct(NumberedAll(slots, start))
  {
    var r := NumberedAll(slots, start);
    assert slots[..|slots|] == slots;
    forall i, j | 0 <= i < j < |r| && r[i].id >= 1 ensures r[i].id != r[j].id {
      NumberedAt(slots, start, i);
      NumberedAt(slots, start, j);
      WaitingGrows(slots, i, j);
      WaitingGrows(slots, i, |slots|);
      WaitingGrows(slots, j, |slots|);
    }
  }

  /** The number given as the c-th is given to somebody. */
  lemma {:induction false} SomebodyGets(slots: seq<Slot>, c: nat) returns (i: nat)
    requires c < Waiting(slots)
    ensures i < |slots| && NeedsId(slots[i]) && Waiting(slots[..i]) == c
  {
    var n := |slots| - 1;
    if c < Waiting(slots[..n]) {
      i := SomebodyGets(slots[..n], c);
      assert slots[..n][..i] == slots[..i];
    } else {
      i := n;
    }
  }

  /** A number that is in use and given out again is held twice. */
  lemma UsedIsRepeated(slots: seq<Slot>, start: int, k: nat)
    requires start >= 1 && k < |slots| && slots[k].alive && slots[k].id >= 1
    requires start <= slots[k].id < start + Waiting(slots)
    ensures !Distinct(NumberedAll(slots, start))
  {
    hide Waiting, NumberedAll;
    var r := NumberedAll(slots, start);
    var i := SomebodyGets(slots, slots[k].id - start);
    NumberedAt(slots, start, i);
    NumberedAt(slots, start, k);
    assert r[i].id == r[k].id && i != k;
  }

  /** Identifiers stay distinct exactly when none of the numbers given out is in use. */
  lemma DistinctIffUnused(slots: seq<Slot>, start: int)
    requires start >= 1 && Distinct(slots)
    ensures Distinct(NumberedAll(slots, start)) <==> Unused(slots, start, Waiting(slots))
  {
    hide Distinct, Waiting, NumberedAll;
    if Unused(slots, start, Waiting(slots)) {
      UnusedStaysDistinct(slots, start);
    } else {
      var k :| 0 <= k < |slots| && slots[k].alive && slots[k].id >= 1
               && start <= slots[k].id < start + Waiting(slots);
      UsedIsRepeated(slots, start, k);
    }
  }

  predicate Below(slots: seq<Slot>, bound: int) {
    forall i :: 0 <= i < |slots| ==> slots[i].id < bound
  }

  lemma NumberedStaysBelow(slots: seq<Slot>, start: int)
    requires start >= 1 && Below(slots, start)
    ensures Below(NumberedAll(slots, start), start + Waiting(slots))
    ensures Unused(slots, start, Waiting(slots))
  {
    assert slots[..|slots|] == slots;
    forall i | 0 <= i < |slots| ensures NumberedAll(slots, start)[i].id < start + Waiting(slots) {
      NumberedAt(slots, start, i);
      WaitingGrows(slots, i, |slots|);
    }
  }

  /** After the wrap a long-lived call and a new one get the same number. */
  lemma WrappedNumbersCollide()
    ensures var slots := [Slot(-1, true), Slot(1, true)];
      Distinct(slots) && !Distinct(NumberedAll(slots, 1))
  {
    var slots := [Slot(-1, true), Slot(1, true)];
    DistinctIffUnused(slots, 1);
    assert Waiting(slots) == 1 by {
      assert slots[..1] == [Slot(-1, true)];
      assert slots[..1][..0] == [];
    }
    assert slots[1].alive && 1 <= slots[1].id < 2;
  }

  // --- The objects ---

  /** A call, subscription, notification or dialog; only a dialog can be over. */
  class Holder {
    const isDialog: bool
    var id: int
    var established: bool   // d_dialog is there

    constructor (dialog: bool)
      ensures isDialog == dialog && Now() == Slot(-1, true)
    {
      isDialog, id, established := dialog, -1, true;
    }

    ghost function Now(): Slot
      reads this
    {
      Slot(id, isDialog ==> established)
    }
  }

  /** A call, subscription or notification, with its dialogs. */
  datatype Session = Session(self: Holder, dialogs: seq<Holder>)

  datatype Kind = Calls | Subscribes | Notifies

  function WithDialogs(s: Session, dialogs: seq<Holder>): Session {
    s.(dialogs := dialogs)
  }

  predicate WellFormed(s: Session) {
    !s.self.isDialog && forall d :: d in s.dialogs ==> d.isDialog
  }

  function Flat(sessions: seq<Session>): seq<Holder> {
    if sessions == [] then []
    else
      var s := sessions[|sessions| - 1];
      Flat(sessions[..|sessions| - 1]) + ([s.self] + s.dialogs)
  }

  lemma {:induction false} FlatAppend(a: seq<Session>, b: seq<Session>)
    ensures Flat(a + b) == Flat(a) + Flat(b)
  {
    if b == [] {
      assert a + b == a;
    } else {
      hide Flat;
      var front, s := b[..|b| - 1], b[|b| - 1];
      FlatAppend(a, front);
      FlatAppendOne(a, front, s);
      assert b == front + [s];
    }
  }

  lemma FlatAppendOne(a: seq<Session>, b: seq<Session>, s: Session)
    requires Flat(a + b) == Flat(a) + Flat(b)
    ensures Flat(a + (b + [s])) == Flat(a) + Flat(b + [s])
  {
    hide Flat;
    FlatSnoc(b, s);
    FlatSnoc(a + b, s);
    Assoc(a, b, [s]);
    Assoc(Flat(a), Flat(b), [s.self] + s.dialogs);
  }

  /** The middle m of a long concatenation, in the groupings used below. */
  lemma Regroup<T>(before: seq<T>, left: seq<T>, self: seq<T>, m: seq<T>, rest: seq<T>, right: seq<T>, after: seq<T>)
    ensures before + ((left + (self + (m + rest)) + right) + after) ==
            (before + left + self) + m + (rest + right + after)
  {
    assert left + (self + (m + rest)) + right == left + self + m + (rest + right);
  }

  lemma AroundDialog<T>(self: seq<T>, dialogs: seq<T>, j: nat)
    requires j < |dialogs|
    ensures self + dialogs == (self + dialogs[..j]) + ([dialogs[j]] + dialogs[j + 1..])
    ensures self + (dialogs[..j] + dialogs[j + 1..]) == (self + dialogs[..j]) + dialogs[j + 1..]
  {
  }

  lemma FlatSnoc(sessions: seq<Session>, s: Session)
    ensures Flat(sessions + [s]) == Flat(sessions) + ([s.self] + s.dialogs)
  {
    assert (sessions + [s])[..|sessions|] == sessions;
  }

  lemma FlatOne(s: Session)
    ensures Flat([s]) == [s.self] + s.dialogs
  {
    assert [s][..0] == [];
  }

  /** The holders before, in and after session k. */
  lemma FlatAround(sessions: seq<Session>, k: nat)
    requires k < |sessions|
    ensures var s := sessions[k];
      && Flat(sessions) == Flat(sessions[..k]) + ([s.self] + s.dialogs) + Flat(sessions[k + 1..])
      && Flat(sessions[..k + 1]) == Flat(sessions[..k]) + ([s.self] + s.dialogs)
  {
    hide Flat;
    var s := sessions[k];
    SplitAt(sessions, k);
    FlatOne(s);
    FlatAppend(sessions[..k], [s]);
    FlatAppend(sessions[..k + 1], sessions[k + 1..]);
  }

  lemma SplitAt<T>(s: seq<T>, k: nat)
    requires k < |s|
    ensures s[..k + 1] == s[..k] + [s[k]] && s == s[..k + 1] + s[k + 1..]
  {
  }

  /** Where the holders of session k stand. */
  lemma FlatAt(sessions: seq<Session>, k: nat)
    requires k < |sessions|
    ensures var s, q := sessions[k], |Flat(sessions[..k])|;
      && |Flat(sessions[..k + 1])| == q + 1 + |s.dialogs| <= |Flat(sessions)|
      && Flat(sessions)[q] == s.self
      && forall j :: 0 <= j < |s.dialogs| ==> Flat(sessions)[q + 1 + j] == s.dialogs[j]
  {
    FlatAround(sessions, k);
  }

  lemma FlatReplaced(sessions: seq<Session>, k: nat, s: Session)
    requires k < |sessions|
    ensures Flat(sessions[k := s]) == Flat(sessions[..k]) + ([s.self] + s.dialogs) + Flat(sessions[k + 1..])
  {
    hide Flat;
    var r := sessions[k := s];
    FlatAround(r, k);
    assert r[..k] == sessions[..k] && r[k + 1..] == sessions[k + 1..];
  }

  ghost function Slots(hs: seq<Holder>): (r: seq<Slot>)
    reads hs
    ensures |r| == |hs| && forall i :: 0 <= i < |r| ==> r[i] == hs[i].Now()
  {
    seq(|hs|, i requires 0 <= i < |hs| reads hs => hs[i].Now())
  }

  predicate NoRepeat(hs: seq<Holder>) {
    forall i, j :: 0 <= i < j < |hs| ==> hs[i] != hs[j]
  }

  /** The first p holders are numbered, the others are as they were. */
  ghost predicate Reached(flat: seq<Holder>, was: seq<Slot>, start: int, p: nat)
    reads flat
  {
    && |was| == |flat| && p <= |flat|
    && (forall i :: 0 <= i < p ==> flat[i].Now() == NumberedAll(was, start)[i])
    && (forall i :: p <= i < |flat| ==> flat[i].Now() == was[i])
  }

  /** Holders in good order: no repetition, distinct numbers, all below the counter. */
  ghost predicate InOrder(hs: seq<Holder>, counter: int)
    reads hs
  {
    NoRepeat(hs) && Distinct(Slots(hs)) && Below(Slots(hs), counter)
  }

  lemma Inserted(a: seq<Holder>, b: seq<Holder>, h: Holder, counter: int)
    requires InOrder(a + b, counter) && h !in a + b && h.id < 1 <= counter
    ensures InOrder(a + [h] + b, counter)
  {
    var before, after := a + b, a + [h] + b;
    forall i | 0 <= i < |after| && i != |a| ensures after[i] == before[if i < |a| then i else i - 1] {
    }
    forall i, j | 0 <= i < j < |after|
      ensures after[i] != after[j] && (after[i].id >= 1 ==> after[i].id != after[j].id)
    {
      var p, q := if i <= |a| then i else i - 1, if j <= |a| then j else j - 1;
      if i != |a| && j != |a| {
        assert Slots(before)[p].id == after[i].id && Slots(before)[q].id == after[j].id;
      } else if i == |a| {
        assert after[j] == before[j - 1];
      } else {
        assert after[i] == before[i];
      }
    }
    forall i | 0 <= i < |after| ensures after[i].id < counter {
      if i != |a| {
        assert Slots(before)[if i < |a| then i else i - 1].id == after[i].id;
      }
    }
  }

  lemma Removed(a: seq<Holder>, m: seq<Holder>, b: seq<Holder>, counter: int)
    requires InOrder(a + m + b, counter)
    ensures InOrder(a + b, counter)
  {
    var before, after := a + m + b, a + b;
    forall i | 0 <= i < |after|
      ensures after[i] == before[if i < |a| then i else i + |m|]
      ensures Slots(after)[i] == Slots(before)[if i < |a| then i else i + |m|]
    {
    }
    forall i, j | 0 <= i < j < |after|
      ensures after[i] != after[j] && (after[i].id >= 1 ==> after[i].id != after[j].id)
    {
      var p, q := if i < |a| then i else i + |m|, if j < |a| then j else j + |m|;
      assert Slots(before)[p].id == after[i].id && Slots(before)[q].id == after[j].id;
    }
  }

  /** The list stands in `flat` from position `base` on. */
  predicate Stands(list: seq<Holder>, flat: seq<Holder>, base: nat) {
    base + |list| <= |flat| && forall i :: 0 <= i < |list| ==> flat[base + i] == list[i]
  }

  lemma Thirds(a: seq<Holder>, b: seq<Holder>, c: seq<Holder>)
    ensures Stands(a, a + b + c, 0) && Stands(b, a + b + c, |a|) && Stands(c, a + b + c, |a| + |b|)
    ensures |a + b + c| == |a| + |b| + |c|
  {
  }

  method NewHolder(dialog: bool, ghost hs: seq<Holder>, ghost counter: int) returns (h: Holder)
    requires InOrder(hs, counter)
    ensures fresh(h) && h !in hs && h.isDialog == dialog && h.Now() == Slot(-1, true)
    ensures InOrder(hs, counter)
  {
    ghost var was := Slots(hs);
    h := new Holder(dialog);
    assert Slots(hs) == was;
  }

  class Numbering {
    var counter: int        // static_id
    var calls: seq<Session>
    var subscribes: seq<Session>
    var notifies: seq<Session>

    constructor ()
      ensures Valid() && counter == 1 && calls == subscribes == notifies == []
    {
      counter, calls, subscribes, notifies := 1, [], [], [];
    }

    ghost function All(): seq<Holder>
      reads this
    {
      Flat(calls) + Flat(subscribes) + Flat(notifies)
    }

    ghost predicate Shaped()
      reads this, All()
    {
      && counter >= 1 && NoRepeat(All())
      && forall s :: s in calls + subscribes + notifies ==> WellFormed(s)
    }

    /** Identifiers are distinct and the counter is past all of them. */
    ghost predicate Valid()
      reads this, All()
    {
      Shaped() && Distinct(Slots(All())) && Below(Slots(All()), counter)
    }

    /** The number for a call, subscription or notification. */
    method NumberSelf(h: Holder, ghost flat: seq<Holder>, ghost was: seq<Slot>, ghost start: int, ghost p: nat)
      requires NoRepeat(flat) && Reached(flat, was, start, p) && p < |flat| && flat[p] == h && !h.isDialog
      requires counter == start + Waiting(was[..p])
      modifies h`id, this`counter
      ensures Reached(flat, was, start, p + 1) && counter == start + Waiting(was[..p + 1])
    {
      NumberedAt(was, start, p);
      assert was[..p + 1][..p] == was[..p];
      if h.id < 1 {
        h.id := counter;
        counter := counter + 1;
      }
    }

    /** The number for a dialog; one that is over loses its own. */
    method NumberDialog(h: Holder, ghost flat: seq<Holder>, ghost was: seq<Slot>, ghost start: int, ghost p: nat)
      requires NoRepeat(flat) && Reached(flat, was, start, p) && p < |flat| && flat[p] == h && h.isDialog
      requires counter == start + Waiting(was[..p])
      modifies h`id, this`counter
      ensures Reached(flat, was, start, p + 1) && counter == start + Waiting(was[..p + 1])
    {
      NumberedAt(was, start, p);
      assert was[..p + 1][..p] == was[..p];
      if h.established {
        if h.id < 1 {
          h.id := counter;
          counter := counter + 1;
        }
      } else {
        h.id := -1;
      }
    }

    /** A session, then its dialogs. */
    method NumberSession(s: Session, ghost flat: seq<Holder>, ghost was: seq<Slot>, ghost start: int, ghost p: nat)
      requires NoRepeat(flat) && Reached(flat, was, start, p) && counter == start + Waiting(was[..p])
      requires p + 1 + |s.dialogs| <= |flat| == |was| && flat[p] == s.self && WellFormed(s)
      requires forall j :: 0 <= j < |s.dialogs| ==> flat[p + 1 + j] == s.dialogs[j]
      modifies s.self`id, s.dialogs`id, this`counter
      ensures Reached(flat, was, start, p + 1 + |s.dialogs|)
      ensures counter == start + Waiting(was[..p + 1 + |s.dialogs|])
    {
      hide Reached, Waiting, NoRepeat;
      NumberSelf(s.self, flat, was, start, p);
      var j := 0;
      while j < |s.dialogs|
        invariant 0 <= j <= |s.dialogs|
        invariant Reached(flat, was, start, p + 1 + j) && counter == start + Waiting(was[..p + 1 + j])
      {
        assert s.dialogs[j] in s.dialogs;
        NumberDialog(s.dialogs[j], flat, was, start, p + 1 + j);
        j := j + 1;
      }
    }

    /** The first p holders are numbered and the counter has moved accordingly. */
    ghost predicate At(flat: seq<Holder>, was: seq<Slot>, start: int, p: nat)
      reads this, flat
    {
      |was| == |flat| && p <= |flat| && Reached(flat, was, start, p) && counter == start + Waiting(was[..p])
    }

    /** One of the three loops: the sessions of a list, each followed by its dialogs. */
    method NumberList(sessions: seq<Session>, ghost flat: seq<Holder>, ghost was: seq<Slot>, ghost start: int,
                      ghost base: nat)
      requires NoRepeat(flat) && At(flat, was, start, base) && Stands(Flat(sessions), flat, base)
      requires forall s :: s in sessions ==> WellFormed(s)
      modifies flat`id, this`counter
      ensures At(flat, was, start, base + |Flat(sessions)|)
    {
      hide Reached, Waiting, NoRepeat, Flat;
      FlatNone();
      var k := 0;
      assert sessions[..0] == [];
      while k < |sessions|
        invariant 0 <= k <= |sessions|
        invariant At(flat, was, start, base + |Flat(sessions[..k])|)
      {
        ghost var q := |Flat(sessions[..k])|;
        FlatAt(sessions, k);
        assert flat[base + q] == sessions[k].self;
        forall j | 0 <= j < |sessions[k].dialogs|
          ensures flat[base + q + 1 + j] == sessions[k].dialogs[j] && sessions[k].dialogs[j] in flat
        {
          assert flat[base + (q + 1 + j)] == Flat(sessions)[q + 1 + j];
        }
        NumberSession(sessions[k], flat, was, start, base + q);
        k := k + 1;
      }
      assert sessions[..k] == sessions;
    }

    /** `_eXosip_update`: the wrap, then the three lists. */
    method Update()
      requires Shaped()
      modifies this`counter, All()`id
      ensures Shaped()
      ensures var start := if old(counter) == 32767 then 1 else old(counter);
        && Slots(All()) == NumberedAll(old(Slots(All())), start)
        && counter == start + Waiting(old(Slots(All())))
    {
      hide Reached, Waiting, Flat, NoRepeat, NumberedAll, WellFormed;
      ghost var flat, was := All(), Slots(All());
      var cs, ss, ns := calls, subscribes, notifies;
      if counter == LAST_ID {
        counter := 1;
      }
      NumberLists(cs, ss, ns, flat, was);
      assert calls == cs && subscribes == ss && notifies == ns;
      assert All() == flat;
    }

    /** The three loops. */
    method NumberLists(cs: seq<Session>, ss: seq<Session>, ns: seq<Session>,
                       ghost flat: seq<Holder>, ghost was: seq<Slot>)
      requires NoRepeat(flat) && was == Slots(flat) && flat == Flat(cs) + Flat(ss) + Flat(ns)
      requires forall s :: s in cs + ss + ns ==> WellFormed(s)
      modifies this`counter, flat`id
      ensures Slots(flat) == NumberedAll(was, old(counter)) && counter == old(counter) + Waiting(was)
    {
      hide At, Waiting, Flat, NoRepeat, NumberedAll, WellFormed, Stands;
      ghost var start := counter;
      ghost var a, b := |Flat(cs)|, |Flat(ss)|;
      Thirds(Flat(cs), Flat(ss), Flat(ns));
      StartsAt(flat, was);
      assert forall s :: s in cs ==> s in cs + ss + ns;
      assert forall s :: s in ss ==> s in cs + ss + ns;
      assert forall s :: s in ns ==> s in cs + ss + ns;
      NumberList(cs, flat, was, start, 0);
      NumberList(ss, flat, was, start, a);
      NumberList(ns, flat, was, start, a + b);
      EndsAt(flat, was, start);
    }

    lemma StartsAt(flat: seq<Holder>, was: seq<Slot>)
      requires was == Slots(flat)
      ensures At(flat, was, counter, 0)
    {
    }

    lemma EndsAt(flat: seq<Holder>, was: seq<Slot>, start: int)
      requires At(flat, was, start, |flat|)
      ensures Slots(flat) == NumberedAll(was, start) && counter == start + Waiting(was)
    {
      assert was[..|flat|] == was;
    }

    /** A run without the wrap keeps every identifier distinct, and living holders keep theirs. */
    method UpdateBeforeWrap()
      requires Valid() && counter != 32767
      modifies this`counter, All()`id
      ensures Valid() && All() == old(All())
      ensures forall i :: 0 <= i < |All()| ==> Kept(old(Slots(All()))[i], Slots(All())[i])
    {
      hide Flat, NumberedAll, Waiting;
      ghost var was, start := Slots(All()), counter;
      NumberedStaysBelow(was, start);
      DistinctIffUnused(was, start);
      Update();
      forall i | 0 <= i < |All()| ensures Kept(was[i], Slots(All())[i]) {
        NumberingIsStable(was, start, i);
      }
    }

    /** The update that wraps keeps identifiers distinct exactly when it hands out none in use. */
    method UpdateAtWrap()
      requires Valid() && counter == 32767
      modifies this`counter, All()`id
      ensures Shaped()
      ensures Distinct(Slots(All())) <==> old(Unused(Slots(All()), 1, Waiting(Slots(All()))))
    {
      hide Flat, NumberedAll, Waiting, Unused;
      DistinctIffUnused(Slots(All()), 1);
      Update();
    }

    // --- Looking a number up ---

    /** At most one holder has a positive number. */
    lemma Unambiguous(g: Holder, h: Holder)
      requires Valid() && g in All() && h in All() && g.id == h.id >= 1
      ensures g == h
    {
      var i :| 0 <= i < |All()| && All()[i] == g;
      var j :| 0 <= j < |All()| && All()[j] == h;
      assert Slots(All())[i].id == Slots(All())[j].id;
    }

    /** `_eXosip_call_find`. */
    method CallFind(cid: int) returns (jc: Option<Session>)
      requires Valid()
      ensures jc.Some? ==> jc.value in calls && jc.value.self.id == cid >= 1
      ensures jc.None? ==> cid <= 0 || forall s :: s in calls ==> s.self.id != cid
      ensures jc.Some? ==> forall h :: h in All() && h.id == cid ==> h == jc.value.self
    {
      if cid <= 0 { return None; }
      var k := 0;
      while k < |calls|
        invariant 0 <= k <= |calls|
        invariant forall i :: 0 <= i < k ==> calls[i].self.id != cid
      {
        if calls[k].self.id == cid {
          SelfIsHolder(k);
          forall h | h in All() && h.id == cid ensures h == calls[k].self {
            Unambiguous(h, calls[k].self);
          }
          return Some(calls[k]);
        }
        k := k + 1;
      }
      return None;
    }

    lemma SelfIsHolder(k: nat)
      requires k < |calls|
      ensures calls[k].self in All()
    {
      FlatAround(calls, k);
    }

    lemma DialogIsHolder(k: nat, j: nat)
      requires k < |calls| && j < |calls[k].dialogs|
      ensures calls[k].dialogs[j] in All()
    {
      FlatAround(calls, k);
      assert ([calls[k].self] + calls[k].dialogs)[j + 1] == calls[k].dialogs[j];
    }

    /** `_eXosip_call_dialog_find`: the only dialog, call or subscription with the number. */
    method CallDialogFind(jid: int) returns (r: Option<(Session, Holder)>)
      requires Valid()
      ensures r.Some? ==>
                && r.value.0 in calls && r.value.1 in r.value.0.dialogs && r.value.1.id == jid >= 1
                && forall h :: h in All() && h.id == jid ==> h == r.value.1
      ensures r.None? ==> jid <= 0 || forall s, d :: s in calls && d in s.dialogs ==> d.id != jid
    {
      if jid <= 0 { return None; }
      var k := 0;
      while k < |calls|
        invariant 0 <= k <= |calls|
        invariant forall i, d :: 0 <= i < k && d in calls[i].dialogs ==> d.id != jid
      {
        var j := 0;
        while j < |calls[k].dialogs|
          invariant 0 <= j <= |calls[k].dialogs|
          invariant forall i :: 0 <= i < j ==> calls[k].dialogs[i].id != jid
        {
          if calls[k].dialogs[j].id == jid {
            DialogIsHolder(k, j);
            forall h | h in All() && h.id == jid ensures h == calls[k].dialogs[j] {
              Unambiguous(h, calls[k].dialogs[j]);
            }
            return Some((calls[k], calls[k].dialogs[j]));
          }
          j := j + 1;
        }
        k := k + 1;
      }
      return None;
    }

    // --- Calls, subscriptions, notifications and their dialogs come and go ---

    function ListOf(kind: Kind): seq<Session>
      reads this
    {
      match kind case Calls => calls case Subscribes => subscribes case Notifies => notifies
    }

    /** The holders of the lists before this one. */
    ghost function Before(kind: Kind): seq<Holder>
      reads this
    {
      match kind case Calls => [] case Subscribes => Flat(calls) case Notifies => Flat(calls) + Flat(subscribes)
    }

    ghost function After(kind: Kind): seq<Holder>
      reads this
    {
      match kind case Calls => Flat(subscribes) + Flat(notifies) case Subscribes => Flat(notifies) case Notifies => []
    }

    lemma AllAround(kind: Kind)
      ensures All() == Before(kind) + (Flat(ListOf(kind)) + After(kind))
    {
      hide Flat;
      Assoc(Flat(calls), Flat(subscribes), Flat(notifies));
    }

    lemma InOrderIfValid()
      requires Valid()
      ensures InOrder(All(), counter)
    {
    }

    /** One list changes, and all holders are still in order. */
    method SetList(kind: Kind, sessions: seq<Session>)
      requires Valid() && forall s :: s in sessions ==> WellFormed(s)
      requires InOrder(Before(kind) + (Flat(sessions) + After(kind)), counter)
      modifies this`calls, this`subscribes, this`notifies
      ensures Valid() && ListOf(kind) == sessions
      ensures forall other :: other != kind ==> ListOf(other) == old(ListOf(other))
    {
      hide Flat, NoRepeat, Distinct, Below, WellFormed;
      match kind {
        case Calls => calls := sessions;
        case Subscribes => subscribes := sessions;
        case Notifies => notifies := sessions;
      }
      AllAround(kind);
      forall s | s in calls + subscribes + notifies ensures WellFormed(s) {
        assert s in sessions || s in old(calls) + old(subscribes) + old(notifies);
      }
    }

    lemma ListIsWellFormed(kind: Kind)
      requires Shaped()
      ensures forall s :: s in ListOf(kind) ==> WellFormed(s)
    {
      hide WellFormed;
      forall s | s in ListOf(kind) ensures WellFormed(s) {
        assert s in calls + subscribes + notifies;
      }
    }

    /** A new call, subscription or notification at the front of its list, without a number yet. */
    method AddSession(kind: Kind) returns (s: Session)
      requires Valid()
      modifies this`calls, this`subscribes, this`notifies
      ensures Valid() && ListOf(kind) == [s] + old(ListOf(kind))
      ensures s.dialogs == [] && s.self.Now() == Slot(-1, true)
      ensures forall other :: other != kind ==> ListOf(other) == old(ListOf(other))
    {
      hide Flat, NoRepeat, Distinct, Below, InOrder;
      ghost var a, b := Before(kind), After(kind);
      var list := ListOf(kind);
      InOrderIfValid();
      AllAround(kind);
      ListIsWellFormed(kind);
      var h := NewHolder(false, All(), counter);
      s := Session(h, []);
      Inserted(a, Flat(list) + b, h, counter);
      FlatOne(s);
      FlatAppend([s], list);
      assert a + [h] + (Flat(list) + b) == a + (Flat([s] + list) + b);
      SetList(kind, [s] + list);
    }

    /** A new dialog in front of the others of a session. */
    method AddDialog(kind: Kind, k: nat) returns (d: Holder)
      requires Valid() && k < |ListOf(kind)|
      modifies this`calls, this`subscribes, this`notifies
      ensures Valid() && d.Now() == Slot(-1, true) && d.isDialog
      ensures ListOf(kind) ==
              old(ListOf(kind))[k := WithDialogs(old(ListOf(kind))[k], [d] + old(ListOf(kind))[k].dialogs)]
      ensures forall other :: other != kind ==> ListOf(other) == old(ListOf(other))
    {
      hide Flat, NoRepeat, Distinct, Below, InOrder;
      var list := ListOf(kind);
      var s := list[k];
      InOrderIfValid();
      AllAround(kind);
      ListIsWellFormed(kind);
      assert WellFormed(s);
      d := NewHolder(true, All(), counter);
      var s' := WithDialogs(s, [d] + s.dialogs);
      ghost var a := Before(kind) + Flat(list[..k]) + [s.self];
      ghost var b := s.dialogs + Flat(list[k + 1..]) + After(kind);
      FlatAround(list, k);
      FlatReplaced(list, k, s');
      Regroup(Before(kind), Flat(list[..k]), [s.self], [], s.dialogs, Flat(list[k + 1..]), After(kind));
      Regroup(Before(kind), Flat(list[..k]), [s.self], [d], s.dialogs, Flat(list[k + 1..]), After(kind));
      assert [] + s.dialogs == s.dialogs && a + [] == a;
      Inserted(a, b, d, counter);
      SetList(kind, list[k := s']);
    }

    /** `REMOVE_ELEMENT`: a dialog leaves its session. */
    method RemoveDialog(kind: Kind, k: nat, j: nat)
      requires Valid() && k < |ListOf(kind)| && j < |ListOf(kind)[k].dialogs|
      modifies this`calls, this`subscribes, this`notifies
      ensures Valid()
      ensures var s := old(ListOf(kind))[k];
        ListOf(kind) == old(ListOf(kind))[k := WithDialogs(s, s.dialogs[..j] + s.dialogs[j + 1..])]
      ensures forall other :: other != kind ==> ListOf(other) == old(ListOf(other))
    {
      hide Flat, NoRepeat, Distinct, Below, InOrder;
      var list := ListOf(kind);
      var s := list[k];
      InOrderIfValid();
      AllAround(kind);
      ListIsWellFormed(kind);
      assert WellFormed(s);
      var s' := WithDialogs(s, s.dialogs[..j] + s.dialogs[j + 1..]);
      ghost var self := [s.self] + s.dialogs[..j];
      ghost var d2 := s.dialogs[j + 1..];
      ghost var a := Before(kind) + Flat(list[..k]) + self;
      ghost var b := d2 + Flat(list[k + 1..]) + After(kind);
      FlatAround(list, k);
      FlatReplaced(list, k, s');
      AroundDialog([s.self], s.dialogs, j);
      Regroup(Before(kind), Flat(list[..k]), self, [s.dialogs[j]], d2, Flat(list[k + 1..]), After(kind));
      Regroup(Before(kind), Flat(list[..k]), self, [], d2, Flat(list[k + 1..]), After(kind));
      assert [] + d2 == d2 && a + [] == a;
      Removed(a, [s.dialogs[j]], b, counter);
      SetList(kind, list[k := s']);
    }

    /** `REMOVE_ELEMENT`: a session leaves with its dialogs. */
    method RemoveSession(kind: Kind, k: nat)
      requires Valid() && k < |ListOf(kind)|
      modifies this`calls, this`subscribes, this`notifies
      ensures Valid() && ListOf(kind) == old(ListOf(kind))[..k] + old(ListOf(kind))[k + 1..]
      ensures forall other :: other != kind ==> ListOf(other) == old(ListOf(other))
    {
      hide Flat, NoRepeat, Distinct, Below, InOrder;
      var list := ListOf(kind);
      var s := list[k];
      InOrderIfValid();
      AllAround(kind);
      ListIsWellFormed(kind);
      ghost var a := Before(kind) + Flat(list[..k]);
      ghost var b := Flat(list[k + 1..]) + After(kind);
      FlatAround(list, k);
      FlatAppend(list[..k], list[k + 1..]);
      assert All() == a + ([s.self] + s.dialogs) + b;
      Removed(a, [s.self] + s.dialogs, b, counter);
      assert a + b == Before(kind) + (Flat(list[..k] + list[k + 1..]) + After(kind));
      SetList(kind, list[..k] + list[k + 1..]);
    }

    /** A dialog is over: `osip_dialog_free` and `d_dialog = NULL`. */
    method EndDialog(h: Holder)
      requires Valid() && h in All() && h.isDialog
      modifies h`established
      ensures Valid() && !h.Now().alive && h.id == old(h.id)
    {
      ghost var was := Slots(All());
      h.established := false;
      forall i | 0 <= i < |All()| ensures Slots(All())[i].id == was[i].id {
        assert Slots(All())[i] == All()[i].Now();
      }
    }
  }

  lemma FlatNone()
    ensures Flat([]) == []
  {
  }
}
