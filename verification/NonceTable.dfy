/**
 * The table of cached digest challenges: a fixed array of slots that behaves as a
 * bounded map from (call-id, realm), with a log of what was stored and used. Call-ids
 * that do not fit their field are cut, and the names they are cut to are set apart.
 */
module NonceTable {
  import opened Text

  const MAX_EXOSIP_HTTP_AUTH := 100
  const CALLID_SIZE := 64

  /** A WWW- or Proxy-Authenticate header. */
  datatype Challenge = Challenge(realm: Option<string>, nonce: string)

  datatype Slot = Free | Auth(callId: string, wa: Challenge, nonceCount: nat, answerCode: int)

  /** Call-ids and realms are compared without regard to case. */
  datatype Key = Key(callId: string, realm: Option<string>)

  function KeyFor(callId: string, wa: Challenge): Key {
    Key(Lower(callId), if wa.realm.Some? then Some(Lower(wa.realm.value)) else None)
  }

  function KeyOf(s: Slot): Key
    requires s.Auth?
  {
    KeyFor(s.callId, s.wa)
  }

  /** What the call-id field holds. */
  function Cut(callId: string): (c: string)
    ensures |c| < 64 && (c == [] <==> callId == [])
    ensures |callId| < 64 ==> c == callId
    ensures |callId| >= 64 ==> |c| == 63 && c < callId
  {
    if |callId| < CALLID_SIZE then callId else callId[..CALLID_SIZE - 1]
  }

  /** No longer call-id was cut to the one of this key. */
  predicate Plain(k: Key, cut: set<string>) {
    k.callId !in cut
  }

  ghost predicate Distinct(slots: seq<Slot>, cut: set<string>) {
    forall i, j :: 0 <= i < j < |slots| && slots[i].Auth? && slots[j].Auth? && KeyOf(slots[i]) == KeyOf(slots[j]) ==>
      !Plain(KeyOf(slots[i]), cut)
  }

  ghost predicate Full(slots: seq<Slot>) {
    forall i :: 0 <= i < |slots| ==> slots[i].Auth?
  }

  /** First slot of a key, or -1. */
  function IndexOf(slots: seq<Slot>, k: Key): (i: int)
    ensures -1 <= i < |slots|
    ensures i >= 0 ==> slots[i].Auth? && KeyOf(slots[i]) == k
    ensures forall j :: 0 <= j < (if i == -1 then |slots| else i) ==> slots[j].Free? || KeyOf(slots[j]) != k
  {
    if slots == [] then -1
    else
      var n := |slots| - 1;
      var i := IndexOf(slots[..n], k);
      if i >= 0 then i
      else if slots[n].Auth? && KeyOf(slots[n]) == k then n
      else -1
  }

  /** The map the table stands for. */
  function Lookup(slots: seq<Slot>, k: Key): Option<Slot> {
    var i := IndexOf(slots, k);
    if i == -1 then None else Some(slots[i])
  }

  lemma LookupAt(slots: seq<Slot>, i: nat, cut: set<string>)
    requires Distinct(slots, cut) && i < |slots| && slots[i].Auth? && Plain(KeyOf(slots[i]), cut)
    ensures Lookup(slots, KeyOf(slots[i])) == Some(slots[i]) && IndexOf(slots, KeyOf(slots[i])) == i
  {
    hide KeyOf;
    var j := IndexOf(slots, KeyOf(slots[i]));
    assert j != -1;
  }

  /** The slot may be written: one of the key, or one that is free while the key has none. */
  ghost predicate Writable(slots: seq<Slot>, i: nat, s: Slot, cut: set<string>)
    requires i < |slots|
  {
    s.Auth? && Plain(KeyOf(s), cut) ==>
      (slots[i].Auth? && KeyOf(slots[i]) == KeyOf(s)) || (slots[i].Free? && Lookup(slots, KeyOf(s)).None?)
  }

  /** Writing one slot writes one key. */
  lemma UpdateLookup(slots: seq<Slot>, i: nat, s: Slot, cut: set<string>)
    requires Distinct(slots, cut) && i < |slots| && Writable(slots, i, s, cut)
    ensures Distinct(slots[i := s], cut)
    ensures forall k :: Plain(k, cut) ==>
              Lookup(slots[i := s], k) ==
              if s.Auth? && k == KeyOf(s) then Some(s)
              else if slots[i].Auth? && k == KeyOf(slots[i]) then None
              else Lookup(slots, k)
  {
    hide KeyOf;
    hide Lookup;
    hide Plain;
    UpdateKeepsDistinct(slots, i, s, cut);
    forall k | Plain(k, cut)
      ensures Lookup(slots[i := s], k) ==
              if s.Auth? && k == KeyOf(s) then Some(s)
              else if slots[i].Auth? && k == KeyOf(slots[i]) then None
              else Lookup(slots, k)
    {
      UpdateOneLookup(slots, i, s, k, cut);
    }
  }

  lemma UpdateKeepsDistinct(slots: seq<Slot>, i: nat, s: Slot, cut: set<string>)
    requires Distinct(slots, cut) && i < |slots| && Writable(slots, i, s, cut)
    ensures Distinct(slots[i := s], cut)
  {
    hide KeyOf;
    hide Plain;
  }

  lemma UpdateOneLookup(slots: seq<Slot>, i: nat, s: Slot, k: Key, cut: set<string>)
    requires Distinct(slots, cut) && i < |slots| && Distinct(slots[i := s], cut) && Plain(k, cut)
    ensures Lookup(slots[i := s], k) ==
            if s.Auth? && k == KeyOf(s) then Some(s)
            else if slots[i].Auth? && k == KeyOf(slots[i]) then None
            else Lookup(slots, k)
  {
    hide KeyOf;
    hide Plain;
    var t := slots[i := s];
    if s.Auth? && k == KeyOf(s) {
      LookupAt(t, i, cut);
    } else {
      var j := IndexOf(slots, k);
      if j != -1 && j != i { LookupAt(t, j, cut); }
      var j' := IndexOf(t, k);
      if j' != -1 { LookupAt(slots, j', cut); }
    }
  }

  /** The first slot of a key stays the first when it is written, and so does one written where there was none. */
  lemma FirstWritten(slots: seq<Slot>, i: nat, s: Slot)
    requires i < |slots| && s.Auth?
    requires IndexOf(slots, KeyOf(s)) == i || IndexOf(slots, KeyOf(s)) == -1
    ensures Lookup(slots[i := s], KeyOf(s)) == Some(s)
  {
    hide KeyOf;
    var j := IndexOf(slots[i := s], KeyOf(s));
    assert slots[i := s][i] == s;
    assert j == i;
  }

  /** With all keys distinct, a free slot that is filled keeps them so exactly if its key was not held. */
  lemma DistinctIffNew(slots: seq<Slot>, i: nat, s: Slot)
    requires Distinct(slots, {}) && i < |slots| && slots[i].Free? && s.Auth?
    ensures Distinct(slots[i := s], {}) <==> Lookup(slots, KeyOf(s)) == None
  {
    hide KeyOf;
    var t, j := slots[i := s], IndexOf(slots, KeyOf(s));
    if j == -1 {
      UpdateKeepsDistinct(slots, i, s, {});
    } else {
      assert t[j] == slots[j] && t[i] == s && KeyOf(t[j]) == KeyOf(t[i]);
    }
  }

  /** Keys that a written slot neither had nor gets are looked up as before. */
  lemma OthersUnwritten(slots: seq<Slot>, i: nat, s: Slot, k: Key)
    requires i < |slots| && (slots[i].Auth? ==> KeyOf(slots[i]) != k) && (s.Auth? ==> KeyOf(s) != k)
    ensures Lookup(slots[i := s], k) == Lookup(slots, k)
  {
    hide KeyOf;
    var t := slots[i := s];
    var j, j' := IndexOf(slots, k), IndexOf(t, k);
    assert j != -1 ==> t[j] == slots[j];
    assert j' != -1 ==> slots[j'] == t[j'];
    assert j == j';
  }

  // ----- The log -----

  datatype Event =
    | Stored(key: Key)               // a challenge was stored, its count set to 1
    | Used(key: Key, count: nat)     // credentials were built with this nonce count
    | Dropped(key: Key)

  /** Uses of a key since it was last stored. */
  function UsesSince(log: seq<Event>, k: Key): nat {
    if log == [] then 0
    else
      var e := log[|log| - 1];
      if e == Stored(k) then 0
      else UsesSince(log[..|log| - 1], k) + if e.Used? && e.key == k then 1 else 0
  }

  predicate Live(log: seq<Event>, k: Key) {
    log != [] &&
    var e := log[|log| - 1];
    if e == Stored(k) then true
    else if e == Dropped(k) then false
    else Live(log[..|log| - 1], k)
  }

  /** After each store the uses carry 2, 3, 4, ... (nc-value, section 3.2.2 of RFC 2617). */
  ghost predicate Consecutive(log: seq<Event>, cut: set<string>) {
    forall i :: 0 <= i < |log| && log[i].Used? && Plain(log[i].key, cut) ==>
      Live(log[..i], log[i].key) && log[i].count == UsesSince(log[..i], log[i].key) + 2
  }

  lemma LogSnoc(log: seq<Event>, e: Event, k: Key)
    ensures UsesSince(log + [e], k) ==
            if e == Stored(k) then 0 else UsesSince(log, k) + if e.Used? && e.key == k then 1 else 0
    ensures Live(log + [e], k) == if e == Stored(k) then true else if e == Dropped(k) then false else Live(log, k)
  {
    assert (log + [e])[..|log|] == log;
  }

  lemma ConsecutiveSnoc(log: seq<Event>, e: Event, cut: set<string>)
    requires Consecutive(log, cut)
    requires e.Used? && Plain(e.key, cut) ==> Live(log, e.key) && e.count == UsesSince(log, e.key) + 2
    ensures Consecutive(log + [e], cut)
  {
    hide Plain;
    var l := log + [e];
    forall i | 0 <= i < |l| && l[i].Used? && Plain(l[i].key, cut)
      ensures Live(l[..i], l[i].key) && l[i].count == UsesSince(l[..i], l[i].key) + 2
    {
      assert l[..i] == log[..i];
      assert log[..|log|] == log;
    }
  }

  function UsesIn(log: seq<Event>, k: Key): nat {
    if log == [] then 0
    else UsesIn(log[..|log| - 1], k) + if log[|log| - 1].Used? && log[|log| - 1].key == k then 1 else 0
  }

  lemma {:induction false} UsesAfterStore(log: seq<Event>, i: nat, k: Key)
    requires i < |log| && log[i] == Stored(k) && forall j :: i < j < |log| ==> log[j] != Stored(k)
    ensures UsesSince(log, k) == UsesIn(log[i + 1..], k)
    decreases |log|
  {
    if i == |log| - 1 {
      assert log[i + 1..] == [];
    } else {
      var init := log[..|log| - 1];
      UsesAfterStore(init, i, k);
      assert log[i + 1..][..|log| - i - 2] == init[i + 1..];
    }
  }

  /** The n-th use after a store carries n + 1, whatever happens to other keys in between. */
  lemma NonceCounts(log: seq<Event>, i: nat, j: nat, k: Key, cut: set<string>)
    requires Consecutive(log, cut) && Plain(k, cut) && i < j < |log|
    requires log[i] == Stored(k) && (forall h :: i < h < j ==> log[h] != Stored(k)) && log[j].Used? && log[j].key == k
    ensures log[j].count == UsesIn(log[i + 1..j], k) + 2
  {
    UsesAfterStore(log[..j], i, k);
    assert log[..j][i + 1..] == log[i + 1..j];
  }

  /** The table holds exactly the live keys, each with one more than its uses so far. */
  ghost predicate Agrees(slots: seq<Slot>, log: seq<Event>, cut: set<string>) {
    && Distinct(slots, cut)
    && Consecutive(log, cut)
    && forall k :: Plain(k, cut) ==>
         match Lookup(slots, k)
         case None => !Live(log, k)
         case Some(s) => Live(log, k) && s.Auth? && s.nonceCount == 1 + UsesSince(log, k)
  }

  /** Setting more names apart asks for less. */
  lemma MoreCut(slots: seq<Slot>, log: seq<Event>, cut: set<string>, more: set<string>)
    requires Agrees(slots, log, cut) && cut <= more
    ensures Agrees(slots, log, more)
  {
    hide KeyOf;
    hide Lookup;
    hide Live;
    hide UsesSince;
    assert forall k :: Plain(k, more) ==> Plain(k, cut);
  }

  /** The write and the event are about one key, and carry its right count. */
  ghost predicate Matches(slots: seq<Slot>, i: nat, s: Slot, e: Event, cut: set<string>)
    requires i < |slots|
  {
    match e
    case Stored(k) =>
      s.Auth? && KeyOf(s) == k && s.nonceCount == 1 &&
      ((slots[i].Auth? && KeyOf(slots[i]) == k) || (slots[i].Free? && (Plain(k, cut) ==> Lookup(slots, k).None?)))
    case Used(k, n) =>
      s.Auth? && slots[i].Auth? && KeyOf(s) == KeyOf(slots[i]) == k && s.nonceCount == slots[i].nonceCount + 1 == n
    case Dropped(k) =>
      s.Free? && slots[i].Auth? && KeyOf(slots[i]) == k
  }

  /** One slot written and one event logged. */
  lemma WriteAgrees(slots: seq<Slot>, log: seq<Event>, i: nat, s: Slot, e: Event, cut: set<string>)
    requires Agrees(slots, log, cut) && i < |slots| && Matches(slots, i, s, e, cut)
    ensures Agrees(slots[i := s], log + [e], cut)
  {
    hide KeyOf;
    hide Lookup;
    hide Consecutive;
    hide UsesSince;
    hide Live;
    hide Plain;
    hide Distinct;
    UpdateLookup(slots, i, s, cut);
    if slots[i].Auth? && Plain(KeyOf(slots[i]), cut) { LookupAt(slots, i, cut); }
    ConsecutiveSnoc(log, e, cut);
    forall k | Plain(k, cut)
      ensures match Lookup(slots[i := s], k)
              case None => !Live(log + [e], k)
              case Some(t) => Live(log + [e], k) && t.Auth? && t.nonceCount == 1 + UsesSince(log + [e], k)
    {
      LogSnoc(log, e, k);
    }
  }

  // ----- The table -----

  datatype Status = Success | UndefinedError | NotFound

  /** What the credentials of a cached use depend on, slot by slot. */
  datatype Lookups = NoAuthInfo | BadUri | Header(made: bool)

  class AuthTable {
    const httpAuths: array<Slot>
    ghost var log: seq<Event>
    ghost var cut: set<string>    // what longer call-ids were cut to

    ghost predicate Valid()
      reads this, httpAuths
    {
      && httpAuths.Length == MAX_EXOSIP_HTTP_AUTH
      && (forall i :: 0 <= i < httpAuths.Length && httpAuths[i].Auth? ==> 0 < |httpAuths[i].callId| < CALLID_SIZE)
      && Agrees(httpAuths[..], log, cut)
    }

    constructor ()
      ensures Valid() && fresh(httpAuths) && log == [] && cut == {}
      ensures forall k :: Lookup(httpAuths[..], k) == None
    {
      httpAuths := new Slot[MAX_EXOSIP_HTTP_AUTH](_ => Free);
      log, cut := [], {};
    }

    /** Writes one slot, and the log beside it. */
    method Write(pos: nat, s: Slot, ghost e: Event)
      requires Valid() && pos < httpAuths.Length && (s.Auth? ==> 0 < |s.callId| < 64)
      requires Agrees(httpAuths[..][pos := s], log + [e], cut)
      modifies this`log, httpAuths
      ensures Valid() && log == old(log) + [e] && httpAuths[..] == old(httpAuths[..])[pos := s]
    {
      httpAuths[pos] := s;
      log := log + [e];
      assert httpAuths[..] == old(httpAuths[..])[pos := s];
    }

    /** A call-id that does not fit its field is never found. */
    lemma LongIsNeverFound(callId: string, wa: Challenge)
      requires Valid() && (callId == [] || |callId| >= 64)
      ensures Lookup(httpAuths[..], KeyFor(callId, wa)) == None
    {
      var slots := httpAuths[..];
      forall j | 0 <= j < |slots| ensures slots[j].Free? || KeyOf(slots[j]) != KeyFor(callId, wa) {
        assert slots[j] == httpAuths[j];
        assert slots[j].Auth? ==> |Lower(slots[j].callId)| != |Lower(callId)|;
      }
      LookupNone(slots, KeyFor(callId, wa));
    }

    /**
     * Stores a challenge for (call-id, realm); `cloned` tells whether it could be copied.
     * Only a key without an entry is refused, by a full table. An empty call-id leaves the
     * slot free, and one that is too long goes into a slot of its own each time, cut.
     */
    method Store(callId: string, wa: Challenge, answerCode: int, cloned: bool) returns (status: Status)
      requires Valid()
      modifies this, httpAuths
      ensures Valid()
      ensures var k, kept := KeyFor(callId, wa), KeyFor(Cut(callId), wa);
              var was := old(Lookup(httpAuths[..], k));
              var written := status.Success? && callId != [] && (cloned || was.Some?);
              && (status.UndefinedError? <==> was.None? && Full(old(httpAuths[..])))
              && !status.NotFound?
              && (!written ==> httpAuths[..] == old(httpAuths[..]) && log == old(log) && cut == old(cut))
              && (written ==> log == old(log) + [if cloned then Stored(kept) else Dropped(k)])
              && (written && cloned && |callId| < 64 ==>
                    Lookup(httpAuths[..], k) ==
                    Some(if was.Some? then was.value.(wa := wa, nonceCount := 1) else Auth(callId, wa, 1, answerCode)))
              && (written && |callId| >= 64 ==>
                    exists pos :: IsFree(old(httpAuths[..]), pos) &&
                      httpAuths[..] == old(httpAuths[..])[pos := Auth(Cut(callId), wa, 1, answerCode)])
              && (written && !cloned && Plain(k, cut) ==> Lookup(httpAuths[..], k) == None)
              && cut == old(cut) + (if written && |callId| >= 64 then {kept.callId} else {})
              && (old(Distinct(httpAuths[..], {})) ==>
                    (Distinct(httpAuths[..], {}) <==>
                       !(written && |callId| >= 64 && old(Lookup(httpAuths[..], kept)).Some?)))
              && forall k' :: k' != kept ==> Lookup(httpAuths[..], k') == old(Lookup(httpAuths[..], k'))
    {
      hide KeyFor;
      hide Lookup;
      hide Agrees;
      hide Distinct;
      ghost var slots := httpAuths[..];
      ghost var k := KeyFor(callId, wa);
      for pos := 0 to MAX_EXOSIP_HTTP_AUTH
        invariant Valid() && httpAuths[..] == slots && log == old(log) && cut == old(cut)
        invariant forall j :: 0 <= j < pos ==> slots[j].Free? || KeyOf(slots[j]) != k
      {
        assert httpAuths[pos] == slots[pos];
        if httpAuths[pos].Free? { continue; }
        if SameKey(httpAuths[pos], callId, wa) {
          LookupFirst(slots, pos, k);
          Replace(pos, callId, wa, cloned);
          return Success;
        }
      }
      LookupNone(slots, k);
      for pos := 0 to MAX_EXOSIP_HTTP_AUTH
        invariant Valid() && httpAuths[..] == slots && log == old(log) && cut == old(cut)
        invariant forall j :: 0 <= j < pos ==> slots[j].Auth?
      {
        assert httpAuths[pos] == slots[pos];
        if httpAuths[pos].Free? {
          if cloned && callId != [] {
            Fill(pos, callId, wa, answerCode);
            assert IsFree(slots, pos);
          }
          return Success;
        }
      }
      status := UndefinedError;
    }

    /** The entry found for a challenge takes it over, or is wiped when it cannot be copied. */
    method Replace(pos: nat, callId: string, wa: Challenge, cloned: bool)
      requires Valid() && pos < httpAuths.Length && IndexOf(httpAuths[..], KeyFor(callId, wa)) == pos
      modifies this`log, httpAuths
      ensures Valid()
      ensures var k, was := KeyFor(callId, wa), old(httpAuths[pos]);
              && log == old(log) + [if cloned then Stored(k) else Dropped(k)]
              && |callId| < 64 && callId != []
              && (old(Distinct(httpAuths[..], {})) ==> Distinct(httpAuths[..], {}))
              && (cloned ==> Lookup(httpAuths[..], k) == Some(was.(wa := wa, nonceCount := 1)))
              && (!cloned && Plain(k, cut) ==> Lookup(httpAuths[..], k) == None)
              && forall k' :: k' != k ==> Lookup(httpAuths[..], k') == old(Lookup(httpAuths[..], k'))
    {
      ghost var slots := httpAuths[..];
      ghost var k := KeyFor(callId, wa);
      var a := httpAuths[pos];
      assert a == slots[pos];
      LengthOfKey(a, callId, wa);
      KeyOfReplaced(a, callId, wa);
      if Distinct(slots, {}) {
        UpdateKeepsDistinct(slots, pos, if cloned then a.(wa := wa, nonceCount := 1) else Free, {});
      }
      hide Distinct;
      hide KeyFor;
      hide KeyOf;
      hide Lookup;
      hide Agrees;
      hide IndexOf;
      var s := if cloned then a.(wa := wa, nonceCount := 1) else Free;
      ghost var e := if cloned then Stored(k) else Dropped(k);
      WriteAgrees(slots, log, pos, s, e, cut);
      if cloned { FirstWritten(slots, pos, s); }
      DroppedIsGone(slots, log, pos, s, cut);
      forall k' | k' != k ensures Lookup(slots[pos := s], k') == Lookup(slots, k') {
        OthersUnwritten(slots, pos, s, k');
      }
      Write(pos, s, e);
    }

    /** A free slot takes a new entry. */
    method Fill(pos: nat, callId: string, wa: Challenge, answerCode: int)
      requires Valid() && pos < httpAuths.Length && httpAuths[pos].Free? && callId != []
      requires Lookup(httpAuths[..], KeyFor(callId, wa)) == None
      modifies this, httpAuths
      ensures Valid()
      ensures var k := KeyFor(Cut(callId), wa);
              && log == old(log) + [Stored(k)]
              && httpAuths[..] == old(httpAuths[..])[pos := Auth(Cut(callId), wa, 1, answerCode)]
              && cut == old(cut) + (if |callId| >= 64 then {k.callId} else {})
              && (|callId| < 64 ==> Lookup(httpAuths[..], k) == Some(Auth(callId, wa, 1, answerCode)))
              && (old(Distinct(httpAuths[..], {})) ==>
                    (Distinct(httpAuths[..], {}) <==> old(Lookup(httpAuths[..], k)) == None))
              && forall k' :: k' != k ==> Lookup(httpAuths[..], k') == old(Lookup(httpAuths[..], k'))
    {
      ghost var slots := httpAuths[..];
      var s := Auth(Cut(callId), wa, 1, answerCode);
      ghost var k := KeyOf(s);
      assert slots[pos].Free?;
      if |callId| < CALLID_SIZE { FirstWritten(slots, pos, s); }
      if Distinct(slots, {}) { DistinctIffNew(slots, pos, s); }
      hide Distinct;
      hide KeyFor;
      hide KeyOf;
      hide Lookup;
      hide Agrees;
      if |callId| >= CALLID_SIZE {
        MoreCut(slots, log, cut, cut + {k.callId});
        cut := cut + {k.callId};
      }
      WriteAgrees(slots, log, pos, s, Stored(k), cut);
      forall k' | k' != k ensures Lookup(slots[pos := s], k') == Lookup(slots, k') {
        OthersUnwritten(slots, pos, s, k');
      }
      Write(pos, s, Stored(k));
    }

    /** Frees the first slot of a call-id; `k` is its key. */
    method Delete(callId: string) returns (status: Status, ghost k: Key)
      requires Valid()
      modifies this`log, httpAuths
      ensures Valid()
      ensures status == NotFound || status == Success
      ensures status == NotFound ==>
        && httpAuths[..] == old(httpAuths[..]) && log == old(log)
        && forall k': Key :: k'.callId == Lower(callId) ==> Lookup(httpAuths[..], k') == None
      ensures status == Success ==>
        && k.callId == Lower(callId) && old(Lookup(httpAuths[..], k)).Some?
        && log == old(log) + [Dropped(k)] && (Plain(k, cut) ==> Lookup(httpAuths[..], k) == None)
        && forall k' :: k' != k ==> Lookup(httpAuths[..], k') == old(Lookup(httpAuths[..], k'))
    {
      hide Lookup;
      hide Agrees;
      ghost var slots := httpAuths[..];
      k := Key([], None);
      for pos := 0 to MAX_EXOSIP_HTTP_AUTH
        invariant Valid() && httpAuths[..] == slots && log == old(log)
        invariant forall j :: 0 <= j < pos ==> slots[j].Free? || KeyOf(slots[j]).callId != Lower(callId)
      {
        var a := httpAuths[pos];
        assert a == slots[pos];
        if a.Free? { continue; }
        if Lower(a.callId) == Lower(callId) {
          k := KeyOf(a);
          LookupFirst(slots, pos, k);
          WriteAgrees(slots, log, pos, Free, Dropped(k), cut);
          DroppedIsGone(slots, log, pos, Free, cut);
          forall k' | k' != k ensures Lookup(slots[pos := Free], k') == Lookup(slots, k') {
            OthersUnwritten(slots, pos, Free, k');
          }
          Write(pos, Free, Dropped(k));
          status := Success;
          return;
        }
      }
      forall k': Key | k'.callId == Lower(callId) ensures Lookup(slots, k') == None {
        LookupNone(slots, k');
      }
      status := NotFound;
    }

    /** Credentials from the slot at `pos`, with the next nonce count. */
    method UseSlot(pos: nat, callId: string, found: Lookups) returns (status: Status, counts: seq<nat>)
      requires Valid() && pos < httpAuths.Length
      modifies this`log, httpAuths
      ensures Valid()
      ensures status.Success? ==>
        && httpAuths[..] == old(httpAuths[..])[pos := BumpedSlot(old(httpAuths[pos]), callId)]
        && log == old(log) + UseOf(old(httpAuths[pos]), callId)
        && counts == (if SameCallId(old(httpAuths[pos]), callId) then [old(httpAuths[pos]).nonceCount + 1] else [])
      ensures !status.Success? ==>
        && SameCallId(old(httpAuths[pos]), callId) && found != Header(true) && counts == []
        && httpAuths[..] ==
           (if found.Header? then old(httpAuths[..])[pos := BumpedSlot(old(httpAuths[pos]), callId)]
            else old(httpAuths[..]))
        && log == old(log) + (if found.Header? then UseOf(old(httpAuths[pos]), callId) else [])
    {
      hide Agrees;
      ghost var slots := httpAuths[..];
      counts := [];
      status := Success;
      var a := httpAuths[pos];
      if !SameCallId(a, callId) {
        assert slots[pos := a] == slots && log + [] == log;
        return;
      }
      assert log + [] == log;
      match found
      case NoAuthInfo => status := NotFound;
      case BadUri => status := UndefinedError;
      case Header(made) =>
        var s := a.(nonceCount := a.nonceCount + 1);
        WriteAgrees(slots, log, pos, s, Used(KeyOf(a), s.nonceCount), cut);
        Write(pos, s, Used(KeyOf(a), s.nonceCount));
        if !made { return UndefinedError, []; }
        counts := [s.nonceCount];
    }

    /**
     * Cached credentials for every realm of a call-id; `lookups` says, slot by slot,
     * what became of the account, the URI and the header. `counts` are the nonce
     * counts put into headers; a pass that fails stops at the slot `reached`.
     */
    method UseCached(callId: string, lookups: seq<Lookups>)
      returns (status: Status, counts: seq<nat>, ghost reached: nat)
      requires Valid() && |lookups| == 100
      modifies this`log, httpAuths
      ensures Valid() && reached <= 100 && (status.Success? <==> reached == 100)
      ensures forall j :: 0 <= j < reached ==> httpAuths[j] == BumpedSlot(old(httpAuths[..])[j], callId)
      ensures counts == CountsOf(UsesOf(old(httpAuths[..])[..reached], callId))
      ensures status.Success? ==> log == old(log) + UsesOf(old(httpAuths[..]), callId)
      ensures !status.Success? ==>
        var stop, made := old(httpAuths[..])[reached], lookups[reached].Header?;
        && SameCallId(stop, callId) && lookups[reached] != Header(true)
        && httpAuths[reached] == (if made then BumpedSlot(stop, callId) else stop)
        && (forall j :: reached < j < 100 ==> httpAuths[j] == old(httpAuths[..])[j])
        && log == old(log) + UsesOf(old(httpAuths[..])[..reached], callId) + (if made then UseOf(stop, callId) else [])
    {
      hide Agrees;
      hide UsesOf;
      hide UseOf;
      hide CountsOf;
      ghost var slots := httpAuths[..];
      counts := [];
      UsesOfNone(callId);
      assert slots[..0] == [] && log + [] == log;
      for pos := 0 to MAX_EXOSIP_HTTP_AUTH
        invariant Valid()
        invariant forall j :: 0 <= j < pos ==> httpAuths[j] == BumpedSlot(slots[j], callId)
        invariant forall j :: pos <= j < |slots| ==> httpAuths[j] == slots[j]
        invariant log == old(log) + UsesOf(slots[..pos], callId)
        invariant counts == CountsOf(UsesOf(slots[..pos], callId))
      {
        UsesOfSnoc(slots, pos, callId);
        ghost var uses := UsesOf(slots[..pos], callId);
        CountsOfUse(uses, slots[pos], callId);
        var step, more := UseSlot(pos, callId, lookups[pos]);
        if !step.Success? { return step, counts, pos; }
        Assoc(old(log), uses, UseOf(slots[pos], callId));
        counts := counts + more;
      }
      assert slots[..MAX_EXOSIP_HTTP_AUTH] == slots;
      status, reached := Success, MAX_EXOSIP_HTTP_AUTH;
    }
  }

  predicate SameCallId(s: Slot, callId: string) {
    s.Auth? && Lower(s.callId) == Lower(callId)
  }

  /** The entries used are those whose call-id differs only in the case of letters, and no others. */
  lemma SameCallIdByLetters(s: Slot, callId: string)
    ensures SameCallId(s, callId) <==> s.Auth? && SameLetters(s.callId, callId)
    ensures UseOf(s, callId) ==
            if s.Auth? && SameLetters(s.callId, callId) then [Used(KeyOf(s), s.nonceCount + 1)] else []
  {
    hide Lower;
    hide SameLetters;
    if s.Auth? { LowerExactly(s.callId, callId); }
  }

  /** A slot after a use: its count one higher if it is of this call-id. */
  function BumpedSlot(s: Slot, callId: string): Slot {
    if SameCallId(s, callId) then s.(nonceCount := s.nonceCount + 1) else s
  }

  ghost function UseOf(s: Slot, callId: string): seq<Event> {
    if SameCallId(s, callId) then [Used(KeyOf(s), s.nonceCount + 1)] else []
  }

  /** The uses one pass makes, in slot order. */
  ghost function UsesOf(slots: seq<Slot>, callId: string): seq<Event> {
    if slots == [] then []
    else UsesOf(slots[..|slots| - 1], callId) + UseOf(slots[|slots| - 1], callId)
  }

  ghost function CountsOf(uses: seq<Event>): seq<nat> {
    seq(|uses|, i requires 0 <= i < |uses| => if uses[i].Used? then uses[i].count else 0)
  }

  lemma CountsOfUse(uses: seq<Event>, s: Slot, callId: string)
    ensures CountsOf(uses + UseOf(s, callId)) ==
            CountsOf(uses) + (if SameCallId(s, callId) then [s.nonceCount + 1] else [])
  {
  }

  lemma UsesOfNone(callId: string)
    ensures UsesOf([], callId) == [] && CountsOf([]) == []
  {
  }

  lemma UsesOfSnoc(slots: seq<Slot>, i: nat, callId: string)
    requires i < |slots|
    ensures UsesOf(slots[..i + 1], callId) == UsesOf(slots[..i], callId) + UseOf(slots[i], callId)
  {
    assert slots[..i + 1][..i] == slots[..i];
  }

  /** The comparison of the source: call-ids, then realms, both possibly missing. */
  predicate SameKey(a: Slot, callId: string, wa: Challenge)
    requires a.Auth?
    ensures SameKey(a, callId, wa) <==> KeyOf(a) == KeyFor(callId, wa)
  {
    && Lower(a.callId) == Lower(callId)
    && ((a.wa.realm.None? && wa.realm.None?) ||
        (a.wa.realm.Some? && wa.realm.Some? && Lower(a.wa.realm.value) == Lower(wa.realm.value)))
  }

  lemma KeyOfReplaced(a: Slot, callId: string, wa: Challenge)
    requires a.Auth? && KeyOf(a) == KeyFor(callId, wa)
    ensures KeyOf(a.(wa := wa, nonceCount := 1)) == KeyFor(callId, wa)
  {
  }

  /** Keys are the same if call-ids and realms, if any, differ in the case of letters only. */
  lemma SameKeyByLetters(a: string, wa: Challenge, b: string, wb: Challenge)
    ensures KeyFor(a, wa) == KeyFor(b, wb) <==>
            && SameLetters(a, b)
            && ((wa.realm.None? && wb.realm.None?) ||
                (wa.realm.Some? && wb.realm.Some? && SameLetters(wa.realm.value, wb.realm.value)))
  {
    hide Lower;
    hide SameLetters;
    LowerExactly(a, b);
    if wa.realm.Some? && wb.realm.Some? { LowerExactly(wa.realm.value, wb.realm.value); }
  }

  lemma LengthOfKey(a: Slot, callId: string, wa: Challenge)
    requires a.Auth? && KeyOf(a) == KeyFor(callId, wa)
    ensures |a.callId| == |callId|
  {
    assert |Lower(a.callId)| == |Lower(callId)|;
  }

  lemma LookupNone(slots: seq<Slot>, k: Key)
    requires forall j :: 0 <= j < |slots| ==> slots[j].Free? || KeyOf(slots[j]) != k
    ensures Lookup(slots, k) == None
  {
    hide KeyOf;
  }

  lemma LookupFirst(slots: seq<Slot>, i: nat, k: Key)
    requires i < |slots| && slots[i].Auth? && KeyOf(slots[i]) == k
    requires forall j :: 0 <= j < i ==> slots[j].Free? || KeyOf(slots[j]) != k
    ensures Lookup(slots, k) == Some(slots[i]) && IndexOf(slots, k) == i
  {
    hide KeyOf;
  }

  predicate IsFree(slots: seq<Slot>, pos: int) {
    0 <= pos < |slots| && slots[pos].Free?
  }

  /** The only slot of a plain key is gone when it is freed. */
  lemma DroppedIsGone(slots: seq<Slot>, log: seq<Event>, i: nat, s: Slot, cut: set<string>)
    requires Agrees(slots, log, cut) && i < |slots| && slots[i].Auth?
    ensures s.Free? && Plain(KeyOf(slots[i]), cut) ==> Lookup(slots[i := s], KeyOf(slots[i])) == None
  {
    hide KeyOf;
    hide Lookup;
    if s.Free? {
      UpdateLookup(slots, i, s, cut);
    }
  }
}
