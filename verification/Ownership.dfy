/**
 * Conservation of transactions. Every step keeps a ledger: each transaction created so
 * far is held by exactly one owner, or has been freed once, or was lost by one of the
 * three paths that store it nowhere.
 */
module Ownership {
  import opened Text
  import opened Transactions

  datatype Outcome = Success | Cancelled | Declined | WrongState | NotFound | Failed

  /** The columns of the ledger: held, freed, lost and still to place. */
  lemma Moved(h: multiset<Tr>, f: multiset<Tr>, l: multiset<Tr>, m: multiset<Tr>, t: multiset<Tr>)
    ensures h + t + f + l + m == h + f + l + (m + t)
    ensures h + f + (l + t) + m == h + f + l + (m + t)
    ensures h + (f + t) + l + m == h + f + l + (m + t)
    ensures h + f + l + m + t == h + f + l + (m + t)
  {
  }

  /** One column went from `was` to `now` while the debt went from m to n. */
  lemma Rebalanced(was: multiset<Tr>, now: multiset<Tr>, a: multiset<Tr>, b: multiset<Tr>, g: multiset<Tr>,
                   f: multiset<Tr>, l: multiset<Tr>, m: multiset<Tr>, n: multiset<Tr>)
    requires now + n == was + m
    ensures now + a + b + g + f + l + n == was + a + b + g + f + l + m
    ensures a + now + b + g + f + l + n == a + was + b + g + f + l + m
    ensures a + b + now + g + f + l + n == a + b + was + g + f + l + m
  {
    var rest := a + b + g + f + l;
    assert now + a + b + g + f + l + n == (now + n) + rest;
    assert was + a + b + g + f + l + m == (was + m) + rest;
    assert a + now + b + g + f + l + n == (now + n) + rest;
    assert a + was + b + g + f + l + m == (was + m) + rest;
    assert a + b + now + g + f + l + n == (now + n) + rest;
    assert a + b + was + g + f + l + m == (was + m) + rest;
  }

  lemma SlotCleared(was: multiset<Tr>, now: multiset<Tr>, other: multiset<Tr>, t: multiset<Tr>, m: multiset<Tr>)
    requires now + (t + other) == was + (multiset{} + other) || now + (other + t) == was + (other + multiset{})
    ensures m + was == m + now + t
  {
    forall e ensures was[e] == (now + t)[e] {
      if now + (t + other) == was + (multiset{} + other) {
        assert (now + (t + other))[e] == (was + (multiset{} + other))[e];
      } else {
        assert (now + (other + t))[e] == (was + (other + multiset{}))[e];
      }
    }
    assert was == now + t;
  }

  lemma Swapped(was: multiset<Tr>, now: multiset<Tr>, x: multiset<Tr>, y: multiset<Tr>, m: multiset<Tr>)
    requires now + x == was + y
    ensures now + (m + x) == was + (m + y)
  {
    assert now + (m + x) == now + x + m;
    assert was + (m + y) == was + y + m;
  }

  lemma SlotSwapped(was: multiset<Tr>, now: multiset<Tr>, x: multiset<Tr>, y: multiset<Tr>,
                    other: multiset<Tr>, m: multiset<Tr>)
    requires now + (x + other) == was + (y + other) || now + (other + x) == was + (other + y)
    ensures now + (m + x) == was + (m + y)
  {
    forall e ensures (now + (m + x))[e] == (was + (m + y))[e] {
      if now + (x + other) == was + (y + other) {
        assert (now + (x + other))[e] == (was + (y + other))[e];
      } else {
        assert (now + (other + x))[e] == (was + (other + y))[e];
      }
    }
    assert now + (m + x) == was + (m + y);
  }

  predicate EndsWith(s: seq<Tr>, t: seq<Tr>) {
    |t| <= |s| && s[|s| - |t|..] == t
  }

  lemma EndsWithPush(front: seq<Tr>, t: seq<Tr>)
    ensures EndsWith(front + t, t) && EndsWith(t, t)
  {
  }

  lemma EndsWithTwice(s: seq<Tr>, t: seq<Tr>, u: seq<Tr>)
    requires EndsWith(s, t) && EndsWith(t, u)
    ensures EndsWith(s, u)
  {
    assert s[|s| - |u|..] == s[|s| - |t|..][|t| - |u|..];
  }

  class Context {
    var calls: seq<Call>
    var regs: seq<Keeper>
    var pubs: seq<Keeper>
    var garbage: seq<Tr>            // j_transactions
    var next: nat                   // the next transaction to create
    ghost var freed: multiset<Tr>
    ghost var lost: multiset<Tr>    // created, but stored nowhere

    ghost function Held(): multiset<Tr>
      reads this, calls, DialogsOf(calls), regs, pubs
    {
      Kept(calls, regs, pubs) + multiset(garbage)
    }

    /** All transactions but those in m are accounted for. */
    ghost predicate Owing(m: multiset<Tr>)
      reads this, calls, DialogsOf(calls), regs, pubs
    {
      Sound(calls, regs, pubs) && Held() + freed + lost + m == Created(next)
    }

    lemma SoundIfOwing(m: multiset<Tr>)
      requires Owing(m)
      ensures Sound(calls, regs, pubs)
    {
    }

    /** Between two steps every transaction is accounted for. */
    ghost predicate Valid()
      reads this, calls, DialogsOf(calls), regs, pubs
    {
      Owing(multiset{})
    }

    constructor ()
      ensures Valid() && next == 0 && lost == freed == multiset{}
      ensures calls == [] && regs == pubs == [] && garbage == []
    {
      calls, regs, pubs, garbage, next := [], [], [], [], 0;
      freed, lost := multiset{}, multiset{};
    }

    /** In one place only: the owners, the freed and the lost never share a transaction. */
    lemma EachInOnePlace(t: Tr)
      requires Valid()
      ensures Held()[t] + freed[t] + lost[t] == if t < next then 1 else 0
    {
      hide Sound, Kept;
      CreatedOnce(next, t);
      assert (Held() + freed + lost + multiset{})[t] == Created(next)[t];
    }

    lemma NothingHeld()
      requires Valid() && calls == [] && regs == pubs == [] && garbage == []
      ensures Held() == multiset{} && freed + lost == Created(next)
    {
      assert Held() + freed + lost + multiset{} == freed + lost;
    }

    // --- Moving one transaction ---

    /** No owner changed. */
    twostate lemma StillKept()
      requires calls == old(calls) && regs == old(regs) && pubs == old(pubs)
      requires forall i :: 0 <= i < |calls| ==>
                 && SameCall(calls[i])
                 && forall l :: 0 <= l < |calls[i].dialogs| ==> SameDialog(calls[i].dialogs[l])
      requires forall i :: 0 <= i < |regs| ==> SameKeeper(regs[i])
      requires forall i :: 0 <= i < |pubs| ==> SameKeeper(pubs[i])
      ensures Kept(calls, regs, pubs) == old(Kept(calls, regs, pubs))
      ensures Sound(calls, regs, pubs) == old(Sound(calls, regs, pubs))
    {
      hide Sum;
      CallsUndisturbed(calls);
      KeepersUndisturbed(regs);
      KeepersUndisturbed(pubs);
    }

    twostate lemma StillOwing(new m: multiset<Tr>)
      requires unchanged(this) && old(Owing(m))
      requires forall i :: 0 <= i < |calls| ==>
                 && SameCall(calls[i])
                 && forall l :: 0 <= l < |calls[i].dialogs| ==> SameDialog(calls[i].dialogs[l])
      requires forall i :: 0 <= i < |regs| ==> SameKeeper(regs[i])
      requires forall i :: 0 <= i < |pubs| ==> SameKeeper(pubs[i])
      ensures Owing(m)
    {
      hide Sound, Kept, Created;
      StillKept();
    }

    /** `_eXosip_transaction_init`. */
    method NewTransaction(ghost m: multiset<Tr>) returns (t: Tr)
      requires Owing(m)
      modifies this`next
      ensures t == old(next) && next == t + 1 && Owing(m + multiset{t})
    {
      hide Sound, Kept;
      t := next;
      next := next + 1;
      StillKept();
      Moved(Held(), freed, lost, m, multiset{t});
    }

    /** A transaction goes to the front of the garbage list. */
    method Discard(t: Tr, ghost m: multiset<Tr>)
      requires Owing(m + multiset{t})
      modifies this`garbage
      ensures garbage == [t] + old(garbage) && Owing(m)
    {
      hide Sound, Kept, Created;
      garbage := [t] + garbage;
      StillKept();
      Moved(old(Held()), freed, lost, m, multiset{t});
    }

    /** A transaction that no owner stores. */
    ghost method Lose(t: multiset<Tr>, m: multiset<Tr>)
      requires Owing(m + t)
      modifies this`lost
      ensures lost == old(lost) + t && Owing(m)
    {
      hide Sound, Kept, Created;
      lost := lost + t;
      StillKept();
      Moved(Held(), freed, old(lost), m, t);
    }

    /** The calls, or what they hold, changed; nothing else did. */
    twostate lemma CallsBalanced(new m: multiset<Tr>, new n: multiset<Tr>)
      requires regs == old(regs) && pubs == old(pubs) && garbage == old(garbage)
      requires next == old(next) && freed == old(freed) && lost == old(lost)
      requires forall i :: 0 <= i < |regs| ==> SameKeeper(regs[i])
      requires forall i :: 0 <= i < |pubs| ==> SameKeeper(pubs[i])
      requires Sum(CallHoldings(calls)) + n == old(Sum(CallHoldings(calls))) + m
      requires Linked(calls) && old(Owing(m))
      ensures Owing(n)
    {
      hide Call.Held, Sum, Slot, Created;
      KeepersUndisturbed(regs);
      KeepersUndisturbed(pubs);
      Rebalanced(old(Sum(CallHoldings(calls))), Sum(CallHoldings(calls)), Sum(KeeperHoldings(regs)),
                 Sum(KeeperHoldings(pubs)), multiset(garbage), freed, lost, m, n);
    }

    /** One call changed, and what it gave up or took over is what is owed more or less. */
    twostate lemma CallBalanced(new k: nat, new m: multiset<Tr>, new n: multiset<Tr>)
      requires unchanged(this) && k < |calls| && Linked(calls)
      requires forall i :: 0 <= i < |calls| && i != k ==>
                 && SameCall(calls[i])
                 && forall l :: 0 <= l < |calls[i].dialogs| ==> SameDialog(calls[i].dialogs[l])
      requires forall i :: 0 <= i < |regs| ==> SameKeeper(regs[i])
      requires forall i :: 0 <= i < |pubs| ==> SameKeeper(pubs[i])
      requires calls[k].Held() + n == old(calls[k].Held()) + m
      requires old(Owing(m))
      ensures Owing(n)
    {
      hide Call.Held, Sum, Slot, Created, Owing;
      CallTouched(calls, k);
      Exchange(old(Sum(CallHoldings(calls))), Sum(CallHoldings(calls)), old(calls[k].Held()), calls[k].Held(), m, n);
      CallsBalanced(m, n);
    }

    /** One dialog of a call changed. */
    twostate lemma DialogBalanced(new k: nat, new j: nat, new m: multiset<Tr>, new n: multiset<Tr>)
      requires unchanged(this) && k < |calls| && SameCall(calls[k]) && j < |calls[k].dialogs|
      requires calls[k].dialogs[j].Held() + n == old(calls[k].dialogs[j].Held()) + m
      requires forall i :: 0 <= i < |calls| ==>
                 && SameCall(calls[i])
                 && forall l :: 0 <= l < |calls[i].dialogs| ==>
                      calls[i].dialogs[l] == calls[k].dialogs[j] || SameDialog(calls[i].dialogs[l])
      requires forall i :: 0 <= i < |regs| ==> SameKeeper(regs[i])
      requires forall i :: 0 <= i < |pubs| ==> SameKeeper(pubs[i])
      requires old(Owing(m))
      ensures Owing(n)
    {
      hide Dialog.Held, Call.Held, Sum, Slot, Created;
      var jc := calls[k];
      forall i, l | 0 <= i < |calls| && 0 <= l < |calls[i].dialogs| && (i != k || l != j)
        ensures SameDialog(calls[i].dialogs[l])
      {
        OnlyPlace(k, j, i, l);
      }
      DialogTouched(jc, j);
      Exchange(old(jc.Held()), jc.Held(), old(jc.dialogs[j].Held()), jc.dialogs[j].Held(), m, n);
      CallBalanced(k, m, n);
    }

    /** The registrations, or what they keep, changed; nothing else did. */
    twostate lemma RegsBalanced(new m: multiset<Tr>, new n: multiset<Tr>)
      requires calls == old(calls) && pubs == old(pubs) && garbage == old(garbage)
      requires next == old(next) && freed == old(freed) && lost == old(lost)
      requires forall i :: 0 <= i < |calls| ==>
                 && SameCall(calls[i])
                 && forall l :: 0 <= l < |calls[i].dialogs| ==> SameDialog(calls[i].dialogs[l])
      requires forall i :: 0 <= i < |pubs| ==> SameKeeper(pubs[i])
      requires Sum(KeeperHoldings(regs)) + n == old(Sum(KeeperHoldings(regs))) + m
      requires Sound(calls, regs, pubs) && old(Owing(m))
      ensures Owing(n)
    {
      hide Call.Held, Sum, Slot, Created, Sound;
      KeepersUndisturbed(pubs);
      CallsUndisturbed(calls);
      Rebalanced(old(Sum(KeeperHoldings(regs))), Sum(KeeperHoldings(regs)), Sum(KeeperHoldings(pubs)),
                 Sum(CallHoldings(calls)), multiset(garbage), freed, lost, m, n);
    }

    /** A registration keeps another transaction, or none; the old one is to be placed. */
    method ReplaceReg(jr: Keeper, o: Option<Tr>, ghost m: multiset<Tr>)
      requires Owing(m + Slot(o)) && jr in regs
      modifies jr
      ensures jr.lastTr == o && Owing(m + Slot(old(jr.lastTr)))
    {
      hide Owing, Created, Slot, Sum, Linked, IndexOf;
      SoundIfOwing(m + Slot(o));
      ghost var p := IndexOf(regs, jr);
      jr.lastTr := o;
      KeeperTouched(regs, p);
      Swapped(old(Sum(KeeperHoldings(regs))), Sum(KeeperHoldings(regs)), old(Slot(jr.lastTr)), Slot(o), m);
      RegsBalanced(m + Slot(o), m + Slot(old(jr.lastTr)));
    }

    /** `ADD_ELEMENT`: a new registration. */
    method AddReg(jr: Keeper, ghost m: multiset<Tr>)
      requires Owing(m) && jr !in regs && jr !in pubs && jr.lastTr == None
      modifies this`regs
      ensures regs == [jr] + old(regs) && Owing(m)
    {
      hide Owing, Created, Sum, Sound;
      SoundIfOwing(m);
      SoundWithReg(calls, regs, pubs, jr);
      regs := [jr] + regs;
      KeepersUndisturbed(old(regs));
      KeepersWithout(regs, 0);
      assert Without(regs, 0) == old(regs);
      RegsBalanced(m, m);
    }

    /** `REMOVE_ELEMENT`, then the transaction it keeps is discarded. */
    method FreeReg(jr: Keeper, ghost m: multiset<Tr>)
      requires Owing(m) && jr in regs
      modifies this`regs, this`garbage
      ensures regs == Remove(old(regs), jr) && Owing(m)
      ensures garbage == (if jr.lastTr.Some? then [jr.lastTr.value] else []) + old(garbage)
    {
      hide Owing, Created, Sum, Sound, IndexOf;
      SoundIfOwing(m);
      ghost var k := IndexOf(regs, jr);
      SoundWithoutReg(calls, regs, pubs, k);
      regs := Remove(regs, jr);
      KeepersUndisturbed(old(regs));
      KeepersWithout(old(regs), k);
      Absorbed(Sum(KeeperHoldings(regs)), Slot(jr.lastTr), m);
      RegsBalanced(m, m + Slot(jr.lastTr));
      if jr.lastTr.Some? {
        Discard(jr.lastTr.value, m);
      } else {
        assert m + Slot(jr.lastTr) == m;
      }
    }

    /** The publications, or what they keep, changed; nothing else did. */
    twostate lemma PubsBalanced(new m: multiset<Tr>, new n: multiset<Tr>)
      requires calls == old(calls) && regs == old(regs) && garbage == old(garbage)
      requires next == old(next) && freed == old(freed) && lost == old(lost)
      requires forall i :: 0 <= i < |calls| ==>
                 && SameCall(calls[i])
                 && forall l :: 0 <= l < |calls[i].dialogs| ==> SameDialog(calls[i].dialogs[l])
      requires forall i :: 0 <= i < |regs| ==> SameKeeper(regs[i])
      requires Sum(KeeperHoldings(pubs)) + n == old(Sum(KeeperHoldings(pubs))) + m
      requires Sound(calls, regs, pubs) && old(Owing(m))
      ensures Owing(n)
    {
      hide Call.Held, Sum, Slot, Created, Sound;
      KeepersUndisturbed(regs);
      CallsUndisturbed(calls);
      Rebalanced(old(Sum(KeeperHoldings(pubs))), Sum(KeeperHoldings(pubs)), Sum(KeeperHoldings(regs)),
                 Sum(CallHoldings(calls)), multiset(garbage), freed, lost, m, n);
    }

    /** A publication keeps another transaction, or none; the old one is to be placed. */
    method ReplacePub(jr: Keeper, o: Option<Tr>, ghost m: multiset<Tr>)
      requires Owing(m + Slot(o)) && jr in pubs
      modifies jr
      ensures jr.lastTr == o && Owing(m + Slot(old(jr.lastTr)))
    {
      hide Owing, Created, Slot, Sum, Linked, IndexOf;
      SoundIfOwing(m + Slot(o));
      ghost var p := IndexOf(pubs, jr);
      jr.lastTr := o;
      KeeperTouched(pubs, p);
      Swapped(old(Sum(KeeperHoldings(pubs))), Sum(KeeperHoldings(pubs)), old(Slot(jr.lastTr)), Slot(o), m);
      PubsBalanced(m + Slot(o), m + Slot(old(jr.lastTr)));
    }

    /** `ADD_ELEMENT`: a new publication. */
    method AddPub(jr: Keeper, ghost m: multiset<Tr>)
      requires Owing(m) && jr !in regs && jr !in pubs && jr.lastTr == None
      modifies this`pubs
      ensures pubs == [jr] + old(pubs) && Owing(m)
    {
      hide Owing, Created, Sum, Sound;
      SoundIfOwing(m);
      SoundWithReg(calls, regs, pubs, jr);
      pubs := [jr] + pubs;
      KeepersUndisturbed(old(pubs));
      KeepersWithout(pubs, 0);
      assert Without(pubs, 0) == old(pubs);
      PubsBalanced(m, m);
    }

    /** `REMOVE_ELEMENT`, then the transaction it keeps is discarded. */
    method FreePub(jr: Keeper, ghost m: multiset<Tr>)
      requires Owing(m) && jr in pubs
      modifies this`pubs, this`garbage
      ensures pubs == Remove(old(pubs), jr) && Owing(m)
      ensures garbage == (if jr.lastTr.Some? then [jr.lastTr.value] else []) + old(garbage)
    {
      hide Owing, Created, Sum, Sound, IndexOf;
      SoundIfOwing(m);
      ghost var k := IndexOf(pubs, jr);
      SoundWithoutPub(calls, regs, pubs, k);
      pubs := Remove(pubs, jr);
      KeepersUndisturbed(old(pubs));
      KeepersWithout(old(pubs), k);
      Absorbed(Sum(KeeperHoldings(pubs)), Slot(jr.lastTr), m);
      PubsBalanced(m, m + Slot(jr.lastTr));
      if jr.lastTr.Some? {
        Discard(jr.lastTr.value, m);
      } else {
        assert m + Slot(jr.lastTr) == m;
      }
    }

    /** In a sound context a dialog has one position. */
    lemma OnlyPlace(k: nat, j: nat, i: nat, l: nat)
      requires Sound(calls, regs, pubs) && k < |calls| && j < |calls[k].dialogs|
      requires i < |calls| && l < |calls[i].dialogs| && (i != k || l != j)
      ensures calls[i].dialogs[l] != calls[k].dialogs[j]
    {
      assert calls[i].Linked() && calls[k].Linked();
    }

    method AddOutgoing(jc: Call, jd: Dialog, t: Tr, ghost m: multiset<Tr>)
      requires Owing(m + multiset{t}) && jc in calls && jd in jc.dialogs
      modifies jd
      ensures jd.outTrs == [t] + old(jd.outTrs) && jd.incTrs == old(jd.incTrs)
      ensures Owing(m)
    {
      hide Sound, Kept, Created;
      jd.outTrs := [t] + jd.outTrs;
      ghost var k :| 0 <= k < |calls| && calls[k] == jc;
      ghost var j :| 0 <= j < |jc.dialogs| && jc.dialogs[j] == jd;
      forall i, l | 0 <= i < |calls| && 0 <= l < |calls[i].dialogs| && (i != k || l != j)
        ensures SameDialog(calls[i].dialogs[l])
      {
        OnlyPlace(k, j, i, l);
      }
      assert jd.Held() == old(jd.Held()) + multiset{t};
      DialogBalanced(k, j, m + multiset{t}, m);
    }

    method AddIncoming(jc: Call, jd: Dialog, t: Tr, ghost m: multiset<Tr>)
      requires Owing(m + multiset{t}) && jc in calls && jd in jc.dialogs
      modifies jd
      ensures jd.incTrs == [t] + old(jd.incTrs) && jd.outTrs == old(jd.outTrs)
      ensures Owing(m)
    {
      hide Sound, Kept, Created;
      jd.incTrs := [t] + jd.incTrs;
      ghost var k :| 0 <= k < |calls| && calls[k] == jc;
      ghost var j :| 0 <= j < |jc.dialogs| && jc.dialogs[j] == jd;
      forall i, l | 0 <= i < |calls| && 0 <= l < |calls[i].dialogs| && (i != k || l != j)
        ensures SameDialog(calls[i].dialogs[l])
      {
        OnlyPlace(k, j, i, l);
      }
      assert jd.Held() == old(jd.Held()) + multiset{t};
      DialogBalanced(k, j, m + multiset{t}, m);
    }

    // --- Lists of dialogs and calls ---

    /** `REMOVE_ELEMENT (jc->c_dialogs, jd)`: what the dialog holds is to be placed. */
    method Unlink(jc: Call, jd: Dialog, ghost m: multiset<Tr>)
      requires Owing(m) && jc in calls && jd in jc.dialogs
      modifies jc`dialogs
      ensures Owing(m + jd.Held()) && Detached(jd)
      ensures jc.dialogs == Remove(old(jc.dialogs), jd)
    {
      hide Sound, Kept, Created, Owing, Call.Held, Dialog.Held, Linked, Call.Linked, IndexOf;
      ghost var k, j := IndexOf(calls, jc), IndexOf(jc.dialogs, jd);
      SoundIfOwing(m);
      label before:
      DialogsWithout(jc.dialogs, j);
      jc.dialogs := Remove(jc.dialogs, jd);
      UnlinkedIsDetached@before(k, j);
      HeldWithout@before(jc, j);
      CallBalanced@before(k, m, m + jd.Held());
    }

    twostate lemma UnlinkedIsDetached(new k: nat, new j: nat)
      requires calls == old(calls) && k < |calls| && j < |old(calls[k].dialogs)|
      requires old(Sound(calls, regs, pubs))
      requires calls[k].dialogs == Without(old(calls[k].dialogs), j)
      requires forall i :: 0 <= i < |calls| && calls[i] != calls[k] ==> SameCall(calls[i])
      ensures Linked(calls) && Detached(old(calls[k].dialogs)[j])
      ensures forall i :: 0 <= i < |calls| && i != k ==> calls[i] != calls[k]
    {
    }

    /** No call in the list has this dialog. */
    ghost predicate Detached(jd: Dialog)
      reads this, calls
    {
      forall i, l :: 0 <= i < |calls| && 0 <= l < |calls[i].dialogs| ==> calls[i].dialogs[l] != jd
    }

    method TakeIncoming(jd: Dialog, ghost m: multiset<Tr>) returns (tr: Tr)
      requires Owing(m + jd.Held()) && Detached(jd) && jd.incTrs != []
      modifies jd
      ensures Owing(m + jd.Held() + multiset{tr})
      ensures [tr] + jd.incTrs == old(jd.incTrs) && jd.outTrs == old(jd.outTrs)
    {
      hide Owing;
      tr := jd.incTrs[0];
      FirstOfList(jd.incTrs);
      jd.incTrs := jd.incTrs[1..];
      StillOwing(m + old(jd.Held()));
      assert m + old(jd.Held()) == m + jd.Held() + multiset{tr};
    }

    method TakeOutgoing(jd: Dialog, ghost m: multiset<Tr>) returns (tr: Tr)
      requires Owing(m + jd.Held()) && Detached(jd) && jd.outTrs != []
      modifies jd
      ensures Owing(m + jd.Held() + multiset{tr})
      ensures [tr] + jd.outTrs == old(jd.outTrs) && jd.incTrs == old(jd.incTrs)
    {
      hide Owing;
      tr := jd.outTrs[0];
      FirstOfList(jd.outTrs);
      jd.outTrs := jd.outTrs[1..];
      StillOwing(m + old(jd.Held()));
      assert m + old(jd.Held()) == m + jd.Held() + multiset{tr};
    }

    /** `_eXosip_dialog_free`: both lists go to the garbage list, front first. */
    method DialogFree(jd: Dialog, ghost m: multiset<Tr>)
      requires Owing(m + jd.Held()) && Detached(jd)
      modifies this`garbage, jd
      ensures Owing(m) && jd.incTrs == jd.outTrs == []
      ensures EndsWith(garbage, old(garbage))
    {
      hide Owing, Dialog.Held, EndsWith;
      EndsWithPush([], garbage);
      while jd.incTrs != []
        invariant Owing(m + jd.Held())
        invariant EndsWith(garbage, old(garbage))
        decreases |jd.incTrs|
      {
        var tr := TakeIncoming(jd, m);
        Discard(tr, m + jd.Held());
        EndsWithPush([tr], garbage[1..]);
        EndsWithTwice(garbage, garbage[1..], old(garbage));
      }
      while jd.outTrs != []
        invariant Owing(m + jd.Held()) && jd.incTrs == []
        invariant EndsWith(garbage, old(garbage))
        decreases |jd.outTrs|
      {
        var tr := TakeOutgoing(jd, m);
        Discard(tr, m + jd.Held());
        EndsWithPush([tr], garbage[1..]);
        EndsWithTwice(garbage, garbage[1..], old(garbage));
      }
      EmptyHolds(jd, m);
    }

    lemma EmptyHolds(jd: Dialog, m: multiset<Tr>)
      requires jd.incTrs == jd.outTrs == []
      ensures m + jd.Held() == m
    {
    }

    /** A dialog leaves its call and is freed. */
    method ReleaseDialog(jc: Call, jd: Dialog, ghost m: multiset<Tr>)
      requires Owing(m) && jc in calls && jd in jc.dialogs
      modifies this`garbage, jc`dialogs, jd
      ensures Owing(m) && jc.dialogs == Remove(old(jc.dialogs), jd)
      ensures EndsWith(garbage, old(garbage))
    {
      hide Owing, Dialog.Held;
      Unlink(jc, jd, m);
      DialogFree(jd, m);
    }

    /** A call and its dialogs are in no list of the context. */
    ghost predicate Apart(jc: Call)
      reads this, jc, calls
    {
      jc !in calls && jc.Linked() && Linked(calls)
    }

    lemma ApartIsDetached(jc: Call, j: nat)
      requires Apart(jc) && j < |jc.dialogs|
      ensures Detached(jc.dialogs[j])
    {
      forall i, l | 0 <= i < |calls| && 0 <= l < |calls[i].dialogs|
        ensures calls[i].dialogs[l] != jc.dialogs[j]
      {
        assert calls[i].Linked();
      }
    }

    method TakeDialog(jc: Call, ghost m: multiset<Tr>) returns (jd: Dialog)
      requires Owing(m + jc.Held()) && Apart(jc) && jc.dialogs != []
      modifies jc`dialogs
      ensures [jd] + jc.dialogs == old(jc.dialogs) && jd !in jc.dialogs
      ensures Apart(jc) && Detached(jd) && Owing(m + jc.Held() + jd.Held())
    {
      hide Owing, Call.Held, Dialog.Held, Detached, Linked;
      ApartIsDetached(jc, 0);
      jd := jc.dialogs[0];
      jc.dialogs := jc.dialogs[1..];
      assert jc.dialogs == Without(old(jc.dialogs), 0);
      HeldWithout(jc, 0);
      StillOwing(m + old(jc.Held()));
      Grouped(m, jc.Held(), jd.Held());
    }

    method TakeIncomingSlot(jc: Call, ghost m: multiset<Tr>) returns (t: Tr)
      requires Owing(m + jc.Held()) && jc !in calls && jc.incTr.Some?
      modifies jc`incTr
      ensures old(jc.incTr) == Some(t) && jc.incTr == None && Owing(m + jc.Held() + multiset{t})
    {
      hide Owing, Call.Held;
      t := jc.incTr.value;
      jc.incTr := None;
      StillOwing(m + old(jc.Held()));
      SlotsTouched(jc);
      SlotCleared(old(jc.Held()), jc.Held(), Slot(jc.outTr), multiset{t}, m);
    }

    method TakeOutgoingSlot(jc: Call, ghost m: multiset<Tr>) returns (t: Tr)
      requires Owing(m + jc.Held()) && jc !in calls && jc.outTr.Some?
      modifies jc`outTr
      ensures old(jc.outTr) == Some(t) && jc.outTr == None && Owing(m + jc.Held() + multiset{t})
    {
      hide Owing, Call.Held;
      t := jc.outTr.value;
      jc.outTr := None;
      StillOwing(m + old(jc.Held()));
      SlotsTouched(jc);
      SlotCleared(old(jc.Held()), jc.Held(), Slot(jc.incTr), multiset{t}, m);
    }

    lemma EmptyCallHolds(jc: Call, m: multiset<Tr>)
      requires jc.dialogs == [] && jc.incTr == jc.outTr == None
      ensures m + jc.Held() == m
    {
    }

    /** `_eXosip_call_free`: its dialogs are freed, then both slots are discarded. */
    method CallFree(jc: Call, ghost m: multiset<Tr>)
      requires Owing(m + jc.Held()) && Apart(jc)
      modifies this`garbage, jc, jc.dialogs
      ensures Owing(m) && jc.dialogs == [] && jc.incTr == jc.outTr == None
    {
      hide Owing, Call.Held, Dialog.Held, Detached, Call.Linked, Linked;
      ghost var footprint := jc.dialogs;
      while jc.dialogs != []
        invariant Owing(m + jc.Held()) && Apart(jc)
        invariant forall d :: d in jc.dialogs ==> d in footprint
        decreases |jc.dialogs|
      {
        var jd := TakeDialog(jc, m);
        assert jd in footprint;
        DialogFree(jd, m + jc.Held());
      }
      if jc.incTr.Some? {
        var t := TakeIncomingSlot(jc, m);
        Discard(t, m + jc.Held());
      }
      if jc.outTr.Some? {
        var t := TakeOutgoingSlot(jc, m);
        Discard(t, m + jc.Held());
      }
      EmptyCallHolds(jc, m);
    }

    /** `ADD_ELEMENT (excontext->j_calls, jc)`. */
    method AddCall(jc: Call, ghost m: multiset<Tr>)
      requires Owing(m + jc.Held()) && Apart(jc)
      modifies this`calls
      ensures calls == [jc] + old(calls) && Owing(m)
    {
      hide Owing, Created, Call.Held, Sum, Slot, Linked, Call.Linked;
      calls := [jc] + calls;
      LinkedCons(jc, old(calls));
      CallsUndisturbed(old(calls));
      CallsWithout(calls, 0);
      assert Without(calls, 0) == old(calls);
      Absorbed(old(Sum(CallHoldings(calls))), jc.Held(), m);
      CallsBalanced(m + jc.Held(), m);
    }

    /** `REMOVE_ELEMENT (excontext->j_calls, jc)`. */
    method RemoveCall(jc: Call, ghost m: multiset<Tr>)
      requires Owing(m) && jc in calls
      modifies this`calls
      ensures calls == Remove(old(calls), jc) && Owing(m + jc.Held()) && Apart(jc)
    {
      hide Owing, Kept, Created, Call.Held, Sum, Slot, IndexOf, Linked, Call.Linked;
      SoundIfOwing(m);
      ghost var k := IndexOf(calls, jc);
      LinkedWithout(calls, k);
      calls := Remove(calls, jc);
      CallsUndisturbed(old(calls));
      CallsWithout(old(calls), k);
      Absorbed(Sum(CallHoldings(calls)), jc.Held(), m);
      CallsBalanced(m, m + jc.Held());
    }

    // --- One list position or slot of a call in the context ---

    /** The call's INVITE slot for incoming transactions gets another one, or none. */
    method ReplaceIncoming(jc: Call, o: Option<Tr>, ghost m: multiset<Tr>)
      requires Owing(m + Slot(o)) && jc in calls
      modifies jc`incTr
      ensures jc.incTr == o && Owing(m + Slot(old(jc.incTr)))
    {
      hide Owing, Created, Slot, Call.Held, IndexOf, Linked, Call.Linked;
      SoundIfOwing(m + Slot(o));
      SoundIsLinked(calls, regs, pubs);
      ghost var k := IndexOf(calls, jc);
      LinkedWithout(calls, k);
      jc.incTr := o;
      SlotsTouched(jc);
      SlotSwapped(old(jc.Held()), jc.Held(), old(Slot(jc.incTr)), Slot(o), Slot(jc.outTr), m);
      SlotKeepsLinks(k);
      CallBalanced(k, m + Slot(o), m + Slot(old(jc.incTr)));
    }

    method ReplaceOutgoing(jc: Call, o: Option<Tr>, ghost m: multiset<Tr>)
      requires Owing(m + Slot(o)) && jc in calls
      modifies jc`outTr
      ensures jc.outTr == o && Owing(m + Slot(old(jc.outTr)))
    {
      hide Owing, Created, Slot, Call.Held, IndexOf, Linked, Call.Linked;
      SoundIfOwing(m + Slot(o));
      SoundIsLinked(calls, regs, pubs);
      ghost var k := IndexOf(calls, jc);
      LinkedWithout(calls, k);
      jc.outTr := o;
      SlotsTouched(jc);
      SlotSwapped(old(jc.Held()), jc.Held(), old(Slot(jc.outTr)), Slot(o), Slot(jc.incTr), m);
      SlotKeepsLinks(k);
      CallBalanced(k, m + Slot(o), m + Slot(old(jc.outTr)));
    }

    twostate lemma SlotKeepsLinks(new k: nat)
      requires calls == old(calls) && k < |calls| && old(Linked(calls))
      requires forall i :: 0 <= i < |calls| ==> calls[i].dialogs == old(calls[i].dialogs)
      ensures Linked(calls)
      ensures forall i :: 0 <= i < |calls| && i != k ==> calls[i] != calls[k]
    {
    }

    /** `ADD_ELEMENT (jc->c_dialogs, jd)`, for a new dialog. */
    method Link(jc: Call, jd: Dialog, ghost m: multiset<Tr>)
      requires Owing(m) && jc in calls
      requires jd.call == jc && jd !in jc.dialogs && jd.incTrs == jd.outTrs == []
      modifies jc`dialogs
      ensures jc.dialogs == [jd] + old(jc.dialogs) && Owing(m)
    {
      hide Owing, Created, Slot, Sum, IndexOf, Dialog.Held;
      SoundIfOwing(m);
      SoundIsLinked(calls, regs, pubs);
      ghost var k := IndexOf(calls, jc);
      jc.dialogs := [jd] + jc.dialogs;
      LinkKeepsLinks(k);
      HeldWith(jc);
      EmptyHolds(jd, jc.Held());
      CallBalanced(k, m, m);
    }

    twostate lemma LinkKeepsLinks(new k: nat)
      requires calls == old(calls) && k < |calls| && old(Linked(calls))
      requires |calls[k].dialogs| == |old(calls[k].dialogs)| + 1 && calls[k].dialogs[1..] == old(calls[k].dialogs)
      requires calls[k].dialogs[0].call == calls[k] && calls[k].dialogs[0] !in old(calls[k].dialogs)
      requires forall i :: 0 <= i < |calls| && calls[i] != calls[k] ==> SameCall(calls[i])
      ensures Linked(calls)
      ensures forall i :: 0 <= i < |calls| && i != k ==> calls[i] != calls[k]
    {
      var ds := calls[k].dialogs;
      forall i | 0 < i < |ds| ensures ds[i] == old(calls[k].dialogs)[i - 1] {
      }
    }

    /** `osip_list_remove` on a dialog's list, at a position. */
    method RemoveAt(jc: Call, jd: Dialog, outgoing: bool, pos: nat, ghost m: multiset<Tr>) returns (tr: Tr)
      requires Owing(m) && jc in calls && jd in jc.dialogs
      requires pos < |if outgoing then jd.outTrs else jd.incTrs|
      modifies jd
      ensures tr == old(if outgoing then jd.outTrs else jd.incTrs)[pos]
      ensures jd.outTrs == (if outgoing then Without(old(jd.outTrs), pos) else old(jd.outTrs))
      ensures jd.incTrs == (if outgoing then old(jd.incTrs) else Without(old(jd.incTrs), pos))
      ensures Owing(m + multiset{tr})
    {
      hide Owing, Sound, Created, IndexOf;
      ghost var k, j := IndexOf(calls, jc), IndexOf(jc.dialogs, jd);
      SoundIfOwing(m);
      if outgoing {
        tr := jd.outTrs[pos];
        TakenOut(jd.outTrs, pos);
        jd.outTrs := Without(jd.outTrs, pos);
      } else {
        tr := jd.incTrs[pos];
        TakenOut(jd.incTrs, pos);
        jd.incTrs := Without(jd.incTrs, pos);
      }
      assert old(jd.Held()) == jd.Held() + multiset{tr};
      Grouped(m, jd.Held(), multiset{tr});
      Absorbed(jd.Held(), multiset{tr}, m);
      DialogBalanced(k, j, m, m + multiset{tr});
    }

    /** A transaction leaves the garbage list and is freed. */
    method FreeAt(pos: nat, ghost m: multiset<Tr>)
      requires Owing(m) && pos < |garbage|
      modifies this`garbage, this`freed
      ensures garbage == Without(old(garbage), pos) && freed == old(freed) + multiset{old(garbage)[pos]}
      ensures Owing(m)
    {
      hide Sound, Kept, Created;
      TakenOut(garbage, pos);
      freed := freed + multiset{garbage[pos]};
      garbage := Without(garbage, pos);
      StillKept();
      Moved(Held(), old(freed), lost, m, multiset{old(garbage)[pos]});
      assert old(Held()) == Held() + multiset{old(garbage)[pos]};
    }
  }
}
