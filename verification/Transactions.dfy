/** Which structure owns each transaction: the objects, and what they hold together. */
module Transactions {
  import opened Text

  type Tr = nat

  function Slot(o: Option<Tr>): multiset<Tr> {
    match o
    case Some(t) => multiset{t}
    case None => multiset{}
  }

  /** The transactions created so far: each number below n once. */
  function Created(n: nat): multiset<Tr> {
    if n == 0 then multiset{} else Created(n - 1) + multiset{n - 1}
  }

  lemma {:induction false} CreatedOnce(n: nat, t: Tr)
    ensures Created(n)[t] == if t < n then 1 else 0
  {
    if n == 0 {
    } else {
      CreatedOnce(n - 1, t);
    }
  }

  function Sum(hs: seq<multiset<Tr>>): multiset<Tr> {
    if hs == [] then multiset{} else Sum(hs[..|hs| - 1]) + hs[|hs| - 1]
  }

  lemma Shift(rest: multiset<Tr>, was: multiset<Tr>, now: multiset<Tr>, x: multiset<Tr>, y: multiset<Tr>)
    requires now + x == was + y
    ensures rest + now + x == rest + was + y
  {
    assert rest + now + x == rest + (now + x);
    assert rest + was + y == rest + (was + y);
  }

  lemma {:induction false} SumUpdate(hs: seq<multiset<Tr>>, k: nat, h: multiset<Tr>)
    requires k < |hs|
    ensures Sum(hs[k := h]) + hs[k] == Sum(hs) + h
  {
    var n := |hs| - 1;
    var front := hs[..n];
    if k < n {
      assert hs[k := h][..n] == front[k := h];
      SumUpdate(front, k, h);
      Shift(hs[n], Sum(front), Sum(front[k := h]), hs[k], h);
      assert Sum(hs[k := h]) == hs[n] + Sum(front[k := h]);
      assert Sum(hs) == hs[n] + Sum(front);
    } else {
      assert hs[k := h][..n] == front;
      assert Sum(hs[k := h]) == Sum(front) + h;
    }
  }

  lemma {:induction false} SumRemove(hs: seq<multiset<Tr>>, k: nat)
    requires k < |hs|
    ensures Sum(hs[..k] + hs[k + 1..]) + hs[k] == Sum(hs)
  {
    var n := |hs| - 1;
    if k < n {
      var rest := hs[..k] + hs[k + 1..];
      assert rest[..n - 1] == hs[..n][..k] + hs[..n][k + 1..];
      SumRemove(hs[..n], k);
    } else {
      assert hs[..k] + hs[k + 1..] == hs[..n];
    }
  }

  // --- The objects that hold transactions ---

  class Dialog {
    ghost const call: Call         // the call it was made for
    var incTrs: seq<Tr>
    var outTrs: seq<Tr>

    constructor (ghost jc: Call)
      ensures call == jc && incTrs == outTrs == []
    {
      call, incTrs, outTrs := jc, [], [];
    }

    ghost function Held(): multiset<Tr>
      reads this
    {
      multiset(incTrs) + multiset(outTrs)
    }

    function List(outgoing: bool): seq<Tr>
      reads this
    {
      if outgoing then outTrs else incTrs
    }
  }

  ghost function DialogHoldings(ds: seq<Dialog>): (hs: seq<multiset<Tr>>)
    reads ds
    ensures |hs| == |ds| && forall i :: 0 <= i < |hs| ==> hs[i] == ds[i].Held()
  {
    seq(|ds|, i requires 0 <= i < |ds| reads ds => ds[i].Held())
  }

  class Call {
    var incTr: Option<Tr>
    var outTr: Option<Tr>
    var dialogs: seq<Dialog>

    /** `_eXosip_call_init`. */
    constructor ()
      ensures incTr == outTr == None && dialogs == []
    {
      incTr, outTr, dialogs := None, None, [];
    }

    ghost predicate Linked()
      reads this
    {
      && (forall i, j :: 0 <= i < j < |dialogs| ==> dialogs[i] != dialogs[j])
      && (forall i :: 0 <= i < |dialogs| ==> dialogs[i].call == this)
    }

    ghost function Held(): multiset<Tr>
      reads this, dialogs
    {
      Slot(incTr) + Slot(outTr) + Sum(DialogHoldings(dialogs))
    }
  }

  ghost function DialogsOf(calls: seq<Call>): set<Dialog>
    reads calls
  {
    set k, i | 0 <= k < |calls| && 0 <= i < |calls[k].dialogs| :: calls[k].dialogs[i]
  }

  ghost predicate Linked(calls: seq<Call>)
    reads calls
  {
    && (forall i, j :: 0 <= i < j < |calls| ==> calls[i] != calls[j])
    && (forall i :: 0 <= i < |calls| ==> calls[i].Linked())
  }

  ghost function CallHoldings(calls: seq<Call>): (hs: seq<multiset<Tr>>)
    reads calls, DialogsOf(calls)
    ensures |hs| == |calls| && forall i :: 0 <= i < |hs| ==> hs[i] == calls[i].Held()
  {
    seq(|calls|, i requires 0 <= i < |calls| reads calls, DialogsOf(calls) => calls[i].Held())
  }

  /** A registration or a publication: it keeps its last transaction. */
  class Keeper {
    var lastTr: Option<Tr>

    constructor ()
      ensures lastTr == None
    {
      lastTr := None;
    }
  }

  ghost function KeeperHoldings(ks: seq<Keeper>): (hs: seq<multiset<Tr>>)
    reads ks
    ensures |hs| == |ks| && forall i :: 0 <= i < |hs| ==> hs[i] == Slot(ks[i].lastTr)
  {
    seq(|ks|, i requires 0 <= i < |ks| reads ks => Slot(ks[i].lastTr))
  }

  // --- One object changes, the others do not ---

  twostate predicate SameDialog(d: Dialog)
    reads d
  {
    d.incTrs == old(d.incTrs) && d.outTrs == old(d.outTrs)
  }

  /** The call's own fields, not its dialogs. */
  twostate predicate SameCall(c: Call)
    reads c
  {
    c.incTr == old(c.incTr) && c.outTr == old(c.outTr) && c.dialogs == old(c.dialogs)
  }

  twostate predicate SameKeeper(k: Keeper)
    reads k
  {
    k.lastTr == old(k.lastTr)
  }

  twostate lemma DialogTouched(jc: Call, new k: nat)
    requires SameCall(jc) && jc.Linked() && k < |jc.dialogs|
    requires forall i :: 0 <= i < |jc.dialogs| && i != k ==> SameDialog(jc.dialogs[i])
    ensures var jd := jc.dialogs[k]; jc.Held() + old(jd.Held()) == old(jc.Held()) + jd.Held()
  {
    hide Sum, Dialog.Held, Slot;
    var jd := jc.dialogs[k];
    var was := old(DialogHoldings(jc.dialogs));
    var now := DialogHoldings(jc.dialogs);
    forall i | 0 <= i < |jc.dialogs| && i != k ensures now[i] == was[i] {
      SameDialogHolds(jc.dialogs[i]);
    }
    assert now == was[k := jd.Held()];
    SumUpdate(was, k, jd.Held());
    Shift(Slot(jc.incTr) + Slot(jc.outTr), Sum(was), Sum(now), old(jd.Held()), jd.Held());
  }

  twostate lemma SameDialogHolds(jd: Dialog)
    requires SameDialog(jd)
    ensures jd.Held() == old(jd.Held())
  {
  }

  twostate lemma CallTouched(calls: seq<Call>, new k: nat)
    requires Linked(calls) && k < |calls|
    requires forall i :: 0 <= i < |calls| && i != k ==>
               SameCall(calls[i]) && forall j :: 0 <= j < |calls[i].dialogs| ==> SameDialog(calls[i].dialogs[j])
    ensures Sum(CallHoldings(calls)) + old(calls[k].Held()) == old(Sum(CallHoldings(calls))) + calls[k].Held()
  {
    hide Sum, Call.Held, Call.Linked;
    var was := old(CallHoldings(calls));
    forall i | 0 <= i < |calls| && i != k
      ensures CallHoldings(calls)[i] == was[i]
    {
      Undisturbed(calls[i]);
    }
    assert CallHoldings(calls) == was[k := calls[k].Held()];
    SumUpdate(was, k, calls[k].Held());
  }

  twostate lemma Undisturbed(jc: Call)
    requires SameCall(jc)
    requires forall j :: 0 <= j < |jc.dialogs| ==> SameDialog(jc.dialogs[j])
    ensures jc.Held() == old(jc.Held())
  {
    forall j | 0 <= j < |jc.dialogs| ensures jc.dialogs[j].Held() == old(jc.dialogs[j].Held()) {
      SameDialogHolds(jc.dialogs[j]);
    }
    assert DialogHoldings(jc.dialogs) == old(DialogHoldings(jc.dialogs));
  }

  twostate lemma CallsUndisturbed(calls: seq<Call>)
    requires forall i :: 0 <= i < |calls| ==>
               && SameCall(calls[i])
               && forall l :: 0 <= l < |calls[i].dialogs| ==> SameDialog(calls[i].dialogs[l])
    ensures CallHoldings(calls) == old(CallHoldings(calls))
  {
    hide Call.Held;
    forall i | 0 <= i < |calls| ensures calls[i].Held() == old(calls[i].Held()) {
      Undisturbed(calls[i]);
    }
    assert CallHoldings(calls) == old(CallHoldings(calls));
  }

  twostate lemma KeeperTouched(ks: seq<Keeper>, new p: nat)
    requires p < |ks| && forall i :: 0 <= i < |ks| && i != p ==> SameKeeper(ks[i])
    ensures Sum(KeeperHoldings(ks)) + old(Slot(ks[p].lastTr)) == old(Sum(KeeperHoldings(ks))) + Slot(ks[p].lastTr)
  {
    hide Sum, Slot;
    var was := old(KeeperHoldings(ks));
    assert KeeperHoldings(ks) == was[p := Slot(ks[p].lastTr)];
    SumUpdate(was, p, Slot(ks[p].lastTr));
  }

  twostate lemma KeepersUndisturbed(ks: seq<Keeper>)
    requires forall i :: 0 <= i < |ks| ==> SameKeeper(ks[i])
    ensures KeeperHoldings(ks) == old(KeeperHoldings(ks))
  {
    hide Slot;
    assert KeeperHoldings(ks) == old(KeeperHoldings(ks));
  }

  /** A part of a sum went from x to y while m went to n: so did the whole. */
  lemma Exchange(was: multiset<Tr>, now: multiset<Tr>, x: multiset<Tr>, y: multiset<Tr>,
                 m: multiset<Tr>, n: multiset<Tr>)
    requires now + x == was + y && y + n == x + m
    ensures now + n == was + m
  {
    forall e ensures (now + n)[e] == (was + m)[e] {
      assert (now + x)[e] == (was + y)[e];
      assert (y + n)[e] == (x + m)[e];
    }
    assert now + n == was + m;
  }

  lemma {:induction false} InSum(hs: seq<multiset<Tr>>, t: Tr)
    ensures t in Sum(hs) <==> exists k :: 0 <= k < |hs| && t in hs[k]
  {
    if hs == [] {
    } else {
      var n := |hs| - 1;
      InSum(hs[..n], t);
      assert t in Sum(hs) <==> t in Sum(hs[..n]) || t in hs[n];
      if k :| 0 <= k < |hs| && t in hs[k] && k < n {
        assert t in hs[..n][k];
      }
      if k :| 0 <= k < n && t in hs[..n][k] {
        assert t in hs[k];
      }
    }
  }

  /** The places of a call. */
  lemma HeldSomewhere(jc: Call, t: Tr)
    ensures t in jc.Held() <==>
            || jc.incTr == Some(t)
            || (exists j :: 0 <= j < |jc.dialogs| && t in jc.dialogs[j].List(false))
            || jc.outTr == Some(t)
            || (exists j :: 0 <= j < |jc.dialogs| && t in jc.dialogs[j].List(true))
  {
    hide Sum;
    var hs := DialogHoldings(jc.dialogs);
    InSum(hs, t);
    forall j | 0 <= j < |hs|
      ensures t in hs[j] <==> t in jc.dialogs[j].List(false) || t in jc.dialogs[j].List(true)
    {
    }
    assert t in jc.Held() <==> t in Slot(jc.incTr) || t in Slot(jc.outTr) || t in Sum(hs);
  }

  // --- An object enters or leaves a list ---

  lemma DialogsWithout(ds: seq<Dialog>, k: nat)
    requires k < |ds|
    ensures Sum(DialogHoldings(Without(ds, k))) + ds[k].Held() == Sum(DialogHoldings(ds))
  {
    hide Dialog.Held;
    var hs := DialogHoldings(ds);
    SumRemove(hs, k);
    assert DialogHoldings(Without(ds, k)) == hs[..k] + hs[k + 1..];
  }

  lemma CallsWithout(calls: seq<Call>, k: nat)
    requires k < |calls|
    ensures Sum(CallHoldings(Without(calls, k))) + calls[k].Held() == Sum(CallHoldings(calls))
  {
    hide Call.Held;
    var hs := CallHoldings(calls);
    SumRemove(hs, k);
    assert CallHoldings(Without(calls, k)) == hs[..k] + hs[k + 1..];
  }

  lemma KeepersWithout(ks: seq<Keeper>, k: nat)
    requires k < |ks|
    ensures Sum(KeeperHoldings(Without(ks, k))) + Slot(ks[k].lastTr) == Sum(KeeperHoldings(ks))
  {
    hide Slot;
    var hs := KeeperHoldings(ks);
    SumRemove(hs, k);
    assert KeeperHoldings(Without(ks, k)) == hs[..k] + hs[k + 1..];
  }

  function Without<T>(s: seq<T>, k: nat): (r: seq<T>)
    requires k < |s|
    ensures |r| == |s| - 1
    ensures forall i :: 0 <= i < |r| ==> r[i] == s[if i < k then i else i + 1]
  {
    s[..k] + s[k + 1..]
  }

  function IndexOf<T(==)>(s: seq<T>, x: T): (k: nat)
    requires x in s
    ensures k < |s| && s[k] == x
  {
    if s[0] == x then 0 else 1 + IndexOf(s[1..], x)
  }

  lemma LinkedCons(jc: Call, calls: seq<Call>)
    requires Linked(calls) && jc !in calls && jc.Linked()
    ensures Linked([jc] + calls)
  {
    hide Call.Linked;
  }

  lemma LinkedWithout(calls: seq<Call>, k: nat)
    requires Linked(calls) && k < |calls|
    ensures Linked(Without(calls, k)) && calls[k] !in Without(calls, k) && calls[k].Linked()
  {
    hide Call.Linked;
  }

  /** `REMOVE_ELEMENT`. */
  function Remove<T(==)>(s: seq<T>, x: T): seq<T>
    requires x in s
  {
    Without(s, IndexOf(s, x))
  }

  lemma FirstOfList(s: seq<Tr>)
    requires s != []
    ensures multiset(s) == multiset{s[0]} + multiset(s[1..])
  {
    assert s == [s[0]] + s[1..];
  }

  twostate lemma HeldWithout(jc: Call, new j: nat)
    requires j < |old(jc.dialogs)| && jc.dialogs == Without(old(jc.dialogs), j)
    requires jc.incTr == old(jc.incTr) && jc.outTr == old(jc.outTr)
    requires forall i :: 0 <= i < |old(jc.dialogs)| ==> SameDialog(old(jc.dialogs)[i])
    ensures jc.Held() + old(jc.dialogs)[j].Held() == old(jc.Held())
  {
    hide Sum, Slot, Dialog.Held;
    var ds := old(jc.dialogs);
    forall i | 0 <= i < |ds| ensures ds[i].Held() == old(ds[i].Held()) {
      SameDialogHolds(ds[i]);
    }
    assert DialogHoldings(ds) == old(DialogHoldings(ds));
    DialogsWithout(ds, j);
    assert jc.Held() + ds[j].Held() ==
           Slot(jc.incTr) + Slot(jc.outTr) + (Sum(DialogHoldings(jc.dialogs)) + ds[j].Held());
  }

  twostate lemma HeldWith(jc: Call)
    requires |jc.dialogs| > 0 && jc.dialogs[1..] == old(jc.dialogs)
    requires jc.incTr == old(jc.incTr) && jc.outTr == old(jc.outTr)
    requires forall i :: 0 <= i < |old(jc.dialogs)| ==> SameDialog(old(jc.dialogs)[i])
    ensures jc.Held() == old(jc.Held()) + jc.dialogs[0].Held()
  {
    hide Sum, Slot, Dialog.Held;
    var ds := old(jc.dialogs);
    forall i | 0 <= i < |ds| ensures ds[i].Held() == old(ds[i].Held()) {
      SameDialogHolds(ds[i]);
    }
    assert DialogHoldings(ds) == old(DialogHoldings(ds));
    DialogsWithout(jc.dialogs, 0);
    assert Without(jc.dialogs, 0) == ds;
    assert jc.Held() == Slot(jc.incTr) + Slot(jc.outTr) + (Sum(DialogHoldings(ds)) + jc.dialogs[0].Held());
  }

  lemma TakenOut(s: seq<Tr>, pos: nat)
    requires pos < |s|
    ensures multiset(s) == multiset(Without(s, pos)) + multiset{s[pos]}
  {
    assert s == s[..pos] + ([s[pos]] + s[pos + 1..]);
  }

  lemma Grouped(m: multiset<Tr>, a: multiset<Tr>, b: multiset<Tr>)
    ensures m + (a + b) == m + a + b && a + b + m == a + (m + b) && a + m == m + a
  {
  }

  lemma Absorbed(s: multiset<Tr>, x: multiset<Tr>, m: multiset<Tr>)
    ensures s + x + m == s + (m + x)
  {
  }

  /** The two slots of a call changed. */
  twostate lemma SlotsTouched(jc: Call)
    requires jc.dialogs == old(jc.dialogs) && forall j :: 0 <= j < |jc.dialogs| ==> SameDialog(jc.dialogs[j])
    ensures jc.Held() + (Slot(old(jc.incTr)) + Slot(old(jc.outTr))) ==
            old(jc.Held()) + (Slot(jc.incTr) + Slot(jc.outTr))
  {
    hide Slot, Sum;
    forall j | 0 <= j < |jc.dialogs| ensures jc.dialogs[j].Held() == old(jc.dialogs[j].Held()) {
      SameDialogHolds(jc.dialogs[j]);
    }
    assert DialogHoldings(jc.dialogs) == old(DialogHoldings(jc.dialogs));
  }

  // --- Everything the owners hold ---

  ghost predicate Sound(calls: seq<Call>, regs: seq<Keeper>, pubs: seq<Keeper>)
    reads calls
  {
    && Linked(calls)
    && (forall i, j :: 0 <= i < j < |regs| ==> regs[i] != regs[j])
    && (forall i, j :: 0 <= i < j < |pubs| ==> pubs[i] != pubs[j])
    && (forall k :: k in regs ==> k !in pubs)
  }

  lemma SoundWithReg(calls: seq<Call>, regs: seq<Keeper>, pubs: seq<Keeper>, jr: Keeper)
    requires Sound(calls, regs, pubs) && jr !in regs && jr !in pubs
    ensures Sound(calls, [jr] + regs, pubs) && Sound(calls, regs, [jr] + pubs)
  {
    hide Linked;
  }

  lemma SoundWithoutReg(calls: seq<Call>, regs: seq<Keeper>, pubs: seq<Keeper>, k: nat)
    requires Sound(calls, regs, pubs) && k < |regs|
    ensures Sound(calls, Without(regs, k), pubs)
  {
    hide Linked;
  }

  lemma SoundWithoutPub(calls: seq<Call>, regs: seq<Keeper>, pubs: seq<Keeper>, k: nat)
    requires Sound(calls, regs, pubs) && k < |pubs|
    ensures Sound(calls, regs, Without(pubs, k))
  {
    hide Linked;
  }

  lemma SoundIsLinked(calls: seq<Call>, regs: seq<Keeper>, pubs: seq<Keeper>)
    requires Sound(calls, regs, pubs)
    ensures Linked(calls)
  {
  }

  ghost function Kept(calls: seq<Call>, regs: seq<Keeper>, pubs: seq<Keeper>): multiset<Tr>
    reads calls, DialogsOf(calls), regs, pubs
  {
    Sum(KeeperHoldings(regs)) + Sum(KeeperHoldings(pubs)) + Sum(CallHoldings(calls))
  }
}
