/** The API calls, callbacks and timer polls that create, move and free transactions. */
module Sessions {
  import opened Text
  import opened Transactions
  import opened Ownership

  // --- Outgoing requests ---

  lemma EmptyCall(jc: Call, m: multiset<Tr>)
    requires jc.dialogs == [] && jc.incTr == jc.outTr == None
    ensures m + jc.Held() == m
  {
  }

  /** `_eXosip_call_init` and `ADD_ELEMENT`. */
  method AddNewCall(ctx: Context, ghost m: multiset<Tr>) returns (jc: Call)
    requires ctx.Owing(m)
    modifies ctx`calls
    ensures ctx.Owing(m) && fresh(jc) && ctx.calls == [jc] + old(ctx.calls)
    ensures jc.dialogs == [] && jc.incTr == jc.outTr == None
  {
    hide Context.Owing;
    label start:
    jc := new Call();
    ctx.StillOwing@start(m);
    ctx.SoundIfOwing(m);
    SoundIsLinked(ctx.calls, ctx.regs, ctx.pubs);
    EmptyCall(jc, m);
    ctx.AddCall(jc, m);
  }

  /** `eXosip_call_send_initial_invite`: the INVITE belongs to a new call. */
  method SendInitialInvite(ctx: Context) returns (jc: Call)
    requires ctx.Valid()
    modifies ctx
    ensures ctx.Valid() && fresh(jc) && ctx.calls == [jc] + old(ctx.calls)
    ensures jc.outTr == Some(old(ctx.next)) && ctx.next == old(ctx.next) + 1 && ctx.lost == old(ctx.lost)
  {
    hide Context.Owing;
    var t := ctx.NewTransaction(multiset{});
    jc := AddNewCall(ctx, multiset{} + multiset{t});
    ctx.ReplaceOutgoing(jc, Some(t), multiset{});
    assert multiset{} + Slot(None) == multiset{};
  }

  /** `eXosip_create_transaction`: without a dialog nobody stores the transaction. */
  method CreateTransaction(ctx: Context, jc: Call, jd: Dialog?)
    requires ctx.Valid() && jc in ctx.calls && (jd != null ==> jd in jc.dialogs)
    modifies ctx`next, ctx`lost, jd
    ensures ctx.Valid() && ctx.next == old(ctx.next) + 1
    ensures ctx.lost == old(ctx.lost) + (if jd == null then multiset{old(ctx.next)} else multiset{})
    ensures jd != null ==> jd.outTrs == [old(ctx.next)] + old(jd.outTrs)
  {
    hide Context.Owing;
    var t := ctx.NewTransaction(multiset{});
    if jd != null {
      ctx.AddOutgoing(jc, jd, t, multiset{});
    } else {
      ctx.Lose(multiset{t}, multiset{});
    }
  }

  /** `eXosip_create_cancel_transaction` and `eXosip_message_send_request`. */
  method CreateOutsideDialog(ctx: Context) returns (t: Tr)
    requires ctx.Valid()
    modifies ctx`next, ctx`garbage
    ensures ctx.Valid() && t == old(ctx.next) && ctx.next == t + 1
    ensures ctx.garbage == [t] + old(ctx.garbage)
  {
    hide Context.Owing;
    t := ctx.NewTransaction(multiset{});
    ctx.Discard(t, multiset{});
  }

  /** `eXosip_call_send_request`: refused without a dialog, or while a request is pending. */
  method SendRequest(ctx: Context, jc: Call?, jd: Dialog?, pending: bool) returns (r: Outcome)
    requires ctx.Valid() && (jd != null ==> jc != null && jc in ctx.calls && jd in jc.dialogs)
    modifies ctx`next, jd
    ensures ctx.Valid() && (r == Success <==> jd != null && !pending)
    ensures if r == Success
            then jd.outTrs == [old(ctx.next)] + old(jd.outTrs) && ctx.next == old(ctx.next) + 1
            else ctx.next == old(ctx.next) && (jd != null ==> unchanged(jd))
  {
    hide Context.Owing;
    if jd == null { return NotFound; }
    if pending { return WrongState; }
    var t := ctx.NewTransaction(multiset{});
    ctx.AddOutgoing(jc, jd, t, multiset{});
    return Success;
  }

  /**
   * `_eXosip_call_retry_request`, once the new message is or is not built: the retry of
   * the call's own INVITE replaces it and frees the dialog; any other joins the dialog.
   */
  method RetryRequest(ctx: Context, jc: Call, jd: Dialog?, outTr: Tr, built: bool) returns (r: Outcome)
    requires ctx.Valid() && jc in ctx.calls && (jd != null ==> jd in jc.dialogs)
    requires jd != null || jc.outTr == Some(outTr)
    modifies ctx`next, ctx`garbage, jc, jd
    ensures ctx.Valid() && ctx.next == old(ctx.next) + (if built then 1 else 0)
    ensures !built ==> r == Failed && unchanged(jc) && ctx.garbage == old(ctx.garbage)
    ensures built && old(jc.outTr) == Some(outTr) ==>
              && jc.outTr == Some(old(ctx.next))
              && jc.dialogs == (if jd != null then Remove<Dialog>(old(jc.dialogs), jd) else old(jc.dialogs))
              && outTr in ctx.garbage
    ensures built && old(jc.outTr) != Some(outTr) ==>
              && unchanged(jc) && jd.outTrs == [old(ctx.next)] + old(jd.outTrs)
              && ctx.garbage == old(ctx.garbage)
  {
    hide Context.Owing;
    if !built { return Failed; }
    var t := ctx.NewTransaction(multiset{});
    if jc.outTr == Some(outTr) {
      ctx.ReplaceOutgoing(jc, Some(t), multiset{});
      ctx.Discard(outTr, multiset{});
      if jd != null {
        ghost var before := ctx.garbage;
        ctx.ReleaseDialog(jc, jd, multiset{});
        assert outTr == before[0] == ctx.garbage[|ctx.garbage| - |before|..][0];
      }
    } else {
      ctx.AddOutgoing(jc, jd, t, multiset{});
    }
    return Success;
  }

  /**
   * The last INVITE of a call, if it has only a provisional answer: the one sent, or, when
   * none was sent, the one received. `answered` says whether a 603 can be sent to it.
   */
  datatype Early = NotEarly | OutgoingEarly | IncomingEarly(toTag: bool, answered: bool)

  /** `eXosip_call_terminate`. `alive` says whether the dialog still has its SIP dialog. */
  method Terminate(ctx: Context, jc: Call?, jd: Dialog?, alive: bool, confirmed: bool, invite: Early, built: bool)
    returns (r: Outcome)
    requires ctx.Valid() && (jc != null ==> jc in ctx.calls)
    requires jd != null ==> jc != null && jd in jc.dialogs
    modifies ctx`next, ctx`garbage, ctx`lost, jd
    ensures ctx.Valid() && ctx.lost == old(ctx.lost)
    ensures ctx.next == old(ctx.next) + (if r == Success || r == Cancelled then 1 else 0)
    ensures r == Success ==> jd != null && jd.outTrs == [old(ctx.next)] + old(jd.outTrs)
    ensures r == Cancelled ==> ctx.garbage == [old(ctx.next)] + old(ctx.garbage)
    ensures r != Cancelled ==> ctx.garbage == old(ctx.garbage)
    ensures r != Success && jd != null ==> unchanged(jd)
    ensures var bye := jd != null && alive;
      r == if jc == null then NotFound
           else if invite.OutgoingEarly? && !(bye && confirmed) then (if built then Cancelled else Failed)
           else if !bye then WrongState
           else if invite.IncomingEarly? && !invite.toTag then (if invite.answered then Declined else Failed)
           else if built then Success else Failed
  {
    hide Context.Owing;
    if jc == null { return NotFound; }
    if jd != null && alive && confirmed {
    } else if invite.OutgoingEarly? {
      if !built { return Failed; }
      var _ := CreateOutsideDialog(ctx);
      return Cancelled;
    }
    if jd == null || !alive { return WrongState; }
    if invite.IncomingEarly? {
      if !invite.toTag { return if invite.answered then Declined else Failed; }
    }
    if !built { return Failed; }
    CreateTransaction(ctx, jc, jd);
    assert ctx.lost == old(ctx.lost);
    return Success;
  }

  // --- Incoming requests ---

  /** The dialog of an incoming INVITE, and the INVITE itself, join the call. */
  method AttachInvite(ctx: Context, jc: Call, t: Tr)
    requires ctx.Owing(multiset{} + multiset{t}) && jc in ctx.calls && jc.incTr == None
    modifies jc
    ensures ctx.Valid() && jc.incTr == Some(t)
    ensures |jc.dialogs| == |old(jc.dialogs)| + 1 && fresh(jc.dialogs[0])
  {
    hide Context.Owing;
    label start:
    var jd := new Dialog(jc);
    ctx.StillOwing@start(multiset{} + multiset{t});
    ctx.Link(jc, jd, multiset{} + multiset{t});
    ctx.ReplaceIncoming(jc, Some(t), multiset{});
    assert multiset{} + Slot(None) == multiset{};
  }

  /**
   * `_eXosip_process_new_invite`: a call and a dialog for the INVITE. One with a To tag is
   * refused, and when the refusal could be built the transaction is stored nowhere.
   */
  method ProcessNewInvite(ctx: Context, toTag: bool, built: bool, completed: bool)
    requires ctx.Valid()
    modifies ctx
    ensures ctx.Valid() && ctx.next == old(ctx.next) + 1
    ensures ctx.lost == old(ctx.lost) + (if toTag && built then multiset{old(ctx.next)} else multiset{})
    ensures if toTag then ctx.calls == old(ctx.calls)
            else
              && |ctx.calls| == |old(ctx.calls)| + 1 && ctx.calls[1..] == old(ctx.calls)
              && ctx.calls[0].incTr == (if built && completed then Some(old(ctx.next)) else None)
              && |ctx.calls[0].dialogs| == (if built && completed then 1 else 0)
    ensures ctx.garbage == (if (toTag && built) || (!toTag && built && completed) then [] else [old(ctx.next)])
                           + old(ctx.garbage)
  {
    hide Context.Owing;
    var t := ctx.NewTransaction(multiset{});
    if toTag {
      if built {
        ctx.Lose(multiset{t}, multiset{});
      } else {
        ctx.Discard(t, multiset{});
      }
      return;
    }
    var jc := AddNewCall(ctx, multiset{} + multiset{t});
    if !built || !completed {
      ctx.Discard(t, multiset{});
      return;
    }
    AttachInvite(ctx, jc, t);
  }

  /** A request inside a dialog (BYE, re-INVITE, CANCEL and others): kept, or discarded. */
  method ProcessInDialog(ctx: Context, jc: Call, jd: Dialog, kept: bool)
    requires ctx.Valid() && jc in ctx.calls && jd in jc.dialogs
    modifies ctx`next, ctx`garbage, jd
    ensures ctx.Valid() && ctx.next == old(ctx.next) + 1
    ensures jd.incTrs == (if kept then [old(ctx.next)] else []) + old(jd.incTrs) && jd.outTrs == old(jd.outTrs)
    ensures ctx.garbage == (if kept then [] else [old(ctx.next)]) + old(ctx.garbage)
  {
    hide Context.Owing;
    var t := ctx.NewTransaction(multiset{});
    if kept {
      ctx.AddIncoming(jc, jd, t, multiset{});
    } else {
      ctx.Discard(t, multiset{});
    }
  }

  // --- Clean-up by the timer ---

  /** Where a transaction stands in a list, or the length of the list. */
  method Position(s: seq<Tr>, tr: Tr) returns (pos: nat)
    ensures pos <= |s| && (pos < |s| ==> s[pos] == tr) && (tr in s <==> pos < |s|)
  {
    pos := 0;
    while pos < |s| && s[pos] != tr
      invariant pos <= |s| && tr !in s[..pos]
    {
      pos := pos + 1;
    }
    if pos == |s| {
      assert s[..pos] == s;
    }
  }

  ghost predicate InDialogs(jc: Call, tr: Tr, outgoing: bool)
    reads jc, jc.dialogs
  {
    exists j :: 0 <= j < |jc.dialogs| && tr in jc.dialogs[j].List(outgoing)
  }

  /** The search of one list of every dialog. */
  method FindInDialogs(jc: Call, tr: Tr, outgoing: bool) returns (j: nat, pos: nat)
    ensures j <= |jc.dialogs| && (j < |jc.dialogs| <==> InDialogs(jc, tr, outgoing))
    ensures j < |jc.dialogs| ==>
              pos < |jc.dialogs[j].List(outgoing)| && jc.dialogs[j].List(outgoing)[pos] == tr
  {
    j, pos := 0, 0;
    while j < |jc.dialogs|
      invariant j <= |jc.dialogs|
      invariant forall l :: 0 <= l < j ==> tr !in jc.dialogs[l].List(outgoing)
    {
      pos := Position(jc.dialogs[j].List(outgoing), tr);
      if pos < |jc.dialogs[j].List(outgoing)| { return; }
      j := j + 1;
    }
  }

  /** `_eXosip_remove_transaction_from_call`: the four places are searched in turn. */
  method RemoveFromCall(ctx: Context, jc: Call, tr: Tr, ghost m: multiset<Tr>) returns (found: bool)
    requires ctx.Owing(m) && jc in ctx.calls
    modifies jc, jc.dialogs
    ensures found == (tr in old(jc.Held())) && jc.dialogs == old(jc.dialogs)
    ensures ctx.Owing(if found then m + multiset{tr} else m)
  {
    hide Context.Owing, Call.Held, Sum;
    HeldSomewhere(jc, tr);
    assert m + Slot(None) == m;
    label start:
    if jc.incTr == Some(tr) {
      ctx.ReplaceIncoming(jc, None, m);
      return true;
    }
    var j, pos := FindInDialogs(jc, tr, false);
    ctx.StillOwing@start(m);
    if j < |jc.dialogs| {
      var _ := ctx.RemoveAt(jc, jc.dialogs[j], false, pos, m);
      return true;
    }
    if jc.outTr == Some(tr) {
      ctx.ReplaceOutgoing(jc, None, m);
      return true;
    }
    j, pos := FindInDialogs(jc, tr, true);
    ctx.StillOwing@start(m);
    if j < |jc.dialogs| {
      var _ := ctx.RemoveAt(jc, jc.dialogs[j], true, pos, m);
      return true;
    }
    return false;
  }

  /** A broken transaction of a call is moved to the garbage list. */
  method ExpireTransaction(ctx: Context, jc: Call, tr: Tr)
    requires ctx.Valid() && jc in ctx.calls && tr in jc.Held()
    modifies ctx`garbage, jc, jc.dialogs
    ensures ctx.Valid() && ctx.garbage == [tr] + old(ctx.garbage)
  {
    hide Context.Owing, Call.Held;
    var _ := RemoveFromCall(ctx, jc, tr, multiset{});
    ctx.Discard(tr, multiset{});
  }

  /** `_eXosip_release_finished_transactions`: one finished transaction leaves its dialog. */
  method ReleaseFinished(ctx: Context, jc: Call, jd: Dialog, outgoing: bool, pos: nat)
    requires ctx.Valid() && jc in ctx.calls && jd in jc.dialogs && pos < |jd.List(outgoing)|
    modifies ctx`garbage, jd
    ensures ctx.Valid() && ctx.garbage == [old(jd.List(outgoing))[pos]] + old(ctx.garbage)
    ensures jd.List(outgoing) == Without(old(jd.List(outgoing)), pos)
    ensures jd.List(!outgoing) == old(jd.List(!outgoing))
  {
    hide Context.Owing;
    var tr := ctx.RemoveAt(jc, jd, outgoing, pos, multiset{});
    ctx.Discard(tr, multiset{});
  }

  /** `_eXosip_release_call`. */
  method ReleaseCall(ctx: Context, jc: Call)
    requires ctx.Valid() && jc in ctx.calls
    modifies ctx`calls, ctx`garbage, jc, jc.dialogs
    ensures ctx.Valid() && ctx.calls == Remove(old(ctx.calls), jc) && jc !in ctx.calls
    ensures forall c: Call :: c in ctx.calls ==> c in old(ctx.calls) && SameCall(c)
  {
    hide Context.Owing, Call.Held;
    ctx.RemoveCall(jc, multiset{});
    ctx.CallFree(jc, multiset{});
  }

  /** The transactions that are finished, or those that are not, in order. */
  function Select(s: seq<Tr>, finished: Tr -> bool, which: bool): seq<Tr> {
    if s == [] then []
    else (if finished(s[0]) == which then [s[0]] else []) + Select(s[1..], finished, which)
  }

  lemma SelectNext(s: seq<Tr>, pos: nat, finished: Tr -> bool)
    requires pos < |s|
    ensures finished(s[pos]) ==>
              && Select(s[pos..], finished, true) == [s[pos]] + Select(s[pos + 1..], finished, true)
              && Select(s[pos..], finished, false) == Select(s[pos + 1..], finished, false)
              && Without(s, pos)[..pos] == s[..pos] && Without(s, pos)[pos..] == s[pos + 1..]
    ensures !finished(s[pos]) ==>
              && Select(s[pos..], finished, true) == Select(s[pos + 1..], finished, true)
              && Select(s[pos..], finished, false) == [s[pos]] + Select(s[pos + 1..], finished, false)
              && s[..pos] + [s[pos]] == s[..pos + 1]
  {
    assert s[pos..][1..] == s[pos + 1..];
    assert [] + Select(s[pos + 1..], finished, true) == Select(s[pos + 1..], finished, true);
    assert [] + Select(s[pos + 1..], finished, false) == Select(s[pos + 1..], finished, false);
  }

  /** The last loop of `_eXosip_release_terminated_calls`: `finished` decides which go. */
  method PurgeGarbage(ctx: Context, finished: Tr -> bool)
    requires ctx.Valid()
    modifies ctx`garbage, ctx`freed
    ensures ctx.Valid()
    ensures ctx.garbage == Select(old(ctx.garbage), finished, false)
    ensures ctx.freed == old(ctx.freed) + multiset(Select(old(ctx.garbage), finished, true))
  {
    hide Context.Owing;
    hide Select;
    ghost var stay, go := Select(ctx.garbage, finished, false), Select(ctx.garbage, finished, true);
    var pos := 0;
    assert ctx.garbage[0..] == ctx.garbage && ctx.garbage[..0] + stay == stay;
    while pos < |ctx.garbage|
      invariant ctx.Valid() && 0 <= pos <= |ctx.garbage|
      invariant ctx.garbage[..pos] + Select(ctx.garbage[pos..], finished, false) == stay
      invariant ctx.freed + multiset(Select(ctx.garbage[pos..], finished, true)) == old(ctx.freed) + multiset(go)
      decreases |ctx.garbage| - pos
    {
      SelectNext(ctx.garbage, pos, finished);
      ghost var s, t := ctx.garbage, ctx.garbage[pos];
      if finished(ctx.garbage[pos]) {
        ctx.FreeAt(pos, multiset{});
        assert multiset([t] + Select(s[pos + 1..], finished, true)) ==
               multiset{t} + multiset(Select(s[pos + 1..], finished, true));
      } else {
        Assoc(s[..pos], [t], Select(s[pos + 1..], finished, false));
        pos := pos + 1;
      }
    }
    SelectNone(finished);
    assert ctx.garbage[pos..] == [] && ctx.garbage[..pos] + [] == ctx.garbage;
  }

  lemma SelectNone(finished: Tr -> bool)
    ensures Select([], finished, true) == Select([], finished, false) == []
  {
  }

  // --- Registrations and publications ---

  /**
   * `_eXosip_register_build_register`: a finished REGISTER is discarded even when the
   * rest of the building fails.
   */
  method BuildRegister(ctx: Context, jr: Keeper, finished: bool, built: bool) returns (r: Outcome)
    requires ctx.Valid() && jr in ctx.regs
    modifies ctx`garbage, jr
    ensures ctx.Valid()
    ensures old(jr.lastTr).Some? && !finished ==>
              r == WrongState && jr.lastTr == old(jr.lastTr) && ctx.garbage == old(ctx.garbage)
    ensures old(jr.lastTr).None? || finished ==>
              && r == (if built then Success else Failed) && jr.lastTr == None
              && ctx.garbage == (if old(jr.lastTr).Some? then [old(jr.lastTr).value] else []) + old(ctx.garbage)
  {
    hide Context.Owing;
    if jr.lastTr.Some? {
      if !finished { return WrongState; }
      var tr := jr.lastTr.value;
      assert multiset{} + Slot(None) == multiset{};
      ctx.ReplaceReg(jr, None, multiset{});
      ctx.Discard(tr, multiset{});
    }
    return if built then Success else Failed;
  }

  /**
   * `eXosip_register_send_register`, with a REGISTER of the caller's or one built here.
   * With the caller's, a REGISTER still kept by the registration is overwritten and lost.
   */
  method SendRegister(ctx: Context, jr: Keeper, given: bool, finished: bool, built: bool) returns (r: Outcome)
    requires ctx.Valid() && jr in ctx.regs
    modifies ctx`garbage, ctx`next, ctx`lost, jr
    ensures ctx.Valid()
    ensures r == Success <==> (old(jr.lastTr).None? || finished) && (given || built)
    ensures r == Success ==> jr.lastTr == Some(old(ctx.next)) && ctx.next == old(ctx.next) + 1
    ensures r != Success ==> ctx.next == old(ctx.next)
    ensures ctx.lost == old(ctx.lost) + (if r == Success && given then Slot(old(jr.lastTr)) else multiset{})
  {
    hide Context.Owing;
    if jr.lastTr.Some? && !finished { return WrongState; }
    if !given {
      r := BuildRegister(ctx, jr, finished, built);
      if r != Success { return; }
    }
    var t := ctx.NewTransaction(multiset{});
    ghost var was := Slot(jr.lastTr);
    ctx.ReplaceReg(jr, Some(t), multiset{});
    ctx.Lose(was, multiset{});
    return Success;
  }

  /**
   * The guard that keeps every REGISTER: each one given by the caller goes to a
   * registration that holds none, that is, it was built since the last one was sent.
   */
  method SendBuiltRegister(ctx: Context, jr: Keeper) returns (r: Outcome)
    requires ctx.Valid() && jr in ctx.regs && jr.lastTr == None
    modifies ctx`garbage, ctx`next, ctx`lost, jr
    ensures ctx.Valid() && r == Success && ctx.lost == old(ctx.lost)
  {
    hide Context.Owing;
    r := SendRegister(ctx, jr, true, true, true);
    assert ctx.lost == old(ctx.lost);
  }

  /** Two REGISTERs of the caller's in a row: the first one is lost. */
  method FirstRegisterIsLost() returns (ctx: Context)
    ensures fresh(ctx) && ctx.Valid() && ctx.lost == multiset{0} && 0 !in ctx.Held() && 0 !in ctx.freed
  {
    hide Context.Owing;
    var jr := new Keeper();
    ctx := new Context();
    ctx.AddReg(jr, multiset{});
    var first := SendRegister(ctx, jr, true, true, true);
    var second := SendRegister(ctx, jr, true, true, true);
    ctx.EachInOnePlace(0);
  }

  /** `eXosip_publish` and the refresh of a publication: the old transaction is discarded. */
  method Publish(ctx: Context, jpub: Keeper)
    requires ctx.Valid() && jpub in ctx.pubs
    modifies ctx`garbage, ctx`next, jpub
    ensures ctx.Valid() && ctx.next == old(ctx.next) + 1 && jpub.lastTr == Some(old(ctx.next))
    ensures ctx.garbage == (if old(jpub.lastTr).Some? then [old(jpub.lastTr).value] else []) + old(ctx.garbage)
  {
    hide Context.Owing;
    var t := ctx.NewTransaction(multiset{});
    var was := jpub.lastTr;
    ctx.ReplacePub(jpub, Some(t), multiset{});
    if was.Some? {
      ctx.Discard(was.value, multiset{});
    } else {
      assert multiset{} + Slot(None) == multiset{};
    }
  }

  // --- The end ---

  /** `eXosip_quit`: calls, registrations and publications are emptied, then the garbage list. */
  method Quit(ctx: Context)
    requires ctx.Valid()
    modifies ctx, ctx.calls, DialogsOf(ctx.calls)
    ensures ctx.Valid() && ctx.next == old(ctx.next) && ctx.lost == old(ctx.lost)
    ensures ctx.Held() == multiset{} && ctx.freed + ctx.lost == Created(ctx.next)
  {
    hide Context.Owing, Call.Held;
    ghost var footprint := DialogsOf(ctx.calls);
    forall c: Call, d: Dialog | c in ctx.calls && d in c.dialogs ensures d in footprint {
      assert ctx.calls[IndexOf(ctx.calls, c)].dialogs[IndexOf(c.dialogs, d)] == d;
    }
    while ctx.calls != []
      invariant ctx.Valid() && ctx.next == old(ctx.next) && ctx.lost == old(ctx.lost)
      invariant ctx.regs == old(ctx.regs) && ctx.pubs == old(ctx.pubs)
      invariant forall c: Call :: c in ctx.calls ==> c in old(ctx.calls)
      invariant forall c: Call, d: Dialog :: c in ctx.calls && d in c.dialogs ==> d in footprint
      decreases |ctx.calls|
    {
      var jc := ctx.calls[0];
      assert jc in old(ctx.calls) && footprint == old(DialogsOf(ctx.calls));
      assert forall d: Dialog :: d in jc.dialogs ==> d in footprint;
      assert forall o: object :: o in jc.dialogs ==> o in (set d: object | d in footprint);
      ReleaseCall(ctx, jc);
    }
    while ctx.regs != []
      invariant ctx.Valid() && ctx.next == old(ctx.next) && ctx.lost == old(ctx.lost) && ctx.calls == []
      decreases |ctx.regs|
    {
      ctx.FreeReg(ctx.regs[0], multiset{});
    }
    while ctx.pubs != []
      invariant ctx.Valid() && ctx.next == old(ctx.next) && ctx.lost == old(ctx.lost)
      invariant ctx.calls == [] && ctx.regs == []
      decreases |ctx.pubs|
    {
      ctx.FreePub(ctx.pubs[0], multiset{});
    }
    while ctx.garbage != []
      invariant ctx.Valid() && ctx.next == old(ctx.next) && ctx.lost == old(ctx.lost)
      invariant ctx.calls == [] && ctx.regs == ctx.pubs == []
      decreases |ctx.garbage|
    {
      ctx.FreeAt(0, multiset{});
    }
    ctx.NothingHeld();
  }

  /** After the end, a run that lost nothing has freed each transaction it created once. */
  lemma FreedOnce(ctx: Context, t: Tr)
    requires ctx.Valid() && ctx.Held() == multiset{} && ctx.lost == multiset{}
    ensures ctx.freed[t] == if t < ctx.next then 1 else 0
  {
    ctx.EachInOnePlace(t);
  }
}
