/** The chain of REGISTER requests of one registration. */
module Registrations {
  import opened Text
  import opened Numerals

  /** A REGISTER: the header values that matter here. Expires holds the number it reads as. */
  datatype Request = Register(callId: nat, cseq: nat, expires: Option<int>)

  /** A final or provisional answer, with the number read from its Min-Expires. */
  datatype Response = Response(status: int, minExpires: Option<int>)

  datatype State = PreTrying | Trying | Proceeding | Completed | Terminated {
    function Rank(): nat {
      match this
      case PreTrying => 0
      case Trying => 1
      case Proceeding => 2
      case Completed => 3
      case Terminated => 4
    }
  }

  datatype Result<T> = Ok(value: T) | WrongState | SyntaxError | Failed | TooManyRetries

  /** How a REGISTER came to be: from the previous one, from nothing, or by the caller. */
  datatype Origin = Rebuilt | Initial | Given

  class Transaction {
    const request: Request
    var birth: int
    var state: State
    var response: Option<Response>

    constructor (reg: Request, now: int)
      ensures request == reg && birth == now && state == PreTrying && response == None
    {
      request, birth, state, response := reg, now, PreTrying, None;
    }

    /** The tests on NICT_TERMINATED and NICT_COMPLETED. */
    predicate Finished()
      reads this
    {
      state == Completed || state == Terminated
    }
  }

  /** The lower bound on a requested period; zero unregisters. */
  function Clamped(expires: int): (p: int)
    ensures p == 0 || p >= 30
    ensures expires >= 30 ==> p == expires
  {
    if expires <= 0 then 0 else if expires < 30 then 30 else expires
  }

  /** The same for a registration that exists: only exactly zero unregisters. */
  function ClampedAgain(expires: int): (p: int)
    ensures p == 0 || p >= 30
    ensures p == 0 <==> expires == 0
    ensures expires >= 30 ==> p == expires
  {
    if expires == 0 then 0 else if expires < 30 then 30 else expires
  }

  /** C division by ten. */
  function Tenth(p: int): int {
    if p >= 0 then p / 10 else 0 - (0 - p) / 10
  }

  predicate Challenged(r: Option<Response>) {
    r.Some? && (r.value.status == 401 || r.value.status == 407 || r.value.status == 423)
  }

  /** The interval asked for was too short. */
  predicate Refused(r: Option<Response>) {
    r.Some? && r.value.status == 423
  }

  predicate Success(r: Option<Response>) {
    r.Some? && 200 <= r.value.status < 300
  }

  /** One of the three tests that refresh a registration. */
  predicate RefreshDue(age: int, period: int, response: Option<Response>) {
    && period != 0
    && (|| age > 900
        || age > period - Tenth(period) || age > period - 6
        || (age > 120 && !Success(response)))
  }

  /** The test that answers a challenge. */
  predicate ChallengeDue(age: int, period: int, response: Option<Response>, retry: nat) {
    !RefreshDue(age, period, response) && age < 120 && Challenged(response) && retry < 3
  }

  /** A 423 can be obeyed when both headers are there. */
  predicate Obeyable(last: Request, response: Option<Response>) {
    Refused(response) ==> last.expires.Some? && response.value.minExpires.Some?
  }

  class Registration {
    var lastTr: Transaction?
    var period: int
    var expire: int
    var retry: nat
    ghost var sent: seq<Transaction>     // every REGISTER of this registration, in order
    ghost var origins: seq<Origin>
    ghost var draft: Option<Request>     // rebuilt from the last one and not sent yet

    /** Every REGISTER but the one being kept is finished, and the chain is unbroken. */
    ghost predicate Valid()
      reads this, sent
    {
      && |origins| == |sent|
      && (forall i, j :: 0 <= i < j < |sent| ==> sent[i] != sent[j])
      && (lastTr != null ==> sent != [] && sent[|sent| - 1] == lastTr)
      && (forall i :: 0 <= i < |sent| && (lastTr == null || i < |sent| - 1) ==> sent[i].Finished())
      && (forall i :: 0 <= i < |sent| && origins[i] == Rebuilt ==>
            i > 0 && Follows(sent[i - 1].request, sent[i].request))
      && (draft.Some? ==> sent != [] && lastTr == null && Follows(sent[|sent| - 1].request, draft.value))
      && retry <= 3
    }

    constructor ()
      ensures Valid() && lastTr == null && sent == [] && period == 3600 && expire == 0 && retry == 0
    {
      lastTr, period, expire, retry := null, 3600, 0, 0;
      sent, origins, draft := [], [], None;
    }

    /** At most one REGISTER of the registration is unfinished. */
    lemma OneUnfinished(i: nat, j: nat)
      requires Valid() && i < |sent| && j < |sent|
      requires !sent[i].Finished() && !sent[j].Finished()
      ensures i == j
    {
    }

    /** Along rebuilt REGISTERs the CSeq counts up by one, under one Call-ID. */
    lemma {:induction false} ChainCounts(i: nat, j: nat)
      requires Valid() && i <= j < |sent|
      requires forall k :: i < k <= j ==> origins[k] == Rebuilt
      ensures sent[j].request.cseq == sent[i].request.cseq + (j - i)
      ensures sent[j].request.callId == sent[i].request.callId
      decreases j
    {
      if i == j {
      } else {
        ChainCounts(i, j - 1);
        assert origins[j] == Rebuilt;
      }
    }

    // --- The environment ---

    /** The transaction layer moves one transaction forward and may store an answer. */
    method Progress(t: Transaction, to: State, response: Option<Response>)
      requires Valid() && t in sent && t.state.Rank() <= to.Rank()
      modifies t
      ensures Valid() && t.state == to && t.response == response
    {
      t.state := to;
      t.response := response;
    }

    /** `cb_rcv2xx` for a REGISTER: the period follows the server when it changes enough. */
    method Answered(expires: Option<int>, contactMax: nat)
      requires Valid()
      modifies this`period, this`retry
      ensures Valid() && retry == 0
      ensures period != old(period) ==>
                || (period > 0 && period < old(period) - 15)
                || (period == contactMax && period > 0)
      ensures var named := if expires.Some? && 0 < expires.value < old(period) - 15 then expires.value else old(period);
        period == if contactMax != 0 && (contactMax < named - 15 || contactMax > named) then contactMax else named
    {
      if expires.Some? && expires.value > 0 && expires.value < period - 15 {
        period := expires.value;
      }
      if contactMax != 0 {
        if contactMax < period - 15 {
          period := contactMax;
        } else if contactMax > period {
          period := contactMax;
        }
      }
      retry := 0;
    }

    /**
     * `_eXosip_mark_all_registrations_expired` on this registration, when a connection is
     * lost: the kept REGISTER is made a period older, which is old enough for a refresh.
     */
    method MarkExpired()
      requires Valid()
      modifies lastTr
      ensures Valid()
      ensures lastTr != null ==>
                && lastTr.birth == old(lastTr.birth) - period
                && lastTr.state == old(lastTr.state) && lastTr.response == old(lastTr.response)
                && (period != 0 ==> forall age :: age >= period ==> RefreshDue(age, period, lastTr.response))
    {
      if lastTr != null {
        lastTr.birth := lastTr.birth - period;
      }
    }

    // --- Building and sending ---

    /**
     * `_eXosip_register_build_register`. `via` says whether the Via could be updated,
     * `network` whether a first REGISTER could be generated, under the Call-ID `fresh`.
     */
    method Build(via: bool, network: bool, newId: nat) returns (r: Result<Request>)
      requires Valid()
      modifies this
      ensures Valid() && sent == old(sent) && origins == old(origins) && retry == old(retry)
      ensures old(lastTr) != null && old(lastTr.state) in {PreTrying, Trying, Proceeding} ==>
                r == WrongState && lastTr == old(lastTr) && draft == old(draft) && period == old(period)
      ensures old(lastTr) != null && old(lastTr.state) in {Completed, Terminated} ==> r != WrongState
      ensures old(lastTr) != null && old(lastTr.Finished()) ==> lastTr == null
      ensures old(lastTr) == null ==>
                && lastTr == null && period == old(period) && expire == old(expire) && draft == old(draft)
                && r == (if network then Ok(Register(newId, 1, Some(expire))) else Failed)
      ensures old(lastTr) != null && old(lastTr.Finished()) ==>
                var last, answer := old(lastTr.request), old(lastTr.response);
                && (r.Ok? <==> via && Obeyable(last, answer))
                && (r.Ok? ==> Follows(last, r.value) && draft == Some(r.value))
                && (r.Ok? ==> r.value.expires == NewExpires(last, answer, old(expire)))
                && (r.Ok? && !Refused(answer) ==>
                      r.value.expires == if last.expires.Some? then Some(old(expire)) else None)
                && (r.Ok? && Refused(answer) ==>
                      period == expire == answer.value.minExpires.value)
                && (!(r.Ok? && Refused(answer)) ==>
                      period == old(period) && expire == old(expire))
    {
      if lastTr == null {
        return if network then Ok(Register(newId, 1, Some(expire))) else Failed;
      }
      if !lastTr.Finished() { return WrongState; }
      var reg := lastTr.request;
      var answer := lastTr.response;
      lastTr := null;
      draft := None;
      if !via { return Failed; }
      reg := reg.(cseq := reg.cseq + 1);
      if Refused(answer) {
        if reg.expires.Some? && answer.value.minExpires.Some? {
          reg := reg.(expires := answer.value.minExpires);
          period := answer.value.minExpires.value;
          expire := period;
        } else {
          return SyntaxError;
        }
      } else if reg.expires.Some? {
        reg := reg.(expires := Some(expire));
      }
      draft := Some(reg);
      return Ok(reg);
    }

    /** `eXosip_register_build_initial_register` and `eXosip_register_build_register`. */
    method BuildFor(expires: int, initial: bool, via: bool, network: bool, newId: nat) returns (r: Result<Request>)
      requires Valid() && (initial ==> lastTr == null)
      modifies this
      ensures Valid() && sent == old(sent) && origins == old(origins)
      ensures old(lastTr) != null && !old(lastTr.Finished()) ==> r == WrongState && lastTr == old(lastTr)
      ensures r.Ok? && old(lastTr) == null ==> r.value == Register(newId, 1, Some(period))
      ensures r.Ok? && old(lastTr) != null ==> Follows(old(lastTr.request), r.value)
      ensures r.Ok? && r.value.expires.Some? ==> r.value.expires == Some(period) && expire == period
      ensures old(lastTr) == null || !Refused(old(lastTr.response)) ==>
                period == (if initial then Clamped(expires) else ClampedAgain(expires))
    {
      period := if initial then Clamped(expires) else ClampedAgain(expires);
      expire := period;
      r := Build(via, network, newId);
    }

    /** The registration keeps the REGISTER it now sends. */
    method Keep(t: Transaction, ghost origin: Origin)
      requires Valid() && t !in sent && !t.Finished() && (lastTr == null || lastTr.Finished())
      requires origin == Rebuilt ==> sent != [] && Follows(sent[|sent| - 1].request, t.request)
      modifies this
      ensures Valid() && lastTr == t && draft == None && retry == old(retry)
      ensures sent == old(sent) + [t] && origins == old(origins) + [origin]
    {
      lastTr := t;
      sent := sent + [t];
      origins := origins + [origin];
      draft := None;
    }

    /** `eXosip_register_send_register`; without a REGISTER of the caller's one is built. */
    method Send(given: Option<Request>, via: bool, network: bool, newId: nat, now: int)
      returns (r: Result<Transaction>)
      requires Valid()
      modifies this
      ensures Valid() && retry == old(retry)
      ensures !r.Ok? ==> sent == old(sent) && origins == old(origins)
      ensures old(lastTr) != null && old(lastTr.state) in {PreTrying, Trying, Proceeding} ==> r == WrongState
      ensures old(lastTr) == null || old(lastTr.state) in {Completed, Terminated} ==> r != WrongState
      ensures r.Ok? ==>
                && lastTr == r.value && fresh(lastTr) && lastTr.birth == now && !lastTr.Finished()
                && sent == old(sent) + [lastTr] && |origins| == |old(origins)| + 1
                && origins[..|old(origins)|] == old(origins)
      ensures old(lastTr) != null && !old(lastTr.Finished()) ==> r == WrongState && lastTr == old(lastTr)
      ensures given.Some? && (old(lastTr) == null || old(lastTr.Finished())) ==>
                r.Ok? && lastTr.request == given.value
      ensures given.Some? && given == old(draft) ==> origins == old(origins) + [Rebuilt]
      ensures given.None? && old(lastTr) != null && old(lastTr.Finished()) ==>
                && (r.Ok? <==> via && Obeyable(old(lastTr.request), old(lastTr.response)))
                && (r.Ok? ==> origins == old(origins) + [Rebuilt] && Follows(old(lastTr.request), lastTr.request))
                && (!r.Ok? ==> lastTr == null)
      ensures given.None? && old(lastTr) == null ==> (r.Ok? <==> network) && (!r.Ok? ==> lastTr == null)
    {
      if lastTr != null && !lastTr.Finished() { return WrongState; }
      var reg;
      ghost var origin;
      if given.None? {
        origin := if lastTr == null then Initial else Rebuilt;
        var b := Build(via, network, newId);
        match b {
          case Ok(value) => reg := value;
          case SyntaxError => return SyntaxError;
          case _ => return Failed;
        }
      } else {
        reg := given.value;
        origin := if given == draft then Rebuilt else Given;
      }
      var t := new Transaction(reg, now);
      Keep(t, origin);
      return Ok(t);
    }

    // --- The timer ---

    /**
     * The REGISTER part of `eXosip_automatic_action`: a refresh or the answer to a
     * challenge, never beside an unfinished REGISTER, and always the next in the chain.
     */
    method AutomaticAction(via: bool, network: bool, newId: nat, now: int)
      requires Valid()
      modifies this
      ensures Valid()
      ensures old(lastTr) == null || !old(lastTr.Finished()) ==> sent == old(sent) && lastTr == old(lastTr)
      ensures sent != old(sent) ==>
                && lastTr != null && sent == old(sent) + [lastTr] && origins == old(origins) + [Rebuilt]
                && Follows(old(lastTr.request), lastTr.request)
      ensures old(lastTr) != null && old(lastTr.Finished()) ==>
                var age, answer := now - old(lastTr.birth), old(lastTr.response);
                var due := RefreshDue(age, old(period), answer) || ChallengeDue(age, old(period), answer, old(retry));
                && (sent != old(sent) <==> due && via && Obeyable(old(lastTr.request), answer))
                && (lastTr == null <==> due && !(via && Obeyable(old(lastTr.request), answer)))
      ensures old(lastTr) != null ==>
                var age, answer := now - old(lastTr.birth), old(lastTr.response);
                retry == old(retry) + (if ChallengeDue(age, old(period), answer, old(retry)) then 1 else 0)
    {
      if lastTr != null {
        var age := now - lastTr.birth;
        if period != 0 && age > 900 {
          var _ := Send(None, via, network, newId, now);
        } else if period != 0 && (age > period - Tenth(period) || age > period - 6) {
          var _ := Send(None, via, network, newId, now);
        } else if period != 0 && age > 120 && !Success(lastTr.response) {
          var _ := Send(None, via, network, newId, now);
        } else if age < 120 && Challenged(lastTr.response) {
          if retry < 3 {
            var _ := Send(None, via, network, newId, now);
            retry := retry + 1;
          }
        }
      }
    }

    /**
     * A lost connection is followed by a refresh: if the kept REGISTER is finished and can
     * be rebuilt, the next turn of the timer sends its successor.
     */
    method RefreshAfterLoss(now: int, newId: nat)
      requires Valid() && lastTr != null && lastTr.Finished() && period != 0 && now >= lastTr.birth
      requires Obeyable(lastTr.request, lastTr.response)
      modifies this, lastTr
      ensures Valid() && lastTr != null && sent == old(sent) + [lastTr] && origins == old(origins) + [Rebuilt]
      ensures Follows(old(lastTr.request), lastTr.request)
    {
      MarkExpired();
      AutomaticAction(true, true, newId, now);
    }

    /** The default answer to a challenge event: three tries until the next success. */
    method RetryRegister(via: bool, network: bool, newId: nat, now: int) returns (r: Result<Transaction>)
      requires Valid()
      modifies this
      ensures Valid() && (old(retry) >= 3 ==> r == TooManyRetries && sent == old(sent))
      ensures old(retry) < 3 ==> retry == old(retry) + 1
      ensures old(lastTr) != null && !old(lastTr.Finished()) ==> sent == old(sent)
    {
      if retry < 3 {
        retry := retry + 1;
        r := Send(None, via, network, newId, now);
        return;
      }
      return TooManyRetries;
    }

    /**
     * A refused 423 ends the registration's own refreshes: the REGISTER is given up
     * before the headers are looked at, and the timer then finds nothing to refresh.
     */
    method UnobeyableIntervalStopsRefreshing(now: int, later: int, newId: nat)
      requires Valid() && lastTr != null && lastTr.Finished()
      requires !Obeyable(lastTr.request, lastTr.response)
      requires var age := now - lastTr.birth;
        RefreshDue(age, period, lastTr.response) || ChallengeDue(age, period, lastTr.response, retry)
      modifies this
      ensures Valid() && lastTr == null && sent == old(sent)
    {
      AutomaticAction(true, true, newId, now);
      AutomaticAction(true, true, newId, later);
    }
  }

  /**
   * When a refresh is due, in numbers: after 900 seconds, when nine tenths of the period and one
   * second more are over, when less than six seconds of it are left, or after two minutes without a 2xx.
   */
  lemma RefreshInNumbers(age: int, period: int, response: Option<Response>)
    ensures period > 0 ==>
              (RefreshDue(age, period, response) <==>
                 || age > 900 || 10 * age >= 9 * period + 10 || age > period - 6
                 || (age > 120 && (response.None? || response.value.status < 200 || response.value.status > 299)))
    ensures period < 0 ==>
              (RefreshDue(age, period, response) <==>
                 || age > 900 || age > period - 6
                 || (age > 120 && (response.None? || response.value.status < 200 || response.value.status > 299)))
    ensures !RefreshDue(age, 0, response)
  {
  }

  /** A challenge is a 401, a 407 or a 423; it is answered within two minutes, three times at most. */
  lemma ChallengeInNumbers(age: int, period: int, response: Option<Response>, retry: nat)
    ensures ChallengeDue(age, period, response, retry) <==>
            && !RefreshDue(age, period, response) && age < 120 && retry < 3
            && response.Some? && response.value.status in {401, 407, 423}
    ensures Refused(response) <==> response.Some? && response.value.status == 423
  {
  }

  /** A 423 can be obeyed if and only if it has a Min-Expires and the REGISTER an Expires. */
  lemma ObeyableMeans(last: Request, response: Option<Response>)
    ensures Obeyable(last, response) <==>
            (response.Some? && response.value.status == 423 ==> last.expires.Some? && response.value.minExpires.Some?)
  {
  }

  /** A requested period between 1 and 29 seconds becomes 30; none, or a negative first one, is none. */
  lemma PeriodInNumbers(expires: int)
    ensures Clamped(expires) == if expires <= 0 then 0 else if expires <= 29 then 30 else expires
    ensures ClampedAgain(expires) == if expires == 0 then 0 else if expires <= 29 then 30 else expires
  {
  }

  /** Same Call-ID, next CSeq. */
  predicate Follows(before: Request, after: Request) {
    after.callId == before.callId && after.cseq == before.cseq + 1
  }

  /** The Expires of the next REGISTER: the server's minimum, or the period asked for. */
  function NewExpires(last: Request, answer: Option<Response>, expire: int): Option<int> {
    if Refused(answer) then answer.value.minExpires
    else if last.expires.Some? then Some(expire)
    else None
  }

  /** The new number fits the buffer made for it: the old length, one digit and the terminator. */
  lemma {:induction false} NextNumberFits(n: nat)
    ensures |Print(n + 1, Decimal)| + 1 <= |Print(n, Decimal)| + 2
  {
    if n < 10 {
    } else {
      NextNumberFits(n / 10);
      if n % 10 == 9 {
        assert (n + 1) / 10 == n / 10 + 1;
      } else {
        assert (n + 1) / 10 == n / 10;
      }
    }
  }
}
