/** The bounded cache of NAPTR records, with the records as shared objects. */
module NaptrCache {
  import opened Text

  const CACHE_SIZE := 10
  const DOMAIN_SIZE := 512

  datatype State = Unknown | InProgress | NaptrDone | SrvInProgress | SrvDone | RetryLater | NotSupported

  /** What is asked of the resolver on behalf of a record. */
  datatype Query = NaptrQuery(domain: string, ok: bool, state: State) | SrvQueries

  class NaptrRecord {
    var domain: string
    var state: State
    var keepInCache: int
    ghost var asked: seq<Query>

    constructor (keep: int)
      ensures domain == [] && state == Unknown && keepInCache == keep && asked == []
    {
      domain, state, keepInCache := [], Unknown, keep;
      asked := [];
    }
  }

  /** The SRV queries of a record: any outcome. */
  method SrvLookup(r: NaptrRecord)
    modifies r`state, r`asked
    ensures r.asked == old(r.asked) + [SrvQueries]
  {
    r.state := *;
    r.asked := r.asked + [SrvQueries];
  }

  /** What the domain field holds after a query: 512 octets are cut, more are refused before the copy. */
  function Kept(domain: string): (kept: string)
    ensures |kept| < DOMAIN_SIZE
    ensures |domain| < 512 ==> kept == domain
    ensures |domain| == 512 ==> |kept| == 511 && kept < domain
    ensures |domain| > 512 ==> kept == []
  {
    if |domain| > DOMAIN_SIZE then [] else if |domain| == DOMAIN_SIZE then domain[..DOMAIN_SIZE - 1] else domain
  }

  /** The NAPTR query of a wiped record: any outcome, success or not, unless the domain is too long. */
  method NaptrLookup(r: NaptrRecord, domain: string) returns (i: int)
    requires r.domain == []
    modifies r`domain, r`state, r`asked
    ensures r.domain == Kept(domain)
    ensures |domain| > 512 ==> i < 0 && r.state == RetryLater && r.asked == old(r.asked)
    ensures |domain| <= 512 ==> r.asked == old(r.asked) + [NaptrQuery(domain, i >= 0, r.state)]
  {
    r.state := RetryLater;
    if |domain| > DOMAIN_SIZE { return -1; }
    r.domain := if |domain| == DOMAIN_SIZE then domain[..DOMAIN_SIZE - 1] else domain;
    r.state := *;
    i := *;
    r.asked := r.asked + [NaptrQuery(domain, i >= 0, r.state)];
  }

  /** Equal names are the empty one of a refused query, or of the length a domain is cut to. */
  ghost predicate OnlyCutAgree(names: seq<string>) {
    forall i, j :: 0 <= i < j < |names| && names[i] == names[j] ==> |names[i]| == 0 || |names[i]| == DOMAIN_SIZE - 1
  }

  ghost predicate Distinct(names: seq<string>) {
    forall i, j :: 0 <= i < j < |names| ==> names[i] != names[j]
  }

  lemma OneMoreName(names: seq<string>, name: string)
    ensures Distinct(names + [name]) <==> Distinct(names) && name !in names
    ensures OnlyCutAgree(names) && (name !in names || |name| == 0 || |name| == DOMAIN_SIZE - 1) ==>
              OnlyCutAgree(names + [name])
  {
    var more := names + [name];
    assert more[|names|] == name;
    assert forall i :: 0 <= i < |names| ==> more[i] == names[i];
    if name in names {
      var i :| 0 <= i < |names| && names[i] == name;
      assert more[i] == more[|names|];
    }
  }

  /** A domain that is not in the cache can only get a name that is if it is cut or refused. */
  lemma KeptName(names: seq<string>, domain: string)
    requires Lower(domain) !in names
    ensures var name := Lower(Kept(domain)); name !in names || |name| == 0 || |name| == DOMAIN_SIZE - 1
  {
  }

  lemma SameLength(a: string, b: string)
    requires Lower(a) == Lower(b) && |a| < DOMAIN_SIZE
    ensures |b| < DOMAIN_SIZE && Kept(b) == b
  {
    assert |Lower(a)| == |Lower(b)|;
  }

  ghost predicate NoRepeats(list: seq<NaptrRecord>) {
    forall i, j :: 0 <= i < j < |list| ==> list[i] != list[j]
  }

  lemma NoRepeatsSnoc(list: seq<NaptrRecord>, r: NaptrRecord)
    requires NoRepeats(list) && r !in list
    ensures NoRepeats(list + [r]) && forall q :: q in list + [r] <==> q in list || q == r
  {
  }

  /** The domains of records, without their case. */
  ghost function NamesOf(list: seq<NaptrRecord>): (names: seq<string>)
    reads list`domain
    ensures |names| == |list|
    ensures forall i :: 0 <= i < |list| ==> names[i] == Lower(list[i].domain)
  {
    if list == [] then [] else NamesOf(list[..|list| - 1]) + [Lower(list[|list| - 1].domain)]
  }

  lemma NamesSnoc(list: seq<NaptrRecord>, r: NaptrRecord)
    ensures NamesOf(list + [r]) == NamesOf(list) + [Lower(r.domain)]
  {
    assert (list + [r])[..|list|] == list;
  }

  /** At most ten cached records, `keepInCache` tells which they are, and they agree only in cut domains. */
  ghost predicate Sound(list: seq<NaptrRecord>, issued: set<NaptrRecord>)
    reads issued`keepInCache, list`domain
  {
    && |list| <= CACHE_SIZE && NoRepeats(list)
    && (forall r :: r in list ==> r in issued && |r.domain| < DOMAIN_SIZE)
    && (forall r :: r in issued ==> (r.keepInCache > 0 <==> r in list))
    && OnlyCutAgree(NamesOf(list))
  }

  lemma SoundCached(list: seq<NaptrRecord>, issued: set<NaptrRecord>, r: NaptrRecord)
    requires Sound(list, issued) && r !in issued && |r.domain| < DOMAIN_SIZE
    requires r.keepInCache > 0 && |list| < CACHE_SIZE
    requires Lower(r.domain) !in NamesOf(list) || |r.domain| == 0 || |r.domain| == DOMAIN_SIZE - 1
    ensures Sound(list + [r], issued + {r})
  {
    hide NamesOf;
    hide OnlyCutAgree;
    hide NoRepeats;
    hide Lower;
    NoRepeatsSnoc(list, r);
    NamesSnoc(list, r);
    assert OnlyCutAgree(NamesOf(list + [r])) by { OneMoreName(NamesOf(list), Lower(r.domain)); }
  }

  lemma SoundUncached(list: seq<NaptrRecord>, issued: set<NaptrRecord>, r: NaptrRecord)
    requires Sound(list, issued) && r !in issued && r.keepInCache <= 0
    ensures Sound(list, issued + {r})
  {
    hide NamesOf;
    hide OnlyCutAgree;
    hide NoRepeats;
  }

  /** Asked for once, unless the domain is too long; the SRV queries follow if the answer calls for them. */
  ghost predicate AskedFor(before: seq<Query>, r: NaptrRecord, domain: string)
    reads r`state, r`asked
  {
    if |domain| > 512 then r.asked == before && r.state == RetryLater
    else
      && |r.asked| > |before| && r.asked[..|before|] == before
      && var q, rest := r.asked[|before|], r.asked[|before| + 1..];
         && q.NaptrQuery? && q.domain == domain
         && if q.ok && q.state in {NaptrDone, SrvInProgress} then rest == [SrvQueries]
            else rest == [] && r.state == q.state
  }

  /** The NAPTR query and, when it succeeds, the SRV queries; both outcomes keep the record. */
  method Ask(r: NaptrRecord, domain: string)
    requires r.domain == []
    modifies r`domain, r`state, r`asked
    ensures r.domain == Kept(domain) && AskedFor(old(r.asked), r, domain)
  {
    var i := NaptrLookup(r, domain);
    if i < 0 { return; }
    if r.state == NaptrDone || r.state == SrvInProgress {
      SrvLookup(r);
    }
  }

  /** A new record, asked for; without room it is not to be kept. */
  method NewRecord(domain: string, keepInCache: nat, room: bool) returns (r: NaptrRecord)
    ensures fresh(r) && r.domain == Kept(domain) && r.keepInCache == (if room then keepInCache else 0)
    ensures AskedFor([], r, domain)
  {
    hide Kept;
    if !room && keepInCache > 0 {
      r := new NaptrRecord(0);    // no room: not cached
    } else {
      r := new NaptrRecord(keepInCache);
    }
    Ask(r, domain);
  }

  lemma AskedExtends(before: seq<Query>, r: NaptrRecord, domain: string)
    ensures AskedFor(before, r, domain) ==> before <= r.asked
  {
  }

  class Cache {
    var list: seq<NaptrRecord>
    ghost var issued: set<NaptrRecord>   // every record handed out and not released

    ghost function Names(): seq<string>
      reads this, list`domain
    {
      NamesOf(list)
    }

    ghost predicate Valid()
      reads this, issued`keepInCache, list`domain
    {
      Sound(list, issued)
    }

    /** No two cached records hold one domain. */
    ghost predicate Unique()
      reads this, list`domain
    {
      Distinct(Names())
    }

    ghost predicate Cached(domain: string)
      reads this, list`domain
    {
      Lower(domain) in Names()
    }

    constructor ()
      ensures Valid() && Unique() && list == [] && issued == {}
    {
      list, issued := [], {};
    }

    /** Position of the first record for a domain, or |list|. */
    ghost predicate FoundAt(domain: string, pos: nat)
      reads this, list`domain
    {
      && pos <= |list|
      && (pos < |list| ==> Lower(list[pos].domain) == Lower(domain))
      && (forall i :: 0 <= i < pos ==> Lower(list[i].domain) != Lower(domain))
    }

    /** The invariant in plain terms: ten records at most, each one once, no domain twice unless it was cut. */
    lemma CacheMeans(i: nat, j: nat)
      requires Valid() && i < j < |list|
      ensures |list| <= 10 && list[i] != list[j] && list[i].keepInCache > 0
      ensures SameLetters(list[i].domain, list[j].domain) ==> |list[i].domain| == 0 || |list[i].domain| == 511
    {
      LowerExactly(list[i].domain, list[j].domain);
      assert Names()[i] == Names()[j] <==> Lower(list[i].domain) == Lower(list[j].domain);
      hide Lower;
      hide SameLetters;
    }

    /** Domains are compared without regard to the case of letters. */
    lemma FoundByLetters(domain: string, pos: nat)
      ensures FoundAt(domain, pos) <==>
              && pos <= |list|
              && (pos < |list| ==> SameLetters(list[pos].domain, domain))
              && forall i :: 0 <= i < pos ==> !SameLetters(list[i].domain, domain)
    {
      hide Lower;
      hide SameLetters;
      forall i | 0 <= i < |list|
        ensures Lower(list[i].domain) == Lower(domain) <==> SameLetters(list[i].domain, domain)
      {
        LowerExactly(list[i].domain, domain);
      }
    }

    /** The scan of the list for a domain. */
    method Scan(domain: string) returns (pos: nat)
      requires Valid()
      ensures FoundAt(domain, pos) && (pos < |list| <==> Cached(domain))
    {
      hide Lower;
      hide NamesOf;
      pos := 0;
      while pos < |list|
        invariant pos <= |list|
        invariant forall i :: 0 <= i < pos ==> Lower(list[i].domain) != Lower(domain)
      {
        if Lower(list[pos].domain) == Lower(domain) {
          assert Names()[pos] == Lower(domain);
          break;
        }
        pos := pos + 1;
        if pos == CACHE_SIZE { break; }
      }
    }

    /** All cached records with pending SRV queries are processed. */
    method ProcessAll()
      requires Valid()
      modifies (set r | r in list)`state, (set r | r in list)`asked
      ensures Valid() && Names() == old(Names())
      ensures forall i :: 0 <= i < |list| ==> Processed(list[i])
    {
      hide Lower;
      hide NamesOf;
      hide OnlyCutAgree;
      var pos := 0;
      while pos < |list|
        invariant Valid() && pos <= |list| && Names() == old(Names())
        invariant forall i :: 0 <= i < pos ==> Processed(list[i])
        invariant forall i :: pos <= i < |list| ==>
                    list[i].state == old(list[i].state) && list[i].asked == old(list[i].asked)
      {
        var r := list[pos];
        if r.state == NaptrDone || r.state == SrvInProgress {
          SrvLookup(r);
        }
        pos := pos + 1;
        if pos == CACHE_SIZE { break; }
      }
    }

    /** The SRV queries of the record were made if they were pending; else it is as it was. */
    twostate predicate Processed(r: NaptrRecord)
      reads r`state, r`asked
    {
      if old(r.state) in {NaptrDone, SrvInProgress} then r.asked == old(r.asked) + [SrvQueries]
      else r.asked == old(r.asked) && r.state == old(r.state)
    }

    /** A cached record with an answer, or one that may still come, if the domain has one. */
    method Consult(domain: string) returns (r: NaptrRecord?)
      requires Valid()
      ensures exists pos :: 0 <= pos <= |list| && FoundAt(domain, pos) &&
                r == if pos < |list| && list[pos].state != RetryLater && list[pos].state != NotSupported
                     then list[pos] else null
      ensures r != null ==> r in issued && Lower(r.domain) == Lower(Kept(domain))
    {
      hide Lower;
      hide Kept;
      hide NamesOf;
      r := null;
      var pos := Scan(domain);
      if pos < |list| && list[pos].state != RetryLater && list[pos].state != NotSupported {
        r := list[pos];
        SameLength(r.domain, domain);
      }
    }

    /** The first cached record of a domain: asked again if it is to be retried, else left as it is. */
    method Reuse(pos: nat, domain: string) returns (r: NaptrRecord)
      requires Valid() && pos < |list| && FoundAt(domain, pos)
      modifies list[pos]
      ensures Valid() && r == list[pos] && Names() == old(Names()) && Lower(r.domain) == Lower(Kept(domain))
      ensures old(list[pos].state) == RetryLater ==>
        r.domain == domain && r.keepInCache == 1 && AskedFor(old(list[pos].asked), r, domain)
      ensures old(list[pos].state) != RetryLater ==>
        r.domain == old(list[pos].domain) && r.keepInCache == old(list[pos].keepInCache) && Processed(list[pos])
    {
      hide Lower;
      hide NamesOf;
      hide Kept;
      hide OnlyCutAgree;
      r := list[pos];
      SameLength(r.domain, domain);
      if r.state != RetryLater {
        if r.state == NaptrDone || r.state == SrvInProgress {
          SrvLookup(r);
        }
        return;
      }
      Refresh(pos, domain);
    }

    /**
     * The record at `pos` is the answer: asked for again if it was to be retried, and otherwise
     * only processed, once with all the others and once on its own if its queries are still pending.
     */
    twostate predicate Reused(pos: int, domain: string, r: NaptrRecord?)
      requires 0 <= pos < |old(list)|
      reads r
    {
      && r == old(list)[pos]
      && (old(list[pos].state) == RetryLater ==>
            r.domain == domain && r.keepInCache == 1 && AskedFor(old(list[pos].asked), r, domain))
      && (old(list[pos].state) in {NaptrDone, SrvInProgress} ==> old(list[pos].asked) + [SrvQueries] <= r.asked)
      && (old(list[pos].state) !in {RetryLater, NaptrDone, SrvInProgress} ==>
            && r.domain == old(list[pos].domain) && r.keepInCache == old(list[pos].keepInCache)
            && r.state == old(list[pos].state) && r.asked == old(list[pos].asked))
    }

    /** The cached record of a domain, or a new one. */
    method Resolve(domain: string, keepInCache: nat) returns (r: NaptrRecord)
      requires Valid()
      modifies this, list
      ensures Valid() && r in issued && Lower(r.domain) == Lower(Kept(domain))
      ensures Names() == if list == old(list) then old(Names()) else old(Names()) + [Lower(Kept(domain))]
      ensures list != old(list) ==> |domain| >= 512 || !old(Cached(Kept(domain)))
      ensures forall i :: 0 <= i < |old(list)| && old(list)[i] != r ==>
                old(list)[i].state == old(list[i].state) && old(list)[i].asked == old(list[i].asked)
      ensures old(Cached(domain)) ==>
        && list == old(list) && issued == old(issued)
        && exists pos :: 0 <= pos < |list| && old(FoundAt(domain, pos)) && Again(pos, domain, r)
      ensures !old(Cached(domain)) ==>
        && fresh(r) && issued == old(issued) + {r} && r.domain == Kept(domain) && AskedFor([], r, domain)
        && list == (if keepInCache == 0 || |old(list)| == 10 then old(list) else old(list) + [r])
    {
      hide Lower;
      hide NamesOf;
      hide Kept;
      hide OnlyCutAgree;
      hide AskedFor;
      var pos := Scan(domain);
      if pos < |list| {
        r := Reuse(pos, domain);
        AskedExtends(old(list[pos].asked), r, domain);
        assert Again(pos, domain, r);
      } else {
        r := Add(domain, keepInCache);
      }
    }

    /** What `Reuse` makes of the record at a position. */
    twostate predicate Again(pos: int, domain: string, r: NaptrRecord)
      requires 0 <= pos < |old(list)|
      reads r
    {
      && r == old(list)[pos] && old(list[pos].asked) <= r.asked
      && (old(list[pos].state) == RetryLater ==>
            r.domain == domain && r.keepInCache == 1 && AskedFor(old(list[pos].asked), r, domain))
      && (old(list[pos].state) != RetryLater ==>
            && r.domain == old(list[pos].domain) && r.keepInCache == old(list[pos].keepInCache)
            && Processed(old(list)[pos]))
    }

    /**
     * `eXosip_dnsutils_naptr`: the record for a domain. With a negative
     * `keepInCache` only the cache is consulted; with a positive one a new record is
     * cached while there is room. The domains stay distinct exactly if the new record's
     * field does not hold one that is there already, which takes a domain of 512 octets or more.
     */
    method Naptr(capabilities: int, domain: Option<string>, keepInCache: int) returns (r: NaptrRecord?)
      requires Valid()
      requires keepInCache < 0 ==> domain.Some?
      modifies this, list
      ensures Valid() && old(issued) <= issued && fresh(issued - old(issued))
      ensures capabilities <= 0 || domain.None? ==> r == null && list == old(list) && issued == old(issued)
      ensures capabilities > 0 && keepInCache < 0 ==>
        exists pos :: 0 <= pos <= |old(list)| && old(FoundAt(domain.value, pos)) &&
          r == if pos < |old(list)| && old(list[pos].state) != RetryLater && old(list[pos].state) != NotSupported
               then old(list)[pos] else null
      ensures keepInCache < 0 ==>
        && list == old(list) && issued == old(issued)
        && forall q :: q in list ==> q.state == old(q.state) && q.asked == old(q.asked)
      ensures capabilities > 0 && keepInCache >= 0 ==>
        forall i :: 0 <= i < |old(list)| && old(list)[i] != r ==> Processed(old(list)[i])
      ensures r != null ==> domain.Some? && r in issued && Lower(r.domain) == Lower(Kept(domain.value))
      ensures Names() == if list == old(list) then old(Names()) else old(Names()) + [Lower(Kept(domain.value))]
      ensures Unique() <==> old(Unique()) && (list == old(list) || !old(Cached(Kept(domain.value))))
      ensures domain.Some? && |domain.value| < 512 && list != old(list) ==> !old(Cached(Kept(domain.value)))
      ensures capabilities > 0 && keepInCache >= 0 && domain.Some? && old(Cached(domain.value)) ==>
        && list == old(list) && issued == old(issued)
        && exists pos :: 0 <= pos < |list| && old(FoundAt(domain.value, pos)) && Reused(pos, domain.value, r)
      ensures capabilities > 0 && keepInCache >= 0 && domain.Some? && !old(Cached(domain.value)) ==>
        && r != null && fresh(r) && issued == old(issued) + {r} && r.domain == Kept(domain.value)
        && AskedFor([], r, domain.value)
        && list == (if keepInCache == 0 || |old(list)| == 10 then old(list) else old(list) + [r])
        && (r in list <==> keepInCache > 0 && |old(list)| < 10)
    {
      hide Lower;
      hide NamesOf;
      hide Kept;
      hide OnlyCutAgree;
      hide Distinct;
      hide AskedFor;
      r := null;
      if capabilities <= 0 { return; }
      if keepInCache < 0 {
        r := Consult(domain.value);
        return;
      }
      ProcessAll();
      if domain.None? { return; }
      OneMoreName(Names(), Lower(Kept(domain.value)));
      r := Resolve(domain.value, keepInCache);
    }

    /** A record cached before, to be retried: wiped and asked for again in place. */
    method Refresh(pos: nat, domain: string)
      requires Valid() && pos < |list| && FoundAt(domain, pos)
      modifies list[pos]
      ensures Valid() && list[pos].domain == domain && list[pos].keepInCache == 1 && Names() == old(Names())
      ensures AskedFor(old(list[pos].asked), list[pos], domain)
    {
      hide Kept;
      hide Lower;
      hide NamesOf;
      hide OnlyCutAgree;
      SameLength(list[pos].domain, domain);
      var r := list[pos];
      r.domain, r.state, r.keepInCache := [], Unknown, 1;
      Ask(r, domain);
      assert Names() == old(Names());
    }

    /** A record for a domain that is not cached; cached from now on if there is room. */
    method Add(domain: string, keepInCache: nat) returns (r: NaptrRecord)
      requires Valid() && !Cached(domain)
      modifies this
      ensures Valid() && fresh(r) && issued == old(issued) + {r} && r.domain == Kept(domain)
      ensures list == if keepInCache == 0 || |old(list)| == CACHE_SIZE then old(list) else old(list) + [r]
      ensures Names() == if list == old(list) then old(Names()) else old(Names()) + [Lower(Kept(domain))]
      ensures AskedFor([], r, domain)
    {
      KeptName(Names(), domain);
      hide Kept;
      hide Lower;
      hide NamesOf;
      hide Valid;
      hide AskedFor;
      label start:
      r := NewRecord(domain, keepInCache, |list| != CACHE_SIZE);
      StillValid@start();
      Issue(r);
    }

    /** A record that is new to the cache leaves it as it was. */
    twostate lemma StillValid()
      requires old(Valid()) && unchanged(this) && unchanged(issued`keepInCache) && unchanged(list`domain)
      ensures Valid() && Names() == old(Names())
      ensures forall r :: r in issued ==> old(allocated(r))
    {
    }

    /** The record is handed out, and cached if it is to be kept. */
    method Issue(r: NaptrRecord)
      requires Valid() && r !in issued && |r.domain| < DOMAIN_SIZE
      requires r.keepInCache > 0 ==> |list| < CACHE_SIZE
      requires Lower(r.domain) !in Names() || |r.domain| == 0 || |r.domain| == DOMAIN_SIZE - 1
      modifies this
      ensures Valid() && issued == old(issued) + {r}
      ensures list == if r.keepInCache > 0 then old(list) + [r] else old(list)
      ensures Names() == if r.keepInCache > 0 then old(Names()) + [Lower(r.domain)] else old(Names())
    {
      hide Sound;
      hide NamesOf;
      hide Lower;
      if r.keepInCache > 0 {
        SoundCached(list, issued, r);
        NamesSnoc(list, r);
        list, issued := list + [r], issued + {r};
      } else {
        SoundUncached(list, issued, r);
        issued := issued + {r};
      }
    }

    /** Frees a record unless it is cached. */
    method Release(r: NaptrRecord?)
      requires Valid() && (r != null ==> r in issued)
      modifies this`issued
      ensures Valid() && list == old(list)
      ensures issued == if r == null || r in list then old(issued) else old(issued) - {r}
    {
      if r == null { return; }
      if r.keepInCache > 0 { return; }
      issued := issued - {r};
    }

    /** The same domain of 512 octets or more, asked for twice, is cached twice, under what its field keeps. */
    method OverlongIsCachedTwice(capabilities: int, domain: string)
      requires Valid() && capabilities > 0 && |domain| >= 512 && |list| + 2 <= 10
      modifies this, list
      ensures Valid() && !Unique() && |domain| > |Kept(domain)|
      ensures var name := Lower(Kept(domain)); Names() == old(Names()) + [name, name]
    {
      hide Valid;
      hide NamesOf;
      hide Names;
      ghost var names, name := Names(), Lower(Kept(domain));
      OverlongIsNotCached(domain);
      var _ := Naptr(capabilities, Some(domain), 1);
      assert Names() == names + [name];
      OverlongIsNotCached(domain);
      var _ := Naptr(capabilities, Some(domain), 1);
      assert names + [name] + [name] == names + [name, name];
      assert Names()[|names|] == Names()[|names| + 1];
    }

    lemma OverlongIsNotCached(domain: string)
      requires Valid() && |domain| >= DOMAIN_SIZE
      ensures !Cached(domain)
    {
      forall i | 0 <= i < |list| ensures Names()[i] != Lower(domain) {
        assert |Names()[i]| < DOMAIN_SIZE;
      }
    }
  }
}
