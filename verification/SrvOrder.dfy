/** SRV records: the in-place priority sort (RFC 2782) and the failover rotation. */
module SrvOrder {

  datatype SrvEntry = SrvEntry(srv: string, priority: int, weight: int, port: int)

  // ----- What sorting must achieve -----

  ghost predicate Sorted(s: seq<SrvEntry>) {
    forall i, j :: 0 <= i < j < |s| ==> s[i].priority <= s[j].priority
  }

  /** It is enough, and needed, that no neighbours stand the wrong way round. */
  lemma {:induction false} SortedNeighbours(s: seq<SrvEntry>)
    ensures Sorted(s) <==> forall i :: 0 <= i && i + 1 < |s| ==> s[i].priority <= s[i + 1].priority
  {
    if forall i :: 0 <= i && i + 1 < |s| ==> s[i].priority <= s[i + 1].priority {
      forall i, j | 0 <= i < j < |s| ensures s[i].priority <= s[j].priority {
        NeighboursAdd(s, i, j);
      }
    }
  }

  lemma {:induction false} NeighboursAdd(s: seq<SrvEntry>, i: nat, j: nat)
    requires i <= j < |s| && forall k :: 0 <= k && k + 1 < |s| ==> s[k].priority <= s[k + 1].priority
    ensures s[i].priority <= s[j].priority
  {
    if i == j {
    } else {
      NeighboursAdd(s, i, j - 1);
      assert s[j - 1].priority <= s[j - 1 + 1].priority;
    }
  }

  /** The entries of one priority, in order. */
  function OfPriority(s: seq<SrvEntry>, p: int): seq<SrvEntry> {
    if s == [] then [] else (if s[0].priority == p then [s[0]] else []) + OfPriority(s[1..], p)
  }

  /** Same entries, and those of equal priority in the same order. */
  ghost predicate StablyReordered(s: seq<SrvEntry>, t: seq<SrvEntry>) {
    forall p :: OfPriority(s, p) == OfPriority(t, p)
  }

  lemma {:induction false} OfPriorityConcat(s: seq<SrvEntry>, t: seq<SrvEntry>, p: int)
    ensures OfPriority(s + t, p) == OfPriority(s, p) + OfPriority(t, p)
  {
    if s == [] {
      assert s + t == t;
    } else {
      OfPriorityConcat(s[1..], t, p);
      assert (s + t)[1..] == s[1..] + t;
      var head := if s[0].priority == p then [s[0]] else [];
      assert OfPriority(s + t, p) == head + OfPriority(s[1..] + t, p);
      assert head + (OfPriority(s[1..], p) + OfPriority(t, p)) == head + OfPriority(s[1..], p) + OfPriority(t, p);
    }
  }

  lemma {:induction false} CountOfPriority(s: seq<SrvEntry>, e: SrvEntry)
    ensures multiset(s)[e] == multiset(OfPriority(s, e.priority))[e]
  {
    if s == [] {
    } else {
      CountOfPriority(s[1..], e);
      assert s == [s[0]] + s[1..];
    }
  }

  /** So a stable reordering is in particular a permutation. */
  lemma StableIsPermutation(s: seq<SrvEntry>, t: seq<SrvEntry>)
    requires StablyReordered(s, t)
    ensures multiset(s) == multiset(t)
  {
    forall e: SrvEntry ensures multiset(s)[e] == multiset(t)[e] {
      CountOfPriority(s, e);
      CountOfPriority(t, e);
      assert OfPriority(s, e.priority) == OfPriority(t, e.priority);
    }
  }

  // ----- Inversions -----

  function Below(s: seq<SrvEntry>, p: int): nat {
    if s == [] then 0 else (if s[0].priority < p then 1 else 0) + Below(s[1..], p)
  }

  function Inversions(s: seq<SrvEntry>): nat {
    if s == [] then 0 else Below(s[1..], s[0].priority) + Inversions(s[1..])
  }

  function Swapped(s: seq<SrvEntry>, i: nat): seq<SrvEntry>
    requires i + 1 < |s|
  {
    s[..i] + [s[i + 1], s[i]] + s[i + 2..]
  }

  lemma {:induction false} SwapKeepsBelow(s: seq<SrvEntry>, i: nat, p: int)
    requires i + 1 < |s|
    ensures Below(Swapped(s, i), p) == Below(s, p)
    decreases i
  {
    var t := Swapped(s, i);
    if i == 0 {
      assert s[1..][1..] == s[2..] && t[1..][1..] == s[2..];
    } else {
      SwapKeepsBelow(s[1..], i - 1, p);
      assert t[1..] == Swapped(s[1..], i - 1);
    }
  }

  /** Exchanging two neighbours in the wrong order undoes exactly one inversion. */
  lemma {:induction false} SwapUndoesInversion(s: seq<SrvEntry>, i: nat)
    requires i + 1 < |s| && s[i].priority > s[i + 1].priority
    ensures Inversions(Swapped(s, i)) == Inversions(s) - 1
    decreases i
  {
    var t := Swapped(s, i);
    if i == 0 {
      assert s[1..][1..] == s[2..] && t[1..][1..] == s[2..];
    } else {
      SwapUndoesInversion(s[1..], i - 1);
      SwapKeepsBelow(s[1..], i - 1, s[0].priority);
      assert t[1..] == Swapped(s[1..], i - 1);
    }
  }

  lemma SwapIsStable(s: seq<SrvEntry>, i: nat)
    requires i + 1 < |s| && s[i].priority != s[i + 1].priority
    ensures StablyReordered(s, Swapped(s, i))
  {
    forall p ensures OfPriority(s, p) == OfPriority(Swapped(s, i), p) {
      var x, y := s[i], s[i + 1];
      assert s == s[..i] + [x, y] + s[i + 2..];
      OfPriorityConcat(s[..i] + [x, y], s[i + 2..], p);
      OfPriorityConcat(s[..i] + [y, x], s[i + 2..], p);
      OfPriorityConcat(s[..i], [x, y], p);
      OfPriorityConcat(s[..i], [y, x], p);
      assert [x, y][1..] == [y] && [y, x][1..] == [x];
    }
  }

  // ----- The sort -----

  method Swap(rec: array<SrvEntry>, i: nat, n: nat)
    requires i + 1 < n <= rec.Length && rec[i].priority > rec[i + 1].priority
    modifies rec
    ensures rec[..n] == Swapped(old(rec[..n]), i)
    ensures rec[n..] == old(rec[n..])
    ensures Inversions(rec[..n]) == Inversions(old(rec[..n])) - 1
    ensures StablyReordered(old(rec[..n]), rec[..n])
  {
    SwapUndoesInversion(rec[..n], i);
    SwapIsStable(rec[..n], i);
    var swap := rec[i];
    rec[i] := rec[i + 1];
    rec[i + 1] := swap;
    assert rec[..n] == Swapped(old(rec[..n]), i);
  }

  /** One pass over neighbours; `permuts` counts the exchanges. */
  method Pass(rec: array<SrvEntry>, n: nat) returns (permuts: nat)
    requires n <= rec.Length
    modifies rec
    ensures rec[n..] == old(rec[n..])
    ensures StablyReordered(old(rec[..n]), rec[..n])
    ensures Inversions(rec[..n]) == Inversions(old(rec[..n])) - permuts
    ensures permuts == 0 ==> Sorted(rec[..n])
  {
    hide Inversions;
    hide OfPriority;
    permuts := 0;
    var i := 0;
    while i < n - 1
      invariant 0 <= i && (n > 0 ==> i <= n - 1)
      invariant rec[n..] == old(rec[n..])
      invariant StablyReordered(old(rec[..n]), rec[..n])
      invariant Inversions(rec[..n]) == Inversions(old(rec[..n])) - permuts
      invariant permuts == 0 ==> forall j, k :: 0 <= j < k <= i < n ==> rec[j].priority <= rec[k].priority
    {
      if rec[i].priority > rec[i + 1].priority {
        Swap(rec, i, n);
        permuts := permuts + 1;
      }
      i := i + 1;
    }
  }

  method RecordSort(rec: array<SrvEntry>, n: nat)
    requires n <= rec.Length
    modifies rec
    ensures Sorted(rec[..n]) && StablyReordered(old(rec[..n]), rec[..n])
    ensures rec[n..] == old(rec[n..])
  {
    var permuts := Pass(rec, n);
    while permuts != 0
      invariant rec[n..] == old(rec[n..])
      invariant StablyReordered(old(rec[..n]), rec[..n])
      invariant permuts == 0 ==> Sorted(rec[..n])
      decreases Inversions(rec[..n]) + permuts
    {
      permuts := Pass(rec, n);
    }
  }

  // ----- Failover rotation -----

  const SLOTS := 10

  /** Entry used after the one at `i` when `m` are in use. */
  function Next(i: nat, m: nat): nat {
    if i + 1 == m then 0 else i + 1
  }

  function After(i: nat, m: nat, k: nat): nat {
    if k == 0 then i else Next(After(i, m, k - 1), m)
  }

  class SrvRecord {
    var srventry: array<SrvEntry>
    var index: nat

    /** `m` entries, fewer than there are slots, then an empty slot. */
    ghost predicate Holds(m: nat)
      reads this, srventry
    {
      && m < 10 == srventry.Length
      && (forall i :: 0 <= i < m ==> srventry[i].srv != [])
      && srventry[m].srv == []
      && (m > 0 ==> index < m)
    }

    constructor (entries: array<SrvEntry>)
      requires entries.Length == 10
      ensures srventry == entries && index == 0
    {
      srventry, index := entries, 0;
    }

    method Rotate(ghost m: nat) returns (others: int)
      requires Holds(m)
      modifies this`index
      ensures Holds(m)
      ensures m == 0 ==> others == -1 && index == old(index)
      ensures m > 0 ==> others == m - 1 && index == Next(old(index), m)
    {
      if srventry[0].srv == [] { return -1; }
      index := index + 1;
      if srventry[index].srv == [] {
        index := 0;
      }
      var n := 1;
      while n < SLOTS && srventry[n].srv != []
        invariant 1 <= n <= m
      {
        n := n + 1;
      }
      others := n - 1;
    }

    /** As many failovers as there are entries: the indices tried, each one once. */
    method RotateThroughAll(m: nat) returns (visited: seq<nat>)
      requires Holds(m) && m > 0
      modifies this`index
      ensures Holds(m) && index == old(index)
      ensures |visited| == m && forall j :: 0 <= j < m ==> j in visited
      ensures forall a, b :: 0 <= a < b < m ==> visited[a] != visited[b]
    {
      visited := [];
      ghost var start := index;
      for k := 0 to m
        invariant Holds(m) && index == After(start, m, k) && |visited| == k
        invariant forall a :: 0 <= a < k ==> visited[a] == After(start, m, a + 1)
      {
        var others := Rotate(m);
        visited := visited + [index];
      }
      forall j | 0 <= j < m ensures j in visited {
        var a := if j > start then j - start - 1 else j + m - start - 1;
        AfterIs(start, m, a + 1);
        assert visited[a] == j;
      }
      forall a, b | 0 <= a < b < m ensures visited[a] != visited[b] {
        AfterIs(start, m, a + 1);
        AfterIs(start, m, b + 1);
      }
      AfterIs(start, m, m);
    }
  }

  lemma {:induction false} AfterIs(i: nat, m: nat, k: nat)
    requires i < m && k <= m
    ensures After(i, m, k) == if i + k < m then i + k else i + k - m
    decreases k
  {
    if k == 0 {
    } else {
      AfterIs(i, m, k - 1);
    }
  }

  /** Rotation is a cycle: each of the m entries comes up exactly once in m turns. */
  lemma EachEntryOnce(i: nat, m: nat, j: nat)
    requires i < m && j < m
    ensures exists k :: 1 <= k <= m && After(i, m, k) == j
    ensures forall k, k' :: 1 <= k <= m && 1 <= k' <= m && After(i, m, k) == j && After(i, m, k') == j ==> k == k'
  {
    var w := if j > i then j - i else j + m - i;
    AfterIs(i, m, w);
    forall k, k' | 1 <= k <= m && 1 <= k' <= m && After(i, m, k) == j && After(i, m, k') == j ensures k == k' {
      AfterIs(i, m, k);
      AfterIs(i, m, k');
    }
  }
}
