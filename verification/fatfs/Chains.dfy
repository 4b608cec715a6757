/** Cluster chains over a table given as a sequence of entry values; entry `c` is `fat[c]`, and a
    value of `|fat|` or more ends a chain. */
module Chains {
  predicate InTable(fat: seq<nat>, c: int) { 2 <= c < |fat| }

  ghost predicate IsChain(fat: seq<nat>, ch: seq<nat>)
  {
    && |ch| > 0
    && (forall i :: 0 <= i < |ch| ==> InTable(fat, ch[i]))
    && (forall i, j :: 0 <= i < j < |ch| ==> ch[i] != ch[j])
    && (forall i :: 0 <= i < |ch| - 1 ==> fat[ch[i]] == ch[i + 1])
    && fat[ch[|ch| - 1]] >= |fat|
  }

  predicate On(ch: seq<nat>, c: int) { c in ch }

  ghost predicate Disjoint(a: seq<nat>, b: seq<nat>)
  {
    forall c :: On(a, c) ==> !On(b, c)
  }

  /** The volume is a set of disjoint acyclic chains, and every cluster in use lies on one of them. */
  ghost predicate Volume(fat: seq<nat>, chains: set<seq<nat>>)
  {
    && (forall ch :: ch in chains ==> IsChain(fat, ch))
    && (forall a, b :: a in chains && b in chains && a != b ==> Disjoint(a, b))
    && (forall c :: InTable(fat, c) && fat[c] != 0 ==> exists ch :: ch in chains && On(ch, c))
  }

  function FreeSet(fat: seq<nat>): set<nat>
  {
    set c: nat | c < |fat| && InTable(fat, c) && fat[c] == 0
  }

  /** The number of zero entries. */
  function FreeCount(fat: seq<nat>): nat { |FreeSet(fat)| }

  function UsedSet(fat: seq<nat>): set<nat>
  {
    set c: nat | c < |fat| && InTable(fat, c) && fat[c] != 0
  }

  lemma FreeOne(fat: seq<nat>, c: nat)
    requires InTable(fat, c) && fat[c] != 0
    ensures FreeCount(fat[c := 0]) == FreeCount(fat) + 1
    ensures |UsedSet(fat[c := 0])| == |UsedSet(fat)| - 1
  {
    assert FreeSet(fat[c := 0]) == FreeSet(fat) + {c};
    assert UsedSet(fat[c := 0]) == UsedSet(fat) - {c};
  }

  lemma UseOne(fat: seq<nat>, c: nat, v: nat)
    requires InTable(fat, c) && fat[c] == 0 && v != 0
    ensures FreeCount(fat) > 0 && FreeCount(fat[c := v]) == FreeCount(fat) - 1
  {
    assert c in FreeSet(fat);
    assert FreeSet(fat[c := v]) == FreeSet(fat) - {c};
  }

  lemma ChangeUsed(fat: seq<nat>, c: nat, v: nat)
    requires InTable(fat, c) && fat[c] != 0 && v != 0
    ensures FreeCount(fat[c := v]) == FreeCount(fat)
  {
    assert FreeSet(fat[c := v]) == FreeSet(fat);
  }

  lemma FreeBound(fat: seq<nat>)
    ensures FreeCount(fat) <= |fat|
  {
    BoundedSet(FreeSet(fat), |fat|);
  }

  lemma {:induction false} BoundedSet(s: set<nat>, n: nat)
    requires forall x :: x in s ==> x < n
    ensures |s| <= n
  {
    if n > 0 {
      BoundedSet(s - {n - 1}, n - 1);
      assert s <= (s - {n - 1}) + {n - 1};
      if n - 1 in s { assert |s - {n - 1}| == |s| - 1; } else { assert s - {n - 1} == s; }
    } else {
      assert forall x :: x !in s;
      assert s == {};
    }
  }

  // ---- freeing ----

  datatype Removal = Removal(fat: seq<nat>, freed: nat, ok: bool)

  /** What freeing from `c` on does to any table, cyclic ones included: every round zeroes an entry
      that was not zero, so it ends; coming back to a freed cluster reads 0 and stops. */
  function Remove(fat: seq<nat>, c: nat): (r: Removal)
    requires c >= 2
    decreases |UsedSet(fat)|
  {
    if c >= |fat| || fat[c] == 0 then Removal(fat, 0, true)
    else if fat[c] == 1 then Removal(fat, 0, false)
    else
      FreeOne(fat, c);
      var r := Remove(fat[c := 0], fat[c]);
      r.(freed := r.freed + 1)
  }

  /** On every table: entries only turn to zero, and the free count rises by the number freed. */
  lemma {:induction false} RemoveConserves(fat: seq<nat>, c: nat)
    requires c >= 2
    ensures var r := Remove(fat, c);
      && |r.fat| == |fat|
      && (forall i :: 0 <= i < |fat| ==> r.fat[i] == fat[i] || (r.fat[i] == 0 && InTable(fat, i) && fat[i] > 1))
      && FreeCount(r.fat) == FreeCount(fat) + r.freed
    decreases |UsedSet(fat)|
  {
    hide UsedSet, FreeCount;
    RemoveStep(fat, c);
    if c < |fat| && fat[c] >= 2 {
      FreeOne(fat, c);
      RemoveConserves(fat[c := 0], fat[c]);
    }
  }

  /** One round of the freeing loop. */
  lemma RemoveStep(fat: seq<nat>, c: nat)
    requires c >= 2
    ensures c >= |fat| || fat[c] == 0 ==> Remove(fat, c) == Removal(fat, 0, true)
    ensures c < |fat| && fat[c] == 1 ==> Remove(fat, c) == Removal(fat, 0, false)
    ensures c < |fat| && fat[c] >= 2 ==>
      && Remove(fat, c) == Remove(fat[c := 0], fat[c]).(freed := Remove(fat[c := 0], fat[c]).freed + 1)
      && |UsedSet(fat[c := 0])| < |UsedSet(fat)|
  {
    hide UsedSet, FreeCount;
    if c < |fat| && fat[c] >= 2 { FreeOne(fat, c); }
  }

  /** On a well-formed chain exactly its clusters are freed. */
  lemma {:induction false} RemoveFreesChain(fat: seq<nat>, ch: seq<nat>)
    requires IsChain(fat, ch)
    ensures |ch| > 0 && ch[0] >= 2
    ensures Remove(fat, ch[0]).ok && Remove(fat, ch[0]).freed == |ch| && |Remove(fat, ch[0]).fat| == |fat|
    ensures forall i :: 0 <= i < |fat| ==> Remove(fat, ch[0]).fat[i] == if On(ch, i) then 0 else fat[i]
    decreases |ch|
  {
    hide IsChain, FreeCount, UsedSet, On;
    HeadOfChain(fat, ch);
    if |ch| > 1 {
      TailIsChain(fat, ch);
      RemoveFreesChain(fat[ch[0] := 0], ch[1..]);
    }
  }

  /** Clusters that link one to the next, with no cluster twice and a last one that is in use. */
  ghost predicate IsRun(fat: seq<nat>, ch: seq<nat>)
  {
    && |ch| > 0
    && (forall i :: 0 <= i < |ch| ==> 2 <= ch[i] < |fat|)
    && (forall i, j :: 0 <= i < j < |ch| ==> ch[i] != ch[j])
    && (forall i :: 0 <= i < |ch| - 1 ==> fat[ch[i]] == ch[i + 1])
    && fat[ch[|ch| - 1]] >= 2
  }

  /** Freeing on any table: a run of clusters is freed up to where it leaves the table, meets itself, or meets an entry
      of value 0 or 1; only the last of these is an error, and every cluster up to there is freed nevertheless. */
  lemma {:induction false} RemoveExactly(fat: seq<nat>, ch: seq<nat>)
    requires IsRun(fat, ch)
    requires var x := fat[ch[|ch| - 1]]; x >= |fat| || On(ch, x) || fat[x] <= 1
    ensures var r, x := Remove(fat, ch[0]), fat[ch[|ch| - 1]];
      && (r.ok <==> x >= |fat| || fat[x] != 1) && r.freed == |ch| && |r.fat| == |fat|
      && forall i :: 0 <= i < |fat| ==> r.fat[i] == if On(ch, i) then 0 else fat[i]
    decreases |ch|
  {
    hide FreeCount, UsedSet, Remove;
    var x := fat[ch[0]];
    RemoveStep(fat, ch[0]);
    if |ch| > 1 {
      RemoveExactly(fat[ch[0] := 0], ch[1..]);
    } else {
      RemoveStep(fat[ch[0] := 0], x);
    }
  }

  lemma HeadOfChain(fat: seq<nat>, ch: seq<nat>)
    requires IsChain(fat, ch)
    ensures |ch| > 0 && InTable(fat, ch[0]) && fat[ch[0]] >= 2
    ensures |ch| == 1 ==> fat[ch[0]] >= |fat|
    ensures forall i :: On(ch, i) <==> i == ch[0] || (|ch| > 1 && On(ch[1..], i))
  {
    if |ch| > 1 { assert InTable(fat, ch[1]); }
    assert ch == [ch[0]] + ch[1..];
  }

  /** The rest of a chain is a chain, also with the head's entry cleared. */
  lemma TailIsChain(fat: seq<nat>, ch: seq<nat>)
    requires IsChain(fat, ch) && |ch| > 1
    ensures InTable(fat, ch[0]) && fat[ch[0]] == ch[1] && ch[1] >= 2
    ensures IsChain(fat[ch[0] := 0], ch[1..])
  {
    var rest := ch[1..];
    assert InTable(fat, ch[1]);
    assert forall i :: 0 <= i < |rest| ==> rest[i] == ch[i + 1] && rest[i] != ch[0];
  }

  /** Clusters on a chain are in use, and their entries never hold 1. */
  lemma ChainUsed(fat: seq<nat>, ch: seq<nat>)
    requires IsChain(fat, ch)
    ensures forall c :: On(ch, c) ==> InTable(fat, c) && fat[c] >= 2
  {
    forall i | 0 <= i < |ch|
      ensures InTable(fat, ch[i]) && fat[ch[i]] >= 2
    {
      assert InTable(fat, ch[0]);
      if i < |ch| - 1 { assert InTable(fat, ch[i + 1]); }
    }
  }

  /** No entry holds the value 1, and every cluster of every chain is in use. */
  lemma VolumeUsed(fat: seq<nat>, chains: set<seq<nat>>)
    requires Volume(fat, chains)
    ensures forall c :: InTable(fat, c) ==> fat[c] != 1
    ensures forall ch, c :: ch in chains && On(ch, c) ==> InTable(fat, c) && fat[c] >= 2
    ensures [] !in chains
  {
    forall ch | ch in chains
      ensures |ch| > 0 && forall c :: On(ch, c) ==> InTable(fat, c) && fat[c] >= 2
    {
      ChainUsed(fat, ch);
    }
    hide IsChain, On;
    forall c | InTable(fat, c) && fat[c] != 0
      ensures fat[c] >= 2
    {
      var ch :| ch in chains && On(ch, c);
    }
  }

  /** A chain is a property of the entries of its own clusters. */
  lemma ChainFrame(fat: seq<nat>, fat': seq<nat>, ch: seq<nat>)
    requires IsChain(fat, ch) && |fat'| == |fat|
    requires forall c :: On(ch, c) ==> c < |fat| && fat'[c] == fat[c]
    ensures IsChain(fat', ch)
  {
    assert forall i :: 0 <= i < |ch| ==> On(ch, ch[i]);
  }

  /** Swapping one chain for at most one other keeps the volume, if all other chains keep their entries. */
  lemma SwapChain(fat: seq<nat>, fat': seq<nat>, chains: set<seq<nat>>, ch: seq<nat>, added: set<seq<nat>>)
    requires Volume(fat, chains) && |fat'| == |fat|
    requires forall a, c :: a in chains && a != ch && On(a, c) ==> c < |fat| && fat'[c] == fat[c]
    requires forall n :: n in added ==> IsChain(fat', n)
    requires forall n, m :: n in added && m in added ==> n == m
    requires forall n, a :: n in added && a in chains && a != ch ==> Disjoint(a, n) && Disjoint(n, a)
    requires forall c :: InTable(fat, c) && fat'[c] != 0 && (forall n :: n in added ==> !On(n, c))
                         ==> fat[c] != 0 && !On(ch, c)
    ensures Volume(fat', chains - {ch} + added)
  {
    hide IsChain, On, Disjoint;
    forall a | a in chains && a != ch
      ensures IsChain(fat', a)
    {
      ChainFrame(fat, fat', a);
    }
    forall c | InTable(fat', c) && fat'[c] != 0
      ensures exists a :: a in chains - {ch} + added && On(a, c)
    {
      if n :| n in added && On(n, c) {
      } else {
        assert InTable(fat, c);
        var a :| a in chains && On(a, c);
        assert a in chains - {ch} + added;
      }
    }
  }

  lemma RemoveKeepsVolume(fat: seq<nat>, chains: set<seq<nat>>, ch: seq<nat>)
    requires Volume(fat, chains) && ch in chains
    ensures |ch| > 0 && ch[0] >= 2
    ensures Volume(Remove(fat, ch[0]).fat, chains - {ch})
  {
    VolumeUsed(fat, chains);
    RemoveFreesChain(fat, ch);
    ClearedChain(fat, Remove(fat, ch[0]).fat, chains, ch);
  }

  lemma ClearedChain(fat: seq<nat>, fat': seq<nat>, chains: set<seq<nat>>, ch: seq<nat>)
    requires Volume(fat, chains) && ch in chains && |fat'| == |fat|
    requires forall i :: 0 <= i < |fat| ==> fat'[i] == if On(ch, i) then 0 else fat[i]
    ensures Volume(fat', chains - {ch})
  {
    VolumeUsed(fat, chains);
    hide IsChain, On;
    forall a, c | a in chains && a != ch && On(a, c)
      ensures c < |fat| && fat'[c] == fat[c]
    {
      assert Disjoint(a, ch);
    }
    hide Volume, Disjoint;
    SwapChain(fat, fat', chains, ch, {});
    assert chains - {ch} + {} == chains - {ch};
  }

  // ---- allocating ----

  /** Position of `c` in the search order that starts behind `start` and wraps round to 2. */
  function Rank(n: nat, start: nat, c: nat): nat
    requires 1 <= start < n && 2 <= c < n
  {
    if c > start then c - start - 1 else n - 1 - start + (c - 2)
  }

  /** Entries the search stops at: free ones, and the value 1 that counts as an error. */
  predicate Stop(fat: seq<nat>, c: nat) { InTable(fat, c) && fat[c] <= 1 }

  /** `c` is where a cyclic search from `start` stops first. */
  ghost predicate FirstStop(fat: seq<nat>, start: nat, c: nat)
    requires 1 <= start < |fat|
  {
    && Stop(fat, c)
    && forall d :: Stop(fat, d) ==> Rank(|fat|, start, c) <= Rank(|fat|, start, d)
  }

  ghost predicate NoStop(fat: seq<nat>)
  {
    forall d :: InTable(fat, d) ==> fat[d] > 1
  }

  /** The search has come to `c`, before or after wrapping round, and everything up to there is in use. */
  ghost predicate Searched(fat: seq<nat>, start: nat, c: nat, wrapped: bool)
  {
    forall d :: InTable(fat, d) && (if d > start then wrapped || d <= c else wrapped && d <= c) ==> fat[d] > 1
  }

  lemma SearchedStart(fat: seq<nat>, start: nat)
    ensures Searched(fat, start, start, false)
  {
  }

  lemma SearchedOn(fat: seq<nat>, start: nat, c: nat, wrapped: bool)
    requires Searched(fat, start, c, wrapped) && InTable(fat, c + 1) && 1 <= start < |fat|
    requires if wrapped then c < start else start <= c
    ensures fat[c + 1] <= 1 ==> FirstStop(fat, start, c + 1)
    ensures fat[c + 1] > 1 ==> Searched(fat, start, c + 1, wrapped)
    ensures fat[c + 1] > 1 && wrapped && c + 1 == start ==> NoStop(fat)
  {
  }

  lemma SearchedWrap(fat: seq<nat>, start: nat, c: nat)
    requires Searched(fat, start, c, false) && c + 1 >= |fat| && 1 <= start < |fat|
    ensures start == 1 ==> NoStop(fat)
    ensures Searched(fat, start, 1, true)
  {
  }

  /** Where the search starts: behind the cluster to stretch, or behind the clamped hint. */
  function SearchStart(n: nat, clst: nat, hint: nat): (s: nat)
    requires n >= 2 && (clst == 0 || 2 <= clst < n)
    ensures 1 <= s < n
  {
    if clst != 0 then clst else if hint == 0 || hint >= n then 1 else hint
  }

  /** The table after cluster `n` was marked and, if there is an old tail, linked behind it. */
  function Linked(fat: seq<nat>, tail: nat, n: nat, mark: nat): (r: seq<nat>)
    requires n < |fat| && tail < |fat|
    ensures |r| == |fat|
  {
    if tail == 0 then fat[n := mark] else fat[n := mark][tail := n]
  }

  /** What stretching `clst` (or starting a chain, when it is 0) may return and leave in the table. */
  ghost predicate Stretched(fat: seq<nat>, clst: nat, hint: nat, mark: nat, fat': seq<nat>, r: nat)
    requires |fat| >= 2
  {
    if clst != 0 && (!InTable(fat, clst) || fat[clst] < 2) then
      r == 1 && fat' == fat
    else if clst != 0 && fat[clst] < |fat| then
      r == fat[clst] && fat' == fat
    else
      var start := SearchStart(|fat|, clst, hint);
      || (r == 0 && NoStop(fat) && fat' == fat)
      || (r == 1 && fat' == fat && exists c: nat :: FirstStop(fat, start, c) && fat[c] == 1)
      || (r >= 2 && FirstStop(fat, start, r) && fat[r] == 0 && fat' == Linked(fat, clst, r, mark))
  }

  /** The stretch took a new cluster, rather than following a link or failing. */
  predicate Grows(fat: seq<nat>, clst: nat, r: nat)
  {
    r >= 2 && (clst == 0 || (InTable(fat, clst) && fat[clst] >= |fat|))
  }

  /** Unless it reports an entry of value 1, the allocator is a complete cyclic first fit: it fails exactly when
      nothing is free, and otherwise takes the free cluster nearest behind the start. */
  lemma FirstFit(fat: seq<nat>, clst: nat, hint: nat, mark: nat, fat': seq<nat>, r: nat)
    requires |fat| >= 2 && Stretched(fat, clst, hint, mark, fat', r)
    requires clst == 0 || (InTable(fat, clst) && fat[clst] >= |fat|)
    requires r != 1
    ensures r == 0 <==> FreeCount(fat) == 0
    ensures r != 0 ==> InTable(fat, r) && fat[r] == 0 && fat' == Linked(fat, clst, r, mark)
    ensures r != 0 ==> forall d :: InTable(fat, d) && fat[d] == 0 ==>
      var start := SearchStart(|fat|, clst, hint);
      Rank(|fat|, start, r) <= Rank(|fat|, start, d)
  {
    assert forall c: nat :: InTable(fat, c) && fat[c] == 0 <==> c in FreeSet(fat);
    if FreeCount(fat) == 0 {
      assert FreeSet(fat) == {};
    } else {
      var c :| c in FreeSet(fat);
      assert InTable(fat, c);
    }
  }

  /** No entry strictly between `lo` and `hi` is free. */
  ghost predicate NoneFree(fat: seq<nat>, lo: int, hi: int)
  {
    forall d :: InTable(fat, d) && lo < d < hi ==> fat[d] != 0
  }

  /** Cluster `r` is the first free one of the search behind `s`, which goes up to the end of the table and on from
      cluster 2; a start that is no cluster means the search goes through the table from the beginning. */
  ghost predicate TakenNext(fat: seq<nat>, s: nat, r: nat)
  {
    if !InTable(fat, s) then NoneFree(fat, 1, r)
    else if r > s then NoneFree(fat, s, r)
    else NoneFree(fat, s, |fat|) && NoneFree(fat, 1, r)
  }

  /** A new cluster is taken next behind the chain's tail, or behind the hint when a chain begins. */
  lemma TakesNext(fat: seq<nat>, clst: nat, hint: nat, mark: nat, fat': seq<nat>, r: nat)
    requires |fat| >= 2 && Stretched(fat, clst, hint, mark, fat', r) && Grows(fat, clst, r)
    ensures TakenNext(fat, if clst != 0 then clst else hint, r)
  {
    var start := SearchStart(|fat|, clst, hint);
    forall d | InTable(fat, d) && fat[d] == 0
      ensures Rank(|fat|, start, r) <= Rank(|fat|, start, d)
    {
      assert Stop(fat, d);
    }
  }

  lemma LinkedCount(fat: seq<nat>, tail: nat, n: nat, mark: nat)
    requires InTable(fat, n) && fat[n] == 0 && mark != 0
    requires tail == 0 || (InTable(fat, tail) && fat[tail] != 0)
    ensures FreeCount(fat) > 0 && FreeCount(Linked(fat, tail, n, mark)) == FreeCount(fat) - 1
  {
    UseOne(fat, n, mark);
    if tail != 0 { ChangeUsed(fat[n := mark], tail, n); }
  }

  /** A new chain of one cluster. */
  lemma NewChain(fat: seq<nat>, chains: set<seq<nat>>, n: nat, mark: nat)
    requires Volume(fat, chains) && InTable(fat, n) && fat[n] == 0 && mark >= |fat|
    ensures Volume(Linked(fat, 0, n, mark), chains + {[n]})
    ensures forall ch :: ch in chains ==> !On(ch, n)
  {
    VolumeUsed(fat, chains);
    var fat' := Linked(fat, 0, n, mark);
    assert IsChain(fat', [n]);
    assert forall c :: On([n], c) <==> c == n;
    assert forall c :: !On([], c);
    hide IsChain, On;
    SwapChain(fat, fat', chains, [], {[n]});
    assert chains - {[]} + {[n]} == chains + {[n]};
  }

  lemma StretchedIsChain(fat: seq<nat>, ch: seq<nat>, n: nat, mark: nat)
    requires IsChain(fat, ch) && InTable(fat, n) && !On(ch, n) && mark >= |fat|
    ensures |ch| > 0 && InTable(fat, ch[|ch| - 1]) && On(ch, ch[|ch| - 1])
    ensures IsChain(Linked(fat, ch[|ch| - 1], n, mark), ch + [n])
  {
    var ch' := ch + [n];
    var fat' := Linked(fat, ch[|ch| - 1], n, mark);
    assert forall i :: 0 <= i < |ch| ==> ch'[i] == ch[i] && ch[i] in ch;
    assert forall i :: 0 <= i < |ch| - 1 ==> fat'[ch[i]] == fat[ch[i]];
  }

  /** One more cluster behind the tail of a chain. */
  lemma StretchChain(fat: seq<nat>, chains: set<seq<nat>>, ch: seq<nat>, n: nat, mark: nat)
    requires Volume(fat, chains) && ch in chains && InTable(fat, n) && fat[n] == 0 && mark >= |fat|
    ensures |ch| > 0 && InTable(fat, ch[|ch| - 1])
    ensures Volume(Linked(fat, ch[|ch| - 1], n, mark), chains - {ch} + {ch + [n]})
    ensures forall a :: a in chains ==> !On(a, n)
  {
    VolumeUsed(fat, chains);
    StretchedIsChain(fat, ch, n, mark);
    var fat' := Linked(fat, ch[|ch| - 1], n, mark);
    assert forall c :: On(ch + [n], c) <==> On(ch, c) || c == n;
    hide IsChain, On;
    assert forall a :: a in chains && a != ch ==> Disjoint(a, ch) && Disjoint(ch, a);
    SwapChain(fat, fat', chains, ch, {ch + [n]});
  }

  /** What a chain's cluster links to. */
  lemma LinkOfChain(fat: seq<nat>, chains: set<seq<nat>>, ch: seq<nat>, i: nat)
    requires Volume(fat, chains) && ch in chains && i < |ch|
    ensures IsChain(fat, ch) && InTable(fat, ch[i]) && fat[ch[i]] >= 2
    ensures i + 1 < |ch| ==> fat[ch[i]] == ch[i + 1] && InTable(fat, ch[i + 1])
    ensures i + 1 == |ch| ==> fat[ch[i]] >= |fat|
  {
    assert IsChain(fat, ch);
    assert InTable(fat, ch[i]);
    if i + 1 < |ch| { assert InTable(fat, ch[i + 1]); }
  }

  /** The allocator at work on chain `ch`, when it takes a new cluster. */
  lemma GrowChain(fat: seq<nat>, chains: set<seq<nat>>, ch: seq<nat>, i: nat, clst: nat, hint: nat, mark: nat,
                  fat': seq<nat>, r: nat)
    requires |fat| >= 2 && Volume(fat, chains) && mark >= |fat|
    requires if ch == [] then clst == 0 else ch in chains && i < |ch| && clst == ch[i]
    requires Stretched(fat, clst, hint, mark, fat', r) && Grows(fat, clst, r)
    ensures InTable(fat, r) && fat[r] == 0 && |fat'| == |fat|
    ensures ch != [] ==> i == |ch| - 1
    ensures Volume(fat', chains - {ch} + {ch + [r]}) && ch + [r] !in chains
    ensures FreeCount(fat) > 0 && FreeCount(fat') == FreeCount(fat) - 1
  {
    hide FirstStop, IsChain, FreeCount, NoStop;
    VolumeUsed(fat, chains);
    if ch != [] { LinkOfChain(fat, chains, ch, i); }
    hide Volume;
    FirstFit(fat, clst, hint, mark, fat', r);
    LinkedCount(fat, clst, r, mark);
    if ch == [] {
      NewChain(fat, chains, r, mark);
      assert [] + [r] == [r];
      assert chains - {[]} + {[] + [r]} == chains + {[r]};
    } else {
      StretchChain(fat, chains, ch, r, mark);
    }
    assert On(ch + [r], r);
  }

  /** Chain `c0` became `c`, nothing else happened to the set of chains. */
  ghost predicate ChainsMoved(chains0: set<seq<nat>>, c0: seq<nat>, chains: set<seq<nat>>, c: seq<nat>)
  {
    c0 <= c && if c == c0 then chains == chains0 else c !in chains0 && chains == chains0 - {c0} + {c}
  }

  /** A cluster is free exactly if it lies on no chain. */
  lemma FreeIsOnNone(fat: seq<nat>, chains: set<seq<nat>>, c: nat)
    requires Volume(fat, chains) && InTable(fat, c)
    ensures fat[c] == 0 <==> forall ch :: ch in chains ==> !On(ch, c)
  {
    VolumeUsed(fat, chains);
    hide IsChain, On;
  }

  function Elements(s: seq<nat>): set<nat> { set c | c in s }

  lemma {:induction false} DistinctCount(s: seq<nat>)
    requires forall i, j :: 0 <= i < j < |s| ==> s[i] != s[j]
    ensures |Elements(s)| == |s|
  {
    if s == [] {
      assert Elements(s) == {};
    } else {
      var init, last := s[..|s| - 1], s[|s| - 1];
      DistinctCount(init);
      assert last !in init && s == init + [last];
      assert Elements(s) == Elements(init) + {last};
    }
  }

  /** What a chain gains the volume loses: its clusters and the free ones together stay as many. */
  lemma GrowthConserves(fat0: seq<nat>, chains0: set<seq<nat>>, c0: seq<nat>, fat: seq<nat>, chains: set<seq<nat>>,
                        c: seq<nat>)
    requires Volume(fat0, chains0) && Volume(fat, chains) && |fat| == |fat0| && ChainsMoved(chains0, c0, chains, c)
    requires (c0 == [] || c0 in chains0) && (c == [] || c in chains)
    ensures FreeCount(fat) + |c| == FreeCount(fat0) + |c0|
  {
    hide Volume, FreeCount;
    GainedClusters(fat0, chains0, c0, fat, chains, c);
    FewerFree(fat0, fat, c[|c0|..]);
  }

  lemma FewerFree(fat0: seq<nat>, fat: seq<nat>, more: seq<nat>)
    requires |fat| == |fat0| && forall i, j :: 0 <= i < j < |more| ==> more[i] != more[j]
    requires forall d :: d in more ==> InTable(fat, d) && fat0[d] == 0 && fat[d] != 0
    requires forall d :: InTable(fat, d) && d !in more ==> (fat0[d] == 0 <==> fat[d] == 0)
    ensures FreeCount(fat0) == FreeCount(fat) + |more|
  {
    DistinctCount(more);
    var gained := Elements(more);
    assert FreeSet(fat0) == FreeSet(fat) + gained;
    assert FreeSet(fat) !! gained;
  }

  /** The clusters behind the first `n` of a chain. */
  lemma RestOfChain(fat: seq<nat>, c: seq<nat>, n: nat)
    requires (c == [] || IsChain(fat, c)) && n <= |c|
    ensures forall i, j :: 0 <= i < j < |c[n..]| ==> c[n..][i] != c[n..][j]
    ensures forall d :: d in c[n..] ==> InTable(fat, d)
    ensures forall i :: n <= i < |c| ==> !On(c[..n], c[i])
  {
  }

  /** The clusters a chain gained were free before and are not any more; all others stay as they were. */
  lemma GainedClusters(fat0: seq<nat>, chains0: set<seq<nat>>, c0: seq<nat>, fat: seq<nat>, chains: set<seq<nat>>,
                       c: seq<nat>)
    requires Volume(fat0, chains0) && Volume(fat, chains) && |fat| == |fat0| && ChainsMoved(chains0, c0, chains, c)
    requires (c0 == [] || c0 in chains0) && (c == [] || c in chains)
    ensures var more := c[|c0|..];
      && (forall i, j :: 0 <= i < j < |more| ==> more[i] != more[j])
      && (forall d :: d in more ==> InTable(fat, d) && fat0[d] == 0 && fat[d] != 0)
      && (forall d :: InTable(fat, d) && d !in more ==> (fat0[d] == 0 <==> fat[d] == 0))
  {
    hide IsChain, On, Disjoint;
    var more := c[|c0|..];
    RestOfChain(fat, c, |c0|);
    assert c[..|c0|] == c0;
    forall d: nat | InTable(fat, d)
      ensures d in more ==> fat0[d] == 0 && fat[d] != 0
      ensures d !in more ==> (fat0[d] == 0 <==> fat[d] == 0)
    {
      GainedOne(fat0, chains0, c0, fat, chains, c, d);
    }
  }

  lemma GainedOne(fat0: seq<nat>, chains0: set<seq<nat>>, c0: seq<nat>, fat: seq<nat>, chains: set<seq<nat>>, c: seq<nat>,
                  d: nat)
    requires Volume(fat0, chains0) && Volume(fat, chains) && |fat| == |fat0| && ChainsMoved(chains0, c0, chains, c)
    requires (c0 == [] || c0 in chains0) && (c == [] || c in chains) && InTable(fat, d)
    requires forall i :: |c0| <= i < |c| ==> !On(c0, c[i])
    ensures d in c[|c0|..] ==> fat0[d] == 0 && fat[d] != 0
    ensures d !in c[|c0|..] ==> (fat0[d] == 0 <==> fat[d] == 0)
  {
    hide IsChain;
    var more := c[|c0|..];
    assert c == c0 + more;
    FreeIsOnNone(fat0, chains0, d);
    FreeIsOnNone(fat, chains, d);
    if d in more {
      assert On(c, d) && !On(c0, d);
      forall a | a in chains0 ensures !On(a, d) { if a != c0 { assert Disjoint(a, c); } }
    } else if c != c0 {
      assert On(c, d) <==> On(c0, d);
      forall a | a in chains && a != c ensures a in chains0 {}
      forall a | a in chains0 && a != c0 ensures a in chains {}
    }
  }

  lemma ChainsMovedNot(chains: set<seq<nat>>, c: seq<nat>)
    ensures ChainsMoved(chains, c, chains, c)
  {
  }

  lemma NoEmptyChain(fat: seq<nat>, chains: set<seq<nat>>)
    requires Volume(fat, chains)
    ensures [] !in chains
  {
    VolumeUsed(fat, chains);
  }

  lemma HeadIsCluster(fat: seq<nat>, chains: set<seq<nat>>, ch: seq<nat>)
    requires Volume(fat, chains) && ch in chains
    ensures ch != [] && ch[0] >= 2
  {
    assert IsChain(fat, ch);
    assert InTable(fat, ch[0]);
  }

  lemma ChainsMovedOn(chains0: set<seq<nat>>, c0: seq<nat>, chains: set<seq<nat>>, c: seq<nat>,
                      chains': set<seq<nat>>, c': seq<nat>)
    requires ChainsMoved(chains0, c0, chains, c) && ChainsMoved(chains, c, chains', c')
    ensures ChainsMoved(chains0, c0, chains', c')
  {
    if c' != c {
      assert |c'| > |c| >= |c0|;
      if c != c0 {
        assert chains0 - {c0} + {c} - {c} + {c'} == chains0 - {c0} + {c'};
      }
    }
  }

  /** The other chains are still there, and they are disjoint from the one that grew. */
  lemma OthersStay(chains0: set<seq<nat>>, c0: seq<nat>, fat: seq<nat>, chains: set<seq<nat>>, c: seq<nat>, a: seq<nat>)
    requires ChainsMoved(chains0, c0, chains, c) && Volume(fat, chains) && (c == [] || c in chains)
    requires a in chains0 && a != c0
    ensures a in chains && Disjoint(a, c)
  {
    hide IsChain;
    assert a != c;
  }

  /** The allocator reports an entry of value 1 only where there is one. */
  lemma NoneIsOne(fat: seq<nat>, clst: nat, hint: nat, mark: nat, fat': seq<nat>, r: nat)
    requires |fat| >= 2 && Stretched(fat, clst, hint, mark, fat', r) && forall c :: InTable(fat, c) ==> fat[c] != 1
    requires clst == 0 || (InTable(fat, clst) && fat[clst] >= |fat|)
    ensures r != 1
  {
  }

  /** The allocator at work on chain `ch`, when it follows a link or finds the volume full. */
  lemma NoGrowth(fat: seq<nat>, chains: set<seq<nat>>, ch: seq<nat>, i: nat, clst: nat, hint: nat, mark: nat,
                 fat': seq<nat>, r: nat)
    requires |fat| >= 2 && Volume(fat, chains)
    requires if ch == [] then clst == 0 else ch in chains && i < |ch| && clst == ch[i]
    requires Stretched(fat, clst, hint, mark, fat', r) && !Grows(fat, clst, r)
    ensures fat' == fat
    ensures r == 0 ==> FreeCount(fat) == 0 && (ch == [] || i + 1 == |ch|)
    ensures r != 0 ==> ch != [] && i + 1 < |ch| && r == ch[i + 1] && InTable(fat, r)
  {
    hide FirstStop, IsChain, FreeCount, NoStop;
    VolumeUsed(fat, chains);
    if ch != [] { LinkOfChain(fat, chains, ch, i); }
    hide Volume;
    if clst == 0 || fat[clst] >= |fat| {
      NoneIsOne(fat, clst, hint, mark, fat', r);
      FirstFit(fat, clst, hint, mark, fat', r);
    }
  }
}
