/** The coordinator's table of discovered nodes. */
module NodeTable {
  import opened Bytes

  const MAX_NODES: nat := 10
  const MAX_CAPS: nat := 12
  const POLL_TIME: nat := 1000
  const ALIVE_TIME: nat := 3000

  datatype Node = Node(addrHi: Dword, addrLo: Dword, aliveTime: Dword, lastPoll: Dword, caps: seq<nat>, numCaps: nat)

  /** What the table reports: callbacks with node ids, and poll requests. */
  datatype Event = Attached(id: nat) | Detached(id: nat) | Polled(id: nat)

  predicate Free(n: Node) { n.addrHi == 0 && n.addrLo == 0 }

  predicate Listed(n: Node) { n.addrHi != 0 && n.addrLo != 0 }

  predicate HasAddress(n: Node, hi: Dword, lo: Dword) { n.addrHi == hi && n.addrLo == lo }

  // ---- callbacks ----

  function After(ids: set<nat>, e: Event): set<nat>
  {
    match e
    case Attached(id) => ids + {id}
    case Detached(id) => ids - {id}
    case Polled(_) => ids
  }

  /** A node attaches only while detached, and detaches only while attached. */
  predicate Allowed(ids: set<nat>, e: Event)
  {
    match e
    case Attached(id) => id !in ids
    case Detached(id) => id in ids
    case Polled(_) => true
  }

  /** The ids attached after the events. */
  function AttachedIds(log: seq<Event>): set<nat>
  {
    if log == [] then {} else After(AttachedIds(log[..|log| - 1]), log[|log| - 1])
  }

  predicate Sensible(log: seq<Event>)
  {
    log == [] || (Sensible(log[..|log| - 1]) && Allowed(AttachedIds(log[..|log| - 1]), log[|log| - 1]))
  }

  lemma Logged(log: seq<Event>, e: Event)
    ensures AttachedIds(log + [e]) == After(AttachedIds(log), e)
    ensures Sensible(log + [e]) <==> Sensible(log) && Allowed(AttachedIds(log), e)
  {
    var t := log + [e];
    assert t[..|t| - 1] == log && t[|t| - 1] == e;
  }

  /** The event attaches or detaches `id`. */
  predicate Concerns(e: Event, id: nat) { e == Attached(id) || e == Detached(id) }

  /** Events `i` and `j` concern `id`, and no event between them does; -1 stands for the beginning. */
  ghost predicate Follows(log: seq<Event>, id: nat, i: int, j: int)
  {
    && -1 <= i < j < |log| && (i >= 0 ==> Concerns(log[i], id)) && Concerns(log[j], id)
    && forall k :: i < k < j ==> !Concerns(log[k], id)
  }

  /** The callbacks of one id alternate: the first attaches, and two that follow each other differ. */
  ghost predicate Alternates(log: seq<Event>, id: nat)
  {
    forall i, j :: Follows(log, id, i, j) ==>
      log[j] == if i < 0 || log[i] == Detached(id) then Attached(id) else Detached(id)
  }

  /** Whether an id is attached is decided by its last event. */
  lemma {:induction false} LastDecides(log: seq<Event>, id: nat, i: int)
    requires -1 <= i < |log| && (i >= 0 ==> Concerns(log[i], id))
    requires forall k :: i < k < |log| ==> !Concerns(log[k], id)
    ensures id in AttachedIds(log) <==> i >= 0 && log[i] == Attached(id)
    decreases |log|
  {
    if i < |log| - 1 { LastDecides(log[..|log| - 1], id, i); }
  }

  lemma {:induction false} SensibleAlternates(log: seq<Event>, id: nat)
    requires Sensible(log)
    ensures Alternates(log, id)
  {
    forall i, j | Follows(log, id, i, j)
      ensures log[j] == if i < 0 || log[i] == Detached(id) then Attached(id) else Detached(id)
    {
      SensibleAt(log, j, id);
      assert i >= 0 ==> log[..j][i] == log[i];
      LastDecides(log[..j], id, i);
    }
  }

  lemma SensibleAt(log: seq<Event>, j: nat, id: nat)
    requires j < |log| && Sensible(log)
    ensures log[j] == Attached(id) ==> id !in AttachedIds(log[..j])
    ensures log[j] == Detached(id) ==> id in AttachedIds(log[..j])
  {
    SensiblePrefix(log, j + 1);
    var p := log[..j + 1];
    assert p[..|p| - 1] == log[..j] && p[|p| - 1] == log[j];
  }

  lemma {:induction false} SensiblePrefix(log: seq<Event>, n: nat)
    requires n <= |log| && Sensible(log)
    ensures Sensible(log[..n])
    decreases |log|
  {
    if n < |log| {
      SensiblePrefix(log[..|log| - 1], n);
      assert log[..|log| - 1][..n] == log[..n];
    } else {
      assert log[..n] == log;
    }
  }

  // ---- the table ----

  /** Ids of the listed nodes among the first `n` slots, in order. */
  function Ids(nodes: seq<Node>, n: nat): (r: seq<nat>)
    requires n <= |nodes|
    ensures |r| <= n
  {
    if n == 0 then [] else Ids(nodes, n - 1) + if Listed(nodes[n - 1]) then [n] else []
  }

  /** The list holds exactly the listed ids, in increasing order. */
  lemma {:induction false} IdsAreListed(nodes: seq<Node>, n: nat)
    requires n <= |nodes|
    ensures forall id :: id in Ids(nodes, n) <==> 1 <= id <= n && Listed(nodes[id - 1])
    ensures forall i, j :: 0 <= i < j < |Ids(nodes, n)| ==> Ids(nodes, n)[i] < Ids(nodes, n)[j]
  {
    if n > 0 {
      IdsAreListed(nodes, n - 1);
      var r := Ids(nodes, n - 1);
      assert forall i :: 0 <= i < |r| ==> r[i] in r;
    }
  }

  /** A node that did not answer in time, in 32-bit arithmetic. */
  predicate Expired(n: Node, now: Dword) { n.aliveTime > 0 && (n.aliveTime + ALIVE_TIME) % DWORD < now }

  predicate PollDue(n: Node, now: Dword) { (n.lastPoll + POLL_TIME) % DWORD < now }

  /** A moment `span` after `start`, both in 32-bit time, for spans below 2 to the 32. */
  lemma Later(start: Dword, span: nat)
    requires span < DWORD
    ensures (start + span) % DWORD == if start + span < DWORD then start + span else start + span - DWORD
  {
  }

  /** A deadline `limit` after `start` counts as passed after `age` exactly when it is, provided that the clock has
      wrapped round since `start` if and only if the deadline does. */
  lemma DeadlineExactly(start: Dword, limit: nat, age: nat)
    requires limit < DWORD && age < DWORD
    ensures ((start + limit) % DWORD < (start + age) % DWORD <==> age > limit) <==>
            (start + limit < DWORD <==> start + age < DWORD)
  {
    Later(start, limit);
    Later(start, age);
  }

  /** A node that answered `age` ago is taken for dead exactly when that is too long ago, provided that the clock has
      wrapped round since if and only if the deadline does, and the answer did not come at time 0. */
  lemma ExpiredExactly(n: Node, now: Dword, age: nat)
    requires age < DWORD && now == (n.aliveTime + age) % DWORD
    ensures (Expired(n, now) <==> age > 3000) <==>
            if n.aliveTime == 0 then age <= 3000
            else (n.aliveTime + 3000 < DWORD <==> n.aliveTime + age < DWORD)
  {
    DeadlineExactly(n.aliveTime, ALIVE_TIME, age);
  }

  lemma PollDueExactly(n: Node, now: Dword, age: nat)
    requires age < DWORD && now == (n.lastPoll + age) % DWORD
    ensures (PollDue(n, now) <==> age > 1000) <==> (n.lastPoll + 1000 < DWORD <==> n.lastPoll + age < DWORD)
  {
    DeadlineExactly(n.lastPoll, POLL_TIME, age);
  }

  /** A node that answers less than three seconds before the clock wraps round is detached at the next look, and one
      that answered well before it and then fell silent is kept once the clock has wrapped. */
  lemma WrapMatters(n: Node, m: Node)
    requires n.aliveTime == DWORD - 1 && m.aliveTime == DWORD - 3001
    ensures Expired(n, DWORD - 1)
    ensures !Expired(m, 0) && (m.aliveTime + 3001) % DWORD == 0
  {
    Later(n.aliveTime, ALIVE_TIME);
    Later(m.aliveTime, ALIVE_TIME);
  }

  /** A slot after the watchdog looked at it. */
  function Checked(n: Node, now: Dword): Node
  {
    if !Listed(n) then n
    else if Expired(n, now) then n.(addrHi := 0, addrLo := 0, numCaps := 0)
    else if PollDue(n, now) then n.(lastPoll := now)
    else n
  }

  /** What it reports about slot `i`. */
  function Report(n: Node, now: Dword, i: nat): seq<Event>
  {
    if !Listed(n) then []
    else if Expired(n, now) then [Detached(i + 1)]
    else if PollDue(n, now) then [Polled(i + 1)]
    else []
  }

  /** A look at a slot, in terms of time passed, away from the clock's wrap: a node silent for more than three seconds
      is detached and its slot cleared; one polled more than a second ago is polled and its poll time renewed; and
      nothing happens to any other, nor to a slot without an address. */
  lemma WatchedExactly(n: Node, age: nat, since: nat, now: Dword, i: nat)
    requires n.aliveTime > 0 && n.aliveTime + age == now == n.lastPoll + since
    requires n.aliveTime + 3000 < DWORD && n.lastPoll + 1000 < DWORD
    ensures
      if n.addrHi == 0 || n.addrLo == 0 then Checked(n, now) == n && Report(n, now, i) == []
      else if age > 3000 then
        Checked(n, now) == n.(addrHi := 0, addrLo := 0, numCaps := 0) && Report(n, now, i) == [Detached(i + 1)]
      else if since > 1000 then Checked(n, now) == n.(lastPoll := now) && Report(n, now, i) == [Polled(i + 1)]
      else Checked(n, now) == n && Report(n, now, i) == []
  {
    hide Expired, PollDue;
    ExpiredExactly(n, now, age);
    PollDueExactly(n, now, since);
  }

  /** A node is polled again only after more than a second, however often its slot was looked at in between. */
  lemma PollsApart(n: Node, looks: seq<Dword>, i: nat)
    requires |looks| >= 2 && looks[0] + 1000 < DWORD
    requires Report(n, looks[0], i) == [Polled(i + 1)]
    requires forall k :: 0 < k < |looks| - 1 ==> Report(Looked(n, looks[..k]), looks[k], i) == []
    requires Report(Looked(n, looks[..|looks| - 1]), looks[|looks| - 1], i) == [Polled(i + 1)]
    ensures looks[|looks| - 1] > looks[0] + 1000
  {
    QuietLooks(n, looks, |looks| - 1, i);
  }

  /** What the slot of a new node holds; the node counts as heard of now. */
  lemma NewNodeHolds(hi: Dword, lo: Dword, now: Dword, buf: seq<nat>, slot: Node)
    requires |slot.caps| == MAX_CAPS
    ensures var n := NewNode(hi, lo, now, buf, slot);
      && n.addrHi == hi && n.addrLo == lo && n.aliveTime == now && n.lastPoll == slot.lastPoll && |n.caps| == 12
      && n.numCaps == Min(|buf|, 12) && (forall i :: 0 <= i < n.numCaps ==> n.caps[i] == buf[i])
      && forall i :: n.numCaps <= i < 12 ==> n.caps[i] == slot.caps[i]
  {
  }

  /** A node heard of at `n.aliveTime` is not detached within three seconds, however often its slot is looked at. */
  lemma {:induction false} KeptWhileFresh(n: Node, looks: seq<Dword>, i: nat)
    requires n.addrHi != 0 && n.addrLo != 0 && n.aliveTime + 3000 < DWORD
    requires forall k :: 0 <= k < |looks| ==> looks[k] <= n.aliveTime + 3000
    ensures Looked(n, looks) == n.(lastPoll := Looked(n, looks).lastPoll)
    ensures looks != [] ==> Report(Looked(n, looks[..|looks| - 1]), looks[|looks| - 1], i) != [Detached(i + 1)]
  {
    if looks != [] {
      KeptWhileFresh(n, looks[..|looks| - 1], i);
      Later(n.aliveTime, 3000);
    }
  }

  /** A slot after a series of looks. */
  function Looked(n: Node, looks: seq<Dword>): Node
  {
    if looks == [] then n else Checked(Looked(n, looks[..|looks| - 1]), looks[|looks| - 1])
  }

  lemma {:induction false} QuietLooks(n: Node, looks: seq<Dword>, m: nat, i: nat)
    requires 0 < m < |looks| && Report(n, looks[0], i) == [Polled(i + 1)]
    requires forall k :: 0 < k < m ==> Report(Looked(n, looks[..k]), looks[k], i) == []
    ensures Looked(n, looks[..m]) == n.(lastPoll := looks[0])
  {
    assert looks[..m][..m - 1] == looks[..m - 1] && looks[..m][m - 1] == looks[m - 1];
    if m > 1 { QuietLooks(n, looks, m - 1, i); }
  }

  function Reports(nodes: seq<Node>, now: seq<Dword>, n: nat): seq<Event>
    requires n <= |nodes| == |now|
  {
    if n == 0 then [] else Reports(nodes, now, n - 1) + Report(nodes[n - 1], now[n - 1], n - 1)
  }

  /** Among the reports are those of every slot and no others. */
  lemma {:induction false} ReportsExactly(nodes: seq<Node>, now: seq<Dword>, n: nat, e: Event)
    requires n <= |nodes| == |now|
    ensures e in Reports(nodes, now, n) <==> exists i :: 0 <= i < n && e in Report(nodes[i], now[i], i)
  {
    hide Report;
    if n > 0 { ReportsExactly(nodes, now, n - 1, e); }
  }

  /** The first free slot from `i` on. */
  function FirstFree(nodes: seq<Node>, i: nat): (f: nat)
    requires i <= |nodes|
    ensures i <= f <= |nodes| && (forall k :: i <= k < f ==> !Free(nodes[k])) && (f < |nodes| ==> Free(nodes[f]))
    decreases |nodes| - i
  {
    if i == |nodes| || Free(nodes[i]) then i else FirstFree(nodes, i + 1)
  }

  predicate Known(nodes: seq<Node>, hi: Dword, lo: Dword)
  {
    exists k :: 0 <= k < |nodes| && HasAddress(nodes[k], hi, lo)
  }

  /** The entry of a new node: as many capabilities as there is room for; the time of the last poll is whatever
      the slot held. */
  function NewNode(hi: Dword, lo: Dword, now: Dword, buf: seq<nat>, slot: Node): Node
    requires |slot.caps| == MAX_CAPS
  {
    var m := Min(|buf|, MAX_CAPS);
    Node(hi, lo, now, slot.lastPoll, buf[..m] + slot.caps[m..], m)
  }

  /** Every slot is free or has an address without a zero half, no address occurs twice, and the callbacks so
      far make sense and leave exactly the listed ids attached. */
  ghost predicate TableOk(nodes: seq<Node>, log: seq<Event>)
  {
    && |nodes| == MAX_NODES && (forall i :: 0 <= i < MAX_NODES ==> |nodes[i].caps| == MAX_CAPS)
    && (forall i :: 0 <= i < MAX_NODES ==> Free(nodes[i]) || Listed(nodes[i]))
    && (forall i, j :: 0 <= i < j < MAX_NODES && Listed(nodes[i]) ==> !HasAddress(nodes[j], nodes[i].addrHi, nodes[i].addrLo))
    && Sensible(log)
    && forall id :: id in AttachedIds(log) <==> 1 <= id <= MAX_NODES && Listed(nodes[id - 1])
  }

  lemma AddedOk(nodes: seq<Node>, log: seq<Event>, f: nat, n: Node)
    requires TableOk(nodes, log) && f < MAX_NODES && Free(nodes[f]) && !Known(nodes, n.addrHi, n.addrLo)
    requires |n.caps| == MAX_CAPS
    ensures TableOk(nodes[f := n], log + [Attached(f + 1)]) <==> Listed(n)
  {
    hide Sensible, AttachedIds;
    Logged(log, Attached(f + 1));
    assert HasAddress(nodes[f], 0, 0);
    var after := nodes[f := n];
    assert after[f] == n && forall k :: 0 <= k < MAX_NODES && k != f ==> after[k] == nodes[k];
    assert forall k :: 0 <= k < MAX_NODES ==> !HasAddress(nodes[k], n.addrHi, n.addrLo);
  }

  lemma DroppedOk(nodes: seq<Node>, log: seq<Event>, i: nat)
    requires TableOk(nodes, log) && i < MAX_NODES && Listed(nodes[i])
    ensures TableOk(nodes[i := nodes[i].(addrHi := 0, addrLo := 0, numCaps := 0)], log + [Detached(i + 1)])
  {
    hide Sensible, AttachedIds;
    Logged(log, Detached(i + 1));
    var after := nodes[i := nodes[i].(addrHi := 0, addrLo := 0, numCaps := 0)];
    assert forall k :: 0 <= k < MAX_NODES && k != i ==> after[k] == nodes[k];
    assert i + 1 in AttachedIds(log);
  }

  lemma PolledOk(nodes: seq<Node>, log: seq<Event>, i: nat, time: Dword)
    requires TableOk(nodes, log) && i < MAX_NODES
    ensures TableOk(nodes[i := nodes[i].(lastPoll := time)], log + [Polled(i + 1)])
  {
    hide Sensible, AttachedIds;
    Logged(log, Polled(i + 1));
    var after := nodes[i := nodes[i].(lastPoll := time)];
    assert after[i].addrHi == nodes[i].addrHi && after[i].addrLo == nodes[i].addrLo && after[i].caps == nodes[i].caps;
    assert forall k :: 0 <= k < MAX_NODES && k != i ==> after[k] == nodes[k];
  }

  lemma AliveOk(nodes: seq<Node>, log: seq<Event>, i: nat, time: Dword)
    requires TableOk(nodes, log) && i < MAX_NODES
    ensures TableOk(nodes[i := nodes[i].(aliveTime := time)], log)
  {
    hide Sensible, AttachedIds;
    var after := nodes[i := nodes[i].(aliveTime := time)];
    assert after[i].addrHi == nodes[i].addrHi && after[i].addrLo == nodes[i].addrLo && after[i].caps == nodes[i].caps;
    assert forall k :: 0 <= k < MAX_NODES && k != i ==> after[k] == nodes[k];
  }

  /** The first slot from `i` on with the address. */
  function FirstWith(nodes: seq<Node>, hi: Dword, lo: Dword, i: nat): (k: nat)
    requires i <= |nodes|
    ensures i <= k <= |nodes| && (k < |nodes| ==> HasAddress(nodes[k], hi, lo))
    ensures forall j :: i <= j < k ==> !HasAddress(nodes[j], hi, lo)
    decreases |nodes| - i
  {
    if i == |nodes| || HasAddress(nodes[i], hi, lo) then i else FirstWith(nodes, hi, lo, i + 1)
  }

  class Table {
    const nodes: array<Node>
    ghost var log: seq<Event>

    constructor ()
      ensures Valid() && fresh(nodes) && log == [] && forall i :: 0 <= i < MAX_NODES ==> Free(nodes[i])
    {
      nodes := new Node[MAX_NODES](_ => Node(0, 0, 0, 0, seq(MAX_CAPS, k => 0), 0));
      log := [];
      new;
    }

    ghost predicate Valid()
      reads this, nodes
    {
      TableOk(nodes[..], log)
    }

    lemma HasLength()
      requires Valid()
      ensures nodes.Length == MAX_NODES
    {
    }

    /** Adds the sender of a publish message, unless it is known or there is no room. The table stays sound
        except when it has room for an unknown address with a zero half. */
    method HandlePublish(hi: Dword, lo: Dword, buf: seq<nat>, now: Dword)
      requires Valid()
      modifies this, nodes
      ensures nodes.Length == MAX_NODES
      ensures var was := old(nodes[..]); var f := FirstFree(was, 0);
        if Known(was, hi, lo) || f == MAX_NODES then nodes[..] == was && log == old(log)
        else |was[f].caps| == MAX_CAPS
             && nodes[..] == was[f := NewNode(hi, lo, now, buf, was[f])] && log == old(log) + [Attached(f + 1)]
      ensures Valid() <==>
        Known(old(nodes[..]), hi, lo) || FirstFree(old(nodes[..]), 0) == MAX_NODES || (hi != 0 && lo != 0)
    {
      var freeNodeId: nat := 0;
      var exist := false;
      var i := 0;
      while i < MAX_NODES
        invariant i <= MAX_NODES && freeNodeId <= i && Valid() && !exist
        invariant if freeNodeId == 0 then FirstFree(nodes[..], 0) == FirstFree(nodes[..], i)
                  else FirstFree(nodes[..], 0) == freeNodeId - 1
        invariant forall k :: 0 <= k < i ==> !HasAddress(nodes[..][k], hi, lo)
      {
        if freeNodeId == 0 && nodes[i].addrHi == 0 && nodes[i].addrLo == 0 { freeNodeId := i + 1; }
        if nodes[i].addrHi == hi && nodes[i].addrLo == lo {
          exist := true;
          assert HasAddress(nodes[..][i], hi, lo);
          break;
        }
        i := i + 1;
      }
      if !exist && freeNodeId != 0 {
        Add(freeNodeId - 1, hi, lo, buf, now);
      }
    }

    /** Fills the free slot `f` and reports the node. */
    method Add(f: nat, hi: Dword, lo: Dword, buf: seq<nat>, now: Dword)
      requires Valid() && f < MAX_NODES == nodes.Length && Free(nodes[f]) && !Known(nodes[..], hi, lo)
      modifies this, nodes
      ensures |old(nodes[..])[f].caps| == MAX_CAPS
      ensures nodes[..] == old(nodes[..])[f := NewNode(hi, lo, now, buf, old(nodes[..])[f])]
      ensures log == old(log) + [Attached(f + 1)]
      ensures Valid() <==> hi != 0 && lo != 0
    {
      ghost var was := nodes[..];
      assert was[f].caps == nodes[f].caps && |was[f].caps| == MAX_CAPS;
      AddedOk(was, log, f, NewNode(hi, lo, now, buf, was[f]));
      hide TableOk, Known;
      nodes[f] := nodes[f].(addrHi := hi, addrLo := lo, aliveTime := now);
      FillCaps(f, buf);
      log := log + [Attached(f + 1)];
    }

    method FillCaps(f: nat, buf: seq<nat>)
      requires f < nodes.Length && |nodes[f].caps| == MAX_CAPS
      modifies nodes
      ensures var m := Min(|buf|, MAX_CAPS); var was := old(nodes[..]);
        |was[f].caps| == MAX_CAPS && nodes[..] == was[f := was[f].(caps := buf[..m] + was[f].caps[m..], numCaps := m)]
    {
      ghost var was := nodes[..];
      assert buf[..0] + was[f].caps[0..] == was[f].caps;
      var i := 0;
      while i < MAX_CAPS && i < |buf|
        invariant i <= MAX_CAPS && i <= |buf|
        invariant nodes[..] == was[f := was[f].(caps := buf[..i] + was[f].caps[i..])]
      {
        assert (buf[..i] + was[f].caps[i..])[i := buf[i]] == buf[..i + 1] + was[f].caps[i + 1..];
        nodes[f] := nodes[f].(caps := nodes[f].caps[i := buf[i]]);
        i := i + 1;
      }
      nodes[f] := nodes[f].(numCaps := if |buf| > MAX_CAPS then MAX_CAPS else |buf|);
    }

    /** Detaches nodes that have not answered in time, and polls the others when it is due. The clock is read
        once for every slot. */
    method CheckIfNodesAlive(now: seq<Dword>)
      requires Valid() && |now| == MAX_NODES
      modifies this, nodes
      ensures Valid() && |old(nodes[..])| == MAX_NODES && log == old(log) + Reports(old(nodes[..]), now, MAX_NODES)
      ensures nodes.Length == MAX_NODES && forall i :: 0 <= i < MAX_NODES ==> nodes[i] == Checked(old(nodes[i]), now[i])
    {
      HasLength();
      hide TableOk, Checked, Report;
      var i := 0;
      while i < MAX_NODES
        invariant i <= MAX_NODES == nodes.Length && Valid() && log == old(log) + Reports(old(nodes[..]), now, i)
        invariant forall k :: 0 <= k < MAX_NODES ==> nodes[k] == if k < i then Checked(old(nodes[k]), now[k]) else old(nodes[k])
      {
        CheckSlot(i, now[i]);
        i := i + 1;
      }
    }

    method CheckSlot(i: nat, time: Dword)
      requires Valid() && i < MAX_NODES
      modifies this, nodes
      ensures Valid() && log == old(log) + Report(old(nodes[i]), time, i)
      ensures nodes[..] == old(nodes[..])[i := Checked(old(nodes[i]), time)]
    {
      ghost var was := nodes[..];
      if nodes[i].addrHi != 0 && nodes[i].addrLo != 0 {
        if nodes[i].aliveTime > 0 && (nodes[i].aliveTime + ALIVE_TIME) % DWORD < time {
          DroppedOk(was, log, i);
          log := log + [Detached(i + 1)];
          nodes[i] := nodes[i].(addrHi := 0, addrLo := 0, numCaps := 0);
        } else if (nodes[i].lastPoll + POLL_TIME) % DWORD < time {
          PolledOk(was, log, i, time);
          nodes[i] := nodes[i].(lastPoll := time);
          log := log + [Polled(i + 1)];
        }
      }
    }

    /** A poll response keeps its sender alive. */
    method HandlePollResponse(hi: Dword, lo: Dword, now: Dword)
      requires Valid()
      modifies nodes
      ensures Valid()
      ensures var was := old(nodes[..]); var k := FirstWith(was, hi, lo, 0);
        nodes[..] == if k < |was| then was[k := was[k].(aliveTime := now)] else was
    {
      var i := 0;
      while i < MAX_NODES
        invariant i <= MAX_NODES == nodes.Length && nodes[..] == old(nodes[..]) && Valid()
        invariant FirstWith(nodes[..], hi, lo, 0) == FirstWith(nodes[..], hi, lo, i)
      {
        if nodes[i].addrHi == hi && nodes[i].addrLo == lo {
          ghost var was := nodes[..];
          AliveOk(was, log, i, now);
          nodes[i] := nodes[i].(aliveTime := now);
          assert nodes[..] == was[i := was[i].(aliveTime := now)];
          break;
        }
        i := i + 1;
      }
    }

    /** Copies the ids of the listed nodes into the caller's buffer, as many as fit. */
    method GetNodes(buf: array<nat>) returns (numNodes: nat)
      requires Valid() && buf.Length > 0
      modifies buf
      ensures numNodes == Min(|Ids(nodes[..], MAX_NODES)|, buf.Length)
      ensures buf[..numNodes] == Ids(nodes[..], MAX_NODES)[..numNodes]
      ensures buf.Length >= MAX_NODES ==> forall id :: id in buf[..numNodes] <==> id in AttachedIds(log)
    {
      IdsAreListed(nodes[..], MAX_NODES);
      var i, pos := 0, 0;
      while i < MAX_NODES
        invariant i <= MAX_NODES && pos == Min(|Ids(nodes[..], i)|, buf.Length)
        invariant buf[..pos] == Ids(nodes[..], i)[..pos]
      {
        if nodes[i].addrHi != 0 && nodes[i].addrLo != 0 && pos < buf.Length {
          buf[pos] := i + 1;
          pos := pos + 1;
        }
        i := i + 1;
      }
      numNodes := pos;
      ghost var ids := Ids(nodes[..], MAX_NODES);
      assert ids[..|ids|] == ids;
    }
  }
}
