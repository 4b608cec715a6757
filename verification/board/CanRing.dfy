/** The ring between the CAN interrupt and the main loop that forwards messages. */
module CanRing {

  const SLOTS: nat := 5

  /** A CAN message; its fields are copied as a whole. */
  datatype Msg = Msg(id: nat, kind: nat, len: nat, format: nat, dataA: seq<nat>, dataB: seq<nat>)

  /** Number of messages between the two indices. */
  ghost function Len(rxIn: nat, rxOut: nat): nat
    requires rxOut < SLOTS
  {
    (rxIn + SLOTS - rxOut) % SLOTS
  }

  lemma Indices(rxIn: nat, rxOut: nat)
    requires rxIn < SLOTS && rxOut < SLOTS
    ensures var n := Len(rxIn, rxOut);
      && n < SLOTS && (rxOut + n) % SLOTS == rxIn && (n == 0 <==> rxIn == rxOut)
      && (n == SLOTS - 1 <==> rxOut == (rxIn + 1) % SLOTS) && (n < SLOTS - 1 ==> rxIn != (rxOut + SLOTS - 1) % SLOTS)
      && (n < SLOTS - 1 ==> Len((rxIn + 1) % SLOTS, rxOut) == n + 1)
      && (n > 0 ==> Len(rxIn, (rxOut + 1) % SLOTS) == n - 1)
      && ((rxOut + 1) % SLOTS + SLOTS - 1) % SLOTS == rxOut
  {
  }

  /** `n` messages from slot `out` on, around the ring. */
  ghost function Window(ms: seq<Msg>, out: nat, n: nat): (q: seq<Msg>)
    requires |ms| == SLOTS
    ensures |q| == n && forall i :: 0 <= i < n ==> q[i] == ms[(out + i) % SLOTS]
  {
    seq(n, i requires 0 <= i < n => ms[(out + i) % SLOTS])
  }

  lemma WindowGrows(ms: seq<Msg>, out: nat, n: nat, d: Msg)
    requires |ms| == SLOTS && out < SLOTS && n < SLOTS
    ensures Window(ms[(out + n) % SLOTS := d], out, n + 1) == Window(ms, out, n) + [d]
  {
  }

  lemma WindowShrinks(ms: seq<Msg>, out: nat, n: nat)
    requires |ms| == SLOTS && out < SLOTS && 0 < n < SLOTS
    ensures Window(ms, out, n)[1..] == Window(ms, (out + 1) % SLOTS, n - 1) && Window(ms, out, n)[0] == ms[out]
  {
  }

  class Ring {
    const msgs: array<Msg>
    var rxIn: nat
    var rxOut: nat

    ghost var dropped: seq<Msg>     // messages that found no room

    constructor ()
      ensures Valid() && fresh(msgs) && Contents() == [] && dropped == []
    {
      msgs := new Msg[SLOTS](_ => Msg(0, 0, 0, 0, [], []));
      rxIn, rxOut := 0, 0;
      dropped := [];
    }

    ghost predicate Valid()
      reads this
    {
      msgs.Length == SLOTS && rxIn < SLOTS && rxOut < SLOTS
    }

    /** The queued messages, oldest first. */
    ghost function Contents(): (q: seq<Msg>)
      requires Valid()
      reads this, msgs
      ensures |q| == Len(rxIn, rxOut) < SLOTS
    {
      Window(msgs[..], rxOut, Len(rxIn, rxOut))
    }

    /** The slot that the last `Get` handed out. */
    ghost function Held(): nat
      requires Valid()
      reads this
    {
      (rxOut + SLOTS - 1) % SLOTS
    }

    /** Called by the interrupt: queues the message, or drops it when four are queued. The slot the main loop
        works on is not written. */
    method Put(d: Msg)
      requires Valid()
      modifies `rxIn, `dropped, msgs
      ensures Valid()
      ensures Contents() == if |old(Contents())| < SLOTS - 1 then old(Contents()) + [d] else old(Contents())
      ensures dropped == if |old(Contents())| < SLOTS - 1 then old(dropped) else old(dropped) + [d]
      ensures msgs[Held()] == old(msgs[Held()])
    {
      hide Window, Len;
      Indices(rxIn, rxOut);
      ghost var n, before := Len(rxIn, rxOut), msgs[..];
      if rxOut == (rxIn + 1) % SLOTS {
        dropped := dropped + [d];
        return;
      }
      WindowGrows(before, rxOut, n, d);
      Store(rxIn, d);
      rxIn := (rxIn + 1) % SLOTS;
    }

    /** Copies the message into slot `m`. */
    method Store(m: nat, d: Msg)
      requires m < msgs.Length
      modifies msgs
      ensures msgs[..] == old(msgs[..])[m := d]
      ensures forall i :: 0 <= i < msgs.Length && i != m ==> msgs[i] == old(msgs[i])
    {
      msgs[m] := d;
    }

    /** Called by the main loop: hands out the slot of the oldest message. */
    method Get() returns (m: nat)
      requires Valid() && rxIn != rxOut
      modifies `rxOut
      ensures Valid() && old(Contents()) != [] && Contents() == old(Contents())[1..]
      ensures m == Held() < msgs.Length && msgs[m] == old(Contents())[0]
    {
      hide Window, Len;
      Indices(rxIn, rxOut);
      WindowShrinks(msgs[..], rxOut, Len(rxIn, rxOut));
      m := rxOut;
      rxOut := (rxOut + 1) % SLOTS;
    }

    method IsEmpty() returns (empty: bool)
      requires Valid()
      ensures empty <==> Contents() == []
      ensures empty <==> rxIn == rxOut
    {
      Indices(rxIn, rxOut);
      empty := rxIn == rxOut;
    }

    /** A burst of interrupts. */
    method Burst(arrivals: seq<Msg>)
      requires Valid()
      modifies `rxIn, `dropped, msgs
      ensures Valid() && Contents() == Queued(old(Contents()), arrivals)
      ensures dropped == old(dropped) + Lost(old(Contents()), arrivals)
      ensures msgs[Held()] == old(msgs[Held()])
    {
      hide Window, Len, Ring.Contents, Queued, Lost;
      NoneArrived(Contents());
      for i := 0 to |arrivals|
        invariant Valid() && Contents() == Queued(old(Contents()), arrivals[..i])
        invariant dropped == old(dropped) + Lost(old(Contents()), arrivals[..i])
        invariant msgs[Held()] == old(msgs[Held()])
      {
        OneArrived(old(Contents()), arrivals, i);
        Put(arrivals[i]);
      }
      assert arrivals[..|arrivals|] == arrivals;
    }

    /** The main loop, while the interrupt brings in `during` between taking the oldest message and sending it: it
        sends what it took. */
    method Task(during: seq<Msg>) returns (sent: seq<Msg>)
      requires Valid()
      modifies this, msgs
      ensures Valid()
      ensures old(Contents()) == [] ==> sent == [] && Contents() == Queued([], during)
      ensures old(Contents()) != [] ==> sent == [old(Contents())[0]] && Contents() == Queued(old(Contents())[1..], during)
      ensures dropped == old(dropped) + Lost(if old(Contents()) == [] then [] else old(Contents())[1..], during)
    {
      hide Window, Len, Ring.Contents, Queued;
      var empty := IsEmpty();
      if empty {
        Burst(during);
        sent := [];
      } else {
        var m := Get();
        Burst(during);
        sent := [msgs[m]];
      }
    }

    /** Any interleaving of interrupts and turns of the main loop. */
    method Run(turns: seq<seq<Msg>>) returns (sent: seq<Msg>)
      requires Valid()
      modifies this, msgs
      ensures Valid() && Contents() == Result(old(Contents()), turns).queue
      ensures sent == Result(old(Contents()), turns).sent
      ensures dropped == old(dropped) + Result(old(Contents()), turns).dropped
    {
      hide Window, Len, Queued;
      sent := [];
      for i := 0 to |turns|
        invariant Valid() && Contents() == Result(old(Contents()), turns[..i]).queue
        invariant sent == Result(old(Contents()), turns[..i]).sent
        invariant dropped == old(dropped) + Result(old(Contents()), turns[..i]).dropped
      {
        assert turns[..i + 1][..i] == turns[..i];
        var s := Task(turns[i]);
        sent := sent + s;
      }
      assert turns[..|turns|] == turns;
    }
  }

  // ---- what the ring does to the messages ----

  function Offer(q: seq<Msg>, m: Msg): seq<Msg> { if |q| < SLOTS - 1 then q + [m] else q }

  /** The queue after a burst of arrivals. */
  function Queued(q: seq<Msg>, arrivals: seq<Msg>): (r: seq<Msg>)
    ensures |q| <= |r| <= |q| + |arrivals|
  {
    if arrivals == [] then q else Offer(Queued(q, arrivals[..|arrivals| - 1]), arrivals[|arrivals| - 1])
  }

  /** The messages of a burst that arrive while four wait. */
  function Lost(q: seq<Msg>, arrivals: seq<Msg>): seq<Msg>
  {
    if arrivals == [] then [] else
    var init, m := arrivals[..|arrivals| - 1], arrivals[|arrivals| - 1];
    Lost(q, init) + if |Queued(q, init)| < SLOTS - 1 then [] else [m]
  }

  lemma NoneArrived(q: seq<Msg>)
    ensures Queued(q, []) == q && Lost(q, []) == []
  {
  }

  lemma OneArrived(q: seq<Msg>, arrivals: seq<Msg>, i: nat)
    requires i < |arrivals|
    ensures var r, m := Queued(q, arrivals[..i]), arrivals[i];
      && Queued(q, arrivals[..i + 1]) == (if |r| < SLOTS - 1 then r + [m] else r)
      && Lost(q, arrivals[..i + 1]) == Lost(q, arrivals[..i]) + if |r| < SLOTS - 1 then [] else [m]
  {
    assert arrivals[..i + 1][..i] == arrivals[..i];
  }

  datatype Outcome = Outcome(sent: seq<Msg>, queue: seq<Msg>, dropped: seq<Msg>)

  /** A turn sends the oldest message, if there is one, and then the arrivals are queued. */
  function Turn(o: Outcome, arrivals: seq<Msg>): Outcome
  {
    var s := if o.queue == [] then o.sent else o.sent + [o.queue[0]];
    var q := if o.queue == [] then [] else o.queue[1..];
    Outcome(s, Queued(q, arrivals), o.dropped + Lost(q, arrivals))
  }

  function Result(q: seq<Msg>, turns: seq<seq<Msg>>): Outcome
  {
    if turns == [] then Outcome([], q, []) else Turn(Result(q, turns[..|turns| - 1]), turns[|turns| - 1])
  }

  /** All arrivals, in order. */
  function Arrived(turns: seq<seq<Msg>>): seq<Msg>
  {
    if turns == [] then [] else Arrived(turns[..|turns| - 1]) + turns[|turns| - 1]
  }

  /** `a` is `b` with some elements left out. */
  predicate Subsequence(a: seq<Msg>, b: seq<Msg>)
  {
    if a == [] then true
    else if b == [] then false
    else if a[|a| - 1] == b[|b| - 1] then Subsequence(a[..|a| - 1], b[..|b| - 1]) || Subsequence(a, b[..|b| - 1])
    else Subsequence(a, b[..|b| - 1])
  }

  lemma SubsequenceWith(a: seq<Msg>, b: seq<Msg>, m: Msg)
    requires Subsequence(a, b)
    ensures Subsequence(a + [m], b + [m]) && Subsequence(a, b + [m])
  {
    assert (a + [m])[..|a|] == a && (b + [m])[..|b|] == b;
  }

  lemma {:induction false} SubsequenceSelf(a: seq<Msg>)
    ensures Subsequence(a, a)
  {
    if a != [] { SubsequenceSelf(a[..|a| - 1]); }
  }

  /** Of a burst the first messages are queued until four wait, and exactly the surplus behind them is lost. */
  lemma {:induction false} BurstSize(q: seq<Msg>, arrivals: seq<Msg>)
    requires |q| <= 4
    ensures var n := if |q| + |arrivals| <= 4 then |q| + |arrivals| else 4;
      Queued(q, arrivals) == (q + arrivals)[..n] && Lost(q, arrivals) == (q + arrivals)[n..]
  {
    if arrivals != [] {
      var init := arrivals[..|arrivals| - 1];
      BurstSize(q, init);
      assert q + arrivals == q + init + [arrivals[|arrivals| - 1]];
    }
  }

  /** What stays of a burst stays in order. */
  lemma {:induction false} BurstInOrder(sent: seq<Msg>, q: seq<Msg>, all: seq<Msg>, arrivals: seq<Msg>)
    requires Subsequence(sent + q, all)
    ensures Subsequence(sent + Queued(q, arrivals), all + arrivals)
  {
    hide Subsequence;
    if arrivals == [] {
      assert all + arrivals == all;
    } else {
      var init, m := arrivals[..|arrivals| - 1], arrivals[|arrivals| - 1];
      BurstInOrder(sent, q, all, init);
      Arrives(sent, Queued(q, init), all + init, m);
      assert all + arrivals == all + init + [m];
    }
  }

  lemma Arrives(sent: seq<Msg>, q: seq<Msg>, all: seq<Msg>, m: Msg)
    requires Subsequence(sent + q, all)
    ensures Subsequence(sent + Offer(q, m), all + [m])
  {
    hide Subsequence;
    SubsequenceWith(sent + q, all, m);
    assert sent + (q + [m]) == sent + q + [m];
  }

  /** Under any interleaving the main loop sends, in order, a part of what arrived. */
  lemma {:induction false} SentInOrder(q: seq<Msg>, turns: seq<seq<Msg>>)
    ensures var o := Result(q, turns); Subsequence(o.sent + o.queue, q + Arrived(turns))
  {
    hide Subsequence, Queued;
    if turns == [] {
      SubsequenceSelf(q);
      assert q + [] == q && [] + q == q;
    } else {
      var init, arrivals := turns[..|turns| - 1], turns[|turns| - 1];
      SentInOrder(q, init);
      TurnInOrder(Result(q, init), q + Arrived(init), arrivals);
      assert q + Arrived(turns) == q + Arrived(init) + arrivals;
    }
  }

  lemma TurnInOrder(o: Outcome, all: seq<Msg>, arrivals: seq<Msg>)
    requires Subsequence(o.sent + o.queue, all)
    ensures Subsequence(Turn(o, arrivals).sent + Turn(o, arrivals).queue, all + arrivals)
  {
    hide Subsequence, Queued;
    if o.queue != [] {
      var s, r := o.sent + [o.queue[0]], o.queue[1..];
      assert s + r == o.sent + o.queue;
      BurstInOrder(s, r, all, arrivals);
    } else {
      BurstInOrder(o.sent, o.queue, all, arrivals);
    }
  }

  /** A burst ends in the queue or among the lost messages. */
  lemma {:induction false} BurstConserved(q: seq<Msg>, arrivals: seq<Msg>)
    ensures multiset(Queued(q, arrivals)) + multiset(Lost(q, arrivals)) == multiset(q) + multiset(arrivals)
  {
    if arrivals != [] {
      var init, m := arrivals[..|arrivals| - 1], arrivals[|arrivals| - 1];
      BurstConserved(q, init);
      OneConserved(Queued(q, init), Lost(q, init), m);
      assert arrivals == init + [m];
    }
  }

  lemma OneConserved(r: seq<Msg>, lost: seq<Msg>, m: Msg)
    ensures multiset(Offer(r, m)) + multiset(lost + if |r| < SLOTS - 1 then [] else [m])
         == multiset(r) + multiset(lost) + multiset{m}
  {
    assert lost + [] == lost;
  }

  /** Every message is sent, still queued, or was dropped, and none of them twice. */
  lemma {:induction false} NothingElseLost(q: seq<Msg>, turns: seq<seq<Msg>>)
    ensures var o := Result(q, turns);
      multiset(o.sent) + multiset(o.queue) + multiset(o.dropped) == multiset(q + Arrived(turns))
  {
    if turns == [] {
      assert q + [] == q;
    } else {
      var init, arrivals := turns[..|turns| - 1], turns[|turns| - 1];
      NothingElseLost(q, init);
      TurnConserved(Result(q, init), arrivals);
      assert q + Arrived(turns) == q + Arrived(init) + arrivals;
    }
  }

  lemma TurnConserved(o: Outcome, arrivals: seq<Msg>)
    ensures var p := Turn(o, arrivals);
      multiset(p.sent) + multiset(p.queue) + multiset(p.dropped) ==
      multiset(o.sent) + multiset(o.queue) + multiset(o.dropped) + multiset(arrivals)
  {
    hide Queued, Lost;
    var first, rest := if o.queue == [] then [] else [o.queue[0]], if o.queue == [] then [] else o.queue[1..];
    BurstConserved(rest, arrivals);
    assert o.queue == first + rest && o.sent + [] == o.sent;
    assert multiset(o.queue) == multiset(first) + multiset(rest);
    var queue, lost := Queued(rest, arrivals), Lost(rest, arrivals);
    assert Turn(o, arrivals) == Outcome(o.sent + first, queue, o.dropped + lost);
    Regrouped(multiset(o.sent), multiset(first), multiset(rest), multiset(o.dropped), multiset(arrivals), multiset(queue),
              multiset(lost));
  }

  lemma Regrouped(sent: multiset<Msg>, first: multiset<Msg>, rest: multiset<Msg>, dropped: multiset<Msg>,
                  arrivals: multiset<Msg>, queue: multiset<Msg>, lost: multiset<Msg>)
    requires queue + lost == rest + arrivals
    ensures (sent + first) + queue + (dropped + lost) == sent + (first + rest) + dropped + arrivals
  {
    forall m: Msg
      ensures ((sent + first) + queue + (dropped + lost))[m] == (sent + (first + rest) + dropped + arrivals)[m]
    {
      assert (queue + lost)[m] == (rest + arrivals)[m];
    }
  }

  /** With at most one arrival a turn nothing is ever dropped. */
  lemma {:induction false} SteadyLoad(q: seq<Msg>, turns: seq<seq<Msg>>)
    requires |q| < SLOTS && forall i :: 0 <= i < |turns| ==> |turns[i]| <= 1
    ensures Result(q, turns).dropped == [] && |Result(q, turns).queue| < SLOTS
  {
    if turns != [] {
      var init, arrivals := turns[..|turns| - 1], turns[|turns| - 1];
      SteadyLoad(q, init);
      var o := Result(q, init);
      var r := if o.queue == [] then [] else o.queue[1..];
      BurstSize(r, arrivals);
    }
  }
}
