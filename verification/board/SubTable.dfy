/** The end device's table of subscriptions. */
module SubTable {
  import opened Bytes

  const MAX_SUBS: nat := 20
  const DEV_TEMP: nat := 0x10
  const DEV_BTN: nat := 0x30
  const ACT_GTE: nat := 0x10
  const ACT_LTE: nat := 0x20
  const ACT_DIF: nat := 0x30

  datatype Sub = Sub(addrHi: Dword, addrLo: Dword, periphId: nat, act: nat, value: Dword, last: Dword)

  /** What the device sends: the answer to a request, and the value of a peripheral. */
  datatype Sent = SubResponse(hi: Dword, lo: Dword, id: nat) | Value(hi: Dword, lo: Dword, periphId: nat)

  predicate Free(s: Sub) { s.addrHi == 0 && s.addrLo == 0 }

  predicate Live(s: Sub) { s.addrHi != 0 && s.addrLo != 0 }

  /** The request the slot was made for. */
  predicate IsFor(s: Sub, hi: Dword, lo: Dword, act: nat, pId: nat, value: Dword)
  {
    s.addrHi == hi && s.addrLo == lo && s.periphId == pId && s.act == act && s.value == value
  }

  /** Number of live subscriptions among the first `n` slots. */
  function Count(subs: seq<Sub>, n: nat): (c: nat)
    requires n <= |subs|
    ensures c <= n
  {
    if n == 0 then 0 else Count(subs, n - 1) + if Live(subs[n - 1]) then 1 else 0
  }

  /** Changing one slot changes the number by the liveness of that slot. */
  lemma {:induction false} CountChanged(subs: seq<Sub>, i: nat, s: Sub, n: nat)
    requires i < |subs| && n <= |subs|
    ensures Count(subs[i := s], n) + (if i < n && Live(subs[i]) then 1 else 0)
         == Count(subs, n) + (if i < n && Live(s) then 1 else 0)
  {
    if n > 0 { CountChanged(subs, i, s, n - 1); }
  }

  lemma {:induction false} CountNone(subs: seq<Sub>, n: nat)
    requires n <= |subs|
    ensures Count(subs, n) == 0 <==> forall i :: 0 <= i < n ==> !Live(subs[i])
  {
    if n > 0 { CountNone(subs, n - 1); }
  }

  /** Every slot is free or live, live ones watch a peripheral the device has, no subscription occurs twice, and
      the counter is the number of live ones. */
  ghost predicate TableOk(subs: seq<Sub>, num: nat)
  {
    && |subs| == MAX_SUBS && num == Count(subs, MAX_SUBS)
    && (forall i :: 0 <= i < MAX_SUBS ==> Free(subs[i]) || Live(subs[i]))
    && (forall i :: 0 <= i < MAX_SUBS && Live(subs[i]) ==> subs[i].periphId == DEV_TEMP || subs[i].periphId == DEV_BTN)
    && forall i, j :: 0 <= i < j < MAX_SUBS && Live(subs[i]) ==>
         !IsFor(subs[j], subs[i].addrHi, subs[i].addrLo, subs[i].act, subs[i].periphId, subs[i].value)
  }

  /** The slot of a subscription, from `i` on. */
  function FindSub(subs: seq<Sub>, hi: Dword, lo: Dword, act: nat, pId: nat, value: Dword, i: nat): (k: nat)
    requires i <= |subs|
    ensures i <= k <= |subs| && (k < |subs| ==> IsFor(subs[k], hi, lo, act, pId, value))
    ensures forall j :: i <= j < k ==> !IsFor(subs[j], hi, lo, act, pId, value)
    decreases |subs| - i
  {
    if i == |subs| || IsFor(subs[i], hi, lo, act, pId, value) then i else FindSub(subs, hi, lo, act, pId, value, i + 1)
  }

  /** The first free slot from `i` on. */
  function FirstFree(subs: seq<Sub>, i: nat): (f: nat)
    requires i <= |subs|
    ensures i <= f <= |subs| && (f < |subs| ==> Free(subs[f])) && forall j :: i <= j < f ==> !Free(subs[j])
    decreases |subs| - i
  {
    if i == |subs| || Free(subs[i]) then i else FirstFree(subs, i + 1)
  }

  /** What a request asks for: a peripheral and a 32-bit value. */
  datatype Request = Nothing | Wants(pId: nat, value: Dword)

  /** The sixteen-bit value of a temperature request is signed; a button value must be 0 or 1. */
  function ParseRequest(buf: seq<Byte>, len: int): Request
    requires |buf| >= 3
  {
    if len < 2 then Nothing
    else if buf[0] == DEV_TEMP then
      var w := 0x100 * buf[1] as int + buf[2] as int;
      Wants(DEV_TEMP, if w >= 0x8000 then DWORD - 0x1_0000 + w else w)
    else if buf[0] == DEV_BTN && buf[1] <= 1 then Wants(DEV_BTN, buf[1])
    else Nothing
  }

  /** A temperature request carries a signed number in two bytes, high byte first; the value compared with is the
      same number in 32-bit two's complement. */
  lemma TemperatureAsked(buf: seq<Byte>, len: int, t: int)
    requires |buf| >= 3 && len >= 2 && -0x8000 <= t < 0x8000
    requires buf[0] == 0x10 && buf[1] == t % 0x1_0000 / 0x100 && buf[2] == t % 0x100
    ensures ParseRequest(buf, len) == Wants(0x10, t % 0x1_0000_0000)
  {
    var w := t % 0x1_0000;
    assert 0x100 * (w / 0x100) + w % 0x100 == w && w % 0x100 == t % 0x100;
    assert t >= 0 ==> w == t && t % 0x1_0000_0000 == t;
    assert t < 0 ==> w == t + 0x1_0000 && t % 0x1_0000_0000 == t + 0x1_0000_0000;
  }

  /** A button request asks for 0 or 1, and no request but these two is taken. */
  lemma RequestsTaken(buf: seq<Byte>, len: int)
    requires |buf| >= 3
    ensures ParseRequest(buf, len) != Nothing <==> len >= 2 && (buf[0] == 0x10 || (buf[0] == 0x30 && buf[1] <= 1))
    ensures len >= 2 && buf[0] == 0x30 && buf[1] <= 1 ==> ParseRequest(buf, len) == Wants(0x30, buf[1])
  {
  }

  // ---- the values that are sent ----

  /** A new reading that the subscriber wants to hear of. */
  predicate Fires(s: Sub, read: Dword)
  {
    if s.act == ACT_GTE then s.last < s.value && read >= s.value
    else if s.act == ACT_LTE then s.last > s.value && read <= s.value
    else s.act == ACT_DIF && ((s.last > read && s.last - read > s.value) || (read > s.last && read - s.last > s.value))
  }

  /** The subscription after a reading: thresholds remember the reading, differences what was sent. */
  function Noted(s: Sub, read: Dword): Sub
  {
    if s.act == ACT_GTE || s.act == ACT_LTE || (s.act == ACT_DIF && Fires(s, read)) then s.(last := read) else s
  }

  function ReadingOf(s: Sub, trim: Dword, btn: Dword): Dword { if s.periphId == DEV_TEMP then trim else btn }

  function Scanned(s: Sub, trim: Dword, btn: Dword): Sub
  {
    if Live(s) then Noted(s, ReadingOf(s, trim, btn)) else s
  }

  function SentFor(s: Sub, trim: Dword, btn: Dword): seq<Sent>
  {
    if Live(s) && Fires(s, ReadingOf(s, trim, btn)) then [Value(s.addrHi, s.addrLo, s.periphId)] else []
  }

  function AllSent(subs: seq<Sub>, trim: seq<Dword>, btn: seq<Dword>, n: nat): seq<Sent>
    requires n <= |subs| && |trim| == |btn| == |subs|
  {
    if n == 0 then [] else AllSent(subs, trim, btn, n - 1) + SentFor(subs[n - 1], trim[n - 1], btn[n - 1])
  }

  /** Among the messages of a turn are those of every slot and no others. */
  lemma {:induction false} SentExactly(subs: seq<Sub>, trim: seq<Dword>, btn: seq<Dword>, n: nat, m: Sent)
    requires n <= |subs| && |trim| == |btn| == |subs|
    ensures m in AllSent(subs, trim, btn, n) <==> exists i :: 0 <= i < n && m in SentFor(subs[i], trim[i], btn[i])
  {
    hide SentFor;
    if n > 0 { SentExactly(subs, trim, btn, n - 1, m); }
  }

  /** A subscription after a series of readings. */
  function After(s: Sub, readings: seq<Dword>): Sub
  {
    if readings == [] then s else Noted(After(s, readings[..|readings| - 1]), readings[|readings| - 1])
  }

  /** A threshold subscription reports a reading exactly when it crosses the threshold from the reading before. */
  lemma {:induction false} ThresholdCrossed(s: Sub, readings: seq<Dword>, read: Dword)
    requires s.act == 0x10 || s.act == 0x20
    ensures var before := if readings == [] then s.last else readings[|readings| - 1];
      Fires(After(s, readings), read) <==>
        if s.act == 0x10 then before < s.value <= read else before > s.value >= read
  {
    AfterKeeps(s, readings);
  }

  lemma {:induction false} AfterKeeps(s: Sub, readings: seq<Dword>)
    ensures After(s, readings) == s.(last := After(s, readings).last)
    ensures (s.act == ACT_GTE || s.act == ACT_LTE) && readings != [] ==> After(s, readings).last == readings[|readings| - 1]
  {
    if readings != [] { AfterKeeps(s, readings[..|readings| - 1]); }
  }

  /** While a difference subscription stays silent its reference does not move, so slow drift adds up. */
  lemma {:induction false} SilentDrift(s: Sub, readings: seq<Dword>, read: Dword)
    requires s.act == 0x30 && forall i :: 0 <= i < |readings| ==> !Fires(After(s, readings[..i]), readings[i])
    ensures After(s, readings) == s
    ensures Fires(After(s, readings), read) <==> read > s.last + s.value || s.last > read + s.value
  {
    if readings != [] {
      var init := readings[..|readings| - 1];
      assert forall i :: 0 <= i < |init| ==> init[..i] == readings[..i] && init[i] == readings[i];
      SilentDrift(s, init, read);
      assert readings[..|readings| - 1] == init;
    }
  }

  /** A subscription after `n` turns of the device. */
  function Turns(s: Sub, trim: seq<Dword>, btn: seq<Dword>, n: nat): Sub
    requires n <= |trim| == |btn|
  {
    if n == 0 then s else Scanned(Turns(s, trim, btn, n - 1), trim[n - 1], btn[n - 1])
  }

  /** The readings that a subscription sees are those of its peripheral: 0x10 the temperature, 0x30 the button. */
  lemma {:induction false} TurnsAreReadings(s: Sub, trim: seq<Dword>, btn: seq<Dword>, n: nat)
    requires n <= |trim| == |btn| && s.addrHi != 0 && s.addrLo != 0
    ensures s.periphId == 0x10 ==> Turns(s, trim, btn, n) == After(s, trim[..n])
    ensures s.periphId == 0x30 ==> Turns(s, trim, btn, n) == After(s, btn[..n])
  {
    if n > 0 {
      TurnsAreReadings(s, trim, btn, n - 1);
      assert trim[..n][..n - 1] == trim[..n - 1] && btn[..n][..n - 1] == btn[..n - 1];
      AfterKeeps(s, trim[..n - 1]);
      AfterKeeps(s, btn[..n - 1]);
    }
  }

  /** Turn by turn a threshold subscription sends one value to its subscriber when the reading of its peripheral
      crosses the threshold, and nothing otherwise. */
  lemma TurnSends(s: Sub, trim: seq<Dword>, btn: seq<Dword>, n: nat, rs: seq<Dword>)
    requires n < |trim| == |btn| && s.addrHi != 0 && s.addrLo != 0 && (s.act == 0x10 || s.act == 0x20)
    requires (s.periphId == 0x10 && rs == trim) || (s.periphId == 0x30 && rs == btn)
    ensures var before := if n == 0 then s.last else rs[n - 1];
      var crosses := if s.act == 0x10 then before < s.value <= rs[n] else before > s.value >= rs[n];
      SentFor(Turns(s, trim, btn, n), trim[n], btn[n]) == if crosses then [Value(s.addrHi, s.addrLo, s.periphId)] else []
  {
    hide Fires;
    TurnsAreReadings(s, trim, btn, n);
    AfterKeeps(s, rs[..n]);
    ThresholdCrossed(s, rs[..n], rs[n]);
  }

  // ---- steps ----

  lemma AddedOk(subs: seq<Sub>, num: nat, f: nat, s: Sub)
    requires TableOk(subs, num) && f < MAX_SUBS && Free(subs[f]) && (s.periphId == DEV_TEMP || s.periphId == DEV_BTN)
    requires FindSub(subs, s.addrHi, s.addrLo, s.act, s.periphId, s.value, 0) == MAX_SUBS
    ensures num <= MAX_SUBS && (TableOk(subs[f := s], num + 1) <==> Live(s))
  {
    CountChanged(subs, f, s, MAX_SUBS);
    var after := subs[f := s];
    assert after[f] == s && forall k :: 0 <= k < MAX_SUBS && k != f ==> after[k] == subs[k];
  }

  lemma ClearedOk(subs: seq<Sub>, num: nat, i: nat)
    requires TableOk(subs, num) && i < MAX_SUBS && Live(subs[i])
    ensures num > 0 && TableOk(subs[i := subs[i].(addrHi := 0, addrLo := 0)], num - 1)
  {
    var s := subs[i].(addrHi := 0, addrLo := 0);
    CountChanged(subs, i, s, MAX_SUBS);
    var after := subs[i := s];
    assert after[i] == s && forall k :: 0 <= k < MAX_SUBS && k != i ==> after[k] == subs[k];
  }

  lemma NotedOk(subs: seq<Sub>, num: nat, i: nat, last: Dword)
    requires TableOk(subs, num) && i < MAX_SUBS
    ensures TableOk(subs[i := subs[i].(last := last)], num)
  {
    var s := subs[i].(last := last);
    CountChanged(subs, i, s, MAX_SUBS);
    var after := subs[i := s];
    assert after[i] == s && forall k :: 0 <= k < MAX_SUBS && k != i ==> after[k] == subs[k];
  }

  class Table {
    const subs: array<Sub>
    var subNum: Byte
    ghost var log: seq<Sent>

    constructor ()
      ensures Valid() && fresh(subs) && subNum == 0 && log == []
    {
      subs := new Sub[MAX_SUBS](_ => Sub(0, 0, 0, 0, 0, 0));
      subNum := 0;
      log := [];
      new;
      CountNone(subs[..], MAX_SUBS);
    }

    ghost predicate Valid()
      reads this, subs
    {
      subs.Length == MAX_SUBS && TableOk(subs[..], subNum)
    }

    /** Id of an existing subscription, or 0. */
    method SubscriptionExists(hi: Dword, lo: Dword, act: nat, pId: nat, value: Dword) returns (id: nat)
      requires subs.Length == MAX_SUBS
      ensures var k := FindSub(subs[..], hi, lo, act, pId, value, 0); id == if k < MAX_SUBS then k + 1 else 0
    {
      id := 0;
      var i := 0;
      while i < MAX_SUBS
        invariant i <= MAX_SUBS && id == 0
        invariant FindSub(subs[..], hi, lo, act, pId, value, 0) == FindSub(subs[..], hi, lo, act, pId, value, i)
      {
        if subs[i].addrHi == hi && subs[i].addrLo == lo && subs[i].periphId == pId && subs[i].act == act
           && subs[i].value == value {
          return i + 1;
        }
        i := i + 1;
      }
    }

    /** Answers a subscription request: with the id of the same subscription if there is one, else with that of
        a new one, and not at all when the request is bad or the table full. The table stays sound except when
        it takes an address with a zero half. */
    method HandleSubscribe(hi: Dword, lo: Dword, act: nat, buf: seq<Byte>, len: int, trim: Dword, btn: Dword)
      requires Valid() && |buf| >= 3
      modifies this, subs
      ensures subs.Length == MAX_SUBS
      ensures
        var was, req := old(subs[..]), ParseRequest(buf, len);
        if req == Nothing then subs[..] == was && subNum == old(subNum) && log == old(log) else
        var k, f := FindSub(was, hi, lo, act, req.pId, req.value, 0), FirstFree(was, 0);
        if k < MAX_SUBS then subs[..] == was && subNum == old(subNum) && log == old(log) + [SubResponse(hi, lo, k + 1)]
        else if f < MAX_SUBS then
          && subs[..] == was[f := Sub(hi, lo, req.pId, act, req.value, if req.pId == DEV_TEMP then trim else btn)]
          && subNum as int == old(subNum) as int + 1 && log == old(log) + [SubResponse(hi, lo, f + 1)]
        else subs[..] == was && subNum == old(subNum) && log == old(log)
      ensures Valid() <==>
        var was, req := old(subs[..]), ParseRequest(buf, len);
        || req == Nothing || FindSub(was, hi, lo, act, req.pId, req.value, 0) < MAX_SUBS
        || FirstFree(was, 0) == MAX_SUBS || (hi != 0 && lo != 0)
    {
      hide TableOk;
      var pId, val, cval: Dword := 0, 0, 0;
      if len < 2 { return; }
      if buf[0] == DEV_TEMP {
        var w := 0x100 * buf[1] as int + buf[2] as int;
        val := if w >= 0x8000 then DWORD - 0x1_0000 + w else w;
        pId := DEV_TEMP;
        cval := trim;
      } else if buf[0] == DEV_BTN {
        val := buf[1];
        if val == 0 || val == 1 {
          pId := DEV_BTN;
          cval := btn;
        }
      }
      if pId == 0 { return; }
      var id := SubscriptionExists(hi, lo, act, pId, val);
      if id != 0 {
        log := log + [SubResponse(hi, lo, id)];
        return;
      }
      var i := 0;
      while i < MAX_SUBS && !(subs[i].addrHi == 0 && subs[i].addrLo == 0)
        invariant i <= MAX_SUBS && FirstFree(subs[..], 0) == FirstFree(subs[..], i)
      {
        i := i + 1;
      }
      if i < MAX_SUBS {
        ghost var was := subs[..];
        AddedOk(was, subNum, i, Sub(hi, lo, pId, act, val, cval));
        subs[i] := Sub(hi, lo, pId, act, val, cval);
        subNum := (subNum + 1) % 0x100;
        log := log + [SubResponse(hi, lo, i + 1)];
      }
    }

    /** Drops a subscription of the sender. The table stays sound except when a free slot answers to the zero
        address. */
    method HandleUnsubscribe(hi: Dword, lo: Dword, subId: Byte)
      requires Valid()
      modifies this, subs
      ensures subs.Length == MAX_SUBS && log == old(log)
      ensures
        var was := old(subs[..]);
        if 1 <= subId <= MAX_SUBS && was[subId - 1].addrHi == hi && was[subId - 1].addrLo == lo
        then subs[..] == was[subId - 1 := was[subId - 1].(addrHi := 0, addrLo := 0)] && subNum == (old(subNum) + 0xFF) % 0x100
        else subs[..] == was && subNum == old(subNum)
      ensures Valid() <==>
        !(1 <= subId <= MAX_SUBS && hi == 0 && lo == 0 && Free(old(subs[..])[subId - 1]))
    {
      if subId == 0 { return; }
      var i := subId - 1;
      if i >= MAX_SUBS { return; }
      if subs[i].addrHi == hi && subs[i].addrLo == lo {
        ghost var was := subs[..];
        if Live(was[i]) { ClearedOk(was, subNum, i); }
        subNum := (subNum + 0xFF) % 0x100;
        subs[i] := subs[i].(addrHi := 0, addrLo := 0);
        if !Live(was[i]) { CountChanged(was, i, subs[i], MAX_SUBS); }
      }
    }

    /** The device's turn: looks at every live subscription and sends what has fired. The peripherals are read
        once for every slot. Skipping the loop when the counter is 0 makes no difference. */
    method Task(trim: seq<Dword>, btn: seq<Dword>)
      requires Valid() && |trim| == |btn| == MAX_SUBS
      modifies this, subs
      ensures Valid() && subNum == old(subNum) && |old(subs[..])| == MAX_SUBS
      ensures log == old(log) + AllSent(old(subs[..]), trim, btn, MAX_SUBS)
      ensures forall i :: 0 <= i < MAX_SUBS ==> subs[i] == Scanned(old(subs[i]), trim[i], btn[i])
    {
      if subNum != 0 {
        var i := 0;
        while i < MAX_SUBS
          invariant i <= MAX_SUBS && Valid() && subNum == old(subNum)
          invariant log == old(log) + AllSent(old(subs[..]), trim, btn, i)
          invariant forall k :: 0 <= k < MAX_SUBS ==>
            subs[k] == if k < i then Scanned(old(subs[k]), trim[k], btn[k]) else old(subs[k])
        {
          Slot(i, trim[i], btn[i]);
          i := i + 1;
        }
      } else {
        CountNone(subs[..], MAX_SUBS);
        NothingSent(subs[..], trim, btn, MAX_SUBS);
      }
    }

    method Slot(i: nat, trim: Dword, btn: Dword)
      requires Valid() && i < MAX_SUBS
      modifies this`log, subs
      ensures Valid() && log == old(log) + SentFor(old(subs[i]), trim, btn)
      ensures subs[..] == old(subs[..])[i := Scanned(old(subs[i]), trim, btn)]
    {
      ghost var was := subs[..];
      var s := subs[i];
      if s.addrHi != 0 && s.addrLo != 0 {
        var read: Dword := if s.periphId == DEV_TEMP then trim else btn;
        var update := false;
        NotedOk(was, subNum, i, read);
        if s.act == ACT_GTE {
          if s.last < s.value && read >= s.value { update := true; }
          subs[i] := s.(last := read);
        } else if s.act == ACT_LTE {
          if s.last > s.value && read <= s.value { update := true; }
          subs[i] := s.(last := read);
        } else if s.act == ACT_DIF {
          if (s.last > read && s.last - read > s.value) || (read > s.last && read - s.last > s.value) {
            update := true;
            subs[i] := s.(last := read);
          }
        }
        if update {
          log := log + [Value(s.addrHi, s.addrLo, s.periphId)];
        }
      }
    }
  }

  lemma {:induction false} NothingSent(subs: seq<Sub>, trim: seq<Dword>, btn: seq<Dword>, n: nat)
    requires n <= |subs| && |trim| == |btn| == |subs| && forall i :: 0 <= i < n ==> !Live(subs[i])
    ensures AllSent(subs, trim, btn, n) == []
  {
    if n > 0 { NothingSent(subs, trim, btn, n - 1); }
  }
}
