/** Frames of the radio module: building them, and receiving them byte by byte. */
module Xbee {
  import opened Bytes

  const START_DEL: Byte := 0x7E
  const BUF_SZ: nat := 200
  const RECV_TIME: nat := 2000
  const ID_TX_64: Byte := 0x00
  const ID_AT_CMD: Byte := 0x08
  const ID_RX_64: Byte := 0x80
  const ID_MOD_STAT: Byte := 0x8A
  const ID_AT_RESP: Byte := 0x88
  const ID_TX_STAT: Byte := 0x89

  // ---- words and checksums ----

  /** The four bytes of a word, most significant first. */
  function ToBytes(v: Dword): (b: seq<Byte>)
    ensures |b| == 4
  {
    [v / 0x100_0000, v / 0x1_0000 % 0x100, v / 0x100 % 0x100, v % 0x100]
  }

  function FromBytes(b: seq<Byte>): Dword
    requires |b| == 4
  {
    0x100_0000 * b[0] as int + 0x1_0000 * b[1] as int + 0x100 * b[2] as int + b[3] as int
  }

  lemma WordRoundTrip(v: Dword)
    ensures FromBytes(ToBytes(v)) == v
  {
    assert v / 0x100 == v / 0x1_0000 * 0x100 + v / 0x100 % 0x100;
    assert v / 0x1_0000 == v / 0x100_0000 * 0x100 + v / 0x1_0000 % 0x100;
  }

  function Sum(b: seq<Byte>): nat { if b == [] then 0 else Sum(b[..|b| - 1]) + b[|b| - 1] }

  /** The check byte: what brings the sum of the bytes to 0xFF. */
  function Check(b: seq<Byte>): Byte { 0xFF - Sum(b) % 0x100 }

  lemma SumOfNone()
    ensures Sum([]) == 0
  {
  }

  lemma SumOfMore(b: seq<Byte>, x: Byte)
    ensures Sum(b + [x]) == Sum(b) + x
    ensures (Sum(b) % 0x100 + x) % 0x100 == Sum(b + [x]) % 0x100
  {
    assert (b + [x])[..|b|] == b;
  }

  method Checksum(buf: array<Byte>, at: nat, len: nat) returns (r: Byte)
    requires at + len <= buf.Length
    ensures r == Check(buf[at..at + len])
  {
    hide Sum;
    var cs: Byte := 0;
    SumOfNone();
    assert buf[at..at + 0] == [];
    for i := 0 to len
      invariant cs as int == Sum(buf[at..at + i]) % 0x100
    {
      assert buf[at..at + i + 1] == buf[at..at + i] + [buf[at + i]];
      SumOfMore(buf[at..at + i], buf[at + i]);
      cs := (cs + buf[at + i]) % 0x100;
    }
    r := 0xFF - cs;
  }

  /** Bytes followed by their check byte sum up to checksum 0. */
  lemma CheckedIsZero(b: seq<Byte>)
    ensures Check(b + [Check(b)]) == 0
  {
    var c := b + [Check(b)];
    assert c[..|c| - 1] == b;
  }

  lemma {:induction false} SumChanged(b: seq<Byte>, i: nat, x: Byte)
    requires i < |b|
    ensures Sum(b[i := x]) == Sum(b) - b[i] + x
  {
    var c := b[i := x];
    if i == |b| - 1 {
      assert c[..|c| - 1] == b[..|b| - 1];
    } else {
      assert c[..|c| - 1] == b[..|b| - 1][i := x];
      SumChanged(b[..|b| - 1], i, x);
    }
  }

  /** A frame with one byte damaged, its check byte included, does not pass. */
  lemma DamageDetected(b: seq<Byte>, i: nat, x: Byte)
    requires i < |b| && Check(b) == 0 && x != b[i]
    ensures Check(b[i := x]) != 0
  {
    SumChanged(b, i, x);
  }

  // ---- building frames ----

  /** A frame on the wire: delimiter, length, payload, check byte. */
  function Frame(p: seq<Byte>): seq<Byte>
    requires |p| < 0x1_0000
  {
    [START_DEL, |p| / 0x100, |p| % 0x100] + p + [Check(p)]
  }

  function TxPayload(hi: Dword, lo: Dword, id: Byte, data: seq<Byte>): seq<Byte>
  {
    [ID_TX_64, id] + ToBytes(hi) + ToBytes(lo) + [0] + data
  }

  function AtPayload(cmd: seq<Byte>, id: Byte, param: Dword, setParam: bool): seq<Byte>
    requires |cmd| == 2
  {
    [ID_AT_CMD, id] + cmd + if setParam then ToBytes(param) else []
  }

  /** The four bytes from `i` on are the word, most significant first. */
  predicate WordAt(f: seq<Byte>, i: nat, v: Dword)
    requires i + 4 <= |f|
  {
    0x100_0000 * f[i] as int + 0x1_0000 * f[i + 1] as int + 0x100 * f[i + 2] as int + f[i + 3] as int == v
  }

  /** A frame on the wire, byte by byte: 0x7E, the length with its high byte first, the payload, and a last byte that
      brings the sum of all behind the length to 0xFF. */
  lemma FrameOnWire(p: seq<Byte>)
    requires |p| < 0x1_0000
    ensures var f := Frame(p);
      && |f| == |p| + 4 && f[0] == 0x7E && 0x100 * f[1] as int + f[2] as int == |p| && f[3..3 + |p|] == p
      && Sum(f[3..]) % 0x100 == 0xFF
  {
    hide Sum;
    var f := Frame(p);
    assert f[3..] == p + [Check(p)] && f[3..3 + |p|] == p;
    SumOfMore(p, Check(p));
  }

  /** Data to a 64-bit address: frame type 0x00, frame id, address, options 0, data. */
  lemma TxOnWire(hi: Dword, lo: Dword, id: Byte, data: seq<Byte>)
    ensures var p := TxPayload(hi, lo, id, data);
      && |p| == 11 + |data| && p[0] == 0x00 && p[1] == id && WordAt(p, 2, hi) && WordAt(p, 6, lo) && p[10] == 0
      && p[11..] == data
  {
    WordRoundTrip(hi);
    WordRoundTrip(lo);
  }

  /** An AT command: frame type 0x08, frame id, the two letters, and the parameter if there is one. */
  lemma AtOnWire(cmd: seq<Byte>, id: Byte, param: Dword)
    requires |cmd| == 2
    ensures AtPayload(cmd, id, param, false) == [0x08, id, cmd[0], cmd[1]]
    ensures var p := AtPayload(cmd, id, param, true);
      |p| == 8 && p[..4] == [0x08, id, cmd[0], cmd[1]] && WordAt(p, 4, param)
  {
    WordRoundTrip(param);
  }

  class Sender {
    var frameId: Byte

    constructor ()
      ensures frameId == 1
    {
      frameId := 1;
    }

    /** The next frame id, never 0. */
    method GetFrameId() returns (id: Byte)
      modifies this
      ensures id == frameId == (if old(frameId) == 0xFF then 1 else old(frameId) + 1) && id != 0
    {
      frameId := (frameId + 1) % 0x100;
      if frameId == 0 { frameId := 1; }
      id := frameId;
    }

    /** Sends data to a 64-bit address, 20 bytes at most. */
    method ApiTx64(hi: Dword, lo: Dword, data: seq<Byte>) returns (ok: bool, sent: seq<Byte>)
      modifies this
      ensures ok == (|data| <= 20)
      ensures ok ==> |TxPayload(hi, lo, frameId, data)| < 0x100 && sent == Frame(TxPayload(hi, lo, frameId, data))
      ensures !ok ==> sent == [] && frameId == old(frameId)
    {
      hide Check, ToBytes;
      if |data| > 20 { return false, []; }
      var buf := new Byte[35](_ => 0);
      var len := 11 + |data|;
      var id := GetFrameId();
      Put(buf, 0, [START_DEL, 0, len, ID_TX_64, id]);
      Put(buf, 5, ToBytes(hi));
      Put(buf, 9, ToBytes(lo));
      Put(buf, 13, [0]);
      Put(buf, 14, data);
      sent := Seal(buf, len, TxPayload(hi, lo, id, data));
      ok := true;
    }

    /** Sends an AT command, with or without a parameter. */
    method ApiAtCmd(cmd: seq<Byte>, param: Dword, setParam: bool) returns (sent: seq<Byte>)
      requires |cmd| == 2
      modifies this
      ensures |AtPayload(cmd, frameId, param, setParam)| < 0x100 && sent == Frame(AtPayload(cmd, frameId, param, setParam))
    {
      hide Check, ToBytes;
      var buf := new Byte[12](_ => 0);
      var id := GetFrameId();
      Put(buf, 0, [START_DEL, 0, if setParam then 8 else 4, ID_AT_CMD, id]);
      Put(buf, 5, cmd);
      if setParam { Put(buf, 7, ToBytes(param)); }
      sent := Seal(buf, if setParam then 8 else 4, AtPayload(cmd, id, param, setParam));
    }

    /** Puts the check byte behind the payload `p` that was built in the buffer. */
    method Seal(buf: array<Byte>, n: nat, ghost p: seq<Byte>) returns (sent: seq<Byte>)
      requires n == |p| < 0x100 && n + 4 <= buf.Length && buf[..n + 3] == [START_DEL, 0, n] + p
      modifies buf
      ensures sent == Frame(p)
    {
      hide Check;
      assert buf[3..3 + n] == buf[..n + 3][3..] == p;
      var cs := Checksum(buf, 3, n);
      buf[3 + n] := cs;
      sent := buf[..4 + n];
      assert sent == [START_DEL, 0, n] + p + [cs];
    }
  }

  /** Copies bytes into a buffer. */
  method Put(buf: array<Byte>, at: nat, bytes: seq<Byte>)
    requires at + |bytes| <= buf.Length
    modifies buf
    ensures buf[..at + |bytes|] == old(buf[..at]) + bytes
  {
    for i := 0 to |bytes|
      invariant buf[..at + i] == old(buf[..at]) + bytes[..i]
    {
      buf[at + i] := bytes[i];
    }
    assert bytes[..|bytes|] == bytes;
  }

  // ---- receiving ----

  datatype Phase = AwaitStart | Length | Data

  /** The receiver: phase, announced length, bytes counted, bytes of the frame at hand, and the frames that were
      handed on. */
  datatype Rx = Rx(phase: Phase, len: nat, pos: nat, data: seq<Byte>, frames: seq<seq<Byte>>)

  function Step(s: Rx, b: Byte): Rx
  {
    match s.phase
    case AwaitStart => if b == START_DEL then Rx(Length, 0, 0, [], s.frames) else s
    case Length =>
      if s.pos == 0 then Rx(Length, 0x100 * b as int, 1, [], s.frames)
      else Rx(Data, Min(s.len + b, BUF_SZ), 0, [], s.frames)
    case Data =>
      if s.pos == s.len then Rx(AwaitStart, s.len, s.pos + 1, [], s.frames + [s.data + [b]])
      else Rx(Data, s.len, s.pos + 1, s.data + [b], s.frames)
  }

  function Feed(s: Rx, bytes: seq<Byte>): Rx
    decreases |bytes|
  {
    if bytes == [] then s else Feed(Step(s, bytes[0]), bytes[1..])
  }

  /** The next byte has no place in the buffer. */
  predicate Full(s: Rx) { s.phase == Data && s.pos >= BUF_SZ }

  predicate NeverFull(s: Rx, bytes: seq<Byte>)
    decreases |bytes|
  {
    bytes == [] || (!Full(s) && NeverFull(Step(s, bytes[0]), bytes[1..]))
  }

  lemma {:induction false} FeedMore(s: Rx, a: seq<Byte>, b: seq<Byte>)
    ensures Feed(s, a + b) == Feed(Feed(s, a), b)
    ensures NeverFull(s, a) && NeverFull(Feed(s, a), b) ==> NeverFull(s, a + b)
    decreases |a|
  {
    if a == [] {
      assert a + b == b;
    } else {
      assert (a + b)[0] == a[0] && (a + b)[1..] == a[1..] + b;
      FeedMore(Step(s, a[0]), a[1..], b);
    }
  }

  /** What one frame in the stream looks like: other bytes without a delimiter, then the frame. */
  datatype Item = Item(gap: seq<Byte>, payload: seq<Byte>)

  predicate Sendable(i: Item) { START_DEL !in i.gap && |i.payload| < BUF_SZ }

  function Stream(items: seq<Item>): seq<Byte>
    requires forall i :: 0 <= i < |items| ==> Sendable(items[i])
  {
    if items == [] then [] else
    var last := items[|items| - 1];
    assert Sendable(last);
    Stream(items[..|items| - 1]) + last.gap + Frame(last.payload)
  }

  /** A payload and its check byte: what the frame handler gets. */
  function Checked(p: seq<Byte>): seq<Byte> { p + [Check(p)] }

  function AllChecked(items: seq<Item>): (r: seq<seq<Byte>>)
    ensures |r| == |items| && forall i :: 0 <= i < |items| ==> r[i] == Checked(items[i].payload)
  {
    seq(|items|, i requires 0 <= i < |items| => Checked(items[i].payload))
  }

  lemma {:induction false} GapSkipped(s: Rx, gap: seq<Byte>)
    requires s.phase == AwaitStart && START_DEL !in gap
    ensures Feed(s, gap) == s && NeverFull(s, gap)
  {
    if gap != [] { GapSkipped(s, gap[1..]); }
  }

  /** The data bytes of a frame, and at its end the check byte. */
  lemma {:induction false} DataReceived(s: Rx, rest: seq<Byte>)
    requires s.phase == Data && |rest| > 0 && s.pos + |rest| == s.len + 1 && s.len < BUF_SZ
    ensures NeverFull(s, rest)
    ensures Feed(s, rest) == Rx(AwaitStart, s.len, s.len + 1, [], s.frames + [s.data + rest])
    decreases |rest|
  {
    if |rest| == 1 {
      assert rest == [rest[0]];
    } else {
      DataReceived(Step(s, rest[0]), rest[1..]);
      assert s.data + [rest[0]] + rest[1..] == s.data + rest;
    }
  }

  lemma FeedOne(s: Rx, b: Byte, rest: seq<Byte>)
    ensures Feed(s, [b] + rest) == Feed(Step(s, b), rest)
    ensures NeverFull(s, [b] + rest) <==> !Full(s) && NeverFull(Step(s, b), rest)
  {
    assert ([b] + rest)[1..] == rest;
  }

  lemma FrameReceived(s: Rx, p: seq<Byte>)
    requires s.phase == AwaitStart && |p| < BUF_SZ
    ensures NeverFull(s, Frame(p))
    ensures Feed(s, Frame(p)).phase == AwaitStart && Feed(s, Frame(p)).frames == s.frames + [Checked(p)]
  {
    hide Feed, NeverFull, Step, Check;
    var f := Frame(p);
    var s1 := Step(s, START_DEL);
    var s2 := Step(s1, |p| / 0x100);
    var s3 := Step(s2, |p| % 0x100);
    HeaderReceived(s, |p|);
    DataReceived(s3, Checked(p));
    assert [] + Checked(p) == Checked(p);
    FeedOne(s, START_DEL, f[1..]);
    FeedOne(s1, |p| / 0x100, f[2..]);
    FeedOne(s2, |p| % 0x100, f[3..]);
    assert f == [START_DEL] + f[1..] && f[1..] == [|p| / 0x100] + f[2..];
    assert f[2..] == [|p| % 0x100] + f[3..] && f[3..] == Checked(p);
  }

  /** Delimiter and length bytes. */
  lemma HeaderReceived(s: Rx, n: nat)
    requires s.phase == AwaitStart && n < 0x1_0000
    ensures var s1 := Step(s, START_DEL);
      var s2 := Step(s1, n / 0x100);
      && !Full(s) && !Full(s1) && !Full(s2)
      && Step(s2, n % 0x100) == Rx(Data, Min(n, BUF_SZ), 0, [], s.frames)
  {
  }

  /** Any stream of frames, with or without other bytes between them, hands on exactly their payloads in order,
      each with checksum 0. */
  lemma {:induction false} StreamReceived(s: Rx, items: seq<Item>)
    requires s.phase == AwaitStart && forall i :: 0 <= i < |items| ==> Sendable(items[i])
    ensures NeverFull(s, Stream(items))
    ensures var r := Feed(s, Stream(items)); r.phase == AwaitStart && r.frames == s.frames + AllChecked(items)
    ensures forall i :: 0 <= i < |items| ==> Check(AllChecked(items)[i]) == 0
  {
    if items == [] {
      assert s.frames + AllChecked(items) == s.frames;
    } else {
      var n := |items| - 1;
      var init, last := Stream(items[..n]), items[n];
      StreamReceived(s, items[..n]);
      var s1 := Feed(s, init);
      GapSkipped(s1, last.gap);
      FeedMore(s, init, last.gap);
      FrameReceived(s1, last.payload);
      FeedMore(s, init + last.gap, Frame(last.payload));
      CheckedIsZero(last.payload);
      assert AllChecked(items) == AllChecked(items[..n]) + [Checked(last.payload)];
      assert forall i :: 0 <= i < n ==> AllChecked(items)[i] == AllChecked(items[..n])[i];
    }
  }

  lemma {:induction false} DataOverruns(s: Rx, rest: seq<Byte>)
    requires s.phase == Data && s.len == BUF_SZ && s.pos <= BUF_SZ && s.pos + |rest| == BUF_SZ + 1
    ensures !NeverFull(s, rest)
    decreases |rest|
  {
    if s.pos < BUF_SZ { DataOverruns(Step(s, rest[0]), rest[1..]); }
  }

  /** A frame finds room for all its bytes exactly when its announced length is below the size of the buffer:
      longer lengths are cut to that size, which leaves no room for the check byte. */
  lemma RoomExactly(s: Rx, n: nat, rest: seq<Byte>)
    requires s.phase == AwaitStart && n < 0x1_0000 && |rest| == Min(n, 200) + 1
    ensures NeverFull(s, [0x7E, n / 0x100, n % 0x100] + rest) <==> n < 200
  {
    var s1 := Step(s, START_DEL);
    var s2 := Step(s1, n / 0x100);
    var s3 := Step(s2, n % 0x100);
    assert s3.phase == Data && s3.len == Min(n, BUF_SZ) && s3.pos == 0;
    FeedOne(s, START_DEL, [n / 0x100, n % 0x100] + rest);
    FeedOne(s1, n / 0x100, [n % 0x100] + rest);
    FeedOne(s2, n % 0x100, rest);
    assert [START_DEL, n / 0x100, n % 0x100] + rest == [START_DEL] + ([n / 0x100, n % 0x100] + rest);
    assert [n / 0x100, n % 0x100] + rest == [n / 0x100] + ([n % 0x100] + rest);
    if n < BUF_SZ { DataReceived(s3, rest); } else { DataOverruns(s3, rest); }
  }

  // ---- frames received ----

  /** What the frame handler makes of a frame. */
  datatype Message =
    | Ignored
    | AtResponse(id: Byte, cmd: seq<Byte>, status: Byte, value: seq<Byte>)
    | TxStatus(id: Byte, status: Byte)
    | Received(hi: Dword, lo: Dword, rssi: Byte, opt: Byte, data: seq<Byte>)
    | ModemStatus(status: Byte)

  /** `buf` is the whole receive buffer, of which the frame takes the first `len` bytes. */
  function Decode(buf: seq<Byte>, len: nat): Message
    requires len <= |buf| && |buf| == BUF_SZ
  {
    if len < 2 || Check(buf[..len]) != 0 then Ignored
    else if buf[0] == ID_AT_RESP then
      if len < 5 then Ignored else AtResponse(buf[1], buf[2..4], buf[4], if len > 6 then buf[5..len - 1] else [])
    else if buf[0] == ID_TX_STAT then TxStatus(buf[1], buf[2])
    else if buf[0] == ID_RX_64 then
      if len < 12 then Ignored
      else Received(FromBytes(buf[1..5]), FromBytes(buf[5..9]), buf[9], buf[10], buf[11..len - 1])
    else if buf[0] == ID_MOD_STAT then ModemStatus(buf[1])
    else Ignored
  }

  function RxPayload(hi: Dword, lo: Dword, rssi: Byte, opt: Byte, data: seq<Byte>): seq<Byte>
  {
    [ID_RX_64] + ToBytes(hi) + ToBytes(lo) + [rssi, opt] + data
  }

  /** A data frame from the radio: frame type 0x80, the sender's address, signal strength, options, data. */
  lemma RxOnWire(hi: Dword, lo: Dword, rssi: Byte, opt: Byte, data: seq<Byte>)
    ensures var p := RxPayload(hi, lo, rssi, opt, data);
      && |p| == 11 + |data| && p[0] == 0x80 && WordAt(p, 1, hi) && WordAt(p, 5, lo) && p[9] == rssi && p[10] == opt
      && p[11..] == data
  {
    WordRoundTrip(hi);
    WordRoundTrip(lo);
  }

  /** The other frames with a right check byte: 0x89 tells how a transmission went, 0x8A what state the modem is in,
      and 0x88 answers a command. What has another type, or a wrong check byte, is ignored. */
  lemma OthersDecoded(buf: seq<Byte>, len: nat)
    requires 2 <= len <= |buf| == 200
    ensures Sum(buf[..len]) % 0x100 != 0xFF ==> Decode(buf, len) == Ignored
    ensures Sum(buf[..len]) % 0x100 == 0xFF ==> match buf[0]
      case 0x89 => Decode(buf, len) == TxStatus(buf[1], buf[2])
      case 0x8A => Decode(buf, len) == ModemStatus(buf[1])
      case 0x88 => (len < 5 <==> Decode(buf, len) == Ignored)
        && (len >= 7 ==> Decode(buf, len) == AtResponse(buf[1], [buf[2], buf[3]], buf[4], buf[5..len - 1]))
        && (5 <= len < 7 ==> Decode(buf, len) == AtResponse(buf[1], [buf[2], buf[3]], buf[4], []))
      case 0x80 => len < 12 <==> Decode(buf, len) == Ignored
      case _ => Decode(buf, len) == Ignored
  {
    hide Sum;
    assert buf[2..4] == [buf[2], buf[3]];
  }

  /** A data frame from the radio is decoded to the sender's address and its data. */
  lemma DataDecoded(hi: Dword, lo: Dword, rssi: Byte, opt: Byte, data: seq<Byte>, buf: seq<Byte>)
    requires |data| + 12 <= BUF_SZ && |buf| == BUF_SZ
    requires buf[..|data| + 12] == Checked(RxPayload(hi, lo, rssi, opt, data))
    ensures Decode(buf, |data| + 12) == Received(hi, lo, rssi, opt, data)
  {
    hide Check, FromBytes, ToBytes, RxPayload;
    var p := RxPayload(hi, lo, rssi, opt, data);
    var n := |data| + 12;
    CheckedIsZero(p);
    assert Check(buf[..n]) == 0;
    var c := buf[..n];
    assert c == p + [Check(p)];
    PayloadParts(hi, lo, rssi, opt, data);
    assert buf[1..5] == c[1..5] == p[1..5] && buf[5..9] == c[5..9] == p[5..9];
    assert buf[11..n - 1] == c[11..n - 1] == p[11..];
    assert buf[0] == c[0] == p[0] && buf[9] == c[9] == p[9] && buf[10] == c[10] == p[10];
    WordRoundTrip(hi);
    WordRoundTrip(lo);
  }

  lemma PayloadParts(hi: Dword, lo: Dword, rssi: Byte, opt: Byte, data: seq<Byte>)
    ensures var p := RxPayload(hi, lo, rssi, opt, data);
      && |p| == |data| + 11 && p[0] == ID_RX_64 && p[1..5] == ToBytes(hi) && p[5..9] == ToBytes(lo)
      && p[9] == rssi && p[10] == opt && p[11..] == data
  {
    hide ToBytes;
  }

  /** The message is what a buffer that begins with the frame decodes to. */
  ghost predicate Handles(frame: seq<Byte>, m: Message)
  {
    exists buf: seq<Byte> :: |frame| <= |buf| == BUF_SZ && buf[..|frame|] == frame && m == Decode(buf, |frame|)
  }

  /** A data frame among others in a stream. */
  datatype DataItem = DataItem(gap: seq<Byte>, hi: Dword, lo: Dword, rssi: Byte, opt: Byte, data: seq<Byte>)

  function ToItem(d: DataItem): Item { Item(d.gap, RxPayload(d.hi, d.lo, d.rssi, d.opt, d.data)) }

  function ToMessage(d: DataItem): Message { Received(d.hi, d.lo, d.rssi, d.opt, d.data) }

  function ToItems(ds: seq<DataItem>): (r: seq<Item>)
    ensures |r| == |ds| && forall i :: 0 <= i < |ds| ==> r[i] == ToItem(ds[i])
  {
    seq(|ds|, i requires 0 <= i < |ds| => ToItem(ds[i]))
  }

  /** Frames that fit the receive buffer, with no delimiter between them. */
  ghost predicate Carried(ds: seq<DataItem>)
  {
    forall i :: 0 <= i < |ds| ==> Sendable(ToItem(ds[i]))
  }

  lemma CarriedFits(ds: seq<DataItem>, i: nat)
    requires Carried(ds) && i < |ds|
    ensures |ds[i].data| + 12 <= BUF_SZ
  {
    assert Sendable(ToItem(ds[i]));
  }

  /** Whatever else the buffer holds, a data frame is handled as the data it carries. */
  lemma DataHandled(d: DataItem, m: Message)
    requires |d.data| + 12 <= BUF_SZ && Handles(Checked(ToItem(d).payload), m)
    ensures m == ToMessage(d)
  {
    hide Decode, Check, ToBytes;
    var frame := Checked(ToItem(d).payload);
    var buf: seq<Byte> :| |frame| <= |buf| == BUF_SZ && buf[..|frame|] == frame && m == Decode(buf, |frame|);
    assert |frame| == |d.data| + 12;
    DataDecoded(d.hi, d.lo, d.rssi, d.opt, d.data, buf);
  }

  class Receiver {
    var phase: Phase
    var frameLen: nat
    var pos: nat
    const buf: array<Byte>
    var timer: Dword

    ghost var frames: seq<seq<Byte>>    // handed to the frame handler
    ghost var handled: seq<Message>     // and what it made of them

    constructor ()
      ensures Valid() && fresh(buf) && phase == AwaitStart && frames == [] && handled == [] && timer == 0
    {
      phase := AwaitStart;
      frameLen, pos, timer := 0, 0, 0;
      buf := new Byte[BUF_SZ](_ => 0);
      frames, handled := [], [];
    }

    ghost predicate Valid()
      reads this
    {
      && buf.Length == BUF_SZ
      && (phase == Length ==> pos <= 1 && frameLen <= 0xFF00 && frameLen % 0x100 == 0 && (pos == 0 ==> frameLen == 0))
      && (phase == Data ==> pos <= frameLen <= BUF_SZ)
      && |handled| == |frames| && forall i :: 0 <= i < |frames| ==> Handles(frames[i], handled[i])
    }

    ghost function State(): Rx
      requires Valid()
      reads this, buf
    {
      Rx(phase, frameLen, pos, if phase == Data then buf[..pos] else [], frames)
    }

    /** Takes one byte; a complete frame goes to the frame handler. The check byte of a frame whose announced
        length is that of the buffer or more would not fit. */
    method ProcessByte(data: Byte, now: Dword)
      requires Valid() && !Full(State())
      modifies this, buf
      ensures Valid() && State() == Step(old(State()), data) && old(handled) <= handled
      ensures timer == if old(phase) == AwaitStart && data == START_DEL then (now + 2000) % 0x1_0000_0000
                       else if |frames| > |old(frames)| then 0 else old(timer)
    {
      match phase
      case AwaitStart =>
        if data == START_DEL {
          pos := 0;
          frameLen := 0;
          phase := Length;
          timer := (now + RECV_TIME) % DWORD;
        }
      case Length =>
        frameLen := frameLen + if pos == 0 then 0x100 * data as int else data;
        pos := pos + 1;
        if pos == 2 {
          pos := 0;
          phase := Data;
          if frameLen > BUF_SZ { frameLen := BUF_SZ; }
        }
      case Data =>
        ghost var was := buf[..pos];
        buf[pos] := data;
        pos := pos + 1;
        assert buf[..pos] == was + [data];
        if pos == frameLen + 1 {
          phase := AwaitStart;
          timer := 0;
          var m := ProcessFrame(pos);
          assert Handles(buf[..pos], m);
          frames, handled := frames + [buf[..pos]], handled + [m];
        }
    }

    /** The frame handler: sorts the frame in the buffer by its first byte, if its checksum is right. */
    method ProcessFrame(len: nat) returns (m: Message)
      requires buf.Length == BUF_SZ && len <= BUF_SZ
      ensures m == Decode(buf[..], len)
    {
      hide Check, FromBytes;
      if len < 2 { return Ignored; }
      var cs := Checksum(buf, 0, len);
      assert buf[0..0 + len] == buf[..][..len];
      if cs != 0 { return Ignored; }
      if buf[0] == ID_AT_RESP {
        if len < 5 { return Ignored; }
        m := AtResponse(buf[1], buf[2..4], buf[4], if len > 6 then buf[5..len - 1] else []);
      } else if buf[0] == ID_TX_STAT {
        m := TxStatus(buf[1], buf[2]);
      } else if buf[0] == ID_RX_64 {
        if len < 12 { return Ignored; }
        m := Received(FromBytes(buf[1..5]), FromBytes(buf[5..9]), buf[9], buf[10], buf[11..len - 1]);
      } else if buf[0] == ID_MOD_STAT {
        m := ModemStatus(buf[1]);
      } else {
        m := Ignored;
      }
    }

    /** The receiver's part of the main loop: a frame that takes too long is given up. */
    method CheckTimer(now: Dword)
      requires Valid()
      modifies this
      ensures Valid() && frames == old(frames) && handled == old(handled)
      ensures var late := 0 < old(timer) < now;
        phase == (if late then AwaitStart else old(phase)) && timer == (if late then 0 else old(timer))
      ensures frameLen == old(frameLen) && pos == old(pos)
    {
      if timer > 0 && timer < now {
        phase := AwaitStart;
        timer := 0;
      }
    }

    /** Takes a stream of frames. */
    method Receive(ghost items: seq<Item>, bytes: seq<Byte>, now: Dword)
      requires Valid() && phase == AwaitStart && (forall i :: 0 <= i < |items| ==> Sendable(items[i])) && bytes == Stream(items)
      modifies this, buf
      ensures Valid() && phase == AwaitStart && frames == old(frames) + AllChecked(items) && old(handled) <= handled
    {
      ghost var s := State();
      StreamReceived(s, items);
      for i := 0 to |bytes|
        invariant Valid() && NeverFull(State(), bytes[i..]) && Feed(State(), bytes[i..]) == Feed(s, bytes)
        invariant old(handled) <= handled
      {
        assert bytes[i..][0] == bytes[i] && bytes[i..][1..] == bytes[i + 1..];
        ProcessByte(bytes[i], now);
      }
    }

    /** Takes a stream of data frames: the handler gets exactly the senders' addresses and data, in order. */
    method ReceiveData(ghost ds: seq<DataItem>, bytes: seq<Byte>, now: Dword)
      requires Valid() && phase == AwaitStart && Carried(ds) && bytes == Stream(ToItems(ds))
      modifies this, buf
      ensures Valid() && phase == AwaitStart && |handled| == |old(handled)| + |ds| && old(handled) <= handled
      ensures forall i :: 0 <= i < |ds| ==> handled[|old(handled)| + i] == ToMessage(ds[i])
    {
      hide Stream, ToItem, Handles;
      Receive(ToItems(ds), bytes, now);
      forall i | 0 <= i < |ds|
        ensures handled[|old(handled)| + i] == ToMessage(ds[i])
      {
        assert frames[|old(frames)| + i] == Checked(ToItem(ds[i]).payload);
        assert |ds[i].data| + 12 <= BUF_SZ by { CarriedFits(ds, i); }
        DataHandled(ds[i], handled[|old(handled)| + i]);
      }
    }

    /** A frame that broke off costs only itself: once its time is over, what follows is received in full. */
    method ReceiveAfterTimeout(ghost ds: seq<DataItem>, bytes: seq<Byte>, now: Dword)
      requires Valid() && (phase == AwaitStart || 0 < timer < now) && Carried(ds) && bytes == Stream(ToItems(ds))
      modifies this, buf
      ensures Valid() && phase == AwaitStart && |handled| == |old(handled)| + |ds| && old(handled) <= handled
      ensures forall i :: 0 <= i < |ds| ==> handled[|old(handled)| + i] == ToMessage(ds[i])
    {
      CheckTimer(now);
      ReceiveData(ds, bytes, now);
    }
  }
}
