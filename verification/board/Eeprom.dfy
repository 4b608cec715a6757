/** The EEPROM driver on a device whose page writes wrap around within the page. */
module Eeprom {
  import opened Bytes

  const TOTAL_24AA: nat := 128
  const PAGE_24AA: nat := 8
  const TOTAL_24LC: nat := 4096
  const PAGE_24LC: nat := 32

  // ---- the device ----

  /** Address of the `k`-th byte of a page write that starts at `addr`. */
  function PageAddress(addr: nat, k: nat, page: nat): nat
    requires page > 0
  {
    addr - addr % page + (addr % page + k) % page
  }

  /** The memory after a page write of `d`. */
  function PageWrite(mem: seq<Byte>, page: nat, addr: nat, d: seq<Byte>): (r: seq<Byte>)
    requires page > 0 && |mem| % page == 0 && addr < |mem|
    ensures |r| == |mem|
    decreases |d|
  {
    if d == [] then mem else
    InPage(addr, |d| - 1, page, |mem|);
    PageWrite(mem, page, addr, d[..|d| - 1])[PageAddress(addr, |d| - 1, page) := d[|d| - 1]]
  }

  lemma InPage(addr: nat, k: nat, page: nat, size: nat)
    requires page > 0 && size % page == 0 && addr < size
    ensures PageAddress(addr, k, page) < size
  {
    var p, n := addr / page, size / page;
    assert addr == p * page + addr % page && size == n * page;
    if p >= n { MulMono(n, p, page); }
    MulMono(p + 1, n, page);
    assert (p + 1) * page == p * page + page;
  }

  lemma SmallRemainder(x: nat, d: nat)
    requires x < d
    ensures x % d == x
  {
    DivModUnique(x, d, 0, x);
  }

  /** The address behind the rest of a page is that of the next page. */
  lemma NextPage(addr: nat, page: nat)
    requires page > 0
    ensures (addr + (page - addr % page)) % page == 0
  {
    var p := addr / page;
    assert addr == p * page + addr % page;
    assert (p + 1) * page == p * page + page;
    DivModUnique(addr + (page - addr % page), page, p + 1, 0);
  }

  /** A write that stays in its page puts the bytes where they belong. */
  lemma {:induction false} InsidePage(mem: seq<Byte>, page: nat, addr: nat, d: seq<Byte>)
    requires page > 0 && |mem| % page == 0 && addr + |d| <= |mem| && addr < |mem| && addr % page + |d| <= page
    ensures PageWrite(mem, page, addr, d) == Splice(mem, addr, d)
  {
    if d != [] {
      var init := d[..|d| - 1];
      InsidePage(mem, page, addr, init);
      SmallRemainder(addr % page + (|d| - 1), page);
      assert PageAddress(addr, |d| - 1, page) == addr + (|d| - 1);
    }
  }

  /** No transfer reaches the byte behind its page. */
  lemma {:induction false} BehindPage(mem: seq<Byte>, page: nat, addr: nat, d: seq<Byte>)
    requires page > 0 && |mem| % page == 0 && addr < |mem|
    requires addr - addr % page + page < |mem|
    ensures PageWrite(mem, page, addr, d)[addr - addr % page + page] == mem[addr - addr % page + page]
  {
    if d != [] { BehindPage(mem, page, addr, d[..|d| - 1]); }
  }

  /** A transfer that crosses the end of its page is not the splice if the byte behind the page should change. */
  lemma CrossingPage(mem: seq<Byte>, page: nat, addr: nat, d: seq<Byte>)
    requires page > 0 && |mem| % page == 0 && addr + |d| <= |mem| && addr % page + |d| > page
    requires d[page - addr % page] != mem[addr - addr % page + page]
    ensures PageWrite(mem, page, addr, d) != Splice(mem, addr, d)
  {
    hide PageWrite;
    BehindPage(mem, page, addr, d);
    assert Splice(mem, addr, d)[addr - addr % page + page] == d[page - addr % page];
  }

  /** One transfer of `n` bytes does for all data what the driver promises exactly when they stay in one page. */
  lemma OnePageExactly(mem: seq<Byte>, page: nat, addr: nat, n: nat)
    requires page > 0 && |mem| % page == 0 && addr < |mem| && addr + n <= |mem|
    ensures (forall d: seq<Byte> {:trigger PageWrite(mem, page, addr, d)} ::
              |d| == n ==> PageWrite(mem, page, addr, d) == Splice(mem, addr, d))
            <==> addr % page + n <= page
  {
    hide PageWrite;
    if addr % page + n <= page {
      forall d: seq<Byte> | |d| == n
        ensures PageWrite(mem, page, addr, d) == Splice(mem, addr, d)
      {
        InsidePage(mem, page, addr, d);
      }
    } else {
      var behind := mem[addr - addr % page + page];
      var d: seq<Byte> := seq(n, i => if behind == 0 then 1 else 0);
      CrossingPage(mem, page, addr, d);
    }
  }

  class Device {
    const mem: array<Byte>
    const page: nat
    const twoBytes: bool    // address bytes on the bus: two, or one
    var cursor: nat

    constructor (small: bool)
      ensures Valid() && fresh(mem) && twoBytes == !small
      ensures mem.Length == (if small then 128 else 4096) && page == (if small then 8 else 32)
    {
      mem := new Byte[if small then TOTAL_24AA else TOTAL_24LC](_ => 0);
      page := if small then PAGE_24AA else PAGE_24LC;
      twoBytes := !small;
      cursor := 0;
    }

    predicate Valid()
      reads this
    {
      && cursor < mem.Length
      && if twoBytes then mem.Length == TOTAL_24LC && page == PAGE_24LC else mem.Length == TOTAL_24AA && page == PAGE_24AA
    }

    function AddressBytes(): nat { if twoBytes then 2 else 1 }

    /** The address at the head of a bus transfer; the device ignores bits above its size. */
    function Address(tx: seq<Byte>): (a: nat)
      requires Valid() && |tx| >= AddressBytes()
      reads this
      ensures a < mem.Length
    {
      (if twoBytes then 0x100 * tx[0] as int + tx[1] as int else tx[0]) % mem.Length
    }

    /** The transfer the driver sends for an address in range. */
    lemma AddressOf(offset: nat, data: seq<Byte>)
      requires Valid() && offset <= mem.Length && offset < 0x1_0000
      ensures var head := if twoBytes then [offset / 0x100 % 0x100, offset % 0x100] else [offset % 0x100];
        && |head| == AddressBytes() && (head + data)[AddressBytes()..] == data
        && (offset < mem.Length ==> Address(head + data) == offset)
      ensures mem.Length % page == 0 && page > 0
    {
      if offset < mem.Length { SmallRemainder(offset, mem.Length); }
    }

    /** A bus write: sets the cursor, and stores what follows the address. */
    method I2CWrite(tx: seq<Byte>)
      requires Valid() && |tx| >= AddressBytes()
      modifies `cursor, mem
      ensures Valid() && cursor == old(Address(tx))
      ensures mem[..] == PageWrite(old(mem[..]), page, old(Address(tx)), tx[AddressBytes()..])
    {
      cursor := Address(tx);
      ghost var addr, d := cursor, tx[AddressBytes()..];
      var n := AddressBytes();
      for k := 0 to |tx| - n
        invariant Valid() && cursor == addr && mem[..] == PageWrite(old(mem[..]), page, addr, d[..k])
      {
        InPage(addr, k, page, mem.Length);
        mem[PageAddress(cursor, k, page)] := tx[n + k];
        assert d[..k + 1][..k] == d[..k];
      }
      assert d[..|d|] == d;
    }

    /** A bus read from the cursor on. */
    method I2CRead(buf: array<Byte>, len: nat)
      requires Valid() && len <= buf.Length && buf != mem
      modifies buf
      ensures forall i :: 0 <= i < len ==> buf[i] == mem[(cursor + i) % mem.Length]
      ensures buf[len..] == old(buf[len..])
    {
      for i := 0 to len
        invariant forall j :: 0 <= j < i ==> buf[j] == mem[(cursor + j) % mem.Length]
        invariant buf[len..] == old(buf[len..])
      {
        buf[i] := mem[(cursor + i) % mem.Length];
      }
    }
  }

  // ---- the driver ----

  /** Reads `len` bytes at `offset`, or returns -1 when they are not all in range. */
  method Read(dev: Device, buf: array<Byte>, offset: nat, len: nat) returns (r: int)
    requires dev.Valid() && buf != dev.mem && len <= buf.Length && offset < 0x1_0000 && len < 0x1_0000
    modifies dev`cursor, dev.mem, buf
    ensures dev.Valid() && dev.mem[..] == old(dev.mem[..]) && r == if offset + len <= dev.mem.Length then len else -1
    ensures buf[..] == if r < 0 then old(buf[..]) else Splice(old(buf[..]), 0, dev.mem[offset..offset + len])
  {
    hide PageWrite, Splice;
    if len > dev.mem.Length || offset + len > dev.mem.Length { return -1; }
    var off := if dev.twoBytes then [offset / 0x100 % 0x100, offset % 0x100] else [offset % 0x100];
    dev.AddressOf(offset, []);
    assert off + [] == off;
    NothingWritten(dev.mem[..], dev.page, dev.Address(off));
    ghost var before := buf[..];
    dev.I2CWrite(off);
    dev.I2CRead(buf, len);
    r := len;
    Sequential(dev, buf, before, offset, len);
  }

  lemma NothingWritten(mem: seq<Byte>, page: nat, addr: nat)
    requires page > 0 && |mem| % page == 0 && addr < |mem|
    ensures PageWrite(mem, page, addr, []) == mem
  {
  }

  lemma Sequential(dev: Device, buf: array<Byte>, before: seq<Byte>, offset: nat, len: nat)
    requires dev.Valid() && offset + len <= dev.mem.Length && len <= buf.Length && |before| == buf.Length
    requires len > 0 ==> dev.cursor == offset
    requires forall i :: 0 <= i < len ==> buf[i] == dev.mem[(dev.cursor + i) % dev.mem.Length]
    requires buf[len..] == before[len..]
    ensures buf[..] == Splice(before, 0, dev.mem[offset..offset + len])
  {
    forall i | 0 <= i < buf.Length
      ensures buf[i] == if i < len then dev.mem[offset + i] else before[i]
    {
      if i < len { SmallRemainder(offset + i, dev.mem.Length); } else { assert buf[i] == buf[len..][i - len]; }
    }
  }

  /** One page of the loop: the transfer with the address in front. */
  method WritePage(dev: Device, off: nat, part: seq<Byte>)
    requires dev.Valid() && off < dev.mem.Length && off + |part| <= dev.mem.Length && 0 < dev.page
    requires off % dev.page + |part| <= dev.page
    modifies dev`cursor, dev.mem
    ensures dev.Valid() && dev.mem[..] == Splice(old(dev.mem[..]), off, part)
  {
    hide PageWrite, Device.Address, Splice;
    var head := if dev.twoBytes then [off / 0x100 % 0x100, off % 0x100] else [off % 0x100];
    dev.AddressOf(off, part);
    InsidePage(dev.mem[..], dev.page, off, part);
    dev.I2CWrite(head + part);
  }

  lemma SpliceNothing(s: seq<Byte>, at: nat)
    requires at <= |s|
    ensures Splice(s, at, []) == s
  {
  }

  /** Writes `len` bytes at `offset` page by page: the memory gets them as one splice. Returns -1 and writes
      nothing when they do not all fit. */
  method Write(dev: Device, buf: array<Byte>, offset: nat, len: nat) returns (r: int)
    requires dev.Valid() && buf != dev.mem && len <= buf.Length && offset < 0x1_0000 && len < 0x1_0000
    modifies dev`cursor, dev.mem
    ensures dev.Valid() && r == if offset + len <= dev.mem.Length then len else -1
    ensures dev.mem[..] == if r < 0 then old(dev.mem[..]) else Splice(old(dev.mem[..]), offset, buf[..len])
  {
    hide PageWrite, Device.Address, Splice;
    if len > dev.mem.Length || offset + len > dev.mem.Length { return -1; }
    dev.AddressOf(0, []);
    var n: nat := len;
    var written: nat := 0;
    var off := offset;
    var wLen: nat := dev.page - off % dev.page;
    wLen := Min(wLen, n);
    ghost var was := dev.mem[..];
    assert buf[..0] == [];
    SpliceNothing(was, offset);
    while n > 0
      invariant dev.Valid() && written + n == len && off == offset + written && was == old(dev.mem[..])
      invariant wLen == Min(dev.page - off % dev.page, n) || n == 0
      invariant dev.mem[..] == Splice(was, offset, buf[..written])
    {
      WritePage(dev, off, buf[written..written + wLen]);
      SpliceOn(was, offset, buf[..written], buf[written..written + wLen]);
      assert buf[..written] + buf[written..written + wLen] == buf[..written + wLen];
      NextPage(off, dev.page);
      n := n - wLen;
      written := written + wLen;
      off := off + wLen;
      wLen := Min(dev.page, n);
    }
    r := written;
  }

  lemma SpliceOn(s: seq<Byte>, at: nat, a: seq<Byte>, b: seq<Byte>)
    requires at + |a| + |b| <= |s|
    ensures Splice(Splice(s, at, a), at + |a|, b) == Splice(s, at, a + b)
  {
  }

  /** What was written reads back, and nothing around it changed. */
  method WriteThenRead(dev: Device, buf: array<Byte>, back: array<Byte>, offset: nat, len: nat) returns (r: int)
    requires dev.Valid() && buf != dev.mem && back != dev.mem && back != buf && len <= buf.Length && len <= back.Length
    requires offset + len <= dev.mem.Length
    modifies dev`cursor, dev.mem, back
    ensures r == len && back[..len] == buf[..len]
    ensures dev.mem[..offset] == old(dev.mem[..offset]) && dev.mem[offset + len..] == old(dev.mem[offset + len..])
  {
    r := Write(dev, buf, offset, len);
    r := Read(dev, back, offset, len);
  }
}
