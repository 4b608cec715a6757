/** The allocation table: packed entries of 12, 16 or 32 bits over the bytes of the table sectors. */
module Table {
  import opened Bytes
  import opened Layout
  import opened LogicalDisk

  /** The first table copy lies inside the image and has room for every entry. */
  predicate HasTable(g: Geometry, img: Image)
  {
    g.fatbase + g.sectsFat <= |img| && g.TableBytes() <= 512 * g.sectsFat
  }

  /** Sector and offset of table byte `i`. */
  function TableSect(g: Geometry, i: nat): (s: nat)
    ensures s >= g.fatbase
    ensures i < 512 * g.sectsFat ==> s < g.fatbase + g.sectsFat
  {
    g.fatbase + i / 512
  }

  function TableOff(i: nat): (o: nat)
    ensures o < 512
  {
    i % 512
  }

  /** Byte `i` of the first table copy. */
  function TableByte(g: Geometry, img: Image, i: nat): (b: Byte)
    requires HasTable(g, img) && i < 512 * g.sectsFat
  {
    img[TableSect(g, i)][TableOff(i)]
  }

  lemma TableByteAt(g: Geometry, img: Image, i: nat)
    requires HasTable(g, img) && i < 512 * g.sectsFat
    ensures TableSect(g, i) < |img| && TableByte(g, img, i) == img[TableSect(g, i)][TableOff(i)]
    ensures g.Window(TableSect(g, i))
    ensures TableByte(g, img, i) == img[g.fatbase + i / 512][i % 512]
  {
  }

  /** Offset of the first byte of entry `c`. */
  function EntryOffset(t: FsType, c: nat): (i: nat)
  {
    match t
    case Fat12 => c + c / 2
    case Fat16 => 2 * c
    case Fat32 => 4 * c
  }

  function EntryLength(t: FsType): nat
  {
    if t == Fat32 then 4 else 2
  }

  lemma EntryInTable(g: Geometry, img: Image, c: nat)
    requires HasTable(g, img) && c < g.maxClust
    ensures EntryOffset(g.fsType, c) + EntryLength(g.fsType) <= 512 * g.sectsFat
  {
  }

  /** An entry value from the four table bytes at its offset (the last two matter on FAT32 only). */
  function Unpack(t: FsType, c: nat, b0: Byte, b1: Byte, b2: Byte, b3: Byte): (v: nat)
    ensures v <= EndMark(t)
  {
    var w: nat := b0 as int + 0x100 * b1 as int;
    match t
    case Fat12 => if c % 2 == 1 then w / 0x10 else w % 0x1000
    case Fat16 => w
    case Fat32 => (w + 0x1_0000 * (b2 as int + 0x100 * b3 as int)) % 0x1000_0000
  }

  /** The value of entry `c`, put together from its bytes. */
  function Entry(g: Geometry, img: Image, c: nat): (v: nat)
    requires HasTable(g, img) && c < g.maxClust
    ensures v <= EndMark(g.fsType)
  {
    EntryInTable(g, img, c);
    var i := EntryOffset(g.fsType, c);
    var wide := g.fsType == Fat32;
    Unpack(g.fsType, c, TableByte(g, img, i), TableByte(g, img, i + 1),
           if wide then TableByte(g, img, i + 2) else 0, if wide then TableByte(g, img, i + 3) else 0)
  }

  /** Where the bytes of an entry lie, and what it is worth: two entries in three bytes on FAT12, two bytes each on
      FAT16, four on FAT32 with the highest four bits left out. */
  lemma EntryLies(g: Geometry, img: Image, c: nat)
    requires HasTable(g, img) && c < g.maxClust
    ensures g.fsType == Fat12 ==> var k := c / 2 * 3;
      && k + 1 + c % 2 < 512 * g.sectsFat
      && Entry(g, img, c) ==
           if c % 2 == 0 then TableByte(g, img, k) + 0x100 * (TableByte(g, img, k + 1) % 0x10)
           else TableByte(g, img, k + 1) / 0x10 + 0x10 * TableByte(g, img, k + 2)
    ensures g.fsType == Fat16 ==>
      && 2 * c + 1 < 512 * g.sectsFat
      && Entry(g, img, c) == TableByte(g, img, 2 * c) + 0x100 * TableByte(g, img, 2 * c + 1)
    ensures g.fsType == Fat32 ==>
      && 4 * c + 3 < 512 * g.sectsFat
      && Entry(g, img, c) ==
           TableByte(g, img, 4 * c) + 0x100 * TableByte(g, img, 4 * c + 1) + 0x1_0000 * TableByte(g, img, 4 * c + 2)
           + 0x100_0000 * (TableByte(g, img, 4 * c + 3) % 0x10)
  {
    hide HasTable, TableByte, Unpack, TableSect, TableOff;
    EntryInTable(g, img, c);
    var i := EntryOffset(g.fsType, c);
    assert g.fsType == Fat12 ==> i == if c % 2 == 0 then c / 2 * 3 else c / 2 * 3 + 1;
    var wide := g.fsType == Fat32;
    UnpackBytes(c, TableByte(g, img, i), TableByte(g, img, i + 1),
                if wide then TableByte(g, img, i + 2) else 0, if wide then TableByte(g, img, i + 3) else 0);
  }

  lemma UnpackBytes(c: nat, b0: Byte, b1: Byte, b2: Byte, b3: Byte)
    ensures Unpack(Fat12, c, b0, b1, b2, b3) ==
      if c % 2 == 0 then b0 + 0x100 * (b1 % 0x10) else b0 / 0x10 + 0x10 * b1
    ensures Unpack(Fat16, c, b0, b1, b2, b3) == b0 + 0x100 * b1
    ensures Unpack(Fat32, c, b0, b1, b2, b3) ==
      b0 + 0x100 * b1 + 0x1_0000 * b2 + 0x100_0000 * (b3 % 0x10)
  {
    var w: int := b0 + 0x100 * b1;
    DivModUnique(w, 0x1000, b1 / 0x10, b0 + 0x100 * (b1 % 0x10));
    DivModUnique(w, 0x10, b0 / 0x10 + 0x10 * b1, b0 % 0x10);
    var x: int := b2 + 0x100 * b3;
    DivModUnique(w + 0x1_0000 * x, 0x1000_0000, b3 / 0x10, w + 0x1_0000 * (b2 + 0x100 * (b3 % 0x10)));
  }

  /** The whole table as a sequence of entry values. */
  function Entries(g: Geometry, img: Image): (fat: seq<nat>)
    requires HasTable(g, img)
    ensures |fat| == g.maxClust
    ensures forall c :: 0 <= c < g.maxClust ==> fat[c] == Entry(g, img, c)
    ensures forall c :: 0 <= c < g.maxClust ==> fat[c] <= EndMark(g.fsType)
  {
    seq(g.maxClust, c requires 0 <= c < g.maxClust => Entry(g, img, c))
  }

  /** An entry depends on its own bytes only. */
  lemma EntryOfBytes(g: Geometry, img: Image, img': Image, c: nat)
    requires HasTable(g, img) && HasTable(g, img') && c < g.maxClust
    requires EntryOffset(g.fsType, c) + EntryLength(g.fsType) <= 512 * g.sectsFat
    requires forall k | EntryOffset(g.fsType, c) <= k < EntryOffset(g.fsType, c) + EntryLength(g.fsType) ::
               TableByte(g, img', k) == TableByte(g, img, k)
    ensures Entry(g, img', c) == Entry(g, img, c)
  {
    hide HasTable, TableByte, Unpack;
  }

  /** The table is a function of the sectors of its first copy. */
  lemma EntriesOfSectors(g: Geometry, img: Image, img': Image)
    requires HasTable(g, img) && |img'| == |img|
    requires forall s :: g.fatbase <= s < g.fatbase + g.sectsFat ==> img'[s] == img[s]
    ensures HasTable(g, img') && Entries(g, img') == Entries(g, img)
  {
    hide TableSect, TableOff, Entry;
    forall c | 0 <= c < g.maxClust
      ensures Entry(g, img', c) == Entry(g, img, c)
    {
      EntryInTable(g, img, c);
      EntryOfBytes(g, img, img', c);
    }
  }

  /** Nothing but table sectors changed. */
  ghost predicate SameData(g: Geometry, img: Image, img': Image)
  {
    |img'| == |img| && forall s :: 0 <= s < |img| && !g.TableSector(s) ==> img'[s] == img[s]
  }

  /** Outside the table area one sector changed, to `w`, and no other. */
  ghost predicate OneChanged(g: Geometry, img: Image, img': Image, s: nat, w: Sector)
  {
    && |img'| == |img| && s < |img| && img'[s] == w
    && forall x :: 0 <= x < |img| && !g.TableSector(x) && x != s ==> img'[x] == img[x]
  }

  lemma FsiBeforeTable(g: Geometry, img: Image)
    requires Fits(g, img) && g.fsType == Fat32
    ensures g.fsiSector < g.fatbase <= |img|
  {
  }

  /** Sectors behind the table area hold no entries. */
  lemma TableBeforeData(g: Geometry, img: Image, s: nat, w: Sector)
    requires HasTable(g, img) && g.nFats >= 1 && g.FatEnd() <= s < |img|
    ensures HasTable(g, img[s := w]) && Entries(g, img[s := w]) == Entries(g, img)
  {
    EntriesOfSectors(g, img, img[s := w]);
  }

  lemma TableBeforeRun(g: Geometry, img: Image, sect: nat, data: seq<Byte>)
    requires HasTable(g, img) && g.nFats >= 1
    requires g.FatEnd() <= sect && |data| % 512 == 0 && sect + |data| / 512 <= |img|
    ensures HasTable(g, WriteRun(img, sect, data)) && Entries(g, WriteRun(img, sect, data)) == Entries(g, img)
  {
    EntriesOfSectors(g, img, WriteRun(img, sect, data));
  }

  lemma SameDataRefl(g: Geometry, img: Image)
    ensures SameData(g, img, img)
  {
  }

  lemma SameDataTrans(g: Geometry, a: Image, b: Image, c: Image)
    requires SameData(g, a, b) && SameData(g, b, c)
    ensures SameData(g, a, c)
  {
  }

  /** A sector store with `bytes` laid over table byte `i` and its followers in the same sector. */
  function PatchTable(g: Geometry, img: Image, i: nat, bytes: seq<Byte>): (r: Image)
    requires HasTable(g, img) && i < 512 * g.sectsFat && TableOff(i) + |bytes| <= 512
    ensures |r| == |img| && HasTable(g, r)
  {
    var s := TableSect(g, i);
    Store(g, img, s, Splice(img[s], TableOff(i), bytes))
  }

  lemma PatchKeepsData(g: Geometry, img: Image, i: nat, bytes: seq<Byte>)
    requires g.nFats >= 1 && HasTable(g, img) && i < 512 * g.sectsFat && TableOff(i) + |bytes| <= 512
    ensures SameData(g, img, PatchTable(g, img, i, bytes))
  {
    hide TableSect, TableOff, Splice, HasTable;
    assert TableSect(g, i) < g.fatbase + g.sectsFat <= g.FatEnd();
  }

  lemma PatchTableByte(g: Geometry, img: Image, i: nat, bytes: seq<Byte>, k: nat)
    requires HasTable(g, img) && i < 512 * g.sectsFat && TableOff(i) + |bytes| <= 512 && k < 512 * g.sectsFat
    ensures TableByte(g, PatchTable(g, img, i, bytes), k)
         == if i <= k < i + |bytes| then bytes[k - i] else TableByte(g, img, k)
  {
    var r := PatchTable(g, img, i, bytes);
    var s := TableSect(g, k);
    assert Home(g, s) == s;
    assert r[s] == if s == TableSect(g, i) then Splice(img[s], TableOff(i), bytes) else img[s];
  }

  // ---- entries of 12 bits ----

  /** The first byte of a 12-bit entry: the low byte, or the high nibble beside the neighbour's low one. */
  function Low12(c: nat, v: nat, was: Byte): Byte
  {
    if c % 2 == 1 then was % 0x10 + v % 0x10 * 0x10 else v % 0x100
  }

  /** The second byte: the upper eight bits, or the low nibble beside the neighbour's high one. */
  function High12(c: nat, v: nat, was: Byte): Byte
  {
    if c % 2 == 1 then v / 0x10 % 0x100 else was / 0x10 * 0x10 + v / 0x100 % 0x10
  }

  /** The two stored bytes hold the value's low twelve bits, whatever the shared nibble was. */
  lemma Nibbles(c: nat, v: nat, b0: Byte, b1: Byte)
    ensures Unpack(Fat12, c, Low12(c, v, b0), High12(c, v, b1), 0, 0) == v % 0x1000
  {
    RemainderSplit(v, 0x10, 0x100);
    RemainderSplit(v, 0x100, 0x10);
    UnpackOdd(b0 % 0x10, v % 0x10, v / 0x10 % 0x100);
    UnpackEven(v % 0x100, b1 / 0x10, v / 0x100 % 0x10);
  }

  lemma UnpackOdd(x: nat, lo: nat, hi: nat)
    requires x < 0x10 && lo < 0x10
    ensures (x + 0x10 * lo + 0x100 * hi) / 0x10 == lo + 0x10 * hi
  {
    DivModUnique(x + 0x10 * lo + 0x100 * hi, 0x10, lo + 0x10 * hi, x);
  }

  lemma UnpackEven(lo: nat, x: nat, hi: nat)
    requires lo < 0x100 && hi < 0x10
    ensures (lo + 0x100 * (x * 0x10 + hi)) % 0x1000 == lo + 0x100 * hi
  {
    DivModUnique(lo + 0x100 * (x * 0x10 + hi), 0x1000, x, lo + 0x100 * hi);
  }

  /** The even entry's second byte leaves the odd neighbour's nibble, and the other way round. */
  lemma NeighbourNibble(c: nat, v: nat, b0: Byte, b1: Byte)
    ensures c % 2 == 0 ==> Unpack(Fat12, c + 1, High12(c, v, b0), b1, 0, 0) == Unpack(Fat12, c + 1, b0, b1, 0, 0)
    ensures c % 2 == 1 ==> Unpack(Fat12, c - 1, b0, Low12(c, v, b1), 0, 0) == Unpack(Fat12, c - 1, b0, b1, 0, 0)
  {
    if c % 2 == 0 {
      UnpackOdd(v / 0x100 % 0x10, b0 / 0x10, b1 as int);
      UnpackOdd(b0 % 0x10, b0 / 0x10, b1 as int);
      assert High12(c, v, b0) == v / 0x100 % 0x10 + 0x10 * (b0 / 0x10);
      assert b0 == b0 % 0x10 + 0x10 * (b0 / 0x10);
    } else {
      UnpackEven(b0 as int, v % 0x10, b1 % 0x10);
      UnpackEven(b0 as int, b1 / 0x10, b1 % 0x10);
      assert Low12(c, v, b1) == v % 0x10 * 0x10 + b1 % 0x10;
      assert b1 == b1 / 0x10 * 0x10 + b1 % 0x10;
    }
  }

  /** Only an even entry and the odd one after it share a byte. */
  lemma SharedByte(c: nat, d: nat)
    ensures c != d ==> c + c / 2 != d + d / 2
    ensures c + c / 2 + 1 == d + d / 2 <==> c % 2 == 0 && d == c + 1
  {
  }

  /** What the two byte stores of a 12-bit entry leave, each byte going to the sector that holds it. */
  function Patch12(g: Geometry, img: Image, i: nat, lo: Byte, hi: Byte): (r: Image)
    requires HasTable(g, img) && i + 1 < 512 * g.sectsFat
  {
    PatchTable(g, PatchTable(g, img, i, [lo]), i + 1, [hi])
  }

  lemma Patch12Byte(g: Geometry, img: Image, i: nat, lo: Byte, hi: Byte, k: nat)
    requires HasTable(g, img) && i + 1 < 512 * g.sectsFat && k < 512 * g.sectsFat
    ensures HasTable(g, Patch12(g, img, i, lo, hi))
    ensures TableByte(g, Patch12(g, img, i, lo, hi), k)
         == if k == i then lo else if k == i + 1 then hi else TableByte(g, img, k)
  {
    hide HasTable, TableByte, PatchTable, TableSect, TableOff;
    PatchTableByte(g, img, i, [lo], k);
    PatchTableByte(g, PatchTable(g, img, i, [lo]), i + 1, [hi], k);
  }

  /** Writing entry `c` as a 12-bit value takes two bytes, each sharing a nibble with a neighbour. */
  lemma Put12(g: Geometry, img: Image, c: nat, v: nat)
    requires HasTable(g, img) && g.fsType == Fat12 && c < g.maxClust
    ensures var i := EntryOffset(Fat12, c);
      && i + 1 < 512 * g.sectsFat
      && var r := Patch12(g, img, i, Low12(c, v, TableByte(g, img, i)), High12(c, v, TableByte(g, img, i + 1)));
      && HasTable(g, r) && Entries(g, r) == Entries(g, img)[c := Mask(Fat12, v)]
  {
    hide HasTable, Low12, High12, Unpack, TableByte, PatchTable, Patch12;
    EntryInTable(g, img, c);
    var i := c + c / 2;
    var lo, hi := Low12(c, v, TableByte(g, img, i)), High12(c, v, TableByte(g, img, i + 1));
    var r := Patch12(g, img, i, lo, hi);
    Patch12Byte(g, img, i, lo, hi, i);
    forall d | 0 <= d < g.maxClust
      ensures Entry(g, r, d) == if d == c then v % 0x1000 else Entry(g, img, d)
    {
      Put12At(g, img, c, v, lo, hi, d);
    }
  }

  lemma Put12At(g: Geometry, img: Image, c: nat, v: nat, lo: Byte, hi: Byte, d: nat)
    requires HasTable(g, img) && g.fsType == Fat12 && c < g.maxClust && d < g.maxClust
    requires c + c / 2 + 1 < 512 * g.sectsFat
    requires lo == Low12(c, v, TableByte(g, img, c + c / 2)) && hi == High12(c, v, TableByte(g, img, c + c / 2 + 1))
    ensures HasTable(g, Patch12(g, img, c + c / 2, lo, hi))
    ensures Entry(g, Patch12(g, img, c + c / 2, lo, hi), d) == if d == c then v % 0x1000 else Entry(g, img, d)
  {
    hide HasTable, Low12, High12, Unpack, TableByte, PatchTable, Patch12;
    EntryInTable(g, img, d);
    var j := d + d / 2;
    Patch12Byte(g, img, c + c / 2, lo, hi, j);
    Patch12Byte(g, img, c + c / 2, lo, hi, j + 1);
    SharedByte(c, d);
    SharedByte(d, c);
    Nibbles(c, v, TableByte(g, img, j), TableByte(g, img, j + 1));
    NeighbourNibble(c, v, TableByte(g, img, j), TableByte(g, img, j + 1));
  }

  // ---- entries of 16 and 32 bits ----

  /** The driver's own index arithmetic for the wider entries: sector of the table, and byte in it. */
  function SectorIndex(t: FsType, c: nat): nat
  {
    if t == Fat32 then c / (512 / 4) else c / (512 / 2)
  }

  function ByteIndex(t: FsType, c: nat): nat
  {
    if t == Fat32 then c % 0x1_0000 * 4 % 512 else c % 0x1_0000 * 2 % 512
  }

  /** It finds the entry's bytes, all in one sector, although it first cuts the cluster number to 16 bits. */
  lemma IndexIsOffset(g: Geometry, c: nat, k: nat)
    requires !g.fsType.Fat12? && k < EntryLength(g.fsType)
    ensures var i := EntryOffset(g.fsType, c);
      && g.fatbase + SectorIndex(g.fsType, c) == TableSect(g, i) && ByteIndex(g.fsType, c) == TableOff(i)
      && TableOff(i) + EntryLength(g.fsType) <= 512
      && TableSect(g, i + k) == TableSect(g, i) && TableOff(i + k) == TableOff(i) + k
  {
    var w, per := EntryLength(g.fsType), if g.fsType == Fat32 then 0x80 else 0x100;
    Place(c, w, per);
    DivModUnique(w * c + k, 512, c / per, w * c % 512 + k);
  }

  lemma Place(c: nat, w: nat, per: nat)
    requires (w == 2 && per == 0x100) || (w == 4 && per == 0x80)
    ensures c / per == w * c / 512 && c % 0x1_0000 * w % 512 == w * c % 512
    ensures w * c % 512 + w <= 512
  {
    var a, b := c / per, c % per;
    RemainderSplit(c, per, 0x1_0000 / per);
    var a' := a % (0x1_0000 / per);
    DivModUnique(w * c, 512, a, w * b);
    DivModUnique(w * (c % 0x1_0000), 512, a', w * b);
  }

  /** Little-endian load of an entry from its sector. */
  function LoadEntry(t: FsType, s: Sector, o: nat): nat
    requires o + EntryLength(t) <= 512
  {
    if t == Fat32 then LdDword(s, o) % 0x1000_0000 else LdWord(s, o)
  }

  /** The bytes a wide entry store puts down. */
  function EntryBytes(t: FsType, v: nat): (b: seq<Byte>)
    ensures |b| == EntryLength(t)
  {
    if t == Fat32 then StDword(v) else StWord(v)
  }

  lemma LoadWide(g: Geometry, img: Image, c: nat)
    requires HasTable(g, img) && !g.fsType.Fat12? && c < g.maxClust
    ensures var s, o := g.fatbase + SectorIndex(g.fsType, c), ByteIndex(g.fsType, c);
      && s < g.fatbase + g.sectsFat && s < |img| && o + EntryLength(g.fsType) <= 512
      && Entry(g, img, c) == LoadEntry(g.fsType, img[s], o)
  {
    hide SectorIndex, ByteIndex, TableSect, TableOff;
    EntryInTable(g, img, c);
    IndexIsOffset(g, c, 0);
    IndexIsOffset(g, c, 1);
    if g.fsType == Fat32 { IndexIsOffset(g, c, 2); IndexIsOffset(g, c, 3); }
  }

  /** A little-endian store over the entry's bytes replaces that entry and no other. On FAT32 all four
      bytes are stored: see `TopBitsSurviveExactly` for the four bits that are never read. */
  lemma StoreWide(g: Geometry, img: Image, c: nat, v: nat)
    requires g.nFats >= 1 && HasTable(g, img) && !g.fsType.Fat12? && c < g.maxClust
    ensures var s, o := g.fatbase + SectorIndex(g.fsType, c), ByteIndex(g.fsType, c);
      && s < |img| && o + EntryLength(g.fsType) <= 512
      && var r := Store(g, img, s, Splice(img[s], o, EntryBytes(g.fsType, v)));
      && SameData(g, img, r) && HasTable(g, r)
      && Entries(g, r) == Entries(g, img)[c := Mask(g.fsType, v)]
  {
    hide HasTable, SectorIndex, ByteIndex, TableSect, TableOff, Entry, EntryBytes, SameData, Mask, TableByte;
    LoadWide(g, img, c);
    IndexIsOffset(g, c, 0);
    EntryInTable(g, img, c);
    var i := EntryOffset(g.fsType, c);
    PatchKeepsData(g, img, i, EntryBytes(g.fsType, v));
    var r := PatchTable(g, img, i, EntryBytes(g.fsType, v));
    forall d | 0 <= d < g.maxClust
      ensures Entry(g, r, d) == if d == c then Mask(g.fsType, v) else Entry(g, img, d)
    {
      StoreWideAt(g, img, c, v, d);
    }
  }

  /** The upper four bits of a FAT32 entry, which the specification reserves. */
  function TopBits(g: Geometry, img: Image, c: nat): nat
    requires HasTable(g, img) && g.fsType == Fat32 && c < g.maxClust
  {
    EntryInTable(g, img, c);
    TableByte(g, img, 4 * c + 3) / 0x10
  }

  /** A store sets the upper four bits of its entry to those of the value, and leaves those of the others. */
  lemma StoreTopBits(g: Geometry, img: Image, c: nat, v: nat, d: nat)
    requires HasTable(g, img) && g.fsType == Fat32 && c < g.maxClust && d < g.maxClust
    ensures var s, o := g.fatbase + SectorIndex(Fat32, c), ByteIndex(Fat32, c);
      && s < |img| && o + 4 <= 512
      && var r := Store(g, img, s, Splice(img[s], o, EntryBytes(Fat32, v)));
      && HasTable(g, r)
      && TopBits(g, r, d) == if d == c then v / 0x1000_0000 % 0x10 else TopBits(g, img, d)
  {
    hide HasTable, SectorIndex, ByteIndex, TableSect, TableOff, TableByte, EntryBytes;
    LoadWide(g, img, c);
    IndexIsOffset(g, c, 0);
    EntryInTable(g, img, c);
    EntryInTable(g, img, d);
    PatchTableByte(g, img, 4 * c, EntryBytes(Fat32, v), 4 * d + 3);
    TopOfStored(v);
  }

  /** On FAT32 the entry of `c` took the upper four bits of `v`, and every other entry kept its own. */
  ghost predicate TopBitsTaken(g: Geometry, img: Image, img': Image, c: nat, v: nat)
  {
    g.fsType == Fat32 ==>
      HasTable(g, img) && HasTable(g, img') && forall d :: 0 <= d < g.maxClust ==>
        TopBits(g, img', d) == if d == c then v / 0x1000_0000 % 0x10 else TopBits(g, img, d)
  }

  lemma AllTopBits(g: Geometry, img: Image, c: nat, v: nat, img': Image)
    requires HasTable(g, img) && !g.fsType.Fat12? && c < g.maxClust
    requires var s, o := g.fatbase + SectorIndex(g.fsType, c), ByteIndex(g.fsType, c);
      && s < |img| && o + EntryLength(g.fsType) <= 512
      && img' == Store(g, img, s, Splice(img[s], o, EntryBytes(g.fsType, v)))
    ensures TopBitsTaken(g, img, img', c, v)
  {
    hide HasTable, SectorIndex, ByteIndex, Store, Splice, TopBits, EntryBytes;
    if g.fsType == Fat32 {
      StoreTopBits(g, img, c, v, c);
      forall d: nat | d < g.maxClust
        ensures TopBits(g, img', d) == if d == c then v / 0x1000_0000 % 0x10 else TopBits(g, img, d)
      {
        StoreTopBits(g, img, c, v, d);
      }
    }
  }

  lemma TopOfStored(v: nat)
    ensures EntryBytes(Fat32, v)[3] as int / 0x10 == v / 0x1000_0000 % 0x10
  {
    var w := v / 0x100_0000;
    TopByte(v);
    NibbleOf(w);
  }

  lemma TopByte(v: nat)
    ensures EntryBytes(Fat32, v)[3] == v / 0x100_0000 % 0x100
    ensures v / 0x1000_0000 == v / 0x100_0000 / 0x10
  {
  }

  lemma NibbleOf(w: nat)
    ensures w % 0x100 / 0x10 == w / 0x10 % 0x10
  {
    var a, r := w / 0x100, w % 0x100;
    DivModUnique(w, 0x10, 0x10 * a + r / 0x10, r % 0x10);
    DivModUnique(0x10 * a + r / 0x10, 0x10, a, r / 0x10);
  }

  /** The upper four bits survive a store exactly when the value brings the same ones. Every value the driver
      stores is below 2 to the 28, so they survive exactly where they were zero. */
  lemma TopBitsSurviveExactly(g: Geometry, img: Image, c: nat, v: nat)
    requires HasTable(g, img) && g.fsType == Fat32 && c < g.maxClust && v < DWORD
    ensures var s, o := g.fatbase + SectorIndex(Fat32, c), ByteIndex(Fat32, c);
      && s < |img| && o + 4 <= 512
      && var r := Store(g, img, s, Splice(img[s], o, EntryBytes(Fat32, v)));
      && HasTable(g, r)
      && (TopBits(g, r, c) == TopBits(g, img, c) <==> TopBits(g, img, c) == v / 0x1000_0000)
      && (v < 0x1000_0000 ==> (TopBits(g, r, c) == TopBits(g, img, c) <==> TopBits(g, img, c) == 0))
  {
    hide HasTable, SectorIndex, ByteIndex, Store, Splice, TopBits;
    StoreTopBits(g, img, c, v, c);
  }

  lemma StoreWideAt(g: Geometry, img: Image, c: nat, v: nat, d: nat)
    requires HasTable(g, img) && !g.fsType.Fat12? && c < g.maxClust && d < g.maxClust
    requires var i := EntryOffset(g.fsType, c);
      i + EntryLength(g.fsType) <= 512 * g.sectsFat && TableOff(i) + EntryLength(g.fsType) <= 512
    ensures var r := PatchTable(g, img, EntryOffset(g.fsType, c), EntryBytes(g.fsType, v));
      Entry(g, r, d) == if d == c then Mask(g.fsType, v) else Entry(g, img, d)
  {
    hide HasTable, TableSect, TableOff, EntryBytes, Mask, TableByte, PatchTable, Unpack;
    EntryInTable(g, img, d);
    var t, b := g.fsType, EntryBytes(g.fsType, v);
    var i, j := EntryOffset(t, c), EntryOffset(t, d);
    PatchTableByte(g, img, i, b, j);
    PatchTableByte(g, img, i, b, j + 1);
    if t == Fat32 {
      PatchTableByte(g, img, i, b, j + 2);
      PatchTableByte(g, img, i, b, j + 3);
    }
    UnpackStored(t, c, v);
  }

  lemma UnpackStored(t: FsType, c: nat, v: nat)
    requires !t.Fat12?
    ensures var b := EntryBytes(t, v); var wide := t == Fat32;
      Unpack(t, c, b[0], b[1], if wide then b[2] else 0, if wide then b[3] else 0) == Mask(t, v)
  {
    hide StDword, StWord;
    RemainderSplit(v, 0x1000_0000, 0x10);
    assert LdWord(StWord(v), 0) == v % 0x1_0000;
    assert LdDword(StDword(v), 0) == v % DWORD;
  }
}
