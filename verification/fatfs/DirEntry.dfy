/** The fields of a 32-byte directory entry. */
module DirEntry {
  import opened Bytes

  const ENTRY_SIZE: nat := 32
  const DIR_ATTR: nat := 11
  const DIR_NTRES: nat := 12
  const DIR_CLUST_HI: nat := 20
  const DIR_WRT_TIME: nat := 22
  const DIR_CLUST_LO: nat := 26
  const DIR_FILE_SIZE: nat := 28

  const AM_RDO: nat := 0x01
  const AM_VOL: nat := 0x08
  const AM_DIR: nat := 0x10
  const AM_ARC: nat := 0x20

  type Entry32 = e: seq<Byte> | |e| == ENTRY_SIZE witness seq(ENTRY_SIZE, i => 0)

  /** An attribute bit, given as a power of two. */
  predicate HasAttr(attr: Byte, bit: nat)
    requires bit > 0
  {
    attr / bit % 2 == 1
  }

  /** Start cluster of the object, from its two halves. */
  function StartCluster(e: Entry32): (c: nat)
    ensures c < DWORD
  {
    0x1_0000 * LdWord(e, DIR_CLUST_HI) + LdWord(e, DIR_CLUST_LO)
  }

  function FileSize(e: Entry32): (n: nat)
    ensures n < DWORD
  {
    LdDword(e, DIR_FILE_SIZE)
  }

  /** The entry at offset `o` of a sector. */
  function EntryAt(s: Sector, o: nat): (e: Entry32)
    requires o + ENTRY_SIZE <= 512
  {
    s[o..o + ENTRY_SIZE]
  }

  /** An entry after the driver flushed a written file: archive bit, size, both halves of the start cluster
      and the time of the write. */
  function Updated(s: Sector, o: nat, size: nat, clust: nat, time: nat): (r: Sector)
    requires o + ENTRY_SIZE <= 512
  {
    var s1 := PutAt(s, o + DIR_ATTR, [WithArchive(s[o + DIR_ATTR])]);
    var s2 := PutAt(s1, o + DIR_FILE_SIZE, StDword(size));
    var s3 := PutAt(s2, o + DIR_CLUST_LO, StWord(clust));
    var s4 := PutAt(s3, o + DIR_CLUST_HI, StWord(clust / 0x1_0000));
    PutAt(s4, o + DIR_WRT_TIME, StDword(time))
  }

  /** The archive bit set. */
  function WithArchive(attr: Byte): Byte
  {
    if HasAttr(attr, AM_ARC) then attr else (attr as int + AM_ARC) % 0x100
  }

  lemma EntryLoads(s: Sector, o: nat)
    requires o + ENTRY_SIZE <= 512
    ensures FileSize(EntryAt(s, o)) == LdDword(s, o + DIR_FILE_SIZE)
    ensures StartCluster(EntryAt(s, o)) == 0x1_0000 * LdWord(s, o + DIR_CLUST_HI) + LdWord(s, o + DIR_CLUST_LO)
  {
  }

  /** The updated entry holds size and start cluster. */
  lemma UpdatedHolds(s: Sector, o: nat, size: nat, clust: nat, time: nat)
    requires o + ENTRY_SIZE <= 512 && size < DWORD && clust < DWORD && time < DWORD
    ensures var e := EntryAt(Updated(s, o, size, clust, time), o); FileSize(e) == size && StartCluster(e) == clust
  {
    hide StWord, StDword, LdWord, LdDword, PutAt, FileSize, StartCluster, EntryAt, WithArchive;
    var s1 := PutAt(s, o + DIR_ATTR, [WithArchive(s[o + DIR_ATTR])]);
    var s2 := PutAt(s1, o + DIR_FILE_SIZE, StDword(size));
    var s3 := PutAt(s2, o + DIR_CLUST_LO, StWord(clust));
    var s4 := PutAt(s3, o + DIR_CLUST_HI, StWord(clust / 0x1_0000));
    DwordPut(s1, o + DIR_FILE_SIZE, size, 0);
    WordPut(s2, o + DIR_CLUST_LO, clust, o + DIR_FILE_SIZE);
    WordPut(s3, o + DIR_CLUST_HI, clust / 0x1_0000, o + DIR_FILE_SIZE);
    WordPut(s3, o + DIR_CLUST_HI, clust / 0x1_0000, o + DIR_CLUST_LO);
    DwordPut(s4, o + DIR_WRT_TIME, time, o + DIR_FILE_SIZE);
    DwordPut(s4, o + DIR_WRT_TIME, time, o + DIR_CLUST_LO);
    DwordPut(s4, o + DIR_WRT_TIME, time, o + DIR_CLUST_HI);
    EntryLoads(Updated(s, o, size, clust, time), o);
  }

  /** The fields of an entry, byte by byte: attribute bits at 11, start cluster at 20 and 26, size at 28, low bytes
      first. */
  lemma EntryFields(e: Entry32)
    ensures StartCluster(e) == e[26] as int + 0x100 * e[27] as int + 0x1_0000 * (e[20] as int + 0x100 * e[21] as int)
    ensures FileSize(e) == e[28] as int + 0x100 * e[29] as int + 0x1_0000 * (e[30] as int + 0x100 * e[31] as int)
    ensures HasAttr(e[DIR_ATTR], AM_RDO) <==> e[11] % 2 == 1
    ensures HasAttr(e[DIR_ATTR], AM_VOL) <==> e[11] / 8 % 2 == 1
    ensures HasAttr(e[DIR_ATTR], AM_DIR) <==> e[11] / 16 % 2 == 1
  {
  }

  /** The archive bit is set, the other bits stay. */
  lemma ArchiveSet(a: Byte)
    ensures WithArchive(a) / 0x20 % 2 == 1 && WithArchive(a) / 0x40 == a / 0x40 && WithArchive(a) % 0x20 == a % 0x20
  {
  }

  /** The four bytes at `o` are the number, low byte first. */
  predicate Number4(s: Sector, o: nat, v: nat)
    requires o + 4 <= 512
  {
    && s[o] == v % 0x100 && s[o + 1] == v / 0x100 % 0x100 && s[o + 2] == v / 0x1_0000 % 0x100
    && s[o + 3] == v / 0x100_0000 % 0x100
  }

  /** A flushed entry, byte by byte. */
  lemma FlushedBytes(s: Sector, o: nat, size: nat, clust: nat, time: nat)
    requires o + ENTRY_SIZE <= 512 && size < DWORD && clust < DWORD && time < DWORD
    ensures var r := Updated(s, o, size, clust, time);
      && r[o + 11] / 0x20 % 2 == 1 && r[o + 11] / 0x40 == s[o + 11] / 0x40 && r[o + 11] % 0x20 == s[o + 11] % 0x20
      && Number4(r, o + 28, size) && Number4(r, o + 22, time)
      && r[o + 26] == clust % 0x100 && r[o + 27] == clust / 0x100 % 0x100
      && r[o + 20] == clust / 0x1_0000 % 0x100 && r[o + 21] == clust / 0x100_0000
      && forall i :: 0 <= i < 512 && i != o + 11 && !(o + 20 <= i < o + 32) ==> r[i] == s[i]
  {
    ArchiveSet(s[o + DIR_ATTR]);
    DwordBytes(size);
    DwordBytes(time);
    DwordBytes(clust);
    hide WithArchive, StDword, StWord;
  }

  lemma DwordBytes(v: nat)
    requires v < DWORD
    ensures var b := StDword(v);
      && b[0] == v % 0x100 && b[1] == v / 0x100 % 0x100 && b[2] == v / 0x1_0000 % 0x100 && b[3] == v / 0x100_0000 % 0x100
    ensures StWord(v) == [v % 0x100, v / 0x100 % 0x100]
    ensures StWord(v / 0x1_0000) == [v / 0x1_0000 % 0x100, v / 0x100_0000]
  {
  }

  /** Emptying an entry clears both halves of the start cluster and the size, and nothing else. */
  lemma EmptiedBytes(s: Sector, o: nat)
    requires o + ENTRY_SIZE <= 512
    ensures var r := Emptied(s, o);
      && r[o + 20] == r[o + 21] == 0 && (forall i :: o + 26 <= i < o + 32 ==> r[i] == 0)
      && forall i :: 0 <= i < 512 && i != o + 20 && i != o + 21 && !(o + 26 <= i < o + 32) ==> r[i] == s[i]
  {
    var s1 := PutAt(s, o + DIR_CLUST_HI, [0, 0]);
    var s2 := PutAt(s1, o + DIR_CLUST_LO, [0, 0]);
    assert Emptied(s, o) == PutAt(s2, o + DIR_FILE_SIZE, [0, 0, 0, 0]);
  }

  /** Creating a file resets its attributes and stores the time of creation, and changes nothing else. */
  lemma CreatedBytes(s: Sector, o: nat, time: nat)
    requires o + ENTRY_SIZE <= 512 && time < DWORD
    ensures var r := Created(s, o, time);
      && r[o + 11] == 0 && Number4(r, o + 14, time)
      && forall i :: 0 <= i < 512 && i != o + 11 && !(o + 14 <= i < o + 18) ==> r[i] == s[i]
  {
    DwordBytes(time);
    hide StDword;
  }

  /** Name and attributes stay but for the archive bit, and nothing outside the entry changes. */
  lemma UpdatedKeeps(s: Sector, o: nat, size: nat, clust: nat, time: nat)
    requires o + ENTRY_SIZE <= 512
    ensures var r := Updated(s, o, size, clust, time);
      r[o + DIR_ATTR] == WithArchive(s[o + DIR_ATTR]) && KeptOutside(s, r, o + DIR_ATTR, o + ENTRY_SIZE)
  {
    hide StWord, StDword, WithArchive;
  }

  const DIR_CRT_TIME: nat := 14

  /** An entry whose file is being emptied: no cluster, no bytes. */
  function Emptied(s: Sector, o: nat): (r: Sector)
    requires o + ENTRY_SIZE <= 512
  {
    PutAt(PutAt(PutAt(s, o + DIR_CLUST_HI, [0, 0]), o + DIR_CLUST_LO, [0, 0]), o + DIR_FILE_SIZE, [0, 0, 0, 0])
  }

  /** An entry as a created file gets it: attributes reset, creation time set. */
  function Created(s: Sector, o: nat, time: nat): (r: Sector)
    requires o + ENTRY_SIZE <= 512
  {
    PutAt(PutAt(s, o + DIR_ATTR, [0]), o + DIR_CRT_TIME, StDword(time))
  }

  lemma EmptiedHolds(s: Sector, o: nat, r: Sector)
    requires o + ENTRY_SIZE <= 512 && r == Emptied(s, o)
    ensures StartCluster(EntryAt(r, o)) == 0 && FileSize(EntryAt(r, o)) == 0
    ensures KeptOutside(s, r, o + DIR_CLUST_HI, o + ENTRY_SIZE)
  {
    hide FileSize, StartCluster, EntryAt;
    EntryLoads(r, o);
  }

  /** Creating resets the attributes and leaves start cluster and size. */
  lemma CreatedHolds(s: Sector, o: nat, time: nat, r: Sector)
    requires o + ENTRY_SIZE <= 512 && time < DWORD && r == Created(s, o, time)
    ensures StartCluster(EntryAt(r, o)) == StartCluster(EntryAt(s, o)) && FileSize(EntryAt(r, o)) == FileSize(EntryAt(s, o))
  {
    hide StWord, StDword, LdWord, LdDword, FileSize, StartCluster, EntryAt, PutAt;
    var s1 := PutAt(s, o + DIR_ATTR, [0]);
    AttrPut(s, o, 0, o + DIR_CLUST_HI);
    AttrPut(s, o, 0, o + DIR_CLUST_LO);
    AttrPut(s, o, 0, o + DIR_FILE_SIZE);
    DwordPut(s1, o + DIR_CRT_TIME, time, o + DIR_CLUST_HI);
    DwordPut(s1, o + DIR_CRT_TIME, time, o + DIR_CLUST_LO);
    DwordPut(s1, o + DIR_CRT_TIME, time, o + DIR_FILE_SIZE);
    EntryLoads(s, o);
    EntryLoads(r, o);
  }

  lemma CreatedKeeps(s: Sector, o: nat, time: nat, r: Sector)
    requires o + ENTRY_SIZE <= 512 && r == Created(s, o, time)
    ensures r[o + DIR_ATTR] == 0
    ensures KeptOutside(s, r, o + DIR_ATTR, o + ENTRY_SIZE)
  {
    hide StWord, StDword;
  }

  lemma AttrPut(s: Sector, o: nat, a: Byte, k: nat)
    requires o + ENTRY_SIZE <= 512 && k + 2 <= 512 && o + DIR_ATTR < k
    ensures LdWord(PutAt(s, o + DIR_ATTR, [a]), k) == LdWord(s, k)
    ensures k + 4 <= 512 ==> LdDword(PutAt(s, o + DIR_ATTR, [a]), k) == LdDword(s, k)
  {
  }
}
