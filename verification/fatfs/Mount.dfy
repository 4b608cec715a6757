/** The geometry a volume gets when it is mounted, from the fields of its boot sector. */
module Mount {
  import opened Bytes
  import opened Layout

  /** BIOS parameter block fields, by the names of the FAT specification. */
  datatype Bpb = Bpb(
    secPerClus: nat, rsvdSecCnt: nat, numFats: nat, rootEntCnt: nat, totSec: nat, fatSz: nat,
    rootClus: nat, fsInfo: nat)

  /** The fields of a boot sector; the 16-bit size fields give way to the 32-bit ones when they are 0. */
  function ReadBpb(bs: Sector): (b: Bpb)
  {
    Bpb(bs[13] as int, LdWord(bs, 14), bs[16] as int, LdWord(bs, 17),
        if LdWord(bs, 19) != 0 then LdWord(bs, 19) else LdDword(bs, 32),
        if LdWord(bs, 22) != 0 then LdWord(bs, 22) else LdDword(bs, 36),
        LdDword(bs, 44), LdWord(bs, 48))
  }

  /** Stores at the offsets that the specification gives: byte, 16-bit and 32-bit fields, low byte first. */
  function Put1(s: Sector, o: nat, v: nat): (r: Sector)
    requires o < 512 && v < 0x100
  {
    s[o := v]
  }

  function Put2(s: Sector, o: nat, v: nat): (r: Sector)
    requires o + 2 <= 512 && v < 0x1_0000
  {
    s[o := v % 0x100][o + 1 := v / 0x100]
  }

  function Put4(s: Sector, o: nat, v: nat): (r: Sector)
    requires o + 4 <= 512 && v < DWORD
  {
    Put2(Put2(s, o, v % 0x1_0000), o + 2, v / 0x1_0000)
  }

  /** A boot sector as a formatter writes it, over any other contents: the two sizes go to the 16-bit fields if
      `short16` and `shortFat` say so, to the 32-bit ones otherwise. */
  function BootSector(s: Sector, b: Bpb, shortTot: bool, shortFat: bool): (r: Sector)
    requires Writable(b, shortTot, shortFat)
  {
    var s1 := Put1(Put2(Put1(s, 13, b.secPerClus), 14, b.rsvdSecCnt), 16, b.numFats);
    var s2 := Put2(s1, 17, b.rootEntCnt);
    var s3 := if shortTot then Put2(s2, 19, b.totSec) else Put4(Put2(s2, 19, 0), 32, b.totSec);
    var s4 := if shortFat then Put2(s3, 22, b.fatSz) else Put4(Put2(s3, 22, 0), 36, b.fatSz);
    Put2(Put4(s4, 44, b.rootClus), 48, b.fsInfo)
  }

  /** The fields fit their places; a size in a 16-bit field is not 0. */
  predicate Writable(b: Bpb, shortTot: bool, shortFat: bool)
  {
    && b.secPerClus < 0x100 && b.rsvdSecCnt < 0x1_0000 && b.numFats < 0x100 && b.rootEntCnt < 0x1_0000
    && (if shortTot then 0 < b.totSec < 0x1_0000 else b.totSec < DWORD)
    && (if shortFat then 0 < b.fatSz < 0x1_0000 else b.fatSz < DWORD)
    && b.rootClus < DWORD && b.fsInfo < 0x1_0000
  }

  /** Such a sector reads back as the fields it was written from. */
  lemma BootSectorReads(s: Sector, b: Bpb, shortTot: bool, shortFat: bool)
    requires Writable(b, shortTot, shortFat)
    ensures ReadBpb(BootSector(s, b, shortTot, shortFat)) == b
  {
  }

  /** A 16-bit and a 32-bit number from their bytes. */
  function Two(b0: Byte, b1: Byte): nat { b0 as int + 0x100 * b1 as int }

  function Four(b0: Byte, b1: Byte, b2: Byte, b3: Byte): nat { Two(b0, b1) + 0x1_0000 * Two(b2, b3) }

  /** A volume laid out as the bytes of its boot sector say. */
  predicate LaidOut(g: Geometry, bs: Sector, bsect: nat)
  {
    var fatSz := if Two(bs[22], bs[23]) != 0 then Two(bs[22], bs[23]) else Four(bs[36], bs[37], bs[38], bs[39]);
    var totSec := if Two(bs[19], bs[20]) != 0 then Two(bs[19], bs[20]) else Four(bs[32], bs[33], bs[34], bs[35]);
    && g.csize == bs[13] && g.nFats == bs[16] && g.nRootdir == Two(bs[17], bs[18]) && g.sectsFat == fatSz
    && g.fatbase == bsect + Two(bs[14], bs[15]) && g.csize > 0
    && g.database == g.fatbase + g.nFats * fatSz + g.nRootdir / 16
    && g.maxClust == (bsect + totSec - g.database) / g.csize + 2
    && g.fsType == (if g.maxClust < 4087 then Fat12 else if g.maxClust < 65527 then Fat16 else Fat32)
    && (if g.fsType == Fat32
        then g.dirbase == Four(bs[44], bs[45], bs[46], bs[47]) && g.fsiSector == bsect + Two(bs[48], bs[49])
        else g.dirbase == g.fatbase + g.nFats * fatSz)
  }

  /** The driver's arithmetic, on 32-bit values. */
  function MountGeometry(b: Bpb, bsect: nat): (g: Geometry)
    requires b.secPerClus > 0
  {
    var fsize := b.fatSz * b.numFats % DWORD;
    var fatbase := (bsect + b.rsvdSecCnt) % DWORD;
    var data := (b.totSec - b.rsvdSecCnt - fsize - b.rootEntCnt / 16) % DWORD;
    var mclst := (data / b.secPerClus + 2) % DWORD;
    var fmt := if mclst >= 0xFFF7 then Fat32 else if mclst >= 0xFF7 then Fat16 else Fat12;
    Geometry(fmt, b.secPerClus, b.numFats, b.rootEntCnt, b.fatSz, mclst, fatbase,
             if fmt == Fat32 then b.rootClus else (fatbase + fsize) % DWORD,
             (fatbase + fsize + b.rootEntCnt / 16) % DWORD,
             if fmt == Fat32 then (bsect + b.fsInfo) % DWORD else 0)
  }

  // ---- the specification's view ----

  /** Sectors of the root directory, rounded up. */
  function RootDirSectors(b: Bpb): nat { (b.rootEntCnt * 32 + 511) / 512 }

  /** Sectors ahead of the data area. */
  function MetaSectors(b: Bpb): nat { b.rsvdSecCnt + b.numFats * b.fatSz + RootDirSectors(b) }

  /** Number of data clusters. */
  function CountOfClusters(b: Bpb): int
    requires b.secPerClus > 0
  {
    (b.totSec - MetaSectors(b)) / b.secPerClus
  }

  /** "FAT Type Determination": the type depends on the count of clusters and on nothing else. */
  function SpecType(count: int): FsType
  {
    if count < 4085 then Fat12 else if count < 65525 then Fat16 else Fat32
  }

  /** A parameter block that describes a volume which fits the disk, with a table long enough for it. */
  predicate SaneBpb(b: Bpb, bsect: nat)
  {
    && 1 <= b.secPerClus <= 128 && PowerOfTwo(b.secPerClus)
    && b.rsvdSecCnt >= 1 && b.numFats >= 1
    && b.rootEntCnt % 16 == 0
    && MetaSectors(b) < b.totSec && bsect + b.totSec <= DWORD
    && var n := CountOfClusters(b); var t := SpecType(n);
      && n + 2 <= EndMark(t)
      && (match t case Fat12 => (3 * (n + 2) + 1) / 2 case Fat16 => 2 * (n + 2) case Fat32 => 4 * (n + 2)) <= 512 * b.fatSz
      && (t == Fat32 ==> b.fsInfo < b.rsvdSecCnt && 2 <= b.rootClus < n + 2)
  }

  /** On a sane block none of the 32-bit operations wraps. */
  lemma NoWrap(b: Bpb, bsect: nat)
    requires SaneBpb(b, bsect)
    ensures var g, n := MountGeometry(b, bsect), CountOfClusters(b);
      && g.fatbase == bsect + b.rsvdSecCnt && g.sectsFat == b.fatSz && g.nFats == b.numFats
      && g.maxClust == n + 2 && g.csize == b.secPerClus && g.nRootdir == b.rootEntCnt
      && g.database == bsect + MetaSectors(b) && g.database == g.FatEnd() + b.rootEntCnt / 16
      && g.fsType == SpecType(n)
      && g.dirbase == (if g.fsType == Fat32 then b.rootClus else g.FatEnd())
      && (g.fsType == Fat32 ==> g.fsiSector == bsect + b.fsInfo)
  {
    hide PowerOfTwo;
    var f := b.numFats * b.fatSz;
    assert b.fatSz * b.numFats == f;
    assert RootDirSectors(b) == b.rootEntCnt / 16;
    assert MetaSectors(b) == b.rsvdSecCnt + f + b.rootEntCnt / 16;
    hide RootDirSectors, MetaSectors;
    Small(f);
    Small(bsect + b.rsvdSecCnt);
    var d := b.totSec - b.rsvdSecCnt - f - b.rootEntCnt / 16;
    Small(d);
    QuotientLe(d, b.secPerClus);
    Small(d / b.secPerClus + 2);
    Small(bsect + b.rsvdSecCnt + f);
    Small(bsect + b.rsvdSecCnt + f + b.rootEntCnt / 16);
    Small(bsect + b.fsInfo);
  }

  lemma Small(x: nat)
    ensures x < DWORD ==> x % DWORD == x
  {
  }

  lemma QuotientLe(x: nat, d: nat)
    requires d > 0
    ensures x / d <= x && x / d * d <= x
  {
    assert x == x / d * d + x % d;
    MulMono(1, d, x / d);
  }

  /** Mounting a sane volume gives a sane geometry: table, root and data area follow each other inside the
      volume, and the type is the specification's. */
  lemma MountIsSound(b: Bpb, bsect: nat)
    requires SaneBpb(b, bsect)
    ensures var g := MountGeometry(b, bsect);
      && g.Sane()
      && g.fsType == SpecType(CountOfClusters(b))
      && bsect < g.fatbase < g.FatEnd() <= g.database <= g.VolEnd() <= bsect + b.totSec
  {
    NoWrap(b, bsect);
    QuotientLe(b.totSec - MetaSectors(b), b.secPerClus);
    var g := MountGeometry(b, bsect);
    hide MountGeometry, PowerOfTwo, MetaSectors;
    assert g.sectsFat >= 1;
  }

  /** Mounting lays the volume out as the bytes say. */
  lemma MountedLaidOut(bs: Sector, bsect: nat)
    requires SaneBpb(ReadBpb(bs), bsect)
    ensures LaidOut(MountGeometry(ReadBpb(bs), bsect), bs, bsect)
  {
    var b := ReadBpb(bs);
    NoWrap(b, bsect);
    MountIsSound(b, bsect);
    QuotientLe(b.totSec - MetaSectors(b), b.secPerClus);
    BytesOf(bs);
    hide SaneBpb, PowerOfTwo, ReadBpb;
  }

  lemma BytesOf(bs: Sector)
    ensures var b := ReadBpb(bs);
      && b.secPerClus == bs[13] && b.rsvdSecCnt == Two(bs[14], bs[15]) && b.numFats == bs[16]
      && b.rootEntCnt == Two(bs[17], bs[18]) && b.rootClus == Four(bs[44], bs[45], bs[46], bs[47])
      && b.fsInfo == Two(bs[48], bs[49])
      && b.totSec == (if Two(bs[19], bs[20]) != 0 then Two(bs[19], bs[20]) else Four(bs[32], bs[33], bs[34], bs[35]))
      && b.fatSz == (if Two(bs[22], bs[23]) != 0 then Two(bs[22], bs[23]) else Four(bs[36], bs[37], bs[38], bs[39]))
  {
  }

  /** Different clusters are disjoint runs inside the volume, behind table and root directory; numbers that
      are no clusters have no sector. */
  lemma ClustersAreDisjointRuns(b: Bpb, bsect: nat, c: nat, d: nat, j: nat, k: nat)
    requires SaneBpb(b, bsect) && c < DWORD && d < DWORD && c != d
    ensures var g := MountGeometry(b, bsect);
      && g.maxClust >= 2
      && (g.Clust2Sect(c) != 0 <==> g.ValidCluster(c))
      && (g.maxClust > 2 ==> g.Clust2Sect(2) == g.database)
      && (g.ValidCluster(c) && g.ValidCluster(c + 1) ==> g.Clust2Sect(c + 1) == g.Clust2Sect(c) + g.csize)
      && (g.ValidCluster(c) && j < g.csize ==> g.database <= g.Clust2Sect(c) + j < bsect + b.totSec)
      && (g.ValidCluster(c) && g.ValidCluster(d) && j < g.csize && k < g.csize ==>
            g.Clust2Sect(c) + j != g.Clust2Sect(d) + k)
  {
    MountIsSound(b, bsect);
    var g := MountGeometry(b, bsect);
    hide SaneBpb, MountGeometry, Geometry.Clust2Sect;
    g.Clust2SectIsSect(c);
    g.Clust2SectIsSect(d);
    NextRun(g, c);
    if g.ValidCluster(c) && j < g.csize {
      g.ClusterOfSect(c, j);
      if g.ValidCluster(d) && k < g.csize { g.ClusterOfSect(d, k); }
    }
  }

  /** The runs follow each other, cluster 2 first. */
  lemma NextRun(g: Geometry, c: nat)
    requires g.Sane()
    ensures g.maxClust > 2 ==> g.Clust2Sect(2) == g.database
    ensures g.ValidCluster(c) && g.ValidCluster(c + 1) ==> g.Clust2Sect(c + 1) == g.Clust2Sect(c) + g.csize
  {
    if g.maxClust > 2 { g.ClusterFits(2); }
    if g.ValidCluster(c) && g.ValidCluster(c + 1) {
      g.ClusterFits(c);
      g.ClusterFits(c + 1);
      g.Clust2SectIsSect(c);
      g.Clust2SectIsSect(c + 1);
      assert (c - 1) * g.csize == (c - 2) * g.csize + g.csize;
    }
  }

  /** Without a whole number of root sectors the driver rounds down where the specification rounds up. It
      then counts one cluster more exactly when the sector it gains completes a cluster. */
  lemma CountAgreesExactly(b: Bpb, bsect: nat)
    requires b.secPerClus >= 1 && MetaSectors(b) <= b.totSec < DWORD
    ensures MountGeometry(b, bsect).maxClust == (CountOfClusters(b) + 2) % DWORD <==>
            b.rootEntCnt % 16 == 0 || (b.totSec - MetaSectors(b) + 1) % b.secPerClus != 0
  {
    hide MountGeometry, MetaSectors;
    var extra := if b.rootEntCnt % 16 == 0 then 0 else 1;
    MaxClustIs(b, bsect, extra);
    OneMore(b.totSec - MetaSectors(b), b.secPerClus, extra);
  }

  /** The root sector rounded away completes a cluster, which the driver counts and the specification does not. */
  predicate GainsCluster(b: Bpb)
    requires b.secPerClus > 0
  {
    b.rootEntCnt % 16 != 0 && (b.totSec - MetaSectors(b) + 1) % b.secPerClus == 0
  }

  /** The driver's type is the specification's exactly when its count does not reach the wrap-around of 32 bits,
      and no cluster is gained at one of the two thresholds. */
  lemma TypeAgreesExactly(b: Bpb, bsect: nat)
    requires b.secPerClus >= 1 && MetaSectors(b) <= b.totSec < DWORD
    ensures MountGeometry(b, bsect).fsType == SpecType(CountOfClusters(b)) <==>
            && CountOfClusters(b) + (if GainsCluster(b) then 1 else 0) < DWORD - 2
            && (GainsCluster(b) ==> CountOfClusters(b) !in {4084, 65524})
  {
    hide MountGeometry, MetaSectors, SpecType, DriverType;
    var d, s := b.totSec - MetaSectors(b), b.secPerClus;
    var extra := if b.rootEntCnt % 16 == 0 then 0 else 1;
    RootTakesSectors(b);
    MaxClustIs(b, bsect, extra);
    TypeOfCount(b, bsect);
    GainIs(d, s, extra);
    TypesAgree(d / s, if GainsCluster(b) then 1 else 0);
  }

  lemma GainIs(d: nat, s: nat, extra: nat)
    requires s >= 1 && extra <= 1
    ensures (d + extra) / s == d / s + (if extra == 1 && (d + 1) % s == 0 then 1 else 0) && (d + extra) / s <= d + extra
  {
    NextQuotient(d, s);
    QuotientLe(d + extra, s);
  }

  lemma RootTakesSectors(b: Bpb)
    ensures b.rootEntCnt % 16 != 0 ==> MetaSectors(b) >= 1
  {
  }

  /** The driver's thresholds, on the count advanced by two. */
  function DriverType(m: nat): FsType { if m >= 0xFFF7 then Fat32 else if m >= 0xFF7 then Fat16 else Fat12 }

  lemma TypeOfCount(b: Bpb, bsect: nat)
    requires b.secPerClus >= 1
    ensures MountGeometry(b, bsect).fsType == DriverType(MountGeometry(b, bsect).maxClust)
  {
  }

  lemma TypesAgree(c: nat, gain: nat)
    requires gain <= 1 && c + gain < DWORD
    ensures DriverType((c + gain + 2) % DWORD) == SpecType(c) <==>
            c + gain < DWORD - 2 && (gain == 1 ==> c != 4084 && c != 65524)
  {
    Wrapped(c + gain);
  }

  /** A count, advanced by the two reserved numbers in 32 bits. */
  lemma Wrapped(q: nat)
    requires q < DWORD
    ensures (q + 2) % DWORD == if q < DWORD - 2 then q + 2 else q + 2 - DWORD
  {
    if q < DWORD - 2 { Small(q + 2); } else { DivModUnique(q + 2, DWORD, 1, q + 2 - DWORD); }
  }

  lemma OneMore(d: nat, s: nat, extra: nat)
    requires s > 0 && extra <= 1
    ensures ((d + extra) / s + 2) % DWORD == (d / s + 2) % DWORD <==> extra == 0 || (d + 1) % s != 0
  {
    NextQuotient(d, s);
    WrapsTogether(d / s + 2);
  }

  /** The driver's count, from the specification's sectors and the root sector it may round away. */
  lemma MaxClustIs(b: Bpb, bsect: nat, extra: nat)
    requires b.secPerClus >= 1 && MetaSectors(b) <= b.totSec < DWORD
    requires extra == if b.rootEntCnt % 16 == 0 then 0 else 1
    ensures MountGeometry(b, bsect).maxClust == ((b.totSec - MetaSectors(b) + extra) / b.secPerClus + 2) % DWORD
  {
    var f, d := b.numFats * b.fatSz, b.totSec - MetaSectors(b);
    assert b.fatSz * b.numFats == f;
    assert RootDirSectors(b) == b.rootEntCnt / 16 + extra;
    assert b.totSec - b.rsvdSecCnt - f - b.rootEntCnt / 16 == d + extra;
    hide RootDirSectors, MetaSectors;
    Small(f);
    Small(d + extra);
  }

  lemma NextQuotient(d: nat, s: nat)
    requires s > 0
    ensures (d + 1) / s == if (d + 1) % s == 0 then d / s + 1 else d / s
  {
    assert d == d / s * s + d % s;
    if d % s + 1 == s {
      assert (d / s + 1) * s == d / s * s + s;
      DivModUnique(d + 1, s, d / s + 1, 0);
    } else {
      DivModUnique(d + 1, s, d / s, d % s + 1);
    }
  }

  lemma WrapsTogether(x: nat)
    ensures (x + 1) % DWORD != x % DWORD
  {
  }

  /** Such a volume of 4084 clusters is taken for FAT16. */
  lemma RoundingMatters()
    ensures var b := Bpb(1, 1, 1, 1, 4098, 12, 0, 0);
      SpecType(CountOfClusters(b)) == Fat12 && MountGeometry(b, 0).fsType == Fat16
  {
  }
}
