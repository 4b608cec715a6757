/** Where things lie on a mounted volume: the fields of the file system object that mounting fixes. */
module Layout {
  import opened Bytes

  datatype FsType = Fat12 | Fat16 | Fat32

  /** What a 32-bit value becomes when it is stored in, and read back from, a table entry. */
  function Mask(t: FsType, v: nat): (r: nat)
    ensures r <= v && r <= EndMark(t)
  {
    match t
    case Fat12 => v % 0x1000
    case Fat16 => v % 0x1_0000
    case Fat32 => v % 0x1000_0000
  }

  /** The value 0x0FFFFFFF as it reads back: every chain the driver builds ends with it. */
  function EndMark(t: FsType): nat
  {
    match t
    case Fat12 => 0xFFF
    case Fat16 => 0xFFFF
    case Fat32 => 0xFFF_FFFF
  }

  lemma MaskFits(t: FsType, v: nat)
    ensures v <= EndMark(t) ==> Mask(t, v) == v
    ensures Mask(t, 0xFFF_FFFF) == EndMark(t) < DWORD
  {
  }

  datatype Geometry = Geometry(
    fsType: FsType,
    csize: nat,      // sectors per cluster
    nFats: nat,      // number of table copies
    nRootdir: nat,   // entries of the static root directory, 0 on FAT32
    sectsFat: nat,   // sectors per table copy
    maxClust: nat,   // highest cluster number plus one
    fatbase: nat,    // first sector of the table
    dirbase: nat,    // root directory: first sector, or first cluster on FAT32
    database: nat,   // first data sector
    fsiSector: nat   // FSInfo sector, FAT32 only
  ) {

    function FatEnd(): (r: nat)
      ensures nFats >= 1 ==> r >= fatbase + sectsFat
    {
      assert nFats >= 1 ==> nFats * sectsFat >= sectsFat by {
        if nFats >= 1 { MulMono(1, nFats, sectsFat); }
      }
      fatbase + nFats * sectsFat
    }

    function VolEnd(): (r: nat)
      requires maxClust >= 2
      ensures r >= database
    {
      database + (maxClust - 2) * csize
    }

    /** Bytes one table copy needs for entries 0 .. maxClust - 1. */
    function TableBytes(): nat
    {
      match fsType
      case Fat12 => (3 * maxClust + 1) / 2
      case Fat16 => 2 * maxClust
      case Fat32 => 4 * maxClust
    }

    predicate Sane()
    {
      && csize <= 128 && PowerOfTwo(csize)
      && nFats >= 1
      && nRootdir % 16 == 0
      && 2 <= maxClust <= EndMark(fsType)
      && TableBytes() <= 512 * sectsFat
      && fatbase >= 1
      && database == FatEnd() + nRootdir / 16
      && (if fsType == Fat32 then fsiSector < fatbase && 2 <= dirbase < maxClust else dirbase == FatEnd())
      && VolEnd() <= DWORD
    }

    predicate ValidCluster(c: int) { 2 <= c < maxClust }

    /** The sectors of all table copies. */
    predicate TableSector(s: nat) { fatbase <= s < FatEnd() }

    /** The sectors the window may show: the first table copy, and everything behind the table area. */
    predicate Window(s: nat)
    {
      fatbase <= s < fatbase + sectsFat || FatEnd() <= s
    }

    /** First sector of a cluster; clusters 0 and 1 and those past the end give 0, by unsigned wrap. */
    function Clust2Sect(c: nat): (r: nat)
      requires maxClust >= 2
    {
      var k := Sub32(c, 2);
      if k >= maxClust - 2 then 0 else k * csize + database
    }

    lemma Clust2SectIsSect(c: nat)
      requires Sane() && c < DWORD
      ensures Clust2Sect(c) == if ValidCluster(c) then ClusterSect(c) else 0
      ensures ValidCluster(c) ==> 0 < FatEnd() <= database <= ClusterSect(c) && ClusterSect(c) + csize <= VolEnd()
    {
      assert maxClust - 2 < DWORD - 2;
      assert Sub32(c, 2) == if c >= 2 then c - 2 else c + DWORD - 2;
      if ValidCluster(c) { ClusterInVolume(c, csize - 1); }
    }

    lemma ClusterFits(c: nat)
      requires Sane() && ValidCluster(c)
      ensures c < DWORD
    {
    }

    /** The sector run of cluster `c` starts here. */
    function ClusterSect(c: nat): (r: nat)
      requires c >= 2
      ensures r >= database
    {
      (c - 2) * csize + database
    }

    /** Which cluster a sector of the data area belongs to. */
    function ClusterOf(s: nat): (c: nat)
      requires csize > 0 && s >= database
      ensures c >= 2
    {
      (s - database) / csize + 2
    }

    /** Runs of different clusters are disjoint: a sector knows its cluster. */
    lemma ClusterOfSect(c: nat, j: nat)
      requires csize > 0 && c >= 2 && j < csize
      ensures ClusterOf(ClusterSect(c) + j) == c
    {
      DivModUnique((c - 2) * csize + j, csize, c - 2, j);
    }

    lemma ClusterInVolume(c: nat, j: nat)
      requires maxClust >= 2 && ValidCluster(c) && j < csize
      ensures database <= ClusterSect(c) + j < VolEnd()
    {
      MulMono(c - 1, maxClust - 2, csize);
      assert (c - 1) * csize == (c - 2) * csize + csize;
    }
  }
}
