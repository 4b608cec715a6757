/** The file object: reading, writing, seeking and flushing. */
module File {
  import opened Bytes
  import opened Layout
  import opened LogicalDisk
  import opened Table
  import opened Chains
  import opened FileView
  import opened FilePosition
  import opened FileSystem
  import opened DirEntry
  import opened DirView

  class FIL {
    const fs: FATFS
    var canRead: bool
    var canWrite: bool
    var written: bool       // the directory entry must be updated
    var error: bool
    var csect: nat          // sector address in the cluster
    var fptr: nat           // read/write pointer
    var fsize: nat
    var orgClust: nat       // first cluster, 0 when the file has none
    var currClust: nat
    var dsect: nat          // current data sector

    const dirSect: nat      // sector with the directory entry
    const dirPtr: nat       // offset of the entry in that sector

    ghost var chain: seq<nat>

    /** Opens the object whose directory entry is in the window at offset `dir`. */
    constructor Open(fs: FATFS, dir: nat, canRead: bool, canWrite: bool, written: bool, ghost chain: seq<nat>)
      requires fs.Sound() && fs.g.FatEnd() <= fs.winsect && fs.win.Length == 512 && dir + ENTRY_SIZE <= 512
      requires var e := EntryAt(fs.win[..], dir);
        && (chain == [] || chain in fs.chains) && StartCluster(e) == (if chain == [] then 0 else chain[0])
        && FileSize(e) <= 512 * Sectors(fs.g, chain)
      ensures Valid() && this.fs == fs && this.chain == chain && fptr == 0 && !error
      ensures this.canRead == canRead && this.canWrite == canWrite && this.written == written
      ensures fsize == FileSize(EntryAt(fs.win[..], dir)) && orgClust == StartCluster(EntryAt(fs.win[..], dir))
      ensures dirSect == fs.winsect && dirPtr == dir
    {
      hide FATFS.Valid, Volume, StartCluster, FileSize;
      this.fs := fs;
      dirSect := fs.winsect;
      dirPtr := dir;
      this.canRead := canRead;
      this.canWrite := canWrite;
      this.written := written;
      error := false;
      var e := EntryAt(fs.win[..], dir);
      orgClust := StartCluster(e);
      fsize := FileSize(e);
      fptr := 0;
      csect := 255;
      currClust := 0;
      dsect := 0;
      this.chain := chain;
      fs.Facts();
      ChainOnVolume(fs.g, fs.img, fs.fat, fs.chains, chain);
      SaneCluster(fs.g);
    }

    static lemma SaneCluster(g: Geometry)
      requires g.Sane()
      ensures 0 < g.csize <= 128
    {
    }

    /** The volume is sound, and the file is one of its chains, or has none and no bytes. */
    ghost predicate Owns()
      reads `chain, `orgClust, `fsize, fs, fs.win
    {
      && fs.Sound()
      && (chain == [] || chain in fs.chains)
      && orgClust == (if chain == [] then 0 else chain[0])
      && fsize < DWORD && fsize <= 512 * Sectors(fs.g, chain)
    }

    ghost predicate Valid()
      reads this, fs, fs.win
    {
      Owns() && fptr <= fsize && Placed(fs.g, chain, fptr, csect, currClust, dsect)
    }

    lemma Facts()
      requires Owns()
      ensures fs.Valid() && fs.win.Length == 512 && Volume(fs.fat, fs.chains)
      ensures fs.g.Sane() && Fits(fs.g, fs.img) && |fs.img| == |fs.disk|
      ensures |fs.fat| == fs.g.maxClust && OnVolume(fs.g, fs.img, chain)
      ensures chain == [] || chain in fs.chains
      ensures 0 < fs.g.csize <= 128 && forall i :: 0 <= i < |chain| ==> chain[i] >= 2
    {
      hide FATFS.Valid, Volume, Sectors, Geometry.Sane, Geometry.VolEnd;
      fs.Facts();
      ChainOnVolume(fs.g, fs.img, fs.fat, fs.chains, chain);
      SaneCluster(fs.g);
    }

    // ---- reading ----

    /** Reads up to `btr` bytes into `buff`: exactly the file's bytes from the pointer on. */
    method Read(buff: array<Byte>, btr: nat) returns (res: FResult, br: nat)
      requires Valid() && buff != fs.win && btr <= buff.Length
      modifies `fptr, `csect, `currClust, `dsect, fs`disk, fs`winsect, fs`wflag, fs.win, buff
      ensures Valid()
      ensures res == if error then IntErr else if !canRead then Denied else Ok
      ensures br == (if res == Ok then Min(btr, fsize - old(fptr)) else 0) && fptr == old(fptr) + br
      ensures OnVolume(fs.g, fs.img, chain) && old(fptr) + br <= 512 * Sectors(fs.g, chain) && br <= buff.Length
      ensures buff[..] == Splice(old(buff[..]), 0, Content(fs.g, fs.img, chain, old(fptr), br))
      ensures fs.wflag ==> old(fs.wflag)
      ensures forall i :: 0 <= i < br ==> buff[i] == DiskByte(fs.g, fs.img, chain, old(fptr) + i)
    {
      hide Placed, Owns, OnVolume, Sectors, FATFS.Valid, Splice, Content, DiskByte;
      assert Owns() && fptr <= fsize <= 512 * Sectors(fs.g, chain) by { SizeFits(); }
      Facts();
      br := 0;
      ghost var start, before := fptr, buff[..];
      ContentNone(fs.g, fs.img, chain, start, before);
      if error { return IntErr, 0; }
      if !canRead { return Denied, 0; }
      var remain := fsize - fptr;
      var n: nat := if btr > remain then remain else btr;
      while n > 0
        invariant Valid() && fptr == start + br && n + br == Min(btr, fsize - start) && n + br <= |before|
        invariant fs.wflag ==> old(fs.wflag)
        invariant buff[..] == Splice(before, 0, Content(fs.g, fs.img, chain, start, br))
      {
        var rcnt := ReadStep(buff, br, n);
        ContentJoin(fs.g, fs.img, chain, before, start, br, rcnt);
        br := br + rcnt;
        n := n - rcnt;
      }
      ReadLies(buff, before, start, br);
      res := Ok;
    }

    lemma ReadLies(buff: array<Byte>, before: seq<Byte>, start: nat, br: nat)
      requires OnVolume(fs.g, fs.img, chain) && start + br <= 512 * Sectors(fs.g, chain) && br <= |before|
      requires buff[..] == Splice(before, 0, Content(fs.g, fs.img, chain, start, br))
      ensures forall i :: 0 <= i < br ==> buff[i] == DiskByte(fs.g, fs.img, chain, start + i)
    {
      hide OnVolume, Sectors, DiskByte, Content;
      ContentLies(fs.g, fs.img, chain, start, br);
      assert forall i :: 0 <= i < br ==> buff[i] == buff[..][i];
    }

    lemma SizeFits()
      requires Owns()
      ensures fsize <= 512 * Sectors(fs.g, chain)
    {
    }

    /** One round: part of a sector through the window, or a run of whole sectors past it. */
    method ReadStep(buff: array<Byte>, at: nat, n: nat) returns (rcnt: nat)
      requires Valid() && buff != fs.win && n > 0 && at + n <= buff.Length && fptr + n <= fsize
      modifies `fptr, `csect, `currClust, `dsect, fs`disk, fs`winsect, fs`wflag, fs.win, buff
      ensures Valid() && 0 < rcnt <= n && fptr == old(fptr) + rcnt
      ensures OnVolume(fs.g, fs.img, chain) && fptr <= 512 * Sectors(fs.g, chain)
      ensures buff[..] == Splice(old(buff[..]), at, Content(fs.g, fs.img, chain, old(fptr), rcnt))
      ensures fs.wflag ==> old(fs.wflag)
    {
      hide Placed, Owns, OnVolume, FATFS.Valid, Splice, Content, AtSector, FileSect, Sectors, Geometry.Clust2Sect;
      if fptr % 512 == 0 {
        EnterForRead();
        Address();
        var sect := fs.g.Clust2Sect(currClust);
        assert sect != 0;    // the source gives up here otherwise
        sect := sect + csect;
        if n / 512 > 0 {
          rcnt := ReadRun(sect, buff, at, n);
          return;
        }
        dsect := sect;
        csect := csect + 1;
      } else {
        InsideSector(fs.g, chain, fptr, csect, currClust, dsect);
      }
      rcnt := ReadPart(buff, at, n);
    }

    /** The address the current fields give is that of the file's sector. */
    lemma Address()
      requires Owns() && AtSector(fs.g, chain, fptr / 512, csect, currClust)
      ensures fptr / 512 < Sectors(fs.g, chain) && currClust < DWORD && fs.g.maxClust >= 2
      ensures fs.g.Clust2Sect(currClust) != 0
      ensures fs.g.Clust2Sect(currClust) + csect == FileSect(fs.g, chain, fptr / 512)
    {
      hide OnVolume, FATFS.Valid, FileSect, Volume, Geometry.Sane, Fits;
      Facts();
      SectorAddress(fs.g, fs.img, chain, fptr / 512, csect, currClust);
    }

    /** As many whole sectors as the request and the cluster allow, straight into the caller's buffer. */
    method ReadRun(sect: nat, buff: array<Byte>, at: nat, n: nat) returns (rcnt: nat)
      requires Owns() && AtSector(fs.g, chain, fptr / 512, csect, currClust) && fptr % 512 == 0
      requires sect == FileSect(fs.g, chain, fptr / 512)
      requires buff != fs.win && 512 <= n && at + n <= buff.Length && fptr + n <= fsize
      modifies `fptr, `csect, buff
      ensures Valid() && 0 < rcnt <= n && fptr == old(fptr) + rcnt
      ensures OnVolume(fs.g, fs.img, chain) && fptr <= 512 * Sectors(fs.g, chain)
      ensures buff[..] == Splice(old(buff[..]), at, Content(fs.g, fs.img, chain, old(fptr), rcnt))
    {
      hide OnVolume, FATFS.Valid, Splice, Content, FileSect, Volume, Geometry.Sane, Geometry.FatEnd, Fits, RunBytes,
           Placed;
      Facts();
      ghost var k := fptr / 512;
      var cc := n / 512;
      if csect + cc > fs.g.csize { cc := fs.g.csize - csect; }
      ContentOfRun(fs.g, fs.img, chain, k, cc);
      AfterRun(fs.g, chain, k, csect, currClust, dsect, cc);
      fs.DirectRead(sect, cc, buff, at);
      csect := csect + cc;
      rcnt := 512 * cc;
      fptr := fptr + rcnt;
    }

    /** The rest of the current sector, or less, through the window. */
    method ReadPart(buff: array<Byte>, at: nat, n: nat) returns (rcnt: nat)
      requires Owns() && csect > 0 && AtSector(fs.g, chain, fptr / 512, csect - 1, currClust)
      requires fptr / 512 < Sectors(fs.g, chain) && dsect == FileSect(fs.g, chain, fptr / 512)
      requires buff != fs.win && 0 < n && at + n <= buff.Length && fptr + n <= fsize
      modifies `fptr, fs`disk, fs`winsect, fs`wflag, fs.win, buff
      ensures Valid() && 0 < rcnt <= n && fptr == old(fptr) + rcnt
      ensures OnVolume(fs.g, fs.img, chain) && fptr <= 512 * Sectors(fs.g, chain)
      ensures buff[..] == Splice(old(buff[..]), at, Content(fs.g, fs.img, chain, old(fptr), rcnt))
      ensures fs.wflag ==> old(fs.wflag)
    {
      hide OnVolume, FATFS.Valid, Splice, Content, FileSect, Volume, Geometry.Sane, Geometry.FatEnd, Fits, Placed,
           AtSector;
      Facts();
      rcnt := 512 - fptr % 512;
      if rcnt > n { rcnt := n; }
      FileSectInVolume(fs.g, fs.img, chain, fptr / 512);
      ContentOfSector(fs.g, fs.img, chain, fptr, rcnt);
      AfterPart(fs.g, chain, fptr, csect - 1, currClust, rcnt);
      fs.MoveWindow(dsect);
      CopyPart(buff, at, fptr % 512, rcnt);
      fptr := fptr + rcnt;
    }

    /** Picks part of the window. */
    method CopyPart(buff: array<Byte>, at: nat, o: nat, n: nat)
      requires fs.win.Length == 512 && buff != fs.win && o + n <= 512 && at + n <= buff.Length
      modifies buff
      ensures buff[..] == Splice(old(buff[..]), at, fs.win[..][o..o + n])
    {
      for j := 0 to n
        invariant buff[..] == Splice(old(buff[..]), at, fs.win[..][o..o + j])
      {
        buff[at + j] := fs.win[o + j];
      }
    }

    /** On a sector boundary: moves to the next cluster if the current one is used up. */
    method EnterForRead()
      requires Valid() && fptr % 512 == 0 && fptr < fsize
      modifies `csect, `currClust, fs`disk, fs`winsect, fs`wflag, fs.win
      ensures Owns() && AtSector(fs.g, chain, fptr / 512, csect, currClust)
      ensures fs.wflag ==> old(fs.wflag)
    {
      hide OnVolume, FATFS.Valid, AtSector, FileSect, Volume, Geometry.Sane, IsChain, Fits;
      Facts();
      ghost var k := fptr / 512;
      AtBoundary(fs.g, chain, fptr, csect, currClust, dsect);
      DivBelow(k, fs.g.csize, |chain|);
      if csect >= fs.g.csize {
        var clst: nat;
        if fptr == 0 {
          clst := orgClust;
        } else {
          LinkOfChain(fs.fat, fs.chains, chain, k / fs.g.csize - 1);
          clst := fs.GetFat(currClust);
        }
        assert clst == chain[k / fs.g.csize];
        AtClusterStart(fs.g, chain, k);
        currClust := clst;
        csect := 0;
      }
    }

    // ---- writing ----

    /** The chain `c0` was stretched to `c`, if at all, by no more clusters than a pointer at `p` needs. */
    static ghost predicate Fewest(g: Geometry, c0: seq<nat>, c: seq<nat>, p: int)
    {
      c == c0 || 512 * Sectors(g, c) < p + 512 * g.csize
    }

    static lemma FewestOn(g: Geometry, c0: seq<nat>, c1: seq<nat>, c: seq<nat>, p: int, q: int)
      requires Fewest(g, c0, c1, p) && Fewest(g, c1, c, q) && p <= q
      ensures Fewest(g, c0, c, q)
    {
    }

    /** Writes `data` at the pointer. The file becomes what it was with the first `bw` bytes of `data` laid
        over it. Nothing is taken exactly when the size would reach 4 GB; otherwise `bw` falls short only when the
        volume is full, and then the pointer stands at the end of the chain. */
    method Write(data: seq<Byte>) returns (res: FResult, bw: nat)
      requires Valid() && |data| < DWORD
      modifies `fptr, `csect, `currClust, `dsect, `fsize, `orgClust, `written, `chain,
               fs`disk, fs`winsect, fs`wflag, fs`img, fs`fat, fs`lastClust, fs`freeClust, fs`fsiFlag, fs`chains, fs.win
      ensures Valid() && (old(fs.Counted()) ==> fs.Counted())
      ensures fs.Pending(old(fs.freeClust), old(fs.fsiFlag))
      ensures res == if error then IntErr else if !canWrite then Denied else Ok
      ensures bw <= |data| && fptr == old(fptr) + bw && fsize == Max(old(fsize), fptr)
      ensures res == Ok ==>
        && written
        && if old(fsize) + |data| >= DWORD then bw == 0
           else bw == |data| || (FreeCount(fs.fat) == 0 && fptr == 512 * Sectors(fs.g, chain))
      ensures Fewest(fs.g, old(chain), chain, fptr)
      ensures res != Ok ==>
        && bw == 0 && fs.img == old(fs.img) && fs.fat == old(fs.fat) && written == old(written)
        && orgClust == old(orgClust) && fs.wflag == old(fs.wflag) && chain == old(chain)
      ensures Written(fs.g, old(fs.img), old(chain), fs.img, chain, old(fsize), old(fptr), data[..bw])
      ensures ChainsMoved(old(fs.chains), old(chain), fs.chains, chain)
    {
      hide Owns, Placed, OnVolume, FATFS.Valid, Volume, Sectors, Written, ChainsMoved, FreeCount, Fewest;
      SizeBelow();
      FewestNone();
      ghost var start, img0, chain0, chains0 := fptr, fs.img, chain, fs.chains;
      WrittenNone();
      bw := 0;
      assert data[..0] == [];
      if error { return IntErr, 0; }
      if !canWrite { return Denied, 0; }
      var n: nat := |data|;
      if (fsize + n) % DWORD < fsize { n := 0; }
      while n > 0
        invariant Owns() && Placed(fs.g, chain, fptr, csect, currClust, dsect)
        invariant fptr == start + bw && bw + n <= |data| && fsize == old(fsize)
        invariant if old(fsize) + |data| < DWORD then bw + n == |data| else bw == 0 && n == 0
        invariant Written(fs.g, img0, chain0, fs.img, chain, fsize, start, data[..bw])
        invariant ChainsMoved(chains0, chain0, fs.chains, chain) && Fewest(fs.g, chain0, chain, fptr)
        invariant old(fs.Counted()) ==> fs.Counted()
        invariant fs.Pending(old(fs.freeClust), old(fs.fsiFlag))
      {
        ghost var img1, chain1, chains1, fptr1 := fs.img, chain, fs.chains, fptr;
        var wcnt := WriteStep(data, bw, n);
        WrittenOn(fs.g, img0, chain0, img1, chain1, fs.img, chain, fsize, start, data[..bw], data[bw..bw + wcnt]);
        assert data[..bw] + data[bw..bw + wcnt] == data[..bw + wcnt];
        ChainsMovedOn(chains0, chain0, chains1, chain1, fs.chains, chain);
        FewestOn(fs.g, chain0, chain1, chain, fptr1, fptr);
        if wcnt == 0 { break; }
        bw := bw + wcnt;
        n := n - wcnt;
      }
      ExtendSize();
      written := true;
      res := Ok;
    }

    /** A pointer behind the end makes the file longer. */
    method ExtendSize()
      requires Owns() && Placed(fs.g, chain, fptr, csect, currClust, dsect) && fptr < DWORD
      modifies `fsize, `written
      ensures Valid() && fsize == Max(old(fsize), fptr) && written == (old(written) || fptr > old(fsize))
    {
      hide FATFS.Valid, Volume, Sectors, Placed;
      PlacedFits();
      if fptr > fsize {
        fsize := fptr;
        written := true;
      }
    }

    lemma FewestNone()
      ensures Fewest(fs.g, chain, chain, fptr)
    {
    }

    lemma SizeBelow()
      requires Owns()
      ensures fsize < DWORD
    {
    }

    lemma WrittenNone()
      requires Valid()
      ensures Written(fs.g, fs.img, chain, fs.img, chain, fsize, fptr, [])
      ensures ChainsMoved(fs.chains, chain, fs.chains, chain)
    {
      hide OnVolume, Sectors, FATFS.Valid, Volume, Untouched;
      Facts();
      SameDataRefl(fs.g, fs.img);
      PlacedFits();
      GrownWritten(fs.g, fs.img, chain, fs.img, chain, fsize, fptr);
    }

    lemma PlacedFits()
      requires Owns() && Placed(fs.g, chain, fptr, csect, currClust, dsect)
      ensures Max(fsize, fptr) <= 512 * Sectors(fs.g, chain)
    {
    }

    /** One round: a run of whole sectors past the window, or part of a sector through it; 0 bytes when
        no cluster could be had. */
    method WriteStep(data: seq<Byte>, at: nat, n: nat) returns (wcnt: nat)
      requires Owns() && Placed(fs.g, chain, fptr, csect, currClust, dsect) && n > 0 && at + n <= |data|
      modifies `fptr, `csect, `currClust, `dsect, `orgClust, `chain,
               fs`disk, fs`winsect, fs`wflag, fs`img, fs`fat, fs`lastClust, fs`freeClust, fs`fsiFlag, fs`chains, fs.win
      ensures Owns() && Placed(fs.g, chain, fptr, csect, currClust, dsect) && (old(fs.Counted()) ==> fs.Counted())
      ensures fs.Pending(old(fs.freeClust), old(fs.fsiFlag))
      ensures wcnt <= n && fptr == old(fptr) + wcnt && Fewest(fs.g, old(chain), chain, fptr)
      ensures wcnt == 0 ==> FreeCount(fs.fat) == 0 && fptr == 512 * Sectors(fs.g, chain)
      ensures Written(fs.g, old(fs.img), old(chain), fs.img, chain, fsize, old(fptr), data[at..at + wcnt])
      ensures ChainsMoved(old(fs.chains), old(chain), fs.chains, chain)
    {
      hide Placed, Owns, OnVolume, FATFS.Valid, Content, AtSector, FileSect, Sectors, Geometry.Clust2Sect, Written,
           ChainsMoved, FreeCount;
      if fptr % 512 == 0 {
        var full := EnterForWrite();
        if full { assert data[at..at] == []; return 0; }
        ghost var img1, chain1 := fs.img, chain;
        FlushData();
        Address();
        var sect := fs.g.Clust2Sect(currClust);
        assert sect != 0;    // the source gives up here otherwise
        sect := sect + csect;
        if n / 512 > 0 {
          wcnt := WriteWhole(sect, data, at, n);
        } else if fptr >= fsize {
          wcnt := WriteFresh(sect, data, at, n);
        } else {
          dsect := sect;
          csect := csect + 1;
          wcnt := WritePart(data, at, n);
        }
        WrittenOn(fs.g, old(fs.img), old(chain), img1, chain1, fs.img, chain, fsize, old(fptr), [], data[at..at + wcnt]);
        assert [] + data[at..at + wcnt] == data[at..at + wcnt];
      } else {
        InsideSector(fs.g, chain, fptr, csect, currClust, dsect);
        ChainsMovedNot(fs.chains, chain);
        wcnt := WritePart(data, at, n);
      }
    }

    /** On a sector boundary: moves to the next cluster, stretching the chain if it must. */
    method EnterForWrite() returns (full: bool)
      requires Owns() && Placed(fs.g, chain, fptr, csect, currClust, dsect) && fptr % 512 == 0
      modifies `csect, `currClust, `orgClust, `chain,
               fs`disk, fs`winsect, fs`wflag, fs`img, fs`fat, fs`lastClust, fs`freeClust, fs`fsiFlag, fs`chains, fs.win
      ensures Owns() && (old(fs.Counted()) ==> fs.Counted())
      ensures fs.Pending(old(fs.freeClust), old(fs.fsiFlag))
      ensures Written(fs.g, old(fs.img), old(chain), fs.img, chain, fsize, fptr, [])
      ensures ChainsMoved(old(fs.chains), old(chain), fs.chains, chain)
      ensures full ==> FreeCount(fs.fat) == 0 && Placed(fs.g, chain, fptr, csect, currClust, dsect) && chain == old(chain)
      ensures full ==> fptr == 512 * Sectors(fs.g, chain)
      ensures chain == old(chain) || 512 * Sectors(fs.g, chain) == fptr + 512 * fs.g.csize
      ensures !full ==> AtSector(fs.g, chain, fptr / 512, csect, currClust)
    {
      hide Owns, OnVolume, FATFS.Valid, AtSector, Volume, Geometry.Sane, IsChain, Fits, FreeCount, Written,
           ChainsMoved, Sectors;
      Facts();
      PlacedFits();
      SameDataRefl(fs.g, fs.img);
      ChainsMovedNot(fs.chains, chain);
      GrownWritten(fs.g, fs.img, chain, fs.img, chain, fsize, fptr);
      ghost var k := fptr / 512;
      AtBoundary(fs.g, chain, fptr, csect, currClust, dsect);
      full := false;
      if csect >= fs.g.csize {
        var clst := NextForWrite(k);
        WholeClusters(fs.g, chain, k);
        if clst == 0 { return true; }
        Facts();
        AtClusterStart(fs.g, chain, k);
        currClust := clst;
        csect := 0;
      }
    }

    static lemma WholeClusters(g: Geometry, c: seq<nat>, k: nat)
      requires g.csize > 0 && k % g.csize == 0
      ensures |c| == k / g.csize ==> Sectors(g, c) == k
      ensures |c| == k / g.csize + 1 ==> Sectors(g, c) == k + g.csize
    {
      assert k == k / g.csize * g.csize && (k / g.csize + 1) * g.csize == k / g.csize * g.csize + g.csize;
    }

    /** The cluster for sector `k`, the first of a cluster: the head of the file, or what follows or is
        linked behind the current cluster. */
    method NextForWrite(ghost k: nat) returns (clst: nat)
      requires Owns() && k == fptr / 512 && 0 < fs.g.csize && k % fs.g.csize == 0 && k / fs.g.csize <= |chain|
      requires if fptr == 0 then k / fs.g.csize == 0 else k / fs.g.csize > 0 && currClust == chain[k / fs.g.csize - 1]
      requires Max(fsize, fptr) <= 512 * Sectors(fs.g, chain)
      modifies `orgClust, `chain,
               fs`disk, fs`winsect, fs`wflag, fs`img, fs`fat, fs`lastClust, fs`freeClust, fs`fsiFlag, fs`chains, fs.win
      ensures Owns() && (old(fs.Counted()) ==> fs.Counted())
      ensures fs.Pending(old(fs.freeClust), old(fs.fsiFlag))
      ensures Written(fs.g, old(fs.img), old(chain), fs.img, chain, fsize, fptr, [])
      ensures ChainsMoved(old(fs.chains), old(chain), fs.chains, chain)
      ensures clst == 0 ==> chain == old(chain) && FreeCount(fs.fat) == 0 && k / fs.g.csize == |chain|
      ensures clst != 0 ==> k / fs.g.csize < |chain| && clst == chain[k / fs.g.csize]
      ensures chain == old(chain) || k / fs.g.csize + 1 == |chain|
    {
      hide OnVolume, FATFS.Valid, Volume, Geometry.Sane, IsChain, Fits, FreeCount, Written;
      Facts();
      SameDataRefl(fs.g, fs.img);
      ghost var i := k / fs.g.csize;
      if fptr == 0 && orgClust != 0 {
        HeadIsCluster(fs.fat, fs.chains, chain);
        clst := orgClust;
      } else {
        clst, chain := fs.Grow(if fptr == 0 then 0 else currClust, chain, if i > 0 then i - 1 else 0);
        if fptr == 0 { orgClust := clst; }
      }
      MulMono(|old(chain)|, |chain|, fs.g.csize);
      Facts();
      GrownWritten(fs.g, old(fs.img), old(chain), fs.img, chain, fsize, fptr);
    }

    /** Writes a dirty window back before a transfer that bypasses it. */
    method FlushData()
      requires Owns()
      modifies fs`disk, fs`winsect, fs`wflag, fs.win
      ensures Owns()
    {
      hide FATFS.Valid, Volume;
      if fs.winsect == dsect { fs.MoveWindow(0); }
    }

    /** As many whole sectors as the request and the cluster allow, past the window. */
    method WriteWhole(sect: nat, data: seq<Byte>, at: nat, n: nat) returns (wcnt: nat)
      requires Owns() && AtSector(fs.g, chain, fptr / 512, csect, currClust) && fptr % 512 == 0
      requires fptr / 512 < Sectors(fs.g, chain) && sect == FileSect(fs.g, chain, fptr / 512)
      requires 512 <= n && at + n <= |data|
      modifies `fptr, `csect, fs`disk, fs`wflag, fs`img, fs`fat, fs.win
      ensures Owns() && Placed(fs.g, chain, fptr, csect, currClust, dsect) && fs.fat == old(fs.fat)
      ensures 0 < wcnt <= n && fptr == old(fptr) + wcnt
      ensures Written(fs.g, old(fs.img), chain, fs.img, chain, fsize, old(fptr), data[at..at + wcnt])
    {
      hide OnVolume, FATFS.Valid, FileSect, Volume, Geometry.Sane, Geometry.FatEnd, Fits, WriteRun, Placed, Written,
           Overlaid, Sectors, Content, RunBytes, AtSector;
      Facts();
      SizeFits();
      InCluster();
      ghost var k, was := fptr / 512, fptr;
      var cc := n / 512;
      if csect + cc > fs.g.csize { cc := fs.g.csize - csect; }
      wcnt := 512 * cc;
      ghost var bytes := data[at..at + wcnt];
      assert |bytes| % 512 == 0 && |bytes| / 512 == cc;
      FileSectInVolume(fs.g, fs.img, chain, k);
      AfterRun(fs.g, chain, k, csect, currClust, dsect, cc);
      RunOverlaid(fs.g, fs.img, chain, fptr, bytes, Max(fsize, fptr));
      fs.DirectWrite(sect, data[at..at + wcnt]);
      OverlaidWritten(fs.g, old(fs.img), fs.img, chain, fsize, was, bytes);
      csect := csect + cc;
      fptr := fptr + wcnt;
    }

    lemma InCluster()
      requires AtSector(fs.g, chain, fptr / 512, csect, currClust)
      ensures 0 < fs.g.csize <= 128 && csect == fptr / 512 % fs.g.csize < fs.g.csize
    {
    }

    /** The last, partial sector of a file that grows: the window claims it without reading it. */
    method WriteFresh(sect: nat, data: seq<Byte>, at: nat, n: nat) returns (wcnt: nat)
      requires Owns() && AtSector(fs.g, chain, fptr / 512, csect, currClust) && fptr % 512 == 0 && fsize <= fptr
      requires fptr / 512 < Sectors(fs.g, chain) && sect == FileSect(fs.g, chain, fptr / 512)
      requires 0 < n < 512 && at + n <= |data|
      modifies `fptr, `csect, `dsect, fs`disk, fs`winsect, fs`wflag, fs`img, fs`fat, fs.win
      ensures Owns() && Placed(fs.g, chain, fptr, csect, currClust, dsect) && fs.fat == old(fs.fat)
      ensures 0 < wcnt <= n && fptr == old(fptr) + wcnt
      ensures Written(fs.g, old(fs.img), chain, fs.img, chain, fsize, old(fptr), data[at..at + wcnt])
    {
      hide OnVolume, FATFS.Valid, FileSect, Volume, Geometry.Sane, Geometry.FatEnd, Fits, Placed, Written, Overlaid,
           AtSector;
      Facts();
      FileSectInVolume(fs.g, fs.img, chain, fptr / 512);
      AfterPart(fs.g, chain, fptr, csect, currClust, n);
      ghost var tail := fs.PutFresh(sect, data[at..at + n]);
      FreshOverlaid(fs.g, old(fs.img), chain, fptr, data[at..at + n], tail);
      OverlaidWritten(fs.g, old(fs.img), fs.img, chain, fsize, fptr, data[at..at + n]);
      dsect := sect;
      csect := csect + 1;
      wcnt := n;
      fptr := fptr + wcnt;
    }

    /** The rest of the current sector, or less, through the window. */
    method WritePart(data: seq<Byte>, at: nat, n: nat) returns (wcnt: nat)
      requires Owns() && csect > 0 && AtSector(fs.g, chain, fptr / 512, csect - 1, currClust)
      requires fptr / 512 < Sectors(fs.g, chain) && dsect == FileSect(fs.g, chain, fptr / 512)
      requires 0 < n && at + n <= |data|
      modifies `fptr, fs`disk, fs`winsect, fs`wflag, fs`img, fs`fat, fs.win
      ensures Owns() && Placed(fs.g, chain, fptr, csect, currClust, dsect) && fs.fat == old(fs.fat)
      ensures 0 < wcnt <= n && fptr == old(fptr) + wcnt
      ensures Written(fs.g, old(fs.img), chain, fs.img, chain, fsize, old(fptr), data[at..at + wcnt])
    {
      hide OnVolume, FATFS.Valid, FileSect, Volume, Geometry.Sane, Geometry.FatEnd, Fits, Placed, Written, Overlaid,
           AtSector, Splice;
      Facts();
      SizeFits();
      wcnt := 512 - fptr % 512;
      if wcnt > n { wcnt := n; }
      FileSectInVolume(fs.g, fs.img, chain, fptr / 512);
      AfterPart(fs.g, chain, fptr, csect - 1, currClust, wcnt);
      PartOverlaid(fs.g, fs.img, chain, fptr, data[at..at + wcnt], Max(fsize, fptr));
      fs.MoveWindow(dsect);
      fs.PatchData(fptr % 512, data[at..at + wcnt]);
      OverlaidWritten(fs.g, old(fs.img), fs.img, chain, fsize, fptr, data[at..at + wcnt]);
      fptr := fptr + wcnt;
    }

    // ---- seeking ----

    /** Moves the pointer to `target`, clipped to the file size when the file is not open for writing. It
        falls short only when the volume is full, and then stands at the end of the chain. Bytes and
        sectors stay as they were; beyond the old size the file has whatever its new sectors hold. */
    method Seek(target: nat) returns (res: FResult)
      requires Valid() && target < DWORD
      modifies `fptr, `csect, `currClust, `dsect, `fsize, `orgClust, `written, `chain,
               fs`disk, fs`winsect, fs`wflag, fs`img, fs`fat, fs`lastClust, fs`freeClust, fs`fsiFlag, fs`chains, fs.win
      ensures Valid() && (old(fs.Counted()) ==> fs.Counted())
      ensures fs.Pending(old(fs.freeClust), old(fs.fsiFlag))
      ensures res == if error then IntErr else Ok
      ensures error ==> fptr == old(fptr) && fs.img == old(fs.img) && fs.fat == old(fs.fat)
      ensures fsize == Max(old(fsize), fptr) && written == (old(written) || fsize > old(fsize))
      ensures !error ==> var goal := if canWrite then target else Min(target, old(fsize));
        fptr == goal || (canWrite && fptr < goal && fptr == 512 * Sectors(fs.g, chain) && FreeCount(fs.fat) == 0)
      ensures Written(fs.g, old(fs.img), old(chain), fs.img, chain, old(fsize), 0, [])
      ensures ChainsMoved(old(fs.chains), old(chain), fs.chains, chain)
      ensures !canWrite ==> chain == old(chain) && fs.img == old(fs.img) && fs.fat == old(fs.fat)
      ensures fsize == old(fsize) ==> chain == old(chain) && Still(old(orgClust), old(fs.img), old(fs.wflag))
      ensures Fewest(fs.g, old(chain), chain, fptr)
    {
      hide Owns, Placed, OnVolume, FATFS.Valid, Volume, Sectors, Written, ChainsMoved, FreeCount, AtCluster, Calm,
           PowerOfTwo;
      SizeFits();
      SizeBelow();
      NothingWritten();
      if error { return IntErr; }
      var ofs := target;
      if ofs > fsize && !canWrite { ofs := fsize; }
      res := Ok;
      var nsect := 0;
      var ifptr := fptr;
      if ofs == 0 {
        Rewind();
      } else {
        nsect := SeekBeyond(ofs);
      }
      if fptr % 512 != 0 && nsect != dsect {
        dsect := nsect;
      }
      ExtendSize();
    }

    /** A seek to an offset other than 0. */
    method SeekBeyond(target: nat) returns (nsect: nat)
      requires Valid() && 0 < target < DWORD && (canWrite || target <= fsize)
      modifies `fptr, `csect, `currClust, `dsect, `orgClust, `chain,
               fs`disk, fs`winsect, fs`wflag, fs`img, fs`fat, fs`lastClust, fs`freeClust, fs`fsiFlag, fs`chains, fs.win
      ensures Owns() && (old(fs.Counted()) ==> fs.Counted())
      ensures fs.Pending(old(fs.freeClust), old(fs.fsiFlag))
      ensures Placed(fs.g, chain, fptr, csect, currClust, if fptr % 512 != 0 then nsect else dsect)
      ensures fptr == target || (canWrite && fptr < target && fptr == 512 * Sectors(fs.g, chain) && FreeCount(fs.fat) == 0)
      ensures Written(fs.g, old(fs.img), old(chain), fs.img, chain, fsize, 0, [])
      ensures ChainsMoved(old(fs.chains), old(chain), fs.chains, chain)
      ensures !canWrite ==> chain == old(chain) && fs.img == old(fs.img) && fs.fat == old(fs.fat)
      ensures fptr <= fsize ==> chain == old(chain) && Still(old(orgClust), old(fs.img), old(fs.wflag))
      ensures Fewest(fs.g, old(chain), chain, fptr)
    {
      hide Owns, Placed, OnVolume, FATFS.Valid, Volume, Sectors, Written, ChainsMoved, FreeCount, AtCluster, Calm,
           PowerOfTwo;
      SizeFits();
      nsect := 0;
      ghost var i: nat;
      var clst, ofs;
      clst, ofs, i := SeekStart(target);
      if clst != 0 {
        ghost var img1, chain1, chains1, w1 := fs.img, chain, fs.chains, fs.wflag;
        nsect := SeekFollow(clst, ofs, i);
        SeekCalm(old(fs.img), old(chain), old(orgClust), old(fs.wflag), img1, chain1, w1);
        KeptOn(fs.g, old(fs.img), old(chain), img1, chain1, fs.img, chain, fsize, 0);
        ChainsMovedOn(old(fs.chains), old(chain), chains1, chain1, fs.chains, chain);
      }
    }

    /** A seek that does not reach behind the file changes nothing. */
    lemma SeekCalm(img0: Image, c0: seq<nat>, org0: nat, w0: bool, img1: Image, c1: seq<nat>, w1: bool)
      requires fsize <= 512 * Sectors(fs.g, c0) && fptr > 0
      requires if c1 == c0 then orgClust == org0 && img1 == img0 && (w1 ==> w0) else c0 == [] && |c1| == 1
      requires Calm(fs.g, c1, img1, w1, chain, fs.img, fs.wflag, fptr - 1)
      ensures fptr <= fsize ==> chain == c0 && Still(org0, img0, w0)
      ensures Fewest(fs.g, c0, chain, fptr)
    {
    }

    /** Start cluster and sectors are as they were, and the window has nothing more to write back. */
    ghost predicate Still(org: nat, img: Image, wflag: bool)
      reads `orgClust, fs`img, fs`wflag
    {
      orgClust == org && fs.img == img && (fs.wflag ==> wflag)
    }

    lemma NothingWritten()
      requires Owns()
      ensures Written(fs.g, fs.img, chain, fs.img, chain, fsize, 0, [])
      ensures ChainsMoved(fs.chains, chain, fs.chains, chain)
    {
      hide OnVolume, FATFS.Valid, Volume, Untouched, Geometry.Sane;
      Facts();
      SizeFits();
      SameDataRefl(fs.g, fs.img);
      GrownWritten(fs.g, fs.img, chain, fs.img, chain, fsize, 0);
    }

    /** A file with bytes has a chain. */
    lemma HasChain()
      requires Owns()
      ensures fsize > 0 ==> chain != []
      ensures chain != [] ==> orgClust == chain[0] >= 2
      ensures chain == [] ==> orgClust == 0 && Sectors(fs.g, chain) == 0
    {
      Facts();
    }

    /** The pointer at the top of the file. */
    method Rewind()
      requires Owns()
      modifies `fptr, `csect
      ensures Owns() && fptr == 0 && Placed(fs.g, chain, fptr, csect, currClust, dsect)
    {
      hide FATFS.Valid, Volume, Geometry.Sane, OnVolume;
      Facts();
      fptr := 0;
      csect := 255;
    }

    /** Where the search for offset `ofs` starts: at the current cluster if the target is not before it,
        at the first one otherwise, which is created if the file has none. Returns that cluster, 0 when none
        could be had, and the rest of the offset. */
    method SeekStart(ofs: nat) returns (clst: nat, rest: nat, ghost i: nat)
      requires Valid() && 0 < ofs < DWORD && (canWrite || ofs <= fsize)
      modifies `fptr, `csect, `currClust, `orgClust, `chain,
               fs`disk, fs`winsect, fs`wflag, fs`img, fs`fat, fs`lastClust, fs`freeClust, fs`fsiFlag, fs`chains, fs.win
      ensures Owns() && (old(fs.Counted()) ==> fs.Counted())
      ensures fs.Pending(old(fs.freeClust), old(fs.fsiFlag))
      ensures Written(fs.g, old(fs.img), old(chain), fs.img, chain, fsize, 0, [])
      ensures ChainsMoved(old(fs.chains), old(chain), fs.chains, chain)
      ensures !canWrite ==> clst != 0 && chain == old(chain) && fs.img == old(fs.img) && fs.fat == old(fs.fat)
      ensures clst == 0 ==> fptr == 0 && Sectors(fs.g, chain) == 0 && FreeCount(fs.fat) == 0
                            && Placed(fs.g, chain, fptr, csect, currClust, dsect)
      ensures clst != 0 ==> AtCluster(fs.g, chain, i, fptr, currClust) && clst == currClust && 0 < rest && fptr + rest == ofs
      ensures if chain == old(chain) then Still(old(orgClust), old(fs.img), old(fs.wflag))
              else old(chain) == [] && clst != 0 && |chain| == 1
    {
      hide OnVolume, FATFS.Valid, Volume, Sectors, Written, ChainsMoved, FreeCount, PowerOfTwo, Geometry.VolEnd, And,
           Fits;
      Facts();
      NothingWritten();
      i := 0;
      var ifptr := fptr;
      Rewind();
      var bcs := fs.g.csize * 512;
      if ifptr > 0 { CurrentCluster(fs.g, chain, ifptr, old(csect), currClust, dsect); }
      if ifptr > 0 && (ofs - 1) / bcs >= (ifptr - 1) / bcs {
        i := (ifptr - 1) / bcs;
        fptr := And(ifptr - 1, DWORD - bcs);
        NotBefore(ofs - 1, bcs, i);
        rest := ofs - fptr;
        clst := currClust;
      } else {
        HasChain();
        clst := orgClust;
        if clst == 0 {
          clst := FirstCluster();
          HasChain();
        }
        Facts();
        currClust := clst;
        rest := ofs;
      }
    }

    /** Creates the chain of a file that has none. */
    method FirstCluster() returns (clst: nat)
      requires Owns() && orgClust == 0
      modifies `orgClust, `chain,
               fs`disk, fs`winsect, fs`wflag, fs`img, fs`fat, fs`lastClust, fs`freeClust, fs`fsiFlag, fs`chains, fs.win
      ensures Owns() && (old(fs.Counted()) ==> fs.Counted())
      ensures fs.Pending(old(fs.freeClust), old(fs.fsiFlag))
      ensures Written(fs.g, old(fs.img), old(chain), fs.img, chain, fsize, 0, [])
      ensures ChainsMoved(old(fs.chains), old(chain), fs.chains, chain)
      ensures clst == 0 ==> chain == [] && FreeCount(fs.fat) == 0
      ensures clst != 0 ==> chain != [] && clst == chain[0] == orgClust
      ensures chain == old(chain) ==> Still(old(orgClust), old(fs.img), old(fs.wflag))
      ensures old(chain) == [] && |chain| <= 1
    {
      hide OnVolume, FATFS.Valid, Volume, Geometry.Sane, IsChain, Fits, FreeCount, Written, Geometry.VolEnd;
      Facts();
      if chain != [] { HeadIsCluster(fs.fat, fs.chains, chain); }
      clst, chain := fs.Grow(0, chain, 0);
      orgClust := clst;
      MulMono(|old(chain)|, |chain|, fs.g.csize);
      Facts();
      GrownWritten(fs.g, old(fs.img), old(chain), fs.img, chain, fsize, 0);
    }

    /** The cluster behind cluster `i`; in write mode the chain is stretched to have one. */
    method FollowOne(clst: nat, ghost i: nat) returns (next: nat)
      requires Owns() && i < |chain| && clst == chain[i] && (canWrite || i + 1 < |chain|)
      modifies `chain,
               fs`disk, fs`winsect, fs`wflag, fs`img, fs`fat, fs`lastClust, fs`freeClust, fs`fsiFlag, fs`chains, fs.win
      ensures Owns() && (old(fs.Counted()) ==> fs.Counted())
      ensures fs.Pending(old(fs.freeClust), old(fs.fsiFlag))
      ensures Written(fs.g, old(fs.img), old(chain), fs.img, chain, fsize, 0, [])
      ensures ChainsMoved(old(fs.chains), old(chain), fs.chains, chain)
      ensures !canWrite ==> chain == old(chain) && fs.img == old(fs.img) && fs.fat == old(fs.fat) && next != 0
      ensures next == 0 ==> chain == old(chain) && i + 1 == |chain| && FreeCount(fs.fat) == 0
      ensures next != 0 ==> i + 1 < |chain| && next == chain[i + 1]
      ensures if chain == old(chain) then fs.img == old(fs.img) && (fs.wflag ==> old(fs.wflag))
              else i + 1 == |old(chain)| && |chain| == i + 2
    {
      hide OnVolume, FATFS.Valid, Volume, Geometry.Sane, IsChain, Fits, FreeCount, Written, Geometry.VolEnd;
      Facts();
      if canWrite {
        next, chain := fs.Grow(clst, chain, i);
      } else {
        LinkOfChain(fs.fat, fs.chains, chain, i);
        SameDataRefl(fs.g, fs.img);
        next := fs.GetFat(clst);
      }
      MulMono(|old(chain)|, |chain|, fs.g.csize);
      Facts();
      GrownWritten(fs.g, old(fs.img), old(chain), fs.img, chain, fsize, 0);
    }

    /** Unless the chain was stretched, nothing changed and nothing more is to be written back; if it was, the pointer
        is past its old end and in the last cluster of the new one. */
    static ghost predicate Calm(g: Geometry, c0: seq<nat>, img0: Image, w0: bool, c: seq<nat>, img: Image, w: bool, fptr: int)
    {
      if c == c0 then img == img0 && (w ==> w0)
      else fptr >= 512 * Sectors(g, c0) && fptr + 512 * g.csize >= 512 * Sectors(g, c)
    }

    /** One cluster on: the chain was stretched only at its end. */
    static lemma CalmOn(g: Geometry, c0: seq<nat>, img0: Image, w0: bool, c1: seq<nat>, img1: Image, w1: bool, fptr: nat,
                        i: nat, chains0: set<seq<nat>>, chains1: set<seq<nat>>, chains: set<seq<nat>>, c: seq<nat>,
                        img: Image, w: bool)
      requires Calm(g, c0, img0, w0, c1, img1, w1, fptr) && fptr == 512 * (i * g.csize)
      requires ChainsMoved(chains0, c0, chains1, c1) && ChainsMoved(chains1, c1, chains, c)
      requires if c == c1 then img == img1 && (w ==> w1) else i + 1 == |c1| && |c| == i + 2
      ensures c == c1 ==> Calm(g, c0, img0, w0, c, img, w, fptr)
      ensures Calm(g, c0, img0, w0, c, img, w, fptr + 512 * g.csize)
    {
      assert (i + 1) * g.csize == i * g.csize + g.csize && (i + 2) * g.csize == i * g.csize + 2 * g.csize;
    }

    /** Follows the chain from cluster `i` until the rest of the offset falls into a cluster. */
    method SeekFollow(first: nat, rest: nat, ghost i0: nat) returns (nsect: nat)
      requires Owns() && AtCluster(fs.g, chain, i0, fptr, currClust) && first == currClust && 0 < rest
      requires fptr + rest < DWORD && (canWrite || fptr + rest <= fsize)
      modifies `fptr, `csect, `currClust, `chain,
               fs`disk, fs`winsect, fs`wflag, fs`img, fs`fat, fs`lastClust, fs`freeClust, fs`fsiFlag, fs`chains, fs.win
      ensures Owns() && (old(fs.Counted()) ==> fs.Counted())
      ensures fs.Pending(old(fs.freeClust), old(fs.fsiFlag))
      ensures Placed(fs.g, chain, fptr, csect, currClust, if fptr % 512 != 0 then nsect else dsect)
      ensures var goal := old(fptr) + rest;
        fptr == goal || (canWrite && fptr < goal && fptr == 512 * Sectors(fs.g, chain) && FreeCount(fs.fat) == 0)
      ensures Written(fs.g, old(fs.img), old(chain), fs.img, chain, fsize, 0, [])
      ensures ChainsMoved(old(fs.chains), old(chain), fs.chains, chain)
      ensures !canWrite ==> chain == old(chain) && fs.img == old(fs.img) && fs.fat == old(fs.fat)
      ensures fptr > old(fptr)
      ensures Calm(fs.g, old(chain), old(fs.img), old(fs.wflag), chain, fs.img, fs.wflag, fptr - 1)
    {
      hide OnVolume, FATFS.Valid, Volume, Sectors, Written, ChainsMoved, FreeCount, AtCluster, Placed, Geometry.Sane, Calm,
           Geometry.Clust2Sect, Fits, Geometry.VolEnd, SeekKept;
      ghost var img0, chain0, chains0, w0 := fs.img, chain, fs.chains, fs.wflag;
      SeekKeptStart();
      Facts();
      ghost var i, goal, full := i0, fptr + rest, false;
      var clst, ofs := first, rest;
      var bcs := fs.g.csize * 512;
      while ofs > bcs
        invariant Owns() && AtCluster(fs.g, chain, i, fptr, currClust) && clst == currClust && bcs == 512 * fs.g.csize
        invariant 0 < ofs && fptr + ofs == goal && (canWrite || goal <= fsize) && fptr >= old(fptr)
        invariant SeekKept(img0, chain0, chains0, w0, fptr)
        invariant old(fs.Counted()) ==> fs.Counted()
        invariant fs.Pending(old(fs.freeClust), old(fs.fsiFlag))
        invariant !canWrite ==> chain == chain0 && fs.img == img0 && fs.fat == old(fs.fat)
      {
        if !canWrite { SizeFits(); ClusterFollows(fs.g, chain, i, fptr, currClust, ofs); }
        ClusterNumber(i);
        clst := SeekOne(clst, i, img0, chain0, chains0, w0);
        if clst == 0 {
          LastCluster(fs.g, chain, i, fptr, currClust);
          full := true;
          ofs := bcs;
          break;
        }
        Facts();
        NextCluster(fs.g, chain, i, fptr);
        i := i + 1;
        currClust := clst;
        fptr := fptr + bcs;
        ofs := ofs - bcs;
      }
      SeekKeptInto(img0, chain0, chains0, w0, fptr, fptr + ofs - 1);
      nsect := SeekInto(ofs, i);
    }

    /** What following the chain keeps, seen from the state it began in. */
    ghost predicate SeekKept(img0: Image, chain0: seq<nat>, chains0: set<seq<nat>>, w0: bool, p: int)
      reads `chain, `fsize, fs`img, fs`chains, fs`wflag
    {
      && Written(fs.g, img0, chain0, fs.img, chain, fsize, 0, []) && ChainsMoved(chains0, chain0, fs.chains, chain)
      && Calm(fs.g, chain0, img0, w0, chain, fs.img, fs.wflag, p)
    }

    lemma SeekKeptStart()
      requires Owns()
      ensures SeekKept(fs.img, chain, fs.chains, fs.wflag, fptr)
    {
      hide FATFS.Valid, Volume, Written;
      NothingWritten();
    }

    lemma SeekKeptInto(img0: Image, chain0: seq<nat>, chains0: set<seq<nat>>, w0: bool, p: int, q: int)
      requires SeekKept(img0, chain0, chains0, w0, p) && p <= q
      ensures Written(fs.g, img0, chain0, fs.img, chain, fsize, 0, []) && ChainsMoved(chains0, chain0, fs.chains, chain)
      ensures Calm(fs.g, chain0, img0, w0, chain, fs.img, fs.wflag, q)
    {
      hide Written, ChainsMoved;
    }

    /** The next cluster on the way of a seek. */
    method SeekOne(clst: nat, ghost i: nat, ghost img0: Image, ghost chain0: seq<nat>, ghost chains0: set<seq<nat>>,
                   ghost w0: bool) returns (next: nat)
      requires Owns() && AtCluster(fs.g, chain, i, fptr, currClust) && clst == currClust
      requires canWrite || i + 1 < |chain|
      requires SeekKept(img0, chain0, chains0, w0, fptr)
      modifies `chain,
               fs`disk, fs`winsect, fs`wflag, fs`img, fs`fat, fs`lastClust, fs`freeClust, fs`fsiFlag, fs`chains, fs.win
      ensures Owns() && (old(fs.Counted()) ==> fs.Counted())
      ensures fs.Pending(old(fs.freeClust), old(fs.fsiFlag))
      ensures SeekKept(img0, chain0, chains0, w0, if next == 0 then fptr else fptr + 512 * fs.g.csize)
      ensures !canWrite ==> chain == old(chain) && fs.img == old(fs.img) && fs.fat == old(fs.fat) && next != 0
      ensures next == 0 ==> chain == old(chain) && i + 1 == |chain| && FreeCount(fs.fat) == 0
      ensures next != 0 ==> i + 1 < |chain| && next == chain[i + 1]
    {
      hide OnVolume, FATFS.Valid, Volume, Sectors, Written, ChainsMoved, FreeCount, AtCluster, Placed, Calm, Owns;
      ghost var img1, chain1, chains1, w1 := fs.img, chain, fs.chains, fs.wflag;
      ClusterNumber(i);
      next := FollowOne(clst, i);
      KeptOn(fs.g, img0, chain0, img1, chain1, fs.img, chain, fsize, 0);
      ChainsMovedOn(chains0, chain0, chains1, chain1, fs.chains, chain);
      CalmOn(fs.g, chain0, img0, w0, chain1, img1, w1, fptr, i, chains0, chains1,
             fs.chains, chain, fs.img, fs.wflag);
    }

    lemma ClusterNumber(i: nat)
      requires AtCluster(fs.g, chain, i, fptr, currClust)
      ensures i < |chain| && currClust == chain[i] && fptr == 512 * (i * fs.g.csize)
    {
    }

    /** The position inside a cluster, with the sector that holds it. */
    method SeekInto(ofs: nat, ghost i: nat) returns (nsect: nat)
      requires Owns() && AtCluster(fs.g, chain, i, fptr, currClust) && 0 < ofs <= 512 * fs.g.csize
      modifies `fptr, `csect
      ensures Owns() && fptr == old(fptr) + ofs
      ensures Placed(fs.g, chain, fptr, csect, currClust, if fptr % 512 != 0 then nsect else dsect)
    {
      hide Owns, OnVolume, FATFS.Valid, Volume, Placed, Geometry.Sane, Geometry.Clust2Sect, Fits, Geometry.VolEnd,
           AtCluster;
      Facts();
      ClusterNumber(i);
      ClusterAddress(i);
      nsect := 0;
      csect := ofs / 512;
      if ofs % 512 != 0 {
        nsect := fs.g.Clust2Sect(currClust);
        assert nsect != 0;    // the source gives up here otherwise
        nsect := nsect + csect;
        csect := csect + 1;
      }
      WholeSectors(i * fs.g.csize, ofs);
      assert (fptr + ofs) % 512 == ofs % 512;
      IntoCluster(fs.g, chain, i, fptr, currClust, ofs, csect, if (fptr + ofs) % 512 != 0 then nsect else dsect);
      fptr := fptr + ofs;
    }

    static lemma WholeSectors(k: nat, ofs: nat)
      ensures (512 * k + ofs) % 512 == ofs % 512
    {
    }

    lemma ClusterAddress(i: nat)
      requires Owns() && i < |chain| && currClust == chain[i]
      ensures fs.g.maxClust >= 2 && 2 <= currClust < DWORD
      ensures fs.g.Clust2Sect(currClust) == fs.g.ClusterSect(currClust) != 0
    {
      hide FATFS.Valid, Volume, Geometry.Sane, Geometry.Clust2Sect, Fits, Geometry.VolEnd;
      Facts();
      fs.g.ClusterFits(currClust);
      fs.g.Clust2SectIsSect(currClust);
    }

    // ---- flushing ----

    /** The file's directory entry lies in a directory with the chain `dch`, or in the static root when that is
        empty, and the file is not that directory. */
    ghost predicate Entered(dch: seq<nat>)
      reads `chain, fs`img, fs`chains
    {
      && (dch == [] || dch in fs.chains) && (chain == [] || chain != dch)
      && DirOwns(fs.g, dch, dirSect) && dirSect < |fs.img| && dirPtr + ENTRY_SIZE <= 512
    }

    /** The entry lies behind the table and outside the file. */
    lemma EntryApart(dch: seq<nat>)
      requires Owns() && Entered(dch)
      ensures fs.g.FatEnd() <= dirSect < |fs.img| && !OwnSector(fs.g, chain, dirSect)
    {
      hide FATFS.Valid, IsChain;
      Facts();
      if chain != [] && dch != [] { assert Disjoint(chain, dch); }
      hide Volume;
    }

    /** The entry stays where it is when the file's chain grows from `c0` to `c`, or that of another file does. */
    lemma StillEntered(dch: seq<nat>, img: Image, chains0: set<seq<nat>>, c0: seq<nat>, c: seq<nat>)
      requires Owns() && ChainsMoved(chains0, c0, fs.chains, c) && (c == [] || c in fs.chains) && |fs.img| == |img|
      requires (dch == [] || dch in chains0) && (c0 == [] || c0 != dch) && (chain == [] || chain == c || chain != dch)
      requires DirOwns(fs.g, dch, dirSect) && dirSect < |img| && dirPtr + ENTRY_SIZE <= 512
      ensures Entered(dch)
    {
      hide FATFS.Valid, Volume, DirOwns;
    }

    /** Unless the file is flagged as written, its entry has its size and start cluster. */
    ghost predicate Recorded()
      reads `written, `fsize, `orgClust, fs`img
    {
      written || (dirSect < |fs.img| && dirPtr + ENTRY_SIZE <= 512 && InEntry(fs.img[dirSect], dirPtr))
    }

    /** Flushing the file leaves nothing to be written back: it is flagged as written, or there is nothing. */
    predicate Settled()
      reads `written, fs`wflag
    {
      written || !fs.wflag
    }

    ghost predicate InEntry(s: Sector, o: nat)
      requires o + ENTRY_SIZE <= 512
      reads `fsize, `orgClust
    {
      FileSize(EntryAt(s, o)) == fsize && StartCluster(EntryAt(s, o)) == orgClust
    }

    /** Flushes a written file. Afterwards the disk alone, without the window, holds the file: its entry has
        size and start cluster, its chain and bytes are there, the table copies agree, and an FSInfo update
        that was due is done. */
    method Sync(time: nat, ghost dch: seq<nat>)
      requires Valid() && time < DWORD && Entered(dch)
      modifies `written, fs`disk, fs`winsect, fs`wflag, fs`fsiFlag, fs`img, fs`fat, fs.win
      ensures Valid() && Entered(dch) && !written && fs.fat == old(fs.fat) && fsize <= 512 * Sectors(fs.g, chain)
      ensures !old(written) ==>
        fs.img == old(fs.img) && fs.disk == old(fs.disk) && fs.wflag == old(fs.wflag) && fs.fsiFlag == old(fs.fsiFlag)
      ensures OnVolume(fs.g, old(fs.img), chain) && OnVolume(fs.g, fs.img, chain)
      ensures Content(fs.g, fs.img, chain, 0, fsize) == Content(fs.g, old(fs.img), chain, 0, fsize)
      ensures |fs.img| == |old(fs.img)|
      ensures old(written) ==> fs.fsiFlag == (old(fs.fsiFlag) && fs.g.fsType != Fat32)
      ensures old(fs.Noted()) ==> fs.Noted()
      ensures forall s ::
        0 <= s < |fs.img| && s != dirSect && !(fs.g.fsType == Fat32 && old(fs.fsiFlag) && s == fs.g.fsiSector) ==>
        fs.img[s] == old(fs.img)[s]
      ensures old(written) ==> !fs.wflag && fs.disk == fs.img && CopiesAgree(fs.g, fs.disk)
      ensures fs.disk == fs.img <==> old(written) || old(fs.disk) == old(fs.img)
      ensures old(written) ==> var e := EntryAt(fs.disk[dirSect], dirPtr);
        FileSize(e) == fsize && StartCluster(e) == orgClust
      ensures old(written) ==> fs.img[dirSect] == Updated(old(fs.img)[dirSect], dirPtr, fsize, orgClust, time)
      ensures old(written) && fs.g.fsType == Fat32 && old(fs.fsiFlag) ==>
        fs.g.fsiSector < |fs.disk| && IsFsInfo(fs.disk[fs.g.fsiSector], fs.freeClust, fs.lastClust)
    {
      hide FATFS.Valid, Volume, OnVolume, Sectors, Placed, Content, OwnSector, Updated, FsInfo, IsFsInfo, CopiesAgree,
           Geometry.Sane, EntryAt, FileSize, StartCluster, Owns, DirOwns;
      OwnsFacts();
      EntryApart(dch);
      if written {
        FlushEntry(time);
        FsiBelow();
        if old(fs.Noted()) && fs.g.fsType == Fat32 {
          NotedOn(fs.g.fsiSector, old(fs.img), old(fs.freeClust), old(fs.fsiFlag), fs.img, fs.freeClust, fs.fsiFlag);
        }
        written := false;
        FlushVolume();
      }
    }

    lemma FsiBelow()
      requires Owns()
      ensures fs.g.fsType == Fat32 ==> fs.g.fsiSector < fs.g.fatbase && fs.g.fatbase <= fs.g.FatEnd() <= |fs.img|
      ensures fs.g.fsType == Fat32 ==> !OwnSector(fs.g, chain, fs.g.fsiSector) && !fs.g.TableSector(fs.g.fsiSector)
    {
      hide FATFS.Valid, Volume, Sectors;
      fs.Facts();
      if fs.g.fsType == Fat32 { FsiNotOwn(); }
    }

    lemma OwnsFacts()
      requires Owns()
      ensures OnVolume(fs.g, fs.img, chain) && fsize <= 512 * Sectors(fs.g, chain)
    {
      Facts();
    }

    /** Brings the directory entry up to date. */
    method FlushEntry(time: nat)
      requires Owns() && time < DWORD
      requires fs.g.FatEnd() <= dirSect < |fs.img| && dirPtr + ENTRY_SIZE <= 512 && !OwnSector(fs.g, chain, dirSect)
      modifies fs`disk, fs`winsect, fs`wflag, fs`img, fs`fat, fs.win
      ensures Owns() && fs.fat == old(fs.fat) && |fs.img| == |old(fs.img)| && dirSect < |fs.img|
      ensures OnVolume(fs.g, old(fs.img), chain) && OnVolume(fs.g, fs.img, chain) && fsize <= 512 * Sectors(fs.g, chain)
      ensures Content(fs.g, fs.img, chain, 0, fsize) == Content(fs.g, old(fs.img), chain, 0, fsize)
      ensures forall s :: 0 <= s < |fs.img| && s != dirSect ==> fs.img[s] == old(fs.img)[s]
      ensures var e := EntryAt(fs.img[dirSect], dirPtr); FileSize(e) == fsize && StartCluster(e) == orgClust
      ensures fs.img[dirSect] == Updated(old(fs.img)[dirSect], dirPtr, fsize, orgClust, time)
    {
      hide FATFS.Valid, Volume, OnVolume, Sectors, Placed, Content, OwnSector, Updated, Geometry.Sane;
      Facts();
      fs.MoveWindow(dirSect);
      StartFits();
      UpdatedHolds(fs.img[dirSect], dirPtr, fsize, orgClust, time);
      ForeignSector(fs.g, fs.img, chain, dirSect, Updated(fs.img[dirSect], dirPtr, fsize, orgClust, time), 0, fsize);
      fs.UpdateEntry(dirPtr, fsize, orgClust, time);
      fs.Facts();
    }

    /** Writes back what the volume has pending. */
    method FlushVolume()
      requires Owns()
      modifies fs`disk, fs`winsect, fs`wflag, fs`fsiFlag, fs`img, fs`fat, fs.win
      ensures Owns() && fs.fat == old(fs.fat) && |fs.img| == |old(fs.img)|
      ensures OnVolume(fs.g, old(fs.img), chain) && OnVolume(fs.g, fs.img, chain) && fsize <= 512 * Sectors(fs.g, chain)
      ensures Content(fs.g, fs.img, chain, 0, fsize) == Content(fs.g, old(fs.img), chain, 0, fsize)
      ensures forall s :: 0 <= s < |fs.img| && !(fs.g.fsType == Fat32 && old(fs.fsiFlag) && s == fs.g.fsiSector) ==>
        fs.img[s] == old(fs.img)[s]
      ensures fs.fsiFlag == (old(fs.fsiFlag) && fs.g.fsType != Fat32)
      ensures old(fs.Noted()) ==> fs.Noted()
      ensures !fs.wflag && fs.disk == fs.img && CopiesAgree(fs.g, fs.disk)
      ensures fs.g.fsType == Fat32 ==> fs.g.fsiSector < fs.g.FatEnd()
      ensures fs.g.fsType == Fat32 && old(fs.fsiFlag) ==>
        fs.g.fsiSector < |fs.disk| && IsFsInfo(fs.disk[fs.g.fsiSector], fs.freeClust, fs.lastClust)
    {
      hide FATFS.Valid, Volume, OnVolume, Sectors, Placed, Content, OwnSector, FsInfo, IsFsInfo, CopiesAgree,
           Geometry.Sane;
      Facts();
      fs.Facts();
      FsInfoReadsBack(fs.freeClust, fs.lastClust);
      if fs.g.fsType == Fat32 {
        FsiBeforeTable(fs.g, fs.img);
        FsiNotOwn();
        ForeignSector(fs.g, fs.img, chain, fs.g.fsiSector, FsInfo(fs.freeClust, fs.lastClust), 0, fsize);
      }
      fs.Sync();
      fs.Facts();
    }

    lemma StartFits()
      requires Owns()
      ensures orgClust < DWORD
    {
      hide FATFS.Valid, Volume, Sectors, Geometry.Sane;
      Facts();
      if chain != [] { fs.g.ClusterFits(chain[0]); }
    }

    lemma FsiNotOwn()
      requires fs.g.Sane() && fs.g.fsiSector < fs.g.fatbase
      ensures !OwnSector(fs.g, chain, fs.g.fsiSector)
    {
    }
  }
}
