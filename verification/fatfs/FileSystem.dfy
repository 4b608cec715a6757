/** The file system object: one sector window over the disk, the table accessors, and cluster allocation. */
module FileSystem {
  import opened Bytes
  import opened Layout
  import opened LogicalDisk
  import opened Table
  import opened Chains
  import opened DirEntry
  import opened Mount

  datatype FResult = Ok | IntErr | NoFile | NoPath | InvalidName | Denied | Exist

  class FATFS {
    const g: Geometry
    const win: array<Byte>
    var disk: Image         // physical sectors
    var winsect: nat        // sector in the window, 0 when the window holds none
    var wflag: bool         // the window must be written back
    var fsiFlag: bool       // the FSInfo sector must be written back
    var lastClust: nat
    var freeClust: nat

    ghost var img: Image                // the logical disk
    ghost var fat: seq<nat>             // its table entries
    ghost var chains: set<seq<nat>>     // its cluster chains, kept by the operations that change them

    /** Mounts the volume whose boot sector is sector `bsect`. The hint keeps whatever value the memory held
        unless an FSInfo sector gives one. */
    constructor Mount(disk: Image, bsect: nat, hint: nat, fsiFlag: bool, ghost chains: set<seq<nat>>)
      requires bsect < |disk| <= DWORD && hint < DWORD
      requires var b := ReadBpb(disk[bsect]);
        && SaneBpb(b, bsect) && bsect + b.totSec <= |disk| && CopiesAgree(MountGeometry(b, bsect), disk)
        && HasTable(MountGeometry(b, bsect), disk)
        && Volume(Entries(MountGeometry(b, bsect), disk), chains)
      ensures fresh(win) && Sound() && Noted() && this.disk == img == disk && this.chains == chains
      ensures g == MountGeometry(ReadBpb(disk[bsect]), bsect) && !wflag && winsect == 0
      ensures var known := g.fsType == Fat32 && g.fsiSector < |disk| && SignedFsInfo(disk[g.fsiSector]);
        && freeClust == (if known then LdDword(disk[g.fsiSector], 488) else NO_COUNT)
        && lastClust == (if known then LdDword(disk[g.fsiSector], 492) else hint)
      ensures LaidOut(g, disk[bsect], bsect)
      ensures var known := g.fsType == Fat32 && g.fsiSector < |disk| && MarkedFsInfo(disk[g.fsiSector]);
        && freeClust == (if known then InfoNumber(disk[g.fsiSector], 488) else 0xFFFF_FFFF)
        && lastClust == (if known then InfoNumber(disk[g.fsiSector], 492) else hint)
    {
      hide PowerOfTwo, CountOfClusters, MountGeometry, Volume, CopiesAgree, Entries, HasTable, Geometry.Sane,
           SignedFsInfo, LdDword, LaidOut, MarkedFsInfo, InfoNumber;
      var b := ReadBpb(disk[bsect]);
      MountIsSound(b, bsect);
      MountedLaidOut(disk[bsect], bsect);
      var geo := MountGeometry(b, bsect);
      g := geo;
      win := new Byte[512](_ => 0);
      this.disk := disk;
      winsect := 0;
      wflag := false;
      this.fsiFlag := fsiFlag && geo.fsType != Fat32;
      freeClust := NO_COUNT;
      lastClust := hint;
      img := disk;
      fat := Entries(geo, disk);
      this.chains := chains;
      if geo.fsiSector < |disk| { InfoBytes(disk[geo.fsiSector]); }
      new;
      CoherentMounted(g, disk, win[..]);
      if g.fsType == Fat32 && g.fsiSector < |disk| && SignedFsInfo(disk[g.fsiSector]) {
        lastClust := LdDword(disk[g.fsiSector], 492);
        freeClust := LdDword(disk[g.fsiSector], 488);
      }
    }

    /** Window, disk and logical disk fit together. */
    ghost predicate Valid()
      reads `disk, `winsect, `wflag, `img, `fat, `lastClust, `freeClust, win
    {
      && Coherent(g, disk, img, win[..], winsect, wflag)
      && HasTable(g, img) && fat == Entries(g, img)
      && lastClust < DWORD && freeClust < DWORD
    }

    /** What the operations below rely on. */
    lemma Facts()
      requires Valid()
      ensures win.Length == 512 && Fits(g, img) && |img| == |disk|
      ensures HasTable(g, img) && g.nFats >= 1
      ensures fat == Entries(g, img) && |fat| == g.maxClust && 2 <= g.maxClust <= EndMark(g.fsType)
      ensures 1 <= g.fatbase && g.fatbase + g.sectsFat <= g.FatEnd() <= |img| <= DWORD
      ensures winsect != 0 ==> winsect < |img| && win[..] == img[winsect]
      ensures lastClust < DWORD && freeClust < DWORD && CopiesAgree(g, img)
    {
      CoherentShows(g, disk, img, win[..], winsect, wflag);
    }

    /** Without a dirty window the disk is the logical disk. */
    lemma Clean()
      requires Valid() && !wflag
      ensures disk == img
    {
      CoherentShows(g, disk, img, win[..], winsect, wflag);
    }

    /** Brings `sector` into the window; moving to 0 only writes back a dirty one. */
    method MoveWindow(sector: nat)
      requires Valid() && (sector == 0 || (g.Window(sector) && sector < |disk|))
      modifies this`disk, this`winsect, this`wflag, win
      ensures Valid()
      ensures winsect == (if sector == 0 then old(winsect) else sector)
      ensures sector != 0 ==> sector < |img| && win[..] == img[sector]
      ensures sector == 0 ==> win[..] == old(win[..])
      ensures old(winsect) == sector ==> wflag == old(wflag) && disk == old(disk)
      ensures old(winsect) != sector ==> !wflag && disk == img
      ensures wflag ==> old(wflag)
    {
      hide Coherent, HasTable, Geometry.Window;
      CoherentShows(g, disk, img, win[..], winsect, wflag);
      if winsect != sector {
        if wflag {
          WriteBack();
        }
        if sector != 0 {
          CoherentLoaded(g, disk, img, win[..], winsect, sector);
          CopyIn(0, disk[sector]);
          assert win[..] == disk[sector];
          winsect := sector;
        }
      }
    }

    /** Writes the dirty window to the disk, a table sector to every copy. */
    method WriteBack()
      requires Coherent(g, disk, img, win[..], winsect, true) && wflag
      modifies this`disk, this`wflag
      ensures !wflag && disk == img && Coherent(g, disk, img, win[..], winsect, false)
    {
      hide Coherent, CopiesAgree, Geometry.Sane;
      CoherentShows(g, disk, img, win[..], winsect, true);
      CoherentFlushed(g, disk, img, win[..], winsect);
      disk := disk[winsect := win[..]];
      wflag := false;
      if winsect < g.fatbase + g.sectsFat {
        ReflectCopies(winsect);
        StoreOver(g, old(disk), winsect, win[..]);
      } else {
        StoreData(g, old(disk), winsect, win[..]);
      }
    }

    /** Copies bytes into the window. */
    method CopyIn(off: nat, bytes: seq<Byte>)
      requires win.Length == 512 && off + |bytes| <= 512
      modifies win
      ensures win[..] == Splice(old(win[..]), off, bytes)
    {
      for i := 0 to |bytes|
        invariant win[..] == Splice(old(win[..]), off, bytes[..i])
      {
        win[off + i] := bytes[i];
      }
      assert bytes[..|bytes|] == bytes;
    }

    /** Copies bytes into the window and marks it dirty. */
    method Patch(off: nat, bytes: seq<Byte>)
      requires Valid() && winsect != 0 && off + |bytes| <= 512
      modifies win, this`wflag, this`img, this`fat
      ensures Valid() && wflag
      ensures winsect < |img| && img == Store(g, old(img), winsect, Splice(old(img)[winsect], off, bytes))
    {
      hide Coherent, Splice, Store;
      Facts();
      CopyIn(off, bytes);
      CoherentStored(g, disk, img, old(win[..]), winsect, wflag, win[..]);
      img := Store(g, img, winsect, win[..]);
      fat := Entries(g, img);
      wflag := true;
    }

    /** Writes a table sector, already written to the first copy, to the other copies. */
    method ReflectCopies(s: nat)
      requires win.Length == 512 && Fits(g, disk) && g.fatbase <= s < g.fatbase + g.sectsFat
      requires disk[s] == win[..]
      modifies this`disk
      ensures disk == Store(g, old(disk), s, win[..])
    {
      hide Home, Store, Fits, Copied;
      ghost var before, w := disk, win[..];
      var wsect, nf := s, g.nFats;
      TableFits(g, disk, s);
      CopiedFirst(g, before, s, w);
      while nf > 1
        invariant 1 <= nf <= g.nFats && win[..] == w && Copied(g, before, disk, s, g.nFats - nf, w)
        invariant wsect == s + (g.nFats - nf) * g.sectsFat
      {
        CopiedNext(g, before, disk, s, g.nFats - nf, w);
        wsect := wsect + g.sectsFat;
        disk := disk[wsect := win[..]];
        nf := nf - 1;
      }
      CopiedAll(g, before, disk, s, w);
    }

    /** The entry of `clst`, or 1 for a number that is no cluster. */
    method GetFat(clst: nat) returns (v: nat)
      requires Valid()
      modifies this`disk, this`winsect, this`wflag, win
      ensures Valid()
      ensures v == if g.ValidCluster(clst) then fat[clst] else 1
      ensures v <= EndMark(g.fsType)
      ensures wflag ==> old(wflag)
    {
      if clst < 2 || clst >= g.maxClust { return 1; }
      if g.fsType == Fat12 {
        v := GetFat12(clst);
      } else {
        v := GetFatWide(clst);
      }
    }

    method GetFat12(clst: nat) returns (v: nat)
      requires Valid() && 2 <= clst < g.maxClust && g.fsType == Fat12
      modifies this`disk, this`winsect, this`wflag, win
      ensures Valid() && v == Entry(g, img, clst)
      ensures wflag ==> old(wflag)
    {
      hide Valid, HasTable, Geometry.FatEnd, Entries, Geometry.VolEnd, Geometry.Sane, TableSect, TableOff;
      Facts();
      EntryInTable(g, img, clst);
      var bc := clst + clst / 2;
      MoveWindow(TableSect(g, bc));
      var wc: nat := win[TableOff(bc)] as int;
      bc := bc + 1;
      MoveWindow(TableSect(g, bc));
      wc := wc + 0x100 * win[TableOff(bc)] as int;
      v := if clst % 2 == 1 then wc / 0x10 else wc % 0x1000;
    }

    method GetFatWide(clst: nat) returns (v: nat)
      requires Valid() && 2 <= clst < g.maxClust && !g.fsType.Fat12?
      modifies this`disk, this`winsect, this`wflag, win
      ensures Valid() && v == Entry(g, img, clst)
      ensures wflag ==> old(wflag)
    {
      hide Valid, HasTable, Geometry.FatEnd, Entries, Entry, SectorIndex, ByteIndex, LoadEntry, Geometry.VolEnd,
           Geometry.Sane;
      Facts();
      LoadWide(g, img, clst);
      MoveWindow(g.fatbase + SectorIndex(g.fsType, clst));
      v := LoadEntry(g.fsType, win[..], ByteIndex(g.fsType, clst));
    }

    /** Stores `val` in the entry of `clst`: it reads back masked, and no other entry changes. */
    method PutFat(clst: nat, val: nat) returns (res: FResult)
      requires Valid()
      modifies this`disk, this`winsect, this`wflag, this`img, this`fat, win
      ensures Valid()
      ensures res == if g.ValidCluster(clst) then Ok else IntErr
      ensures fat == if res.Ok? then old(fat)[clst := Mask(g.fsType, val)] else old(fat)
      ensures res.Ok? ==> TopBitsTaken(g, old(img), img, clst, val)
      ensures SameData(g, old(img), img)
    {
      if clst < 2 || clst >= g.maxClust { return IntErr; }
      if g.fsType == Fat12 {
        PutFat12(clst, val);
      } else {
        PutFatWide(clst, val);
      }
      res := Ok;
    }

    method PutFat12(clst: nat, val: nat)
      requires Valid() && 2 <= clst < g.maxClust && g.fsType == Fat12
      modifies this`disk, this`winsect, this`wflag, this`img, this`fat, win
      ensures Valid() && SameData(g, old(img), img)
      ensures fat == old(fat)[clst := Mask(Fat12, val)]
    {
      hide Valid, HasTable, Geometry.FatEnd, Entries, Entry, TableSect, TableOff, TableByte, Low12, High12, Splice,
           Mask, Store, Home, Geometry.VolEnd, Geometry.Sane, SameData, EndMark, PatchTable;
      Facts();
      Put12(g, img, clst, val);
      ghost var before := img;
      var bc := clst + clst / 2;
      var b := LoadTableByte(bc);
      PatchTableByte(g, img, bc, [Low12(clst, val, b)], bc + 1);
      StoreTableByte(bc, Low12(clst, val, b));
      ghost var middle := img;
      bc := bc + 1;
      b := LoadTableByte(bc);
      StoreTableByte(bc, High12(clst, val, b));
      SameDataTrans(g, before, middle, img);
      Facts();
    }

    /** Brings byte `bc` of the table into the window and returns it. */
    method LoadTableByte(bc: nat) returns (b: Byte)
      requires Valid() && bc < 512 * g.sectsFat
      modifies this`disk, this`winsect, this`wflag, win
      ensures Valid() && HasTable(g, img) && winsect == TableSect(g, bc) && b == TableByte(g, img, bc)
    {
      hide Valid, HasTable, Geometry.FatEnd, Entries, Geometry.VolEnd, Geometry.Sane;
      Facts();
      TableByteAt(g, img, bc);
      MoveWindow(TableSect(g, bc));
      b := win[TableOff(bc)];
    }

    /** Replaces byte `bc` of the table, which is in the window. */
    method StoreTableByte(bc: nat, b: Byte)
      requires Valid() && bc < 512 * g.sectsFat && winsect == TableSect(g, bc)
      modifies this`wflag, this`img, this`fat, win
      ensures HasTable(g, old(img)) && Valid() && SameData(g, old(img), img) && img == PatchTable(g, old(img), bc, [b])
    {
      hide Valid, HasTable, Geometry.FatEnd, Entries, Splice, Store, Geometry.VolEnd, Geometry.Sane, SameData;
      Facts();
      TableByteAt(g, img, bc);
      PatchKeepsData(g, img, bc, [b]);
      Patch(TableOff(bc), [b]);
    }

    method PutFatWide(clst: nat, val: nat)
      requires Valid() && 2 <= clst < g.maxClust && !g.fsType.Fat12?
      modifies this`disk, this`winsect, this`wflag, this`img, this`fat, win
      ensures Valid() && SameData(g, old(img), img)
      ensures fat == old(fat)[clst := Mask(g.fsType, val)]
      ensures TopBitsTaken(g, old(img), img, clst, val)
    {
      hide Valid, HasTable, Geometry.FatEnd, Entries, Entry, SectorIndex, ByteIndex, SameData, Splice, Mask, Store,
           Geometry.VolEnd, Geometry.Sane, TopBitsTaken, EntryBytes, LoadEntry, TopBits;
      Facts();
      LoadWide(g, img, clst);
      ghost var before := img;
      StoreWide(g, img, clst, val);
      MoveWindow(g.fatbase + SectorIndex(g.fsType, clst));
      Patch(ByteIndex(g.fsType, clst), EntryBytes(g.fsType, val));
      AllTopBits(g, before, clst, val, img);
      Facts();
    }

    /** Writes everything back: the window, and on FAT32 the FSInfo sector when it is due. */
    method Sync()
      requires Valid()
      modifies this`disk, this`winsect, this`wflag, this`fsiFlag, this`img, this`fat, win
      ensures Valid() && !wflag && disk == img && fat == old(fat)
      ensures var due := g.fsType == Fat32 && old(fsiFlag);
        && (due ==> g.fsiSector < g.fatbase && g.fsiSector < |old(img)|)
        && img == (if due then old(img)[g.fsiSector := FsInfo(freeClust, lastClust)] else old(img))
        && fsiFlag == (old(fsiFlag) && !due)
      ensures old(Noted()) ==> Noted()
    {
      hide Coherent, Entries, HasTable, Splice, StWord, StDword;
      Facts();
      MoveWindow(0);
      CoherentShows(g, disk, img, win[..], winsect, wflag);
      if g.fsType == Fat32 && fsiFlag {
        ghost var w := win[..];
        FsInfoReadsBack(freeClust, lastClust);
        FsiBeforeTable(g, img);
        FillFsInfo();
        winsect := 0;
        CoherentReserved(g, disk, w, old(winsect), g.fsiSector, win[..]);
        EntriesOfSectors(g, img, img[g.fsiSector := win[..]]);
        disk := disk[g.fsiSector := win[..]];
        img := disk;
        fsiFlag := false;
      }
    }

    /** Builds the FSInfo sector in the window. */
    method FillFsInfo()
      requires win.Length == 512 && freeClust < DWORD && lastClust < DWORD
      modifies win
      ensures win[..] == FsInfo(freeClust, lastClust)
    {
      hide Splice, StWord, StDword;
      SpliceWhole(win[..], seq(512, i => 0));
      CopyIn(0, seq(512, i => 0));
      CopyIn(510, StWord(0xAA55));
      CopyIn(0, StDword(LEAD_SIG));
      CopyIn(484, StDword(STRUC_SIG));
      CopyIn(488, StDword(freeClust));
      CopyIn(492, StDword(lastClust));
    }

    // ---- chains ----

    /** Frees the clusters from `clst` on: see `Remove` for every table, `RemoveFreesChain` for chains. */
    method RemoveChain(clst: nat) returns (res: FResult)
      requires Valid()
      modifies this`disk, this`winsect, this`wflag, this`img, this`fat, this`freeClust, this`fsiFlag, win
      ensures Valid() && SameData(g, old(img), img)
      ensures !g.ValidCluster(clst) ==>
        res == IntErr && fat == old(fat) && freeClust == old(freeClust) && fsiFlag == old(fsiFlag)
      ensures g.ValidCluster(clst) ==>
        var r := Remove(old(fat), clst);
        && fat == r.fat && res == (if r.ok then Ok else IntErr)
        && freeClust == Min(old(freeClust) + r.freed, NO_COUNT)
        && fsiFlag == (old(fsiFlag) || (old(freeClust) != NO_COUNT && r.freed > 0))
    {
      hide Valid, Remove, UsedSet, FreeCount, SameData;
      Facts();
      SameDataRefl(g, img);
      if clst < 2 || clst >= g.maxClust { return IntErr; }
      res := Ok;
      var c := clst;
      ghost var goal, done := Remove(fat, clst), 0;
      while c < g.maxClust
        invariant Valid() && SameData(g, old(img), img) && c >= 2 && res == Ok && |fat| == g.maxClust
        invariant goal.fat == Remove(fat, c).fat && goal.ok == Remove(fat, c).ok
        invariant goal.freed == Remove(fat, c).freed + done
        invariant freeClust == Min(old(freeClust) + done, NO_COUNT)
        invariant fsiFlag == (old(fsiFlag) || (old(freeClust) != NO_COUNT && done > 0))
        decreases |UsedSet(fat)|
      {
        RemoveStep(fat, c);
        ghost var image := img;
        var nxt := Unlink(c);
        if nxt == 0 { return; }
        if nxt == 1 { return IntErr; }
        SameDataTrans(g, old(img), image, img);
        c := nxt;
        done := done + 1;
      }
      RemoveStep(fat, c);
    }

    /** Frees one cluster of a chain, unless it is free already or its link is broken; returns the link. */
    method Unlink(c: nat) returns (nxt: nat)
      requires Valid() && 2 <= c < g.maxClust
      modifies this`disk, this`winsect, this`wflag, this`img, this`fat, this`freeClust, this`fsiFlag, win
      ensures Valid() && SameData(g, old(img), img) && c < |old(fat)| && |fat| == g.maxClust && nxt == old(fat)[c]
      ensures nxt <= 1 ==> fat == old(fat) && img == old(img) && freeClust == old(freeClust) && fsiFlag == old(fsiFlag)
      ensures nxt > 1 ==> fat == old(fat)[c := 0] && freeClust == Min(old(freeClust) + 1, NO_COUNT)
      ensures nxt > 1 ==> fsiFlag == (old(fsiFlag) || old(freeClust) != NO_COUNT)
    {
      hide Valid, SameData, EndMark, Entries, HasTable, Mask;
      Facts();
      SameDataRefl(g, img);
      nxt := GetFat(c);
      if nxt <= 1 { return; }
      MaskFits(g.fsType, 0);
      var put := PutFat(c, 0);
      NoteFreed();
    }

    method NoteFreed()
      requires Valid()
      modifies this`freeClust, this`fsiFlag
      ensures Valid() && freeClust == Min(old(freeClust) + 1, NO_COUNT)
      ensures fsiFlag == (old(fsiFlag) || old(freeClust) != NO_COUNT)
    {
      hide Coherent, HasTable, Entries;
      if freeClust != NO_COUNT {
        freeClust := freeClust + 1;
        fsiFlag := true;
      }
    }

    /** Follows or stretches the chain at `clst`, or starts a new chain when it is 0. */
    method CreateChain(clst: nat) returns (r: nat)
      requires Valid()
      modifies this`disk, this`winsect, this`wflag, this`img, this`fat, this`lastClust, this`freeClust, this`fsiFlag, win
      ensures Valid() && SameData(g, old(img), img)
      ensures Stretched(old(fat), clst, old(lastClust), EndMark(g.fsType), fat, r)
      ensures Grows(old(fat), clst, r) ==>
        && TakenNext(old(fat), if clst != 0 then clst else old(lastClust), r)
        && fat[r] == (match g.fsType case Fat12 => 0xFFF case Fat16 => 0xFFFF case Fat32 => 0xFFF_FFFF)
      ensures if Grows(old(fat), clst, r)
        then
          && lastClust == r && freeClust == (if old(freeClust) == NO_COUNT then NO_COUNT else Sub32(old(freeClust), 1))
          && fsiFlag == (old(fsiFlag) || old(freeClust) != NO_COUNT)
        else lastClust == old(lastClust) && freeClust == old(freeClust) && fsiFlag == old(fsiFlag) && img == old(img)
             && (wflag ==> old(wflag))
    {
      hide Valid, SameData, Geometry.FatEnd, Fits, FirstStop, Rank, EndMark, HasTable, Entries, NoStop, TakenNext;
      Facts();
      SameDataRefl(g, img);
      var scl: nat;
      if clst == 0 {
        scl := lastClust;
        if scl == 0 || scl >= g.maxClust { scl := 1; }
      } else {
        var cs := GetFat(clst);
        if cs < 2 { return 1; }
        if cs < g.maxClust { return cs; }
        scl := clst;
      }
      var ncl, st := FindStop(scl);
      if ncl == 0 { return 0; }
      if st == 1 { return 1; }
      Take(clst, ncl);
      r := ncl;
      ghost var s := if clst != 0 then clst else old(lastClust);
      assert TakenNext(old(fat), s, r) by { TakesNext(old(fat), clst, old(lastClust), EndMark(g.fsType), fat, r); }
      LastMark(g.fsType);
    }

    static lemma LastMark(t: FsType)
      ensures EndMark(t) == match t case Fat12 => 0xFFF case Fat16 => 0xFFFF case Fat32 => 0xFFF_FFFF
    {
    }

    /** Marks a free cluster, links it behind `clst` if there is one, and updates the FSInfo fields. */
    method Take(clst: nat, ncl: nat)
      requires Valid() && 2 <= ncl < |fat| && (clst == 0 || 2 <= clst < |fat|)
      modifies this`disk, this`winsect, this`wflag, this`img, this`fat, this`lastClust, this`freeClust, this`fsiFlag, win
      ensures Valid() && SameData(g, old(img), img)
      ensures ncl < |old(fat)| && clst < |old(fat)| && fat == Linked(old(fat), clst, ncl, EndMark(g.fsType))
      ensures lastClust == ncl
      ensures freeClust == if old(freeClust) == NO_COUNT then NO_COUNT else Sub32(old(freeClust), 1)
      ensures fsiFlag == (old(fsiFlag) || old(freeClust) != NO_COUNT)
    {
      hide Valid, SameData, Geometry.FatEnd, Fits, Mask, EndMark, HasTable, Entries;
      Facts();
      MaskFits(g.fsType, ncl);
      var put := PutFat(ncl, 0xFFF_FFFF);
      ghost var marked := img;
      if clst != 0 {
        put := PutFat(clst, ncl);
        SameDataTrans(g, old(img), marked, img);
      }
      NoteTaken(ncl);
    }

    method NoteTaken(ncl: nat)
      requires Valid() && ncl < DWORD
      modifies this`lastClust, this`freeClust, this`fsiFlag
      ensures Valid() && lastClust == ncl
      ensures freeClust == if old(freeClust) == NO_COUNT then NO_COUNT else Sub32(old(freeClust), 1)
      ensures fsiFlag == (old(fsiFlag) || old(freeClust) != NO_COUNT)
    {
      hide Coherent, HasTable, Entries;
      lastClust := ncl;
      if freeClust != NO_COUNT {
        freeClust := Sub32(freeClust, 1);
        fsiFlag := true;
      }
    }

    /** The search loop of the allocator: the first entry of value 0 or 1 in cyclic order, 0 if none. */
    method FindStop(scl: nat) returns (ncl: nat, cs: nat)
      requires Valid() && 1 <= scl < g.maxClust
      modifies this`disk, this`winsect, this`wflag, win
      ensures Valid() && |fat| == g.maxClust
      ensures ncl == 0 ==> NoStop(fat)
      ensures ncl != 0 ==> 2 <= ncl < |fat| && FirstStop(fat, scl, ncl) && cs == fat[ncl] && cs <= 1
      ensures wflag ==> old(wflag)
    {
      hide Valid, Searched, FirstStop, NoStop, EndMark;
      EntryCount();
      SearchedStart(fat, scl);
      ncl := scl;
      cs := 0;
      ghost var wrapped := false;
      while true
        invariant Valid() && (wflag ==> old(wflag)) && (if wrapped then 2 <= ncl < scl else scl <= ncl < |fat|)
        invariant Searched(fat, scl, ncl, wrapped)
        decreases !wrapped, |fat| - ncl
      {
        ghost var last := ncl;
        ncl := ncl + 1;
        if ncl >= g.maxClust {
          SearchedWrap(fat, scl, last);
          ncl := 2;
          wrapped := true;
          last := 1;
          if ncl > scl { return 0, 0; }
        }
        SearchedOn(fat, scl, last, wrapped);
        cs := GetFat(ncl);
        if cs <= 1 { return; }
        if ncl == scl { return 0, 0; }
      }
    }

    lemma EntryCount()
      requires Valid()
      ensures |fat| == g.maxClust
    {
    }

    // ---- the volume's chains ----

    /** The volume is a set of disjoint acyclic chains, `chains`. */
    ghost predicate Sound()
      reads this, win
    {
      Valid() && Volume(fat, chains)
    }

    /** The free count is unknown or exact. */
    ghost predicate Counted()
      reads `freeClust, `fat
    {
      freeClust == NO_COUNT || freeClust == FreeCount(fat)
    }

    /** If the free count is no longer `count`, or an update was due, the FSInfo sector is due to be written. */
    ghost predicate Pending(count: nat, due: bool)
      reads `freeClust, `fsiFlag
    {
      (freeClust == count || fsiFlag) && (due ==> fsiFlag)
    }

    /** On FAT32 the FSInfo sector holds the free count, unless that is unknown or an update is due. */
    ghost predicate Noted()
      reads `img, `freeClust, `fsiFlag
    {
      g.fsType == Fat32 ==> InfoNoted(g.fsiSector, img, freeClust, fsiFlag)
    }

    /** `CreateChain` on a sound volume, at cluster `i` of chain `ch`, or for the empty chain: it hands
        out the next cluster of the chain, new if need be, and fails only when no cluster is free. */
    method Grow(clst: nat, ghost ch: seq<nat>, ghost i: nat) returns (r: nat, ghost ch': seq<nat>)
      requires Sound() && (if ch == [] then clst == 0 else ch in chains && i < |ch| && clst == ch[i])
      modifies this`disk, this`winsect, this`wflag, this`img, this`fat, this`lastClust, this`freeClust, this`fsiFlag,
               this`chains, win
      ensures Sound() && SameData(g, old(img), img) && (old(Counted()) ==> Counted())
      ensures Pending(old(freeClust), old(fsiFlag))
      ensures r == 0 ==> FreeCount(old(fat)) == 0 && ch' == ch && fat == old(fat) && chains == old(chains)
      ensures r == 0 ==> ch == [] || i + 1 == |ch|
      ensures r != 0 ==> var k := if ch == [] then 0 else i + 1; k < |ch'| && ch'[k] == r && InTable(fat, r)
      ensures ch' == ch || (ch' == ch + [r] && 0 < r < |old(fat)| && old(fat)[r] == 0)
      ensures ChainsMoved(old(chains), ch, chains, ch') && (ch' == ch ==> fat == old(fat) && img == old(img))
      ensures if ch' == ch then wflag ==> old(wflag) else ch == [] || i + 1 == |ch|
    {
      hide Valid, Volume, SameData, IsChain, HasTable, Entries, FreeCount, EndMark, Stretched, FirstStop, NoStop,
           Sub32, TakenNext, NoneFree;
      Facts();
      if ch != [] { LinkOfChain(fat, chains, ch, i); }
      r := CreateChain(clst);
      Facts();
      ch' := ch;
      if Grows(old(fat), clst, r) {
        Sub32Below(old(freeClust), 1, 0);
        GrowChain(old(fat), chains, ch, i, clst, old(lastClust), EndMark(g.fsType), fat, r);
        ch' := ch + [r];
        chains := chains - {ch} + {ch'};
      } else {
        NoGrowth(old(fat), chains, ch, i, clst, old(lastClust), EndMark(g.fsType), fat, r);
      }
    }

    /** `RemoveChain` on a sound volume, at the head of chain `ch`. */
    method Release(ghost ch: seq<nat>, clst: nat) returns (res: FResult)
      requires Sound() && ch in chains && ch != [] && clst == ch[0]
      modifies this`disk, this`winsect, this`wflag, this`img, this`fat, this`freeClust, this`fsiFlag, this`chains, win
      ensures Sound() && SameData(g, old(img), img) && (old(Counted()) ==> Counted())
      ensures Pending(old(freeClust), old(fsiFlag))
      ensures res == Ok && chains == old(chains) - {ch}
      ensures |fat| == |old(fat)| && forall c :: 0 <= c < |fat| ==> fat[c] == if On(ch, c) then 0 else old(fat)[c]
      ensures old(Counted()) && freeClust != NO_COUNT ==> freeClust == old(freeClust) + |ch|
    {
      hide Valid, Volume, SameData, IsChain, HasTable, Entries, FreeCount, EndMark, Remove, On;
      Facts();
      LinkOfChain(fat, chains, ch, 0);
      RemoveFreesChain(fat, ch);
      RemoveConserves(fat, ch[0]);
      RemoveKeepsVolume(fat, chains, ch);
      res := RemoveChain(clst);
      Facts();
      FreeBound(fat);
      chains := chains - {ch};
    }

    // ---- data sectors ----

    /** Copies bytes into the window over a data sector. */
    method PatchData(off: nat, bytes: seq<Byte>)
      requires Valid() && g.FatEnd() <= winsect && off + |bytes| <= 512
      modifies win, this`wflag, this`img, this`fat
      ensures Valid() && wflag && fat == old(fat)
      ensures winsect < |img| && img == old(img)[winsect := Splice(old(img)[winsect], off, bytes)]
    {
      hide Valid, Geometry.FatEnd, Entries, HasTable, Splice, Store, Fits;
      Facts();
      StoreData(g, img, winsect, Splice(img[winsect], off, bytes));
      TableBeforeData(g, img, winsect, Splice(img[winsect], off, bytes));
      Patch(off, bytes);
      Facts();
    }

    /** Stores the directory fields of a written file into the entry at offset `o` of the window. */
    method UpdateEntry(o: nat, size: nat, clust: nat, time: nat)
      requires Valid() && g.FatEnd() <= winsect && o + ENTRY_SIZE <= 512
      modifies win, this`wflag, this`img, this`fat
      ensures Valid() && wflag && fat == old(fat)
      ensures winsect < |img| && img == old(img)[winsect := Updated(old(img)[winsect], o, size, clust, time)]
    {
      hide Valid, Geometry.FatEnd, Splice, StWord, StDword, WithArchive, Entries, HasTable, Fits;
      Facts();
      PatchData(o + DIR_ATTR, [WithArchive(win[o + DIR_ATTR])]);
      PatchData(o + DIR_FILE_SIZE, StDword(size));
      PatchData(o + DIR_CLUST_LO, StWord(clust));
      PatchData(o + DIR_CLUST_HI, StWord(clust / 0x1_0000));
      PatchData(o + DIR_WRT_TIME, StDword(time));
    }

    method SetHint(hint: nat)
      requires Valid() && hint < DWORD
      modifies this`lastClust
      ensures Valid() && lastClust == hint
    {
      hide Coherent, HasTable, Entries;
      lastClust := hint;
    }

    /** Empties the file whose entry is in the window at offset `o`: the entry first, then its chain `ch`,
        if it has one; the allocation hint moves to the hole, and the entry is back in the window. */
    method EmptyFile(o: nat, ghost ch: seq<nat>)
      requires Sound() && g.FatEnd() <= winsect < |img| && o + ENTRY_SIZE <= 512
      requires StartCluster(EntryAt(img[winsect], o)) == (if ch == [] then 0 else ch[0]) && (ch == [] || ch in chains)
      modifies this`disk, this`winsect, this`wflag, this`img, this`fat, this`lastClust, this`freeClust, this`fsiFlag,
               this`chains, win
      ensures Sound() && (old(Counted()) ==> Counted()) && winsect == old(winsect)
      ensures Pending(old(freeClust), old(fsiFlag))
      ensures chains == old(chains) - {ch}
      ensures |fat| == |old(fat)| && forall c :: 0 <= c < |fat| ==> fat[c] == if On(ch, c) then 0 else old(fat)[c]
      ensures OneChanged(g, old(img), img, winsect, Emptied(old(img)[winsect], o)) && win[..] == img[winsect]
      ensures ch != [] ==> lastClust == ch[0] - 1
    {
      hide Valid, Geometry.FatEnd, Splice, StWord, StDword, Entries, HasTable, Fits, Volume, StartCluster, EntryAt,
           FreeCount, IsChain;
      Facts();
      var cl := StartCluster(EntryAt(win[..], o));
      if ch != [] { HeadIsCluster(fat, chains, ch); } else { NoEmptyChain(fat, chains); }
      PatchData(o + DIR_CLUST_HI, [0, 0]);
      PatchData(o + DIR_CLUST_LO, [0, 0]);
      PatchData(o + DIR_FILE_SIZE, [0, 0, 0, 0]);
      ghost var emptied := img;
      var ps := winsect;
      Facts();
      if cl != 0 {
        var res := Release(ch, cl);
        assert res == Ok;    // the source gives up here otherwise
        SetHint(cl - 1);
      }
      assert SameData(g, emptied, img);
      Facts();
      MoveWindow(ps);
    }

    /** Fills the cluster at sector `sect` with zeros, through the window: every round marks the window
        dirty, flushes it and moves its address on; in the end the address is wound back. */
    method ZeroCluster(sect: nat)
      requires Valid() && g.FatEnd() <= sect && 0 < g.csize && sect + g.csize <= |img|
      modifies win, this`wflag, this`winsect, this`disk, this`img, this`fat
      ensures Valid() && fat == old(fat) && winsect == sect && !wflag
      ensures img == Cleared(old(img), sect, g.csize)
    {
      hide Coherent, Geometry.FatEnd, Entries, HasTable, Store, Fits, Geometry.Sane, ZeroSector;
      Facts();
      MoveWindow(0);
      CoherentShows(g, disk, img, win[..], winsect, wflag);
      SpliceWhole(win[..], ZeroSector());
      ghost var was, at := win[..], winsect;
      CopyIn(0, ZeroSector());
      winsect := sect;
      assert Cleared(img, sect, 0) == img;
      var c := 0;
      while c < g.csize
        invariant c <= g.csize && winsect == sect + c && !wflag && win[..] == ZeroSector() && win.Length == 512
        invariant |was| == 512 && Coherent(g, disk, disk, was, at, false) && disk == img
        invariant |img| == |old(img)| && img == Cleared(old(img), sect, c)
        invariant HasTable(g, img) && fat == old(fat) == Entries(g, img)
        invariant lastClust < DWORD && freeClust < DWORD
      {
        CoherentZero(g, disk, was, at, false, winsect);
        TableBeforeData(g, img, winsect, ZeroSector());
        wflag := true;
        img := img[winsect := ZeroSector()];
        MoveWindow(0);
        was, at := win[..], winsect;
        CoherentShows(g, disk, img, win[..], winsect, wflag);
        assert img == Cleared(old(img), sect, c + 1);
        winsect := winsect + 1;
        c := c + 1;
      }
      winsect := winsect - c;
      CoherentZero(g, disk, was, at, false, winsect);
    }

    /** The growing edge of a file: the window claims a data sector without reading it and takes the
        first bytes of it; what follows them is whatever the window held. */
    method PutFresh(sect: nat, bytes: seq<Byte>) returns (ghost tail: seq<Byte>)
      requires Valid() && g.FatEnd() <= sect < |img| && |bytes| <= 512
      modifies win, this`wflag, this`winsect, this`disk, this`img, this`fat
      ensures Valid() && fat == old(fat) && |bytes| + |tail| == 512
      ensures img == old(img)[sect := bytes + tail]
    {
      hide Coherent, Geometry.FatEnd, Entries, HasTable, Store, Fits;
      Facts();
      MoveWindow(0);
      ghost var w, was := win[..], winsect;
      CoherentShows(g, disk, img, w, winsect, wflag);
      assert disk == img && !wflag;
      winsect := sect;
      CopyIn(0, bytes);
      tail := w[|bytes|..];
      assert win[..] == bytes + tail;
      CoherentClaimed(g, disk, w, was, sect, win[..]);
      StoreData(g, img, sect, win[..]);
      TableBeforeData(g, img, sect, win[..]);
      img := Store(g, img, sect, win[..]);
      wflag := true;
    }

    /** Reads `cc` whole data sectors into the caller's buffer, past the window, and then replaces the
        one that the window holds a newer version of. */
    method DirectRead(sect: nat, cc: nat, buff: array<Byte>, at: nat)
      requires Valid() && buff != win && g.FatEnd() <= sect && sect + cc <= |img| && at + 512 * cc <= buff.Length
      modifies buff
      ensures Valid()
      ensures buff[..] == Splice(old(buff[..]), at, RunBytes(img, sect, cc))
    {
      hide Coherent, Geometry.FatEnd, Entries, HasTable, Fits, RunBytes, Splice, Sub32;
      Facts();
      CoherentShows(g, disk, img, win[..], winsect, wflag);
      Sub32Below(winsect, sect, cc);
      if wflag { PatchedRun(g, disk, img, win[..], winsect, sect, cc); }
      ReadSectors(disk, sect, cc, buff, at);
      if wflag && Sub32(winsect, sect) < cc {
        var i := Sub32(winsect, sect);
        SpliceInside(old(buff[..]), at, RunBytes(disk, sect, cc), 512 * i, win[..]);
        CopyOut(buff, at + 512 * i);
      }
    }

    /** Copies the window into the caller's buffer. */
    method CopyOut(buff: array<Byte>, at: nat)
      requires win.Length == 512 && buff != win && at + 512 <= buff.Length
      modifies buff
      ensures buff[..] == Splice(old(buff[..]), at, win[..])
    {
      for j := 0 to 512
        invariant buff[..] == Splice(old(buff[..]), at, win[..j])
      {
        buff[at + j] := win[j];
      }
      assert win[..512] == win[..];
    }

    /** Writes whole data sectors past the window, and refills the window if it held one of them. */
    method DirectWrite(sect: nat, data: seq<Byte>)
      requires Valid() && g.FatEnd() <= sect && |data| % 512 == 0 && sect + |data| / 512 <= |img|
      modifies win, this`wflag, this`disk, this`img, this`fat
      ensures Valid() && fat == old(fat)
      ensures |old(img)| == |img| && img == WriteRun(old(img), sect, data)
    {
      hide Coherent, Geometry.FatEnd, Entries, HasTable, Fits, WriteRun, Splice, Sub32;
      Facts();
      CoherentRun(g, disk, img, win[..], winsect, wflag, sect, data);
      TableBeforeRun(g, img, sect, data);
      disk := WriteRun(disk, sect, data);
      img := WriteRun(img, sect, data);
      var cc := |data| / 512;
      Sub32Below(winsect, sect, cc);
      if Sub32(winsect, sect) < cc {
        SpliceWhole(win[..], Slice(data, Sub32(winsect, sect)));
        CopyIn(0, Slice(data, Sub32(winsect, sect)));
        wflag := false;
      }
    }
  }

  /** The device's multi-sector read. */
  method ReadSectors(disk: Image, sect: nat, cc: nat, buff: array<Byte>, at: nat)
    requires sect + cc <= |disk| && at + 512 * cc <= buff.Length
    modifies buff
    ensures buff[..] == Splice(old(buff[..]), at, RunBytes(disk, sect, cc))
  {
    forall j | at <= j < at + 512 * cc {
      buff[j] := disk[sect + (j - at) / 512][(j - at) % 512];
    }
  }
}
