/** What is written, flushed, and found again after a fresh mount. */
module Persistence {
  import opened Bytes
  import opened Layout
  import opened LogicalDisk
  import opened Chains
  import opened FileView
  import opened FilePosition
  import opened FileSystem
  import opened DirEntry
  import opened DirView
  import opened Mount
  import opened File
  import opened Session

  /** Sector `bsect` is the boot sector of a volume with the geometry `g`. */
  ghost predicate Boots(g: Geometry, img: Image, bsect: nat)
  {
    && bsect < |img| && bsect < g.fatbase
    && var b := ReadBpb(img[bsect]);
      && SaneBpb(b, bsect) && bsect + b.totSec <= |img| && MountGeometry(b, bsect) == g
      && (g.fsType == Fat32 ==> g.fsiSector != bsect)
  }

  /** The volume's boot sector is the one it was mounted from. */
  ghost predicate BootedFrom(fs: FATFS, bsect: nat)
    reads fs`img, fs`disk
  {
    |fs.img| == |fs.disk| && Boots(fs.g, fs.img, bsect)
  }

  /** Work on a file does not touch the boot sector. */
  lemma BootMoved(fs: FATFS, img: Image, bsect: nat, ch: seq<nat>, ds: nat)
    requires fs.Sound() && Touched(fs.g, img, fs.img, ch, ds) && fs.g.FatEnd() <= ds && Boots(fs.g, img, bsect)
    ensures BootedFrom(fs, bsect)
  {
    hide FATFS.Valid, Volume, SaneBpb, ReadBpb, MountGeometry, Geometry.Sane;
    fs.Facts();
    DataBehind(fs.g);
  }

  /** Neither does work on a directory. */
  lemma BootBesideDir(fs: FATFS, img: Image, bsect: nat, ch: seq<nat>)
    requires fs.Sound() && DirOnly(fs.g, img, fs.img, ch) && Boots(fs.g, img, bsect)
    ensures BootedFrom(fs, bsect)
  {
    hide FATFS.Valid, Volume, SaneBpb, ReadBpb, MountGeometry, Geometry.Sane;
    fs.Facts();
    DataBehind(fs.g);
  }

  lemma DataBehind(g: Geometry)
    requires g.Sane()
    ensures g.fatbase <= g.FatEnd() <= g.database
  {
  }

  /** Mounts the disk of a volume that has nothing pending. */
  method MountCopy(fs: FATFS, bsect: nat, hint: nat) returns (fs': FATFS)
    requires fs.Sound() && hint < DWORD && BootedFrom(fs, bsect) && fs.disk == fs.img
    ensures fs'.Sound() && fresh(fs') && fresh(fs'.win) && fs'.g == fs.g && fs'.disk == fs'.img == fs.disk
    ensures fs'.fat == fs.fat && fs'.chains == fs.chains
    ensures var known := fs.g.fsType == Fat32 && fs.g.fsiSector < |fs.disk| && SignedFsInfo(fs.disk[fs.g.fsiSector]);
      && fs'.freeClust == (if known then LdDword(fs.disk[fs.g.fsiSector], 488) else NO_COUNT)
      && fs'.lastClust == (if known then LdDword(fs.disk[fs.g.fsiSector], 492) else hint)
  {
    hide FATFS.Valid, Volume, Geometry.Sane, SaneBpb, MountGeometry, ReadBpb, CopiesAgree, SignedFsInfo;
    fs.Facts();
    fs' := new FATFS.Mount(fs.disk, bsect, hint, false, fs.chains);
    fs'.Facts();
  }

  /** Flush: afterwards the disk is the logical disk, with the file's entry on it. */
  method Settle(fp: FIL, time: nat, ghost dch: seq<nat>)
    requires fp.Valid() && fp.Recorded() && fp.Settled() && time < DWORD && fp.Entered(dch)
    modifies fp`written, fp.fs`disk, fp.fs`winsect, fp.fs`wflag, fp.fs`fsiFlag, fp.fs`img, fp.fs`fat, fp.fs.win
    ensures fp.Valid() && fp.fs.disk == fp.fs.img && |fp.fs.img| == |old(fp.fs.img)| && fp.fs.fat == old(fp.fs.fat)
    ensures Moved(fp.fs.g, old(fp.fs.img), fp.fs.chains, fp.chain, fp.fs.img, fp.fs.chains, fp.chain, fp.dirSect, fp.dirPtr)
    ensures fp.fs.g.FatEnd() <= fp.dirSect < |fp.fs.img| && fp.dirPtr + ENTRY_SIZE <= 512
    ensures fp.InEntry(fp.fs.img[fp.dirSect], fp.dirPtr)
    ensures OnVolume(fp.fs.g, old(fp.fs.img), fp.chain) && OnVolume(fp.fs.g, fp.fs.img, fp.chain)
    ensures fp.fsize <= 512 * Sectors(fp.fs.g, fp.chain)
    ensures Content(fp.fs.g, fp.fs.img, fp.chain, 0, fp.fsize) == Content(fp.fs.g, old(fp.fs.img), fp.chain, 0, fp.fsize)
    ensures fp.fs.g.fsType == Fat32 && old(fp.fs.fsiFlag) && old(fp.written) ==>
      fp.fs.g.fsiSector < |fp.fs.disk| && IsFsInfo(fp.fs.disk[fp.fs.g.fsiSector], fp.fs.freeClust, fp.fs.lastClust)
    ensures old(fp.fs.Noted()) ==> fp.fs.Noted()
    ensures fp.fs.g.fsType == Fat32 && (old(fp.written) || !old(fp.fs.fsiFlag)) ==> !fp.fs.fsiFlag
  {
    hide FATFS.Valid, Volume, OnVolume, Sectors, Content, OwnSector, Geometry.Sane, CopiesAgree, FileSize, StartCluster,
         IsFsInfo, Placed, DirOwns, Moved, EntryAt, FATFS.Noted;
    ghost var img0, written0 := fp.fs.img, fp.written;
    fp.EntryApart(dch);
    fp.StartFits();
    fp.OwnsFacts();
    fp.Sync(time, dch);
    FlushMoved(fp, dch, img0, written0, time);
    if !written0 {
      fp.fs.Clean();
    }
  }

  /** Flush, and mount again from the disk alone: the volume is what it was, with the file and its entry on it. */
  method Remount(fp: FIL, bsect: nat, time: nat, hint: nat, ghost dch: seq<nat>) returns (fs': FATFS)
    requires fp.Valid() && fp.Recorded() && fp.Settled() && time < DWORD && hint < DWORD && BootedFrom(fp.fs, bsect)
    requires fp.Entered(dch)
    modifies fp`written, fp.fs`disk, fp.fs`winsect, fp.fs`wflag, fp.fs`fsiFlag, fp.fs`img, fp.fs`fat, fp.fs.win
    ensures fp.Valid() && fs'.Sound() && fresh(fs') && fresh(fs'.win) && fs'.g == fp.fs.g && fs'.disk == fp.fs.disk
    ensures fs'.img == fs'.disk == fp.fs.img && fs'.fat == fp.fs.fat == old(fp.fs.fat) && fs'.chains == fp.fs.chains
    ensures Moved(fp.fs.g, old(fp.fs.img), fp.fs.chains, fp.chain, fs'.img, fp.fs.chains, fp.chain, fp.dirSect, fp.dirPtr)
    ensures fp.fs.g.FatEnd() <= fp.dirSect < |fs'.img|
    ensures var e := EntryAt(fs'.img[fp.dirSect], fp.dirPtr); FileSize(e) == fp.fsize && StartCluster(e) == fp.orgClust
    ensures OnVolume(fp.fs.g, old(fp.fs.img), fp.chain) && OnVolume(fp.fs.g, fs'.img, fp.chain)
    ensures fp.fsize <= 512 * Sectors(fp.fs.g, fp.chain)
    ensures Content(fp.fs.g, fs'.img, fp.chain, 0, fp.fsize) == Content(fp.fs.g, old(fp.fs.img), fp.chain, 0, fp.fsize)
    ensures fp.fs.g.fsType == Fat32 && old(fp.fs.fsiFlag) && old(fp.written) ==>
      fs'.freeClust == fp.fs.freeClust && fs'.lastClust == fp.fs.lastClust
    ensures fp.fs.g.fsType == Fat32 && old(fp.fs.Noted()) && fp.fs.freeClust != NO_COUNT &&
            (old(fp.written) || !old(fp.fs.fsiFlag)) ==>
      fs'.freeClust == fp.fs.freeClust
  {
    hide FATFS.Valid, Volume, OnVolume, Sectors, Content, OwnSector, Geometry.Sane, SaneBpb, MountGeometry, ReadBpb,
         CopiesAgree, FileSize, StartCluster, SignedFsInfo, Placed, DirOwns, Boots, Touched, EntryKept, EntryAt;
    ghost var img0 := fp.fs.img;
    fp.Facts();
    fp.EntryApart(dch);
    Settle(fp, time, dch);
    BootMoved(fp.fs, img0, bsect, fp.chain, fp.dirSect);
    fs' := MountCopy(fp.fs, bsect, hint);
  }

  /** Flush, mount again, open the entry again: the file has its size, its chain and its bytes, and the volume its
      free count and hint. */
  method FlushAndReopen(fp: FIL, bsect: nat, time: nat, hint: nat, ghost dch: seq<nat>) returns (fp': FIL)
    requires fp.Valid() && fp.Recorded() && fp.Settled() && time < DWORD && hint < DWORD && BootedFrom(fp.fs, bsect)
    requires fp.Entered(dch)
    modifies fp`written, fp.fs`disk, fp.fs`winsect, fp.fs`wflag, fp.fs`fsiFlag, fp.fs`img, fp.fs`fat, fp.fs.win
    ensures fp'.Valid() && fresh(fp'.fs) && fp'.fs.g == fp.fs.g && fp'.fs.disk == fp.fs.disk
    ensures fp'.fptr == 0 && fp'.fsize == fp.fsize && fp'.chain == fp.chain && fp'.orgClust == fp.orgClust
    ensures fp'.fs.fat == old(fp.fs.fat) && fp'.fs.chains == fp.fs.chains
    ensures OnVolume(fp.fs.g, old(fp.fs.img), fp.chain) && OnVolume(fp.fs.g, fp'.fs.img, fp.chain)
    ensures fp.fsize <= 512 * Sectors(fp.fs.g, fp.chain)
    ensures Content(fp.fs.g, fp'.fs.img, fp.chain, 0, fp.fsize) == Content(fp.fs.g, old(fp.fs.img), fp.chain, 0, fp.fsize)
    ensures fp.fs.g.fsType == Fat32 && old(fp.fs.fsiFlag) && old(fp.written) ==>
      fp'.fs.freeClust == fp.fs.freeClust && fp'.fs.lastClust == fp.fs.lastClust
    ensures fp.fs.g.fsType == Fat32 && old(fp.fs.Noted()) && fp.fs.freeClust != NO_COUNT &&
            (old(fp.written) || !old(fp.fs.fsiFlag)) ==>
      fp'.fs.freeClust == fp.fs.freeClust
  {
    hide FATFS.Valid, Volume, OnVolume, Sectors, Content, OwnSector, Geometry.Sane, SaneBpb, MountGeometry, ReadBpb,
         CopiesAgree, FileSize, StartCluster, SignedFsInfo, Placed, DirOwns, Moved;
    var fs' := Remount(fp, bsect, time, hint, dch);
    fp.HasChain();
    fs'.Facts();
    fs'.MoveWindow(fp.dirSect);
    fp' := new FIL.Open(fs', fp.dirPtr, true, true, false, fp.chain);
  }
}
