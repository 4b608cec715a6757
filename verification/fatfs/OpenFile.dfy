/** Opening and creating files. */
module OpenFile {
  import opened Bytes
  import opened Layout
  import opened LogicalDisk
  import opened Table
  import opened Chains
  import opened FileView
  import opened FileSystem
  import opened DirEntry
  import opened DirTable
  import opened DirView
  import opened Directory
  import opened Names
  import opened Path
  import opened File

  datatype Mode = Mode(read: bool, write: bool, createAlways: bool, openAlways: bool, createNew: bool)

  /** The entry belongs to a file with the chain `fch`. */
  ghost predicate OwnedBy(g: Geometry, chains: set<seq<nat>>, e: Entry32, fch: seq<nat>)
  {
    && (fch == [] || fch in chains) && StartCluster(e) == (if fch == [] then 0 else fch[0])
    && FileSize(e) <= 512 * Sectors(g, fch)
  }

  // ---- changes of one entry ----

  /** A view does not depend on table sectors. */
  lemma SameView(g: Geometry, img: Image, img': Image, ch: seq<nat>)
    requires DirFits(g, img, ch) && |img'| == |img| && forall x :: 0 <= x < |img| && !g.TableSector(x) ==> img'[x] == img[x]
    ensures DirFits(g, img', ch) && View(g, img', ch) == View(g, img, ch)
  {
    hide DirSect, DirSectors, Geometry.FatEnd;
  }

  /** A sector that differs within one entry is the sector with that entry replaced. */
  lemma EntryReplaced(s: Sector, w: Sector, o: nat)
    requires o + ENTRY_SIZE <= 512 && KeptOutside(s, w, o, o + ENTRY_SIZE)
    ensures w == Splice(s, o, EntryAt(w, o))
  {
  }

  /** Outside the table area one sector changed, within entry `k` of the directory. */
  ghost predicate EntryChanged(g: Geometry, img: Image, img': Image, ch: seq<nat>, k: nat)
  {
    && DirFits(g, img, ch) && DirFits(g, img', ch) && DirOnly(g, img, img', ch) && k < DirCount(g, ch)
    && View(g, img', ch) == View(g, img, ch)[k := View(g, img', ch)[k]]
  }

  lemma EntryChange(g: Geometry, img: Image, img': Image, ch: seq<nat>, k: nat)
    requires DirFits(g, img, ch) && (ch == [] || OnVolume(g, img, ch)) && k < DirCount(g, ch)
    requires ch == [] ==> g.dirbase + g.nRootdir / 16 <= g.database
    requires k / 16 < DirSectors(g, ch)
    requires var s := DirSect(g, ch, k / 16);
      && s < |img| == |img'| && OneChanged(g, img, img', s, img'[s])
      && KeptOutside(img[s], img'[s], k % 16 * 32, k % 16 * 32 + 32)
    ensures EntryChanged(g, img, img', ch, k)
    ensures View(g, img', ch)[k] == EntryAt(img'[DirSect(g, ch, k / 16)], k % 16 * 32)
  {
    hide View, KeptOutside, DirCount, EntryAt, Splice;
    var s, o := DirSect(g, ch, k / 16), k % 16 * 32;
    EntryReplaced(img[s], img'[s], o);
    ViewPatched(g, img, ch, k, EntryAt(img'[s], o));
    SameView(g, img[s := img'[s]], img', ch);
    if ch != [] { FileSectOwn(g, img, ch, k / 16); }
  }

  /** Entry `k` of the directory lies at offset `ptr` of sector `sect`. */
  ghost predicate AtEntry(g: Geometry, ch: seq<nat>, k: nat, sect: nat, ptr: nat)
  {
    && 0 < g.csize && k / 16 < DirSectors(g, ch) && (forall i :: 0 <= i < |ch| ==> ch[i] >= 2)
    && sect == DirSect(g, ch, k / 16) && ptr == k % 16 * 32
  }

  /** A file object on an entry of a directory of the volume stands in that directory. */
  lemma EntryIsEntered(fp: FIL, sclust: nat, dch: seq<nat>, k: nat)
    requires fp.Owns() && IsDir(fp.fs.g, fp.fs.fat, fp.fs.chains, sclust, dch) && (fp.chain == [] || fp.chain != dch)
    requires AtEntry(fp.fs.g, dch, k, fp.dirSect, fp.dirPtr)
    ensures fp.Entered(dch)
  {
    hide FATFS.Valid, Volume, Geometry.Sane, View;
    fp.fs.Facts();
    fp.Facts();
    DirGeometry(fp.fs.g);
    DirOnVolume(fp.fs.g, fp.fs.img, fp.fs.fat, fp.fs.chains, sclust, dch);
    if dch != [] {
      ChainOnVolume(fp.fs.g, fp.fs.img, fp.fs.fat, fp.fs.chains, dch);
      FileSectOwn(fp.fs.g, fp.fs.img, dch, k / 16);
    }
  }

  // ---- the entry of a created file ----

  /** Resets the attributes and sets the creation time. */
  method Stamp(fs: FATFS, o: nat, time: nat)
    requires fs.Valid() && fs.g.FatEnd() <= fs.winsect && o + ENTRY_SIZE <= 512 && time < DWORD
    modifies fs`wflag, fs`img, fs`fat, fs.win
    ensures fs.Valid() && fs.fat == old(fs.fat) && fs.winsect < |fs.img|
    ensures fs.img == old(fs.img)[fs.winsect := Created(old(fs.img)[fs.winsect], o, time)]
  {
    hide FATFS.Valid, Geometry.FatEnd, Splice, StDword;
    fs.Facts();
    fs.PatchData(o + DIR_ATTR, [0]);
    fs.PatchData(o + DIR_CRT_TIME, StDword(time));
  }

  /** What stamping makes of an entry. */
  lemma Stamped(s: Sector, o: nat, time: nat)
    requires o + ENTRY_SIZE <= 512 && time < DWORD
    ensures var e, e' := EntryAt(s, o), EntryAt(Created(s, o, time), o);
      && e'[..11] == e[..11] && e'[DIR_ATTR] == 0 && StartCluster(e') == StartCluster(e) && FileSize(e') == FileSize(e)
    ensures KeptOutside(s, Created(s, o, time), o, o + ENTRY_SIZE)
  {
    hide StartCluster, FileSize, Created;
    CreatedHolds(s, o, time, Created(s, o, time));
    CreatedKeeps(s, o, time, Created(s, o, time));
  }

  /** What emptying and stamping make of an entry. */
  lemma EmptiedStamped(s: Sector, o: nat, time: nat)
    requires o + ENTRY_SIZE <= 512 && time < DWORD
    ensures var w := Created(Emptied(s, o), o, time); var e, e' := EntryAt(s, o), EntryAt(w, o);
      && e'[..11] == e[..11] && e'[DIR_ATTR] == 0 && StartCluster(e') == 0 && FileSize(e') == 0
      && KeptOutside(s, w, o, o + ENTRY_SIZE)
  {
    hide StartCluster, FileSize, Created, Emptied;
    EmptiedHolds(s, o, Emptied(s, o));
    Stamped(Emptied(s, o), o, time);
  }

  /** The entry of a file just created: without attributes, clusters and bytes. */
  predicate Pristine(e: Entry32) { e[DIR_ATTR] == 0 && StartCluster(e) == 0 && FileSize(e) == 0 }

  /** Empties an existing file: its chain is free, and its entry keeps only the name. */
  method Recreate(dj: DIR, ghost dch: seq<nat>, ghost fch: seq<nat>, time: nat)
    requires dj.fs.Sound() && IsDir(dj.fs.g, dj.fs.fat, dj.fs.chains, dj.sclust, dch) && time < DWORD
    requires dj.Here() && dj.fs.winsect == dj.sect && dj.dir + ENTRY_SIZE <= 512 && dj.sect < |dj.fs.img|
    requires OwnedBy(dj.fs.g, dj.fs.chains, EntryAt(dj.fs.img[dj.sect], dj.dir), fch) && (fch == [] || fch != dch)
    modifies dj.fs, dj.fs.win
    ensures dj.fs.Sound() && (old(dj.fs.Counted()) ==> dj.fs.Counted())
    ensures dj.fs.Pending(old(dj.fs.freeClust), old(dj.fs.fsiFlag))
    ensures old(dj.fs.Noted()) ==> dj.fs.Noted()
    ensures IsDir(dj.fs.g, dj.fs.fat, dj.fs.chains, dj.sclust, dch) && dj.fs.chains == old(dj.fs.chains) - {fch}
    ensures |dj.fs.fat| == |old(dj.fs.fat)|
    ensures forall c :: 0 <= c < |dj.fs.fat| ==> dj.fs.fat[c] == if On(fch, c) then 0 else old(dj.fs.fat)[c]
    ensures EntryChanged(dj.fs.g, old(dj.fs.img), dj.fs.img, dch, dj.index)
    ensures dj.fs.winsect == dj.sect < |dj.fs.img| && dj.fs.g.FatEnd() <= dj.sect
    ensures View(dj.fs.g, dj.fs.img, dch)[dj.index] == EntryAt(dj.fs.img[dj.sect], dj.dir)
    ensures Pristine(View(dj.fs.g, dj.fs.img, dch)[dj.index])
    ensures View(dj.fs.g, dj.fs.img, dch)[dj.index][..11] == View(dj.fs.g, old(dj.fs.img), dch)[dj.index][..11]
  {
    hide FATFS.Valid, Geometry.Sane, Volume, Locate, EntryAt, StartCluster, FileSize, View, DirSect, DirSectors,
         DirCount, DirOnly, DirFits, Geometry.FatEnd, KeptOutside, OnVolume, FATFS.Counted, InfoNoted;
    ghost var g, img0, sect, dir := dj.fs.g, dj.fs.img, dj.sect, dj.dir;
    dj.DirPlaced(dch, dj.index);
    dj.OnDirVolume(dch);
    dj.StaticRoot(dch);
    dj.InVolume();
    dj.fs.EmptyFile(dj.dir, fch);
    Stamp(dj.fs, dj.dir, time);
    EmptiedStamped(img0[sect], dir, time);
    EntryChange(g, img0, dj.fs.img, dch, dj.index);
    InfoBesideDir(dj.fs, img0, dch, old(dj.fs.freeClust), old(dj.fs.fsiFlag));
  }

  /** The directory got an entry for an empty file named `fn`, in its first blank entry or behind its old end. */
  ghost predicate CreatedIn(g: Geometry, img: Image, img': Image, ch: seq<nat>, ch': seq<nat>, fn: seq<Byte>, k: nat)
    requires |fn| == 12
  {
    && DirFits(g, img, ch) && DirFits(g, img', ch') && DirOnly(g, img, img', ch') && k < DirCount(g, ch')
    && var e := View(g, img', ch')[k];
       Registered(View(g, img, ch), View(g, img', ch'), e, k) && Named(e, fn) && Pristine(e)
  }

  lemma CreatedOnly(g: Geometry, img: Image, img': Image, ch: seq<nat>, ch': seq<nat>, fn: seq<Byte>, k: nat)
    requires |fn| == 12 && CreatedIn(g, img, img', ch, ch', fn, k)
    ensures DirOnly(g, img, img', ch')
  {
  }

  lemma CreatedAt(g: Geometry, img: Image, mid: Image, img': Image, ch: seq<nat>, ch': seq<nat>, fn: seq<Byte>, k: nat)
    requires |fn| == 12 && DirFits(g, img, ch) && DirFits(g, mid, ch') && DirOnly(g, img, mid, ch')
    requires Registered(View(g, img, ch), View(g, mid, ch'), NewEntry(fn), k)
    requires EntryChanged(g, mid, img', ch', k)
    requires var e := View(g, img', ch')[k];
      && e[..11] == NewEntry(fn)[..11] && e[DIR_ATTR] == 0
      && StartCluster(e) == StartCluster(NewEntry(fn)) && FileSize(e) == FileSize(NewEntry(fn))
    ensures CreatedIn(g, img, img', ch, ch', fn, k)
  {
    hide View, DirFits, StartCluster, FileSize, DirOwns, Geometry.FatEnd, DirCount;
    NewEntryEmpty(fn);
    var e := View(g, img', ch')[k];
    assert View(g, img', ch') == View(g, mid, ch')[k := e];
    RegisteredAs(View(g, img, ch), View(g, mid, ch'), NewEntry(fn), k, e);
  }

  lemma RegisteredAs(es: seq<Entry32>, es': seq<Entry32>, e: Entry32, k: nat, e': Entry32)
    requires Registered(es, es', e, k)
    ensures Registered(es, es'[k := e'], e', k)
  {
  }

  lemma NewEntryEmpty(fn: seq<Byte>)
    requires |fn| == 12
    ensures StartCluster(NewEntry(fn)) == 0 && FileSize(NewEntry(fn)) == 0 && NewEntry(fn)[..11] == fn[..11]
  {
  }

  /** Changes in a directory do not touch the FSInfo sector. */
  lemma InfoBesideDir(fs: FATFS, img: Image, ch: seq<nat>, count: nat, due: bool)
    requires fs.Valid() && DirOnly(fs.g, img, fs.img, ch) && fs.Pending(count, due)
    ensures (fs.g.fsType == Fat32 ==> InfoNoted(fs.g.fsiSector, img, count, due)) ==> fs.Noted()
  {
    hide FATFS.Valid, InfoNoted;
    fs.Facts();
    if fs.g.fsType == Fat32 && InfoNoted(fs.g.fsiSector, img, count, due) {
      FsiBeforeTable(fs.g, fs.img);
      NotedOn(fs.g.fsiSector, img, count, due, fs.img, fs.freeClust, fs.fsiFlag);
    }
  }

  lemma DirSame(g: Geometry, img: Image, ch: seq<nat>)
    ensures DirOnly(g, img, img, ch)
  {
  }

  lemma ChainsKept(chains: set<seq<nat>>, c: seq<nat>, chains': set<seq<nat>>)
    ensures ChainsMoved(chains, c, chains', c) ==> chains' == chains
  {
  }

  lemma DirShape(dj: DIR, ch: seq<nat>)
    requires dj.fs.Sound() && IsDir(dj.fs.g, dj.fs.fat, dj.fs.chains, dj.sclust, ch)
    ensures 0 < dj.fs.g.csize && forall i :: 0 <= i < |ch| ==> ch[i] >= 2
  {
    hide FATFS.Valid, Geometry.Sane, Volume, IsDir;
    dj.Facts();
    DirClusters(dj.fs.g, dj.fs.fat, dj.fs.chains, dj.sclust, ch);
  }

  /** Registers the name of the directory object for an empty file. */
  method Create(dj: DIR, ghost dch: seq<nat>, time: nat) returns (res: FResult, ghost k: nat, ghost dch': seq<nat>)
    requires dj.fs.Sound() && IsDir(dj.fs.g, dj.fs.fat, dj.fs.chains, dj.sclust, dch) && time < DWORD && |dj.fn| == 12
    modifies dj`index, dj`clust, dj`sect, dj`dir, dj.fs, dj.fs.win
    ensures dj.fs.Sound() && (old(dj.fs.Counted()) ==> dj.fs.Counted())
    ensures dj.fs.Pending(old(dj.fs.freeClust), old(dj.fs.fsiFlag))
    ensures old(dj.fs.Noted()) ==> dj.fs.Noted()
    ensures IsDir(dj.fs.g, dj.fs.fat, dj.fs.chains, dj.sclust, dch') && ChainsMoved(old(dj.fs.chains), dch, dj.fs.chains, dch')
    ensures res == Ok ==>
      && CreatedIn(dj.fs.g, old(dj.fs.img), dj.fs.img, dch, dch', dj.fn, k)
      && dj.fs.winsect == dj.sect < |dj.fs.img| && dj.fs.g.FatEnd() <= dj.sect && dj.dir + ENTRY_SIZE <= 512
      && View(dj.fs.g, dj.fs.img, dch')[k] == EntryAt(dj.fs.img[dj.sect], dj.dir)
      && AtEntry(dj.fs.g, dch', k, dj.sect, dj.dir)
    ensures res != Ok ==> NoVacancy(dj.fs.g, dj.fs.img, dch, dj.fs.fat, res) && dch' == dch
                          && dj.fs.img == old(dj.fs.img) && dj.fs.fat == old(dj.fs.fat) && dj.fs.chains == old(dj.fs.chains)
  {
    hide FATFS.Valid, Geometry.Sane, Volume, Locate, EntryAt, StartCluster, FileSize, View, DirSect, DirSectors,
         DirCount, DirOnly, DirFits, Geometry.FatEnd, KeptOutside, OnVolume, FATFS.Counted, InfoNoted, ChainsMoved, NoVacancy,
         NewEntry, FreeCount, CreatedIn;
    ghost var g, img0 := dj.fs.g, dj.fs.img;
    res, k, dch' := dj.Register(dch);
    assert dch' == dch ==> dj.fs.chains == old(dj.fs.chains) by { ChainsKept(old(dj.fs.chains), dch, dj.fs.chains); }
    if res == Ok {
      ghost var mid, sect, dir := dj.fs.img, dj.sect, dj.dir;
      dj.DirPlaced(dch', k);
      DirShape(dj, dch');
      dj.OnDirVolume(dch');
      dj.StaticRoot(dch');
      dj.InVolume();
      Stamp(dj.fs, dj.dir, time);
      Stamped(mid[sect], dir, time);
      EntryChange(g, mid, dj.fs.img, dch', k);
      CreatedAt(g, img0, mid, dj.fs.img, dch, dch', dj.fn, k);
      assert DirOnly(g, img0, dj.fs.img, dch') by { CreatedOnly(g, img0, dj.fs.img, dch, dch', dj.fn, k); }
    } else {
      DirSame(g, img0, dch');
    }
    InfoBesideDir(dj.fs, img0, dch', old(dj.fs.freeClust), old(dj.fs.fsiFlag));
  }

  // ---- opening ----

  predicate Creating(m: Mode) { m.createAlways || m.openAlways || m.createNew }

  /** The directory that the path leads to is one of the volume's, and so is the file, if there is one. */
  ghost predicate Known(g: Geometry, img: Image, fat: seq<nat>, chains: set<seq<nat>>, t: Target, dch: seq<nat>, fch: seq<nat>)
    requires 0 < g.csize && |fat| == g.maxClust && (g.fsType == Fat32 ==> g.ValidCluster(g.dirbase))
    requires t.Object? ==> Locate(g, fat, t.dir, t.n).At? && Locate(g, fat, t.dir, t.n).sect < |img|
  {
    match t
    case Failed(_) => true
    case Missing(d, fn) => IsDir(g, fat, chains, d, dch) && |fn| == 12
    case Object(d, n, _) =>
      && IsDir(g, fat, chains, d, dch)
      && var e := EntryOf(g, img, fat, d, n);
         HasAttr(e[DIR_ATTR], AM_DIR) || (OwnedBy(g, chains, e, fch) && (fch == [] || fch != dch))
  }

  /** What becomes of an object that exists, by its attributes and the mode. */
  function ObjectResult(attr: Byte, m: Mode): FResult
  {
    if Creating(m) then
      if m.createNew then Exist else if HasAttr(attr, AM_RDO) || HasAttr(attr, AM_DIR) then Denied else Ok
    else if HasAttr(attr, AM_DIR) then NoFile
    else if m.write && HasAttr(attr, AM_RDO) then Denied else Ok
  }

  /** What opening reports of an object with these attributes: bit 4 makes it a directory, bit 0 read-only. */
  predicate Answers(attr: Byte, m: Mode, res: FResult)
  {
    var directory, readOnly := attr / 0x10 % 2 == 1, attr % 2 == 1;
    var creating := m.createAlways || m.openAlways || m.createNew;
    && (res == Ok <==> !directory && !m.createNew && (!readOnly || !(m.write || creating)))
    && (m.createNew ==> res == Exist)
    && (creating && !m.createNew && (directory || readOnly) ==> res == Denied)
    && (!creating && directory ==> res == NoFile)
    && (!creating && !directory && readOnly && m.write ==> res == Denied)
  }

  lemma AnswersExactly(attr: Byte, m: Mode, res: FResult)
    ensures Answers(attr, m, res) <==> res == ObjectResult(attr, m)
  {
  }

  /** A file object just opened. */
  ghost predicate Fresh(fp: FIL, fs: FATFS, m: Mode, e: Entry32, chain: seq<nat>, written: bool)
    reads fp, fs, fs.win, fp.fs, fp.fs.win
  {
    && fp.fs == fs && fp.Valid() && fp.fptr == 0 && !fp.error && fp.canRead == m.read && fp.canWrite == m.write
    && fp.chain == chain && fp.fsize == FileSize(e) && fp.written == written
    && fp.dirSect == fs.winsect < |fs.img| && fp.dirPtr + ENTRY_SIZE <= 512 && EntryAt(fs.img[fp.dirSect], fp.dirPtr) == e
  }

  lemma OpenOwns(fp: FIL)
    requires fp.Valid()
    ensures fp.Owns()
  {
    hide FATFS.Valid, Volume;
  }

  /** Opens the object the directory stands at. */
  method OpenObject(dj: DIR, m: Mode, time: nat, ghost dch: seq<nat>, ghost fch: seq<nat>) returns (res: FResult, fp: FIL?)
    requires dj.fs.Sound() && IsDir(dj.fs.g, dj.fs.fat, dj.fs.chains, dj.sclust, dch) && time < DWORD
    requires dj.Here() && dj.fs.winsect == dj.sect && dj.dir + ENTRY_SIZE <= 512 && dj.sect < |dj.fs.img|
    requires var e := EntryAt(dj.fs.img[dj.sect], dj.dir);
      HasAttr(e[DIR_ATTR], AM_DIR) || (OwnedBy(dj.fs.g, dj.fs.chains, e, fch) && (fch == [] || fch != dch))
    modifies dj.fs, dj.fs.win
    ensures dj.fs.Sound() && (old(dj.fs.Counted()) ==> dj.fs.Counted())
    ensures dj.fs.Pending(old(dj.fs.freeClust), old(dj.fs.fsiFlag))
    ensures old(dj.fs.Noted()) ==> dj.fs.Noted()
    ensures res == ObjectResult(old(EntryAt(dj.fs.img[dj.sect], dj.dir)[DIR_ATTR]), m)
    ensures fp != null <==> res == Ok
    ensures fp != null ==> fresh(fp) && AtEntry(dj.fs.g, dch, dj.index, fp.dirSect, fp.dirPtr) && fp.Entered(dch)
    ensures res != Ok || !m.createAlways ==>
      && dj.fs.img == old(dj.fs.img) && dj.fs.fat == old(dj.fs.fat) && dj.fs.chains == old(dj.fs.chains)
      && dj.fs.wflag == old(dj.fs.wflag)
    ensures res == Ok && !m.createAlways ==> Fresh(fp, dj.fs, m, old(EntryAt(dj.fs.img[dj.sect], dj.dir)), fch, false)
    ensures res == Ok && m.createAlways ==>
      && IsDir(dj.fs.g, dj.fs.fat, dj.fs.chains, dj.sclust, dch)
      && Recreated(dj.fs.g, old(dj.fs.img), old(dj.fs.fat), old(dj.fs.chains), dj.fs.img, dj.fs.fat, dj.fs.chains,
                   dch, dj.index, fch)
      && Fresh(fp, dj.fs, m, View(dj.fs.g, dj.fs.img, dch)[dj.index], [], true)
  {
    hide FATFS.Valid, Geometry.Sane, Volume, Locate, StartCluster, FileSize, View, DirSect, DirSectors, DirCount,
         DirOnly, DirFits, Geometry.FatEnd, OnVolume, FATFS.Counted, FATFS.Noted, IsDir, EntryChanged,
         FIL.Valid, FIL.Owns, FIL.Entered;
    dj.fs.Facts();
    dj.InVolume();
    dj.DirPlaced(dch, dj.index);
    DirShape(dj, dch);
    fp := null;
    var e := EntryAt(dj.fs.win[..], dj.dir);
    var written := false;
    ghost var chain := fch;
    if Creating(m) {
      if m.createNew { return Exist, null; }
      if HasAttr(e[DIR_ATTR], AM_RDO) || HasAttr(e[DIR_ATTR], AM_DIR) { return Denied, null; }
      if m.createAlways {
        Recreate(dj, dch, fch, time);
        dj.fs.Facts();
        written := true;
        chain := [];
      }
    } else {
      if HasAttr(e[DIR_ATTR], AM_DIR) { return NoFile, null; }
      if m.write && HasAttr(e[DIR_ATTR], AM_RDO) { return Denied, null; }
    }
    fp := new FIL.Open(dj.fs, dj.dir, m.read, m.write, written, chain);
    OpenOwns(fp);
    EntryIsEntered(fp, dj.sclust, dch, dj.index);
    res := Ok;
  }

  /** The file at entry `k` was emptied: its clusters are free, its entry keeps only the name, and every other
      entry and every sector outside the directory stays. */
  ghost predicate Recreated(g: Geometry, img: Image, fat: seq<nat>, chains: set<seq<nat>>,
                            img': Image, fat': seq<nat>, chains': set<seq<nat>>, dch: seq<nat>, k: nat, fch: seq<nat>)
  {
    && chains' == chains - {fch} && |fat'| == |fat|
    && (forall c :: 0 <= c < |fat| ==> fat'[c] == if On(fch, c) then 0 else fat[c])
    && EntryChanged(g, img, img', dch, k)
    && Pristine(View(g, img', dch)[k]) && View(g, img', dch)[k][..11] == View(g, img, dch)[k][..11]
  }

  lemma VolumeFacts(fs: FATFS)
    requires fs.Valid()
    ensures 0 < fs.g.csize && |fs.fat| == fs.g.maxClust && (fs.g.fsType == Fat32 ==> fs.g.ValidCluster(fs.g.dirbase))
  {
    hide FATFS.Valid;
    fs.Facts();
    DirGeometry(fs.g);
  }

  /** Where `path` leads on the volume as it is; meaningful for a path that is not empty. */
  ghost function Led(fs: FATFS, path: seq<Byte>): (t: Target)
    requires fs.Valid()
    reads fs, fs.win
    ensures 0 < fs.g.csize && |fs.fat| == fs.g.maxClust && (fs.g.fsType == Fat32 ==> fs.g.ValidCluster(fs.g.dirbase))
    ensures t.Object? ==> Locate(fs.g, fs.fat, t.dir, t.n).At? && Locate(fs.g, fs.fat, t.dir, t.n).sect < |fs.img|
  {
    VolumeFacts(fs);
    Walk(fs.g, fs.img, fs.fat, 0, path, PathStart(path))
  }

  /** The path is empty: it stands for the root directory itself. */
  predicate RootPath(path: seq<Byte>) { CharAt(path, PathStart(path)) < 0x20 }

  /** What opening reports; a created file may find no room for its entry. */
  ghost predicate OpenResult(g: Geometry, img: Image, fat: seq<nat>, t: Target, m: Mode, dch: seq<nat>, res: FResult)
    requires 0 < g.csize && |fat| == g.maxClust && (g.fsType == Fat32 ==> g.ValidCluster(g.dirbase))
    requires t.Object? ==> Locate(g, fat, t.dir, t.n).At? && Locate(g, fat, t.dir, t.n).sect < |img|
  {
    match t
    case Failed(e) => res == e
    case Missing(_, _) => if Creating(m) then res == Ok || NoVacancy(g, img, dch, fat, res) else res == NoFile
    case Object(d, n, _) => res == ObjectResult(EntryOf(g, img, fat, d, n)[DIR_ATTR], m)
  }

  /** The root directory itself cannot be opened; a root that cannot be found is an internal error. */
  ghost predicate RootResult(g: Geometry, fat: seq<nat>, m: Mode, res: FResult)
  {
    && 0 < g.csize && |fat| == g.maxClust && (g.fsType == Fat32 ==> g.ValidCluster(g.dirbase))
    && res == if !Locate(g, fat, 0, 0).At? then IntErr
              else if !Creating(m) then NoFile else if m.createNew then Exist else Denied
  }

  /** What opening makes of volume and file object. */
  ghost predicate OpenedAs(fs: FATFS, img: Image, fat: seq<nat>, chains: set<seq<nat>>, t: Target, m: Mode, fp: FIL,
                           dch: seq<nat>, fch: seq<nat>, dch': seq<nat>, k: nat)
    requires 0 < fs.g.csize && |fat| == fs.g.maxClust && (fs.g.fsType == Fat32 ==> fs.g.ValidCluster(fs.g.dirbase))
    requires t.Object? ==> Locate(fs.g, fat, t.dir, t.n).At? && Locate(fs.g, fat, t.dir, t.n).sect < |img|
    reads fp, fs, fs.win, fp.fs, fp.fs.win
  {
    AtEntry(fs.g, dch', k, fp.dirSect, fp.dirPtr) && fp.Entered(dch') &&
    match t
    case Failed(_) => false
    case Missing(d, fn) =>
      && Creating(m) && |fn| == 12
      && IsDir(fs.g, fs.fat, fs.chains, d, dch') && ChainsMoved(chains, dch, fs.chains, dch')
      && CreatedIn(fs.g, img, fs.img, dch, dch', fn, k)
      && Fresh(fp, fs, m, View(fs.g, fs.img, dch')[k], [], true)
    case Object(d, n, _) =>
      if m.createAlways then
        && IsDir(fs.g, fs.fat, fs.chains, d, dch) && dch' == dch && k == n
        && Recreated(fs.g, img, fat, chains, fs.img, fs.fat, fs.chains, dch, n, fch)
        && Fresh(fp, fs, m, View(fs.g, fs.img, dch)[n], [], true)
      else
        && fs.img == img && fs.fat == fat && fs.chains == chains && dch' == dch && k == n
        && Fresh(fp, fs, m, EntryOf(fs.g, img, fat, d, n), fch, false)
  }

  /** The file object a caller gets: empty if the file was created or emptied, else with the file's chain; at the top. */
  ghost predicate Handed(fp: FIL, empty: bool, fch: seq<nat>, m: Mode)
    reads fp
  {
    && fp.fptr == 0 && fp.canRead == m.read && fp.canWrite == m.write && fp.written == empty
    && fp.chain == (if empty then [] else fch) && (empty ==> fp.fsize == 0)
  }

  lemma OpenHands(fs: FATFS, img: Image, fat: seq<nat>, chains: set<seq<nat>>, t: Target, m: Mode, fp: FIL,
                  dch: seq<nat>, fch: seq<nat>, dch': seq<nat>, k: nat)
    requires 0 < fs.g.csize && |fat| == fs.g.maxClust && (fs.g.fsType == Fat32 ==> fs.g.ValidCluster(fs.g.dirbase))
    requires t.Object? ==> Locate(fs.g, fat, t.dir, t.n).At? && Locate(fs.g, fat, t.dir, t.n).sect < |img|
    requires OpenedAs(fs, img, fat, chains, t, m, fp, dch, fch, dch', k)
    ensures Handed(fp, t.Missing? || m.createAlways, fch, m)
  {
    hide FATFS.Valid, FIL.Valid, FIL.Entered, AtEntry, Locate, EntryOf, View, IsDir, Registered, DirOwns, FileSize,
         StartCluster, EntryAt, DirFits, DirOnly;
  }

  /** Opens or creates a file. */
  method Open(fs: FATFS, path: seq<Byte>, m: Mode, time: nat, ghost dch: seq<nat>, ghost fch: seq<nat>)
    returns (res: FResult, fp: FIL?, ghost dch': seq<nat>, ghost k: nat)
    requires fs.Sound() && time < DWORD
    requires RootPath(path) || Known(fs.g, fs.img, fs.fat, fs.chains, Led(fs, path), dch, fch)
    modifies fs, fs.win
    ensures fs.Sound() && (old(fs.Counted()) ==> fs.Counted())
    ensures fs.Pending(old(fs.freeClust), old(fs.fsiFlag))
    ensures old(fs.Noted()) ==> fs.Noted()
    ensures (fp != null <==> res == Ok) && (fp != null ==> fresh(fp))
    ensures res != Ok ==> fs.img == old(fs.img) && fs.fat == old(fs.fat) && fs.chains == old(fs.chains)
    ensures RootPath(path) ==> RootResult(fs.g, old(fs.fat), m, res)
    ensures !RootPath(path) ==> OpenResult(fs.g, old(fs.img), old(fs.fat), old(Led(fs, path)), m, dch, res)
    ensures res == Ok ==> OpenedAs(fs, old(fs.img), old(fs.fat), old(fs.chains), old(Led(fs, path)), m, fp, dch, fch, dch', k)
    ensures res == Ok && !fp.written && fs.wflag ==> old(fs.wflag)
    ensures !RootPath(path) && old(Led(fs, path)).Object? ==>
      Answers(old(EntryOf(fs.g, fs.img, fs.fat, Led(fs, path).dir, Led(fs, path).n)[11]), m, res)
    ensures !RootPath(path) && old(Led(fs, path)).Missing? ==>
      if m.createAlways || m.openAlways || m.createNew
      then res == Ok || NoVacancy(fs.g, old(fs.img), dch, old(fs.fat), res) else res == NoFile
    ensures res == Ok ==> Handed(fp, old(Led(fs, path)).Missing? || m.createAlways, fch, m)
  {
    hide FATFS.Valid, Geometry.Sane, Volume, Locate, StartCluster, FileSize, View, DirSect, DirSectors, DirCount,
         DirOnly, DirFits, Geometry.FatEnd, OnVolume, FATFS.Counted, FATFS.Noted, IsDir, EntryChanged,
         FIL.Valid, FIL.Owns, FIL.Entered, Walk, PathStart, Recreated, Handed, Answers, NoVacancy, ChainsMoved, OwnedBy,
         AtEntry;
    var dj := new DIR(fs, 0);
    ghost var img0, fat0, chains0 := fs.img, fs.fat, fs.chains;
    ghost var t := Led(fs, path);
    var none: bool;
    VolumeFacts(fs);
    assert t == Walk(fs.g, fs.img, fs.fat, 0, path, PathStart(path));
    res, none := FollowPath(dj, path);
    fp, dch', k := null, dch, dj.index;
    if Creating(m) && res == NoFile {
      res, k, dch' := Create(dj, dch, time);
      if res != Ok { return; }
      fs.Facts();
      fp := new FIL.Open(fs, dj.dir, m.read, m.write, true, []);
      OpenOwns(fp);
      EntryIsEntered(fp, dj.sclust, dch', k);
      assert OpenedAs(fs, img0, fat0, chains0, t, m, fp, dch, fch, dch', k);
    } else if res != Ok {
      return;
    } else if none {
      res := if !Creating(m) then NoFile else if m.createNew then Exist else Denied;
    } else {
      res, fp := OpenObject(dj, m, time, dch, fch);
      ghost var attr := EntryOf(fs.g, img0, fat0, t.dir, t.n)[11];
      AnswersExactly(attr, m, res);
    }
    if res == Ok { OpenHands(fs, img0, fat0, chains0, t, m, fp, dch, fch, dch', k); }
  }
}
