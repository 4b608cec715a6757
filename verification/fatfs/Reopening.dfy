/** A file opened by its path, worked on, flushed, and opened by the same path after a fresh mount. */
module Reopening {
  import opened Bytes
  import opened Layout
  import opened LogicalDisk
  import opened Chains
  import opened FileView
  import opened FilePosition
  import opened FileSystem
  import opened DirEntry
  import opened DirTable
  import opened DirView
  import opened Directory
  import opened Names
  import opened Path
  import opened File
  import opened OpenFile
  import opened Creation
  import opened Session
  import opened Persistence

  // ---- directories a walk cannot tell apart ----

  /** The same name, both or none a volume label, and both or none the same directory. */
  ghost predicate Alike(e: Entry32, f: Entry32)
  {
    && f[..11] == e[..11] && HasAttr(f[DIR_ATTR], AM_VOL) == HasAttr(e[DIR_ATTR], AM_VOL)
    && HasAttr(f[DIR_ATTR], AM_DIR) == HasAttr(e[DIR_ATTR], AM_DIR)
    && (HasAttr(e[DIR_ATTR], AM_DIR) ==> StartCluster(f) == StartCluster(e))
  }

  ghost predicate AllAlike(es: seq<Entry32>, fs: seq<Entry32>)
  {
    |fs| == |es| && forall i :: 0 <= i < |es| ==> Alike(es[i], fs[i])
  }

  lemma {:induction false} LookupAlike(es: seq<Entry32>, fs: seq<Entry32>, name: seq<Byte>, i: nat)
    requires AllAlike(es, fs) && |name| >= 11
    ensures Lookup(fs, name, i) == Lookup(es, name, i)
    decreases |es| - i
  {
    hide HasAttr, StartCluster;
    if i < |es| {
      assert es[i][0] == es[i][..11][0] && fs[i][0] == fs[i][..11][0];
      LookupAlike(es, fs, name, i + 1);
    }
  }

  /** The volume kept every directory beside chain `c`, which became `c'`, up to what a walk sees. */
  ghost predicate DirsAlike(v: Vol, v': Vol, c: seq<nat>, c': seq<nat>)
  {
    && Usable(v) && Usable(v') && v'.g == v.g
    && forall sclust: nat, ch: seq<nat> :: Beside(v, c, sclust, ch) ==>
         Beside(v', c', sclust, ch) && AllAlike(EntriesOf(v, ch), EntriesOf(v', ch))
  }

  /** Such a volume leads every path to the same place. */
  lemma {:induction false} WalkAlike(v: Vol, v': Vol, c: seq<nat>, c': seq<nat>, sclust: nat, path: seq<Byte>, i: nat)
    requires DirsAlike(v, v', c, c') && i <= |path| && Way(v, c, sclust, path, i)
    ensures Walk(v.g, v'.img, v'.fat, sclust, path, i) == Walk(v.g, v.img, v.fat, sclust, path, i)
    ensures Way(v', c', sclust, path, i)
    decreases |path| - i
  {
    hide Fits, DirFits, Volume, IsDir, Fine, Status, ShortName, ScanFrom, EntryOf, StartCluster, HasAttr, Lookup,
         Alike, AllAlike;
    var ch :| Beside(v, c, sclust, ch);
    assert Beside(v', c', sclust, ch);
    var e := SegmentEnd(path, i);
    var seg := path[i..e];
    var end := CharAt(path, e);
    if seg != [] && Fine(seg) {
      var name := ShortName(seg) + [Status(seg, end)];
      ScanAlike(v, v', c, c', sclust, ch, name);
      var r := ScanFrom(v.g, v.img, v.fat, sclust, name, 0);
      if r.Hit? {
        var entry := EntryOf(v.g, v.img, v.fat, sclust, r.n);
        AlikeDirs(entry, EntryOf(v.g, v'.img, v'.fat, sclust, r.n));
        if end > 0x20 && HasAttr(entry[DIR_ATTR], AM_DIR) {
          WalkAlike(v, v', c, c', StartCluster(entry), path, e + 1);
        }
      }
    }
  }

  lemma AlikeDirs(e: Entry32, f: Entry32)
    requires Alike(e, f)
    ensures HasAttr(f[DIR_ATTR], AM_DIR) == HasAttr(e[DIR_ATTR], AM_DIR)
    ensures HasAttr(e[DIR_ATTR], AM_DIR) ==> StartCluster(f) == StartCluster(e)
  {
  }

  lemma ScanAlike(v: Vol, v': Vol, c: seq<nat>, c': seq<nat>, sclust: nat, ch: seq<nat>, name: seq<Byte>)
    requires DirsAlike(v, v', c, c') && Beside(v, c, sclust, ch) && |name| >= 11
    ensures var r := ScanFrom(v.g, v.img, v.fat, sclust, name, 0);
      && ScanFrom(v.g, v'.img, v'.fat, sclust, name, 0) == r
      && (r.Hit? ==> Alike(EntryOf(v.g, v.img, v.fat, sclust, r.n), EntryOf(v.g, v'.img, v'.fat, sclust, r.n)))
  {
    hide Fits, DirFits, Volume, IsDir, ScanFrom, EntryOf, Alike, Lookup, DirCount;
    assert Beside(v', c', sclust, ch);
    ScanIsLookup(v, sclust, ch, name);
    ScanIsLookup(v', sclust, ch, name);
    LookupAlike(EntriesOf(v, ch), EntriesOf(v', ch), name, 0);
  }

  // ---- what work on a file leaves of the directories ----

  lemma SameAlike(e: Entry32)
    ensures Alike(e, e)
  {
  }

  /** A flushed entry, and its neighbours. */
  lemma EntryAlike(s: Sector, r: Sector, o: nat, p: nat)
    requires o + ENTRY_SIZE <= 512 && EntryKept(s, r, o) && !HasAttr(s[o + DIR_ATTR], AM_DIR)
    requires p + ENTRY_SIZE <= 512 && o % 32 == 0 && p % 32 == 0
    ensures Alike(EntryAt(s, p), EntryAt(r, p))
  {
    hide HasAttr, StartCluster;
    var e, f := EntryAt(s, p), EntryAt(r, p);
    if p == o {
      assert f[..11] == e[..11];
    } else {
      assert p + 32 <= o || o + 32 <= p;
      assert f == e;
    }
  }

  /** A sector of another directory is as before, or is the one with the file's entry. */
  lemma DirSectorKept(v: Vol, v': Vol, c: seq<nat>, c': seq<nat>, ds: nat, o: nat, sclust: nat, ch: seq<nat>, s: nat)
    requires Usable(v) && Usable(v') && v'.g == v.g && Moved(v.g, v.img, v.chains, c, v'.img, v'.chains, c', ds, o)
    requires Beside(v, c, sclust, ch) && s < DirSectors(v.g, ch) && (c' == [] || c' in v'.chains)
    ensures var x := DirSect(v.g, ch, s); x < |v.img| == |v'.img| && (x == ds || v'.img[x] == v.img[x])
  {
    hide Volume, OwnSector, ChainsMoved, EntryKept, DirSect, IsChain, DirSectors, Geometry.FatEnd;
    var x := DirSect(v.g, ch, s);
    assert v.g.FatEnd() <= x < |v.img|;
    DirHolds(v, sclust, ch);
    if ch != [] { OthersStay(v.chains, c, v'.fat, v'.chains, c', ch); }
    if c' != [] { NotDirOwns(v.g, v.img, ch, c', s); }
    FsiFirst(v);
    NoneOwned(v.g, x);
  }

  lemma NoneOwned(g: Geometry, s: nat)
    ensures !OwnSector(g, [], s)
  {
  }

  lemma FsiFirst(v: Vol)
    requires Usable(v)
    ensures v.g.fsType == Fat32 ==> v.g.fsiSector < v.g.FatEnd()
  {
    hide Volume;
  }

  /** A file of chain `c` with its entry at offset `o` of sector `ds`, where entries lie in a raster of 32. */
  ghost predicate FileEntry(v: Vol, c: seq<nat>, ds: nat, o: nat)
  {
    && (c == [] || c in v.chains) && ds < |v.img| && o + ENTRY_SIZE <= 512 && o % 32 == 0
    && !HasAttr(v.img[ds][o + DIR_ATTR], AM_DIR)
  }

  lemma MovedDir(v: Vol, v': Vol, c: seq<nat>, c': seq<nat>, ds: nat, o: nat, sclust: nat, ch: seq<nat>)
    requires Usable(v) && Usable(v') && v'.g == v.g && Moved(v.g, v.img, v.chains, c, v'.img, v'.chains, c', ds, o)
    requires FileEntry(v, c, ds, o) && Beside(v, c, sclust, ch) && (c' == [] || c' in v'.chains)
    ensures Beside(v', c', sclust, ch) && AllAlike(EntriesOf(v, ch), EntriesOf(v', ch))
  {
    hide OwnSector, EntryKept, DirSect, IsChain, DirSectors, Geometry.FatEnd, HasAttr, Touched, Alike, Fits, Disjoint;
    if ch != [] { OthersStay(v.chains, c, v'.fat, v'.chains, c', ch); }
    assert Dir(v', sclust, ch);
    DirHolds(v', sclust, ch);
    hide Volume;
    var es, es' := EntriesOf(v, ch), EntriesOf(v', ch);
    forall i | 0 <= i < |es|
      ensures Alike(es[i], es'[i])
    {
      MovedEntry(v, v', c, c', ds, o, sclust, ch, i);
    }
  }

  lemma MovedEntry(v: Vol, v': Vol, c: seq<nat>, c': seq<nat>, ds: nat, o: nat, sclust: nat, ch: seq<nat>, i: nat)
    requires Usable(v) && Usable(v') && v'.g == v.g && Moved(v.g, v.img, v.chains, c, v'.img, v'.chains, c', ds, o)
    requires FileEntry(v, c, ds, o) && Beside(v, c, sclust, ch) && (c' == [] || c' in v'.chains)
    requires DirFits(v'.g, v'.img, ch) && i < DirCount(v.g, ch)
    ensures Alike(EntriesOf(v, ch)[i], EntriesOf(v', ch)[i])
  {
    hide OwnSector, EntryKept, DirSect, IsChain, DirSectors, Geometry.FatEnd, HasAttr, Touched, Alike, Fits, Disjoint,
         Volume, ChainsMoved, IsDir, EntryAt;
    DirSectorKept(v, v', c, c', ds, o, sclust, ch, i / 16);
    var x := DirSect(v.g, ch, i / 16);
    if x == ds {
      EntryAlike(v.img[ds], v'.img[ds], o, i % 16 * 32);
    } else {
      SameAlike(EntryAt(v.img[x], i % 16 * 32));
    }
  }

  /** Work on a file leaves every path to the same place. */
  lemma MovedAlike(v: Vol, v': Vol, c: seq<nat>, c': seq<nat>, ds: nat, o: nat)
    requires Usable(v) && Usable(v') && v'.g == v.g && Moved(v.g, v.img, v.chains, c, v'.img, v'.chains, c', ds, o)
    requires FileEntry(v, c, ds, o) && (c' == [] || c' in v'.chains)
    ensures DirsAlike(v, v', c, c')
  {
    hide Usable, Moved, FileEntry, Dir, DirFits, AllAlike;
    forall sclust: nat, ch: seq<nat> | Beside(v, c, sclust, ch)
      ensures Beside(v', c', sclust, ch) && AllAlike(EntriesOf(v, ch), EntriesOf(v', ch))
    {
      MovedDir(v, v', c, c', ds, o, sclust, ch);
    }
  }

  /** The file at entry `k` of directory `d`, with the chain `fch`, was emptied. */
  ghost predicate EmptiedFile(v: Vol, v': Vol, d: nat, dch: seq<nat>, k: nat, fch: seq<nat>)
  {
    && Usable(v) && Usable(v') && v'.g == v.g && Dir(v, d, dch) && (fch == [] || fch != dch)
    && Recreated(v.g, v.img, v.fat, v.chains, v'.img, v'.fat, v'.chains, dch, k, fch)
    && var attr := EntriesOf(v, dch)[k][DIR_ATTR]; !HasAttr(attr, AM_VOL) && !HasAttr(attr, AM_DIR)
  }

  lemma EmptiedDir(v: Vol, v': Vol, d: nat, dch: seq<nat>, k: nat, fch: seq<nat>, sclust: nat, ch: seq<nat>)
    requires EmptiedFile(v, v', d, dch, k, fch) && Beside(v, fch, sclust, ch)
    ensures Beside(v', [], sclust, ch) && AllAlike(EntriesOf(v, ch), EntriesOf(v', ch))
  {
    hide IsChain, Fits, DirSectors, DirSect, DirFits, StartCluster, FileSize, DirCount, View, Geometry.FatEnd, DirOnly,
         OwnSector;
    if ch != [] { NoEmptyChain(v.fat, v.chains); }
    assert Dir(v', sclust, ch);
    DirHolds(v', sclust, ch);
    hide Volume;
    var es, es' := EntriesOf(v, ch), EntriesOf(v', ch);
    if ch == dch {
      assert es' == es[k := es'[k]];
      assert Alike(es[k], es'[k]);
    } else {
      EmptiedElsewhere(v, v', d, dch, k, fch, sclust, ch);
    }
    forall i | 0 <= i < |es|
      ensures Alike(es[i], es'[i])
    {
      SameAlike(es[i]);
    }
  }

  lemma EmptiedElsewhere(v: Vol, v': Vol, d: nat, dch: seq<nat>, k: nat, fch: seq<nat>, sclust: nat, ch: seq<nat>)
    requires EmptiedFile(v, v', d, dch, k, fch) && Beside(v, fch, sclust, ch) && ch != dch && DirFits(v'.g, v'.img, ch)
    ensures EntriesOf(v', ch) == EntriesOf(v, ch)
  {
    hide IsChain, Fits, DirSectors, DirSect, StartCluster, FileSize, DirCount, View, Geometry.FatEnd, DirOwns, OwnSector,
         Pristine;
    DirHolds(v, sclust, ch);
    assert Disjoint(ch, dch);
    hide Volume, Disjoint;
    forall s | 0 <= s < DirSectors(v.g, ch)
      ensures 0 <= DirSect(v.g, ch, s) < |v.img| && v'.img[DirSect(v.g, ch, s)] == v.img[DirSect(v.g, ch, s)]
    {
      NotDirOwns(v.g, v.img, ch, dch, s);
    }
    SameEntries(v.g, v.img, v'.img, ch);
  }

  /** Emptying a file leaves every path to the same place. */
  lemma EmptiedAlike(v: Vol, v': Vol, d: nat, dch: seq<nat>, k: nat, fch: seq<nat>)
    requires EmptiedFile(v, v', d, dch, k, fch)
    ensures DirsAlike(v, v', fch, [])
  {
    hide Dir, DirFits, AllAlike, Recreated, HasAttr;
    forall sclust: nat, ch: seq<nat> | Beside(v, fch, sclust, ch)
      ensures Beside(v', [], sclust, ch) && AllAlike(EntriesOf(v, ch), EntriesOf(v', ch))
    {
      EmptiedDir(v, v', d, dch, k, fch, sclust, ch);
    }
  }

  // ---- where opening leaves a path ----

  /** A walk that may pass no directory of chain `c` may pass any. */
  lemma {:induction false} WayAny(v: Vol, c: seq<nat>, sclust: nat, path: seq<Byte>, i: nat)
    requires Usable(v) && i <= |path| && Way(v, c, sclust, path, i)
    ensures Way(v, [], sclust, path, i)
    decreases |path| - i
  {
    hide Usable, DirFits, Dir, Fine, Status, ShortName, ScanFrom, EntryOf, StartCluster, HasAttr;
    var ch :| Beside(v, c, sclust, ch);
    assert Beside(v, [], sclust, ch);
    UsableParts(v);
    var e := SegmentEnd(path, i);
    var seg := path[i..e];
    var end := CharAt(path, e);
    if seg != [] && Fine(seg) && end > 0x20 {
      var r := ScanFrom(v.g, v.img, v.fat, sclust, ShortName(seg) + [Status(seg, end)], 0);
      if r.Hit? {
        var entry := EntryOf(v.g, v.img, v.fat, sclust, r.n);
        if HasAttr(entry[DIR_ATTR], AM_DIR) { WayAny(v, c, StartCluster(entry), path, e + 1); }
      }
    }
  }

  lemma UsableParts(v: Vol)
    requires Usable(v)
    ensures 0 < v.g.csize && |v.fat| == v.g.maxClust && (v.g.fsType == Fat32 ==> v.g.ValidCluster(v.g.dirbase))
  {
    hide Fits, Volume;
  }

  /** A path leads to no volume label. */
  lemma {:induction false} WalkNoLabel(v: Vol, sclust: nat, path: seq<Byte>, i: nat)
    requires Usable(v) && i <= |path|
    ensures var t := Walk(v.g, v.img, v.fat, sclust, path, i);
      t.Object? ==> !HasAttr(EntryOf(v.g, v.img, v.fat, t.dir, t.n)[DIR_ATTR], AM_VOL)
    decreases |path| - i
  {
    hide Fits, Volume, Fine, Status, ShortName, EntryOf, StartCluster, HasAttr, ScanFrom;
    var e := SegmentEnd(path, i);
    var seg := path[i..e];
    var end := CharAt(path, e);
    if seg != [] && Fine(seg) {
      var name := ShortName(seg) + [Status(seg, end)];
      HitNoLabel(v, sclust, name, 0);
      var r := ScanFrom(v.g, v.img, v.fat, sclust, name, 0);
      if r.Hit? && end > 0x20 {
        var entry := EntryOf(v.g, v.img, v.fat, sclust, r.n);
        if HasAttr(entry[DIR_ATTR], AM_DIR) { WalkNoLabel(v, StartCluster(entry), path, e + 1); }
      }
    }
  }

  lemma {:induction false} HitNoLabel(v: Vol, sclust: nat, name: seq<Byte>, n: nat)
    requires Usable(v) && |name| >= 11
    ensures var r := ScanFrom(v.g, v.img, v.fat, sclust, name, n);
      r.Hit? ==> !HasAttr(EntryOf(v.g, v.img, v.fat, sclust, r.n)[DIR_ATTR], AM_VOL)
    decreases MAX_INDEX - n
  {
    hide Fits, Volume, Locate, EntryOf, HasAttr;
    if n < MAX_INDEX { HitNoLabel(v, sclust, name, n + 1); }
  }

  /** An entry's sector and offset are where its index leads. */
  lemma EntryPlace(v: Vol, d: nat, ch: seq<nat>, k: nat, ds: nat, o: nat)
    requires Usable(v) && Dir(v, d, ch) && AtEntry(v.g, ch, k, ds, o) && ds < |v.img|
    ensures Locate(v.g, v.fat, d, k).At? && Locate(v.g, v.fat, d, k).sect == ds && o % 32 == 0 && o + ENTRY_SIZE <= 512
    ensures EntryOf(v.g, v.img, v.fat, d, k) == EntryAt(v.img[ds], o)
  {
    hide Volume, Fits, Locate;
    LocateInDir(v.g, v.fat, v.chains, d, ch, k);
  }

  /** The path leads to entry `k` of directory `d`, which belongs to a file of chain `c`. */
  ghost predicate Leads(v: Vol, path: seq<Byte>, d: nat, k: nat, dch: seq<nat>, c: seq<nat>, ds: nat, o: nat)
  {
    && Usable(v) && Dir(v, d, dch) && (c == [] || c != dch) && AtEntry(v.g, dch, k, ds, o) && FileEntry(v, c, ds, o)
    && Way(v, c, 0, path, PathStart(path))
    && var t := Walk(v.g, v.img, v.fat, 0, path, PathStart(path)); t.Object? && t.dir == d && t.n == k
  }

  /** `path` was opened on the volume as it was at `v`. */
  ghost predicate OpenedBy(fs: FATFS, v: Vol, path: seq<Byte>, m: Mode, fp: FIL, dch: seq<nat>, fch: seq<nat>,
                           dch': seq<nat>, k: nat)
    reads fp, fs, fs.win, fp.fs, fp.fs.win
  {
    && Usable(v) && v.g == fs.g && |fs.fat| == fs.g.maxClust && Way(v, fch, 0, path, PathStart(path))
    && var t := TargetOf(v, path);
      && Known(v.g, v.img, v.fat, v.chains, t, dch, fch) && OpenResult(v.g, v.img, v.fat, t, m, dch, Ok)
      && OpenedAs(fs, v.img, v.fat, v.chains, t, m, fp, dch, fch, dch', k)
  }

  /** A path that led to no object leads to the created file. */
  lemma CreatedLeads(fs: FATFS, v: Vol, path: seq<Byte>, m: Mode, fp: FIL, dch: seq<nat>, fch: seq<nat>, dch': seq<nat>, k: nat)
    requires fs.Sound() && Usable(VolOf(fs)) && OpenedBy(fs, v, path, m, fp, dch, fch, dch', k) && TargetOf(v, path).Missing?
    ensures Leads(VolOf(fs), path, TargetOf(v, path).dir, k, dch', fp.chain, fp.dirSect, fp.dirPtr)
  {
    hide FATFS.Valid, Volume, Fits, Walk, Way, PathStart, FIL.Valid, DirFits, FileSize, View, EntryOf, Locate, IsDir,
         StartCluster, ScanFrom, Usable, AtEntry, NoVacancy, DirOwns, Lookup, CreatedIn, ChainsMoved;
    var t, w, i := TargetOf(v, path), VolOf(fs), PathStart(path);
    UsableParts(v);
    WayAny(v, fch, 0, path, i);
    DirHolds(v, t.dir, dch);
    MissingIsAbsent(v, 0, path, i, t.dir, dch, t.fn);
    WalkNames(v, 0, path, i);
    CreatedIsFound(v, w, t.dir, dch, dch', t.fn, k, 0, path, i);
    CreatedIsKnown(v, w, t.dir, dch, dch', t.fn, k);
    EntryPlace(w, t.dir, dch', k, fp.dirSect, fp.dirPtr);
    EntryAttr(w.img[fp.dirSect], fp.dirPtr);
  }

  lemma EntryAttr(s: Sector, o: nat)
    requires o + ENTRY_SIZE <= 512
    ensures EntryAt(s, o)[DIR_ATTR] == s[o + DIR_ATTR] && !HasAttr(0, AM_DIR)
  {
  }

  /** A path that led to an object leads to it still when that was emptied. */
  lemma EmptiedLeads(fs: FATFS, v: Vol, path: seq<Byte>, m: Mode, fp: FIL, dch: seq<nat>, fch: seq<nat>, dch': seq<nat>, k: nat)
    requires fs.Sound() && Usable(VolOf(fs)) && OpenedBy(fs, v, path, m, fp, dch, fch, dch', k)
    requires TargetOf(v, path).Object? && m.createAlways
    ensures Leads(VolOf(fs), path, TargetOf(v, path).dir, k, dch', fp.chain, fp.dirSect, fp.dirPtr)
  {
    hide FATFS.Valid, Volume, Fits, Walk, Way, PathStart, FIL.Valid, DirFits, FileSize, View, EntryOf, Locate, IsDir,
         StartCluster, ScanFrom, Usable, AtEntry, NoVacancy, DirOwns, Lookup, ChainsMoved, HasAttr, EntryAt, DirOnly;
    var t, w, i := TargetOf(v, path), VolOf(fs), PathStart(path);
    UsableParts(v);
    WalkNoLabel(v, 0, path, i);
    EntryHere(v, t.dir, dch, k);
    EmptiedAlike(v, w, t.dir, dch, k, fch);
    WalkAlike(v, w, fch, [], 0, path, i);
    EntryPlace(w, t.dir, dch', k, fp.dirSect, fp.dirPtr);
    EntryAttr(w.img[fp.dirSect], fp.dirPtr);
  }

  /** A path that led to a file leads to it when that is opened as it is. */
  lemma FoundLeads(fs: FATFS, v: Vol, path: seq<Byte>, m: Mode, fp: FIL, dch: seq<nat>, fch: seq<nat>, dch': seq<nat>, k: nat)
    requires fs.Sound() && Usable(VolOf(fs)) && OpenedBy(fs, v, path, m, fp, dch, fch, dch', k)
    requires TargetOf(v, path).Object? && !m.createAlways
    ensures Leads(VolOf(fs), path, TargetOf(v, path).dir, k, dch', fp.chain, fp.dirSect, fp.dirPtr)
  {
    hide FATFS.Valid, Volume, Fits, Walk, Way, PathStart, FIL.Valid, DirFits, FileSize, View, EntryOf, Locate, IsDir,
         StartCluster, ScanFrom, Usable, AtEntry, NoVacancy, DirOwns, Lookup, ChainsMoved, HasAttr, EntryAt;
    var t, w := TargetOf(v, path), VolOf(fs);
    EntryPlace(w, t.dir, dch', k, fp.dirSect, fp.dirPtr);
    EntryAttr(w.img[fp.dirSect], fp.dirPtr);
  }

  /** After opening, the path leads to the opened file. */
  lemma OpenedLeads(fs: FATFS, v: Vol, path: seq<Byte>, m: Mode, fp: FIL, dch: seq<nat>, fch: seq<nat>, dch': seq<nat>, k: nat)
    requires fs.Sound() && Usable(VolOf(fs)) && OpenedBy(fs, v, path, m, fp, dch, fch, dch', k)
    ensures !TargetOf(v, path).Failed?
    ensures Leads(VolOf(fs), path, TargetOf(v, path).dir, k, dch', fp.chain, fp.dirSect, fp.dirPtr)
  {
    hide FATFS.Valid, Volume, Fits, Walk, Way, FIL.Valid, Usable, AtEntry, Known, OpenResult, Fresh, Leads, TargetOf, Recreated,
         CreatedIn;
    if TargetOf(v, path).Missing? {
      CreatedLeads(fs, v, path, m, fp, dch, fch, dch', k);
    } else if m.createAlways {
      EmptiedLeads(fs, v, path, m, fp, dch, fch, dch', k);
    } else {
      FoundLeads(fs, v, path, m, fp, dch, fch, dch', k);
    }
  }

  /** After work on the file, the path still leads to it. */
  lemma StillLeads(v: Vol, v': Vol, path: seq<Byte>, d: nat, k: nat, dch: seq<nat>, c: seq<nat>, c': seq<nat>, ds: nat, o: nat)
    requires Leads(v, path, d, k, dch, c, ds, o) && Usable(v') && v'.g == v.g && (c' == [] || c' in v'.chains)
    requires Moved(v.g, v.img, v.chains, c, v'.img, v'.chains, c', ds, o)
    ensures Leads(v', path, d, k, dch, c', ds, o)
  {
    hide Volume, Fits, Walk, Way, DirFits, Usable, AtEntry, ChainsMoved, HasAttr, AllAlike, Dir, OwnSector;
    UsableParts(v);
    DirHolds(v, d, dch);
    assert Beside(v, c, d, dch);
    MovedAlike(v, v', c, c', ds, o);
    WalkAlike(v, v', c, c', 0, path, PathStart(path));
    assert Beside(v', c', d, dch);
  }

  /** The file the path leads to is the volume's, if its entry says so. */
  lemma LedIsKnown(v: Vol, path: seq<Byte>, d: nat, k: nat, dch: seq<nat>, c: seq<nat>, ds: nat, o: nat)
    requires Leads(v, path, d, k, dch, c, ds, o) && OwnedBy(v.g, v.chains, EntryAt(v.img[ds], o), c)
    ensures Known(v.g, v.img, v.fat, v.chains, TargetOf(v, path), dch, c)
    ensures EntryOf(v.g, v.img, v.fat, d, k) == EntryAt(v.img[ds], o) && !HasAttr(EntryAt(v.img[ds], o)[DIR_ATTR], AM_DIR)
  {
    hide Volume, Fits, Walk, Way, DirFits, AtEntry, Locate, EntryOf, EntryAt, OwnedBy, HasAttr;
    EntryPlace(v, d, dch, k, ds, o);
    EntryAttr(v.img[ds], o);
  }

  // ---- end to end ----

  /** A file just opened: as it was, or empty. */
  ghost predicate StartsWith(v: Vol, path: seq<Byte>, m: Mode, fch: seq<nat>, first: Plain)
    requires Usable(v)
  {
    var t := TargetOf(v, path);
    first.pos == 0 &&
    if t.Object? && !m.createAlways then
      var size := FileSize(EntryOf(v.g, v.img, v.fat, t.dir, t.n));
      && OnVolume(v.g, v.img, fch) && size <= 512 * Sectors(v.g, fch)
      && first.content == Content(v.g, v.img, fch, 0, size) && first.clusters == |fch|
    else first.content == [] && first.clusters == 0
  }

  lemma OpenedStarts(fs: FATFS, v: Vol, path: seq<Byte>, m: Mode, fp: FIL, dch: seq<nat>, fch: seq<nat>, dch': seq<nat>, k: nat)
    requires fs.Sound() && OpenedBy(fs, v, path, m, fp, dch, fch, dch', k)
    ensures fp.fs == fs && fp.Valid() && fp.Entered(dch') && !fp.error && AccessOf(fp) == Access(m.read, m.write)
    ensures fp.written == (TargetOf(v, path).Missing? || m.createAlways) && fp.Recorded()
    ensures StartsWith(v, path, m, fch, PlainOf(fp))
  {
    hide FATFS.Valid, Volume, Fits, Walk, Way, DirFits, AtEntry, Locate, EntryOf, StartCluster, IsDir, Content, OnVolume,
         Usable, EntryAt, View, Placed, DirOwns;
    fp.OwnsFacts();
  }

  lemma OpenedBoots(fs: FATFS, v: Vol, path: seq<Byte>, m: Mode, fp: FIL, dch: seq<nat>, fch: seq<nat>, dch': seq<nat>, k: nat,
                    bsect: nat)
    requires fs.Sound() && OpenedBy(fs, v, path, m, fp, dch, fch, dch', k) && Boots(v.g, v.img, bsect)
    ensures BootedFrom(fs, bsect)
  {
    hide FATFS.Valid, Volume, Fits, Walk, Way, DirFits, AtEntry, Locate, EntryOf, StartCluster, IsDir, Content, OnVolume,
         Usable, EntryAt, View, Placed, DirOwns, Boots, FIL.Valid, FIL.Entered, DirOnly;
    fs.Facts();
    if DirOnly(fs.g, v.img, fs.img, dch') { BootBesideDir(fs, v.img, bsect, dch'); }
  }

  /** The file as the remounted volume gives it back. */
  method OpenAgain(fs: FATFS, path: seq<Byte>, time: nat, ghost d: nat, ghost k: nat, ghost dch: seq<nat>, ghost c: seq<nat>,
                   ghost ds: nat, ghost o: nat)
    returns (res: FResult, fp: FIL?)
    requires fs.Sound() && time < DWORD && !RootPath(path) && Leads(VolOf(fs), path, d, k, dch, c, ds, o)
    requires OwnedBy(fs.g, fs.chains, EntryAt(fs.img[ds], o), c)
    modifies fs, fs.win
    ensures res == Ok && fp != null && fresh(fp) && fp.Valid() && fp.fs == fs && fp.chain == c && fp.fptr == 0 && !fp.error
    ensures fs.img == old(fs.img) && fp.fsize == FileSize(EntryAt(old(fs.img)[ds], o))
  {
    hide FATFS.Valid, Volume, Walk, Way, IsDir, FIL.Valid, DirFits, FileSize, StartCluster, AtEntry, Usable,
         Geometry.Sane, Geometry.FatEnd, Lookup, EntryOf, Locate, DirSect, DirSectors, EntryAt;
    LedIsKnown(VolOf(fs), path, d, k, dch, c, ds, o);
    ghost var dch', k';
    res, fp, dch', k' := Open(fs, path, Mode(true, false, false, false, false), time, dch, c);
  }

  /** The clusters a file may have after opening: what is free, its own old ones if it was there, and less what a
      directory took that was stretched for it. */
  lemma OpenedReach(fs: FATFS, v: Vol, path: seq<Byte>, m: Mode, fp: FIL, dch: seq<nat>, fch: seq<nat>, dch': seq<nat>, k: nat)
    requires fs.Sound() && OpenedBy(fs, v, path, m, fp, dch, fch, dch', k)
    ensures ReachOf(fp) + |dch'| == FreeCount(v.fat) + |dch| + if TargetOf(v, path).Object? then |fch| else 0
  {
    hide FATFS.Valid, Fits, Walk, Way, DirFits, AtEntry, Locate, EntryOf, Content, OnVolume, View, HasAttr,
         EntryAt, Placed, DirOwns, FIL.Valid, FIL.Entered, DirOnly, CreatedIn, EntryChanged, IsChain, FreeCount, Pristine;
    fs.Facts();
    var t := TargetOf(v, path);
    if t.Missing? {
      hide Volume;
      GrowthConserves(v.fat, v.chains, dch, fs.fat, fs.chains, dch');
    } else if m.createAlways && fch != [] {
      ChainFreed(v.fat, v.chains, fch, fs.fat);
    } else if m.createAlways {
      assert fs.fat == v.fat;
    }
  }

  lemma ChainFreed(fat: seq<nat>, chains: set<seq<nat>>, ch: seq<nat>, fat': seq<nat>)
    requires Volume(fat, chains) && ch in chains && |fat'| == |fat|
    requires forall c :: 0 <= c < |fat| ==> fat'[c] == if On(ch, c) then 0 else fat[c]
    ensures FreeCount(fat') == FreeCount(fat) + |ch|
  {
    VolumeUsed(fat, chains);
    assert IsChain(fat, ch);
    forall c | c in ch
      ensures InTable(fat, c) && fat'[c] == 0 && fat[c] != 0
    {
      assert On(ch, c);
    }
    FewerFree(fat', fat, ch);
  }

  lemma FileIs(fp: FIL)
    requires fp.Valid()
    ensures fp.Owns() && fp.fs.Sound() && (fp.chain == [] || fp.chain in fp.fs.chains)
    ensures fp.orgClust == (if fp.chain == [] then 0 else fp.chain[0]) && fp.fsize <= 512 * Sectors(fp.fs.g, fp.chain)
  {
    hide FATFS.Valid, Volume, Sectors, Placed;
  }

  /** Opens `path`, runs `ops` on the file, flushes it, mounts the disk afresh and opens `path` again. If flushing
      leaves nothing to be written back, the path leads to the bytes the run ended with. That is so when the file was
      created or emptied, when nothing was to be written back before, and when the run wrote or made the file longer. */
  method RoundTrip(fs: FATFS, path: seq<Byte>, m: Mode, ops: seq<Op>, bsect: nat, time: nat, hint: nat,
                   ghost dch: seq<nat>, ghost fch: seq<nat>)
    returns (res: FResult, replies: seq<Reply>, saved: bool, res2: FResult, fp2: FIL?, ghost states: seq<Plain>,
             ghost reach: nat, ghost dch': seq<nat>)
    requires fs.Sound() && time < DWORD && hint < DWORD && !RootPath(path) && BootedFrom(fs, bsect)
    requires Known(fs.g, fs.img, fs.fat, fs.chains, Led(fs, path), dch, fch)
    requires Usable(VolOf(fs)) && Way(VolOf(fs), fch, 0, path, PathStart(path))
    requires forall i :: 0 <= i < |ops| ==> InRange(ops[i])
    modifies fs, fs.win
    ensures fs.Sound() && OpenResult(fs.g, old(fs.img), old(fs.fat), old(Led(fs, path)), m, dch, res)
    ensures res == Ok ==>
      && Runs(states, ops, replies, Access(m.read, m.write), UnitOf(fs), Alone(|ops|, reach))
      && reach + |dch'| == FreeCount(old(fs.fat)) + |dch| + (if old(Led(fs, path)).Object? then |fch| else 0)
      && reach == states[|ops|].clusters + FreeCount(fs.fat)
      && StartsWith(old(VolOf(fs)), path, m, fch, states[0])
    ensures res == Ok && (old(Led(fs, path)).Missing? || m.createAlways || !old(fs.wflag) || Wrote(ops, m.write)) ==> saved
    ensures res == Ok && |states[|ops|].content| > |states[0].content| ==> saved
    ensures res == Ok && saved ==>
      && res2 == Ok && fp2 != null && fresh(fp2) && fresh(fp2.fs) && fp2.Valid() && fp2.fs.img == fs.disk
      && PlainOf(fp2) == states[|ops|].(pos := 0)
  {
    hide FATFS.Valid, Volume, Walk, Way, IsDir, FIL.Valid, DirFits, FileSize, StartCluster, AtEntry, Usable, FIL.Owns,
         Geometry.Sane, Geometry.FatEnd, Lookup, EntryOf, Locate, DirSect, DirSectors, EntryAt, Known, OpenResult,
         OpenedAs, Leads, StartsWith, FIL.Entered, FIL.Recorded, Does, Boots, FATFS.Counted, FATFS.Noted, Moved, FreeCount;
    ghost var v, t, k := VolOf(fs), Led(fs, path), 0;
    assert t == TargetOf(v, path);
    var fp;
    saved, res2, fp2, replies, states, reach := false, Ok, null, [], [Plain([], 0, 0)], 0;
    res, fp, dch', k := Open(fs, path, m, time, dch, fch);
    if res == Ok {
      VolumeFacts(fs);
      assert OpenedBy(fs, v, path, m, fp, dch, fch, dch', k);
      OpenedStarts(fs, v, path, m, fp, dch, fch, dch', k);
      OpenedReach(fs, v, path, m, fp, dch, fch, dch', k);
      reach := ReachOf(fp);
      saved, res2, fp2, replies, states := WorkAndReopen(fs, v, path, m, fp, ops, bsect, time, hint, dch, fch, dch', k);
    }
  }

  /** The part behind the opening. */
  method WorkAndReopen(fs: FATFS, ghost v: Vol, path: seq<Byte>, ghost m: Mode, fp: FIL, ops: seq<Op>, bsect: nat, time: nat,
                       hint: nat, ghost dch: seq<nat>, ghost fch: seq<nat>, ghost dch': seq<nat>, ghost k: nat)
    returns (saved: bool, res2: FResult, fp2: FIL?, replies: seq<Reply>, ghost states: seq<Plain>)
    requires fs.Sound() && time < DWORD && hint < DWORD && !RootPath(path) && Boots(v.g, v.img, bsect)
    requires Usable(v) && OpenedBy(fs, v, path, m, fp, dch, fch, dch', k) && fp.fs == fs
    requires forall i :: 0 <= i < |ops| ==> InRange(ops[i])
    modifies fp, fs, fs.win
    ensures fs.Sound()
    ensures Runs(states, ops, replies, Access(m.read, m.write), UnitOf(fs), Alone(|ops|, old(ReachOf(fp))))
    ensures states[|ops|].clusters + FreeCount(fs.fat) == old(ReachOf(fp))
    ensures StartsWith(v, path, m, fch, states[0])
    ensures old(fp.Settled()) || Wrote(ops, m.write) || |states[|ops|].content| > |states[0].content| ==> saved
    ensures saved ==>
      && res2 == Ok && fp2 != null && fresh(fp2) && fresh(fp2.fs) && fp2.Valid() && fp2.fs.img == fs.disk
      && PlainOf(fp2) == states[|ops|].(pos := 0)
  {
    hide FATFS.Valid, Volume, Walk, Way, IsDir, FIL.Valid, DirFits, FileSize, StartCluster, AtEntry, Usable, FIL.Owns,
         Geometry.Sane, Geometry.FatEnd, Lookup, EntryOf, Locate, DirSect, DirSectors, EntryAt, Known, OpenResult,
         OpenedAs, Leads, StartsWith, FIL.Entered, FIL.Recorded, Does, Boots, FATFS.Counted, FATFS.Noted, OpenedBy,
         Touched, EntryKept, ChainsMoved, DirOwns, OnVolume, Content, Sectors, FreeCount;
    OpenedStarts(fs, v, path, m, fp, dch, fch, dch', k);
    FileIs(fp);
    OpenedBoots(fs, v, path, m, fp, dch, fch, dch', k, bsect);
    SoundIsUsable(fs);
    OpenedLeads(fs, v, path, m, fp, dch, fch, dch', k);
    ghost var w, c, d := VolOf(fs), fp.chain, TargetOf(v, path).dir;
    replies, states := Run(fp, ops, dch');
    saved := fp.Settled();
    res2, fp2 := Ok, null;
    FileIs(fp);
    if !saved {
      fp.Sync(time, dch');
      FileIs(fp);
      return;
    }
    fp.EntryApart(dch');
    SoundIsUsable(fs);
    BootMoved(fs, w.img, bsect, fp.chain, fp.dirSect);
    StillLeads(w, VolOf(fs), path, d, k, dch', c, fp.chain, fp.dirSect, fp.dirPtr);
    ghost var w2 := VolOf(fs);
    var fs' := Remount(fp, bsect, time, hint, dch');
    SoundIsUsable(fs');
    StillLeads(w2, VolOf(fs'), path, d, k, dch', fp.chain, fp.chain, fp.dirSect, fp.dirPtr);
    FileIs(fp);
    res2, fp2 := OpenAgain(fs', path, time, d, k, dch', fp.chain, fp.dirSect, fp.dirPtr);
  }
}
