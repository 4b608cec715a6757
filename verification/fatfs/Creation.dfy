/** A created file is found again by its path, and by no other name. */
module Creation {
  import opened Bytes
  import opened Layout
  import opened LogicalDisk
  import opened Chains
  import opened FileView
  import opened FileSystem
  import opened DirEntry
  import opened DirTable
  import opened DirView
  import opened Directory
  import opened Names
  import opened Path
  import opened File
  import opened OpenFile

  /** A state of a volume. */
  datatype Vol = Vol(g: Geometry, img: Image, fat: seq<nat>, chains: set<seq<nat>>)

  ghost predicate Usable(v: Vol)
  {
    && Fits(v.g, v.img) && Volume(v.fat, v.chains) && |v.fat| == v.g.maxClust && v.g.maxClust >= 2
    && 0 < v.g.csize && v.g.nRootdir % 16 == 0 && (v.g.fsType == Fat32 ==> v.g.ValidCluster(v.g.dirbase))
    && (v.g.fsType != Fat32 ==> v.g.dirbase + v.g.nRootdir / 16 <= v.g.database)
  }

  ghost predicate Dir(v: Vol, sclust: nat, ch: seq<nat>) { IsDir(v.g, v.fat, v.chains, sclust, ch) }

  ghost function EntriesOf(v: Vol, ch: seq<nat>): seq<Entry32>
    requires DirFits(v.g, v.img, ch)
  {
    View(v.g, v.img, ch)
  }

  lemma DirHolds(v: Vol, sclust: nat, ch: seq<nat>)
    requires Usable(v) && Dir(v, sclust, ch)
    ensures DirFits(v.g, v.img, ch) && (ch == [] || OnVolume(v.g, v.img, ch))
  {
    hide Volume, Fits;
    DirOnVolume(v.g, v.img, v.fat, v.chains, sclust, ch);
    if ch != [] { ChainOnVolume(v.g, v.img, v.fat, v.chains, ch); }
  }

  // ---- scans and lookups ----

  /** Scanning a directory of the volume is looking up in its entries. */
  lemma ScanIsLookup(v: Vol, sclust: nat, ch: seq<nat>, name: seq<Byte>)
    requires Usable(v) && Dir(v, sclust, ch) && DirFits(v.g, v.img, ch) && |name| >= 11
    ensures var l, r := Lookup(EntriesOf(v, ch), name, 0), ScanFrom(v.g, v.img, v.fat, sclust, name, 0);
      && (l >= 0 ==> r == Hit(l) && EntryOf(v.g, v.img, v.fat, sclust, l) == EntriesOf(v, ch)[l])
      && (l < 0 ==> r == if DirCount(v.g, ch) == 0 then Stuck else Miss)
  {
    hide Volume, Fits, Locate, EntryOf, DirFits, DirSectors, DirCount, IsDir;
    ScanFromIs(v, sclust, ch, name, 0);
    var l := Lookup(EntriesOf(v, ch), name, 0);
    if l >= 0 { EntryHere(v, sclust, ch, l); }
  }

  lemma EntryHere(v: Vol, sclust: nat, ch: seq<nat>, i: nat)
    requires Usable(v) && Dir(v, sclust, ch) && DirFits(v.g, v.img, ch)
    ensures i < DirCount(v.g, ch) ==>
      && Locate(v.g, v.fat, sclust, i).At? && Locate(v.g, v.fat, sclust, i).sect < |v.img|
      && EntryOf(v.g, v.img, v.fat, sclust, i) == EntriesOf(v, ch)[i]
    ensures DirCount(v.g, ch) <= i < MAX_INDEX ==> Locate(v.g, v.fat, sclust, i) == End
  {
    hide Volume, Fits, Locate, EntryOf, DirFits, DirSectors;
    LocatedEntry(v.g, v.img, v.fat, v.chains, sclust, ch, i);
  }

  lemma {:induction false} ScanFromIs(v: Vol, sclust: nat, ch: seq<nat>, name: seq<Byte>, i: nat)
    requires Usable(v) && Dir(v, sclust, ch) && DirFits(v.g, v.img, ch) && |name| >= 11 && i <= DirCount(v.g, ch)
    ensures var l, r := Lookup(EntriesOf(v, ch), name, i), ScanFrom(v.g, v.img, v.fat, sclust, name, i);
      if l >= 0 then r == Hit(l) else r == if i == 0 && DirCount(v.g, ch) == 0 then Stuck else Miss
    decreases DirCount(v.g, ch) - i
  {
    hide Volume, Fits, Locate, EntryOf, DirFits, DirSectors, Matches, IsDir, DirCount;
    EntryHere(v, sclust, ch, i);
    CountInReach(v.g, ch);
    if i < DirCount(v.g, ch) { ScanFromIs(v, sclust, ch, name, i + 1); }
  }

  lemma CountInReach(g: Geometry, ch: seq<nat>)
    ensures DirCount(g, ch) <= MAX_INDEX
  {
  }

  /** A lookup depends on the eleven name bytes only. */
  lemma {:induction false} LookupByName(es: seq<Entry32>, a: seq<Byte>, b: seq<Byte>, i: nat)
    requires |a| >= 11 && |b| >= 11 && a[..11] == b[..11]
    ensures Lookup(es, a, i) == Lookup(es, b, i)
    decreases |es| - i
  {
    hide HasAttr;
    if i < |es| { LookupByName(es, a, b, i + 1); }
  }

  // ---- what creating a file does to lookups ----

  /** A file named `fn` was created as entry `k` of directory `d`, whose chain went from `dch` to `dch'`. */
  ghost predicate CreatedFile(v: Vol, v': Vol, d: nat, dch: seq<nat>, dch': seq<nat>, fn: seq<Byte>, k: nat)
  {
    && Usable(v) && Usable(v') && v'.g == v.g && ProperName(fn)
    && Dir(v, d, dch) && Dir(v', d, dch') && ChainsMoved(v.chains, dch, v'.chains, dch')
    && CreatedIn(v.g, v.img, v'.img, dch, dch', fn, k)
    && Lookup(EntriesOf(v, dch), fn, 0) == -1
  }

  /** The chain a directory has afterwards. */
  function ChainAfter(ch: seq<nat>, dch: seq<nat>, dch': seq<nat>): seq<nat> { if ch == dch then dch' else ch }

  /** Every directory of the volume stays one. */
  lemma DirStays(v: Vol, v': Vol, d: nat, dch: seq<nat>, dch': seq<nat>, fn: seq<Byte>, k: nat, sclust: nat, ch: seq<nat>)
    requires CreatedFile(v, v', d, dch, dch', fn, k) && Dir(v, sclust, ch)
    ensures Dir(v', sclust, ChainAfter(ch, dch, dch')) && DirFits(v.g, v.img, ch)
    ensures DirFits(v.g, v'.img, ChainAfter(ch, dch, dch'))
  {
    hide Fits, IsChain, DirFits, CreatedIn, Disjoint, ZeroTail, Lookup;
    DirHolds(v, sclust, ch);
    if ch == dch {
      if dch == [] && dch' != [] { HeadIsCluster(v'.fat, v'.chains, dch'); }
      hide Volume;
    } else if ch != [] {
      OthersStay(v.chains, dch, v'.fat, v'.chains, dch', ch);
    }
    DirHolds(v', sclust, ChainAfter(ch, dch, dch'));
  }

  /** A directory that is not the one written keeps its entries. */
  lemma OtherDir(v: Vol, v': Vol, d: nat, dch: seq<nat>, dch': seq<nat>, fn: seq<Byte>, k: nat, sclust: nat, ch: seq<nat>)
    requires CreatedFile(v, v', d, dch, dch', fn, k) && Dir(v, sclust, ch) && ch != dch
    requires DirFits(v.g, v.img, ch) && DirFits(v.g, v'.img, ch)
    ensures EntriesOf(v', ch) == EntriesOf(v, ch)
  {
    hide Fits, IsChain, Volume, ZeroTail, Lookup, DirSect, DirSectors, View, DirOwns, DirCount, IsDir,
         Geometry.FatEnd;
    forall s | 0 <= s < DirSectors(v.g, ch)
      ensures 0 <= DirSect(v.g, ch, s) < |v.img| && v'.img[DirSect(v.g, ch, s)] == v.img[DirSect(v.g, ch, s)]
    {
      OtherSector(v, v', d, dch, dch', fn, k, sclust, ch, s);
    }
    SameEntries(v.g, v.img, v'.img, ch);
  }

  lemma SameEntries(g: Geometry, img: Image, img': Image, ch: seq<nat>)
    requires DirFits(g, img, ch) && DirFits(g, img', ch)
    requires forall s {:trigger DirSect(g, ch, s)} :: 0 <= s < DirSectors(g, ch) ==>
      img'[DirSect(g, ch, s)] == img[DirSect(g, ch, s)]
    ensures View(g, img', ch) == View(g, img, ch)
  {
    hide DirSect, DirSectors;
    forall i | 0 <= i < DirCount(g, ch)
      ensures View(g, img', ch)[i] == View(g, img, ch)[i]
    {
      assert View(g, img', ch)[i] == ViewEntry(g, img', ch, i) && View(g, img, ch)[i] == ViewEntry(g, img, ch, i);
    }
  }

  lemma OtherSector(v: Vol, v': Vol, d: nat, dch: seq<nat>, dch': seq<nat>, fn: seq<Byte>, k: nat, sclust: nat, ch: seq<nat>,
                    s: nat)
    requires CreatedFile(v, v', d, dch, dch', fn, k) && Dir(v, sclust, ch) && ch != dch
    requires DirFits(v.g, v.img, ch) && s < DirSectors(v.g, ch)
    ensures DirSect(v.g, ch, s) < |v.img| && v'.img[DirSect(v.g, ch, s)] == v.img[DirSect(v.g, ch, s)]
  {
    hide Fits, IsChain, ZeroTail, Lookup, View, OnVolume, Volume, Registered, DirOwns, DirSect, DirSectors, Disjoint;
    DirHolds(v, sclust, ch);
    if ch != [] { OthersStay(v.chains, dch, v'.fat, v'.chains, dch', ch); }
    NotDirOwns(v.g, v.img, ch, dch', s);
  }

  lemma NotDirOwns(g: Geometry, img: Image, ch: seq<nat>, other: seq<nat>, s: nat)
    requires DirFits(g, img, ch) && s < DirSectors(g, ch)
    requires ch == [] ==> other != [] && g.dirbase + g.nRootdir / 16 <= g.database
    requires ch != [] ==> OnVolume(g, img, ch) && Disjoint(ch, other)
    ensures !DirOwns(g, other, DirSect(g, ch, s))
  {
    if ch != [] {
      FileSectOwn(g, img, ch, s);
      FileSectInVolume(g, img, ch, s);
      assert On(ch, ch[s / g.csize]);
    }
  }

  /** Looking up any name afterwards: the new one is found at its entry, the others are found as before, in
      entries that did not change. A name that was not found stays so in every other directory, and in the one
      written if it has the zero-tail shape. */
  lemma LookupAfter(v: Vol, v': Vol, d: nat, dch: seq<nat>, dch': seq<nat>, fn: seq<Byte>, k: nat, sclust: nat, ch: seq<nat>,
                    name: seq<Byte>)
    requires CreatedFile(v, v', d, dch, dch', fn, k) && Dir(v, sclust, ch) && ProperName(name)
    ensures Dir(v', sclust, ChainAfter(ch, dch, dch')) && DirFits(v.g, v.img, ch)
    ensures DirFits(v.g, v'.img, ChainAfter(ch, dch, dch'))
    ensures var es, es' := EntriesOf(v, ch), EntriesOf(v', ChainAfter(ch, dch, dch'));
      if ch == dch && name[..11] == fn[..11] then Lookup(es, name, 0) == -1 && Lookup(es', name, 0) == k
      else
        var n := Lookup(es, name, 0);
        && (n >= 0 ==> Lookup(es', name, 0) == n && es'[n] == es[n])
        && (ch != dch || ZeroTail(es) ==> Lookup(es', name, 0) == n)
  {
    hide Fits, DirFits, Volume, ZeroTail, DirCount, IsDir, Matches, OnVolume, DirOnly;
    DirStays(v, v', d, dch, dch', fn, k, sclust, ch);
    if ch != dch {
      OtherDir(v, v', d, dch, dch', fn, k, sclust, ch);
    } else {
      var es, es' := EntriesOf(v, ch), EntriesOf(v', dch');
      RegisterLookups(es, es', es'[k], fn, k, name);
      if ZeroTail(es) { RegisterKeepsLookups(es, es', es'[k], fn, k, name); }
      if name[..11] == fn[..11] {
        LookupByName(es, name, fn, 0);
        LookupByName(es', name, fn, 0);
      } else {
        var n := Lookup(es, name, 0);
        if n == k { BlankNoMatch(es[k], name); assert false; }
      }
    }
  }

  // ---- paths ----

  /** Every directory the walk passes is one of the volume's, and none has the chain `c`, unless that is empty. */
  ghost predicate Way(v: Vol, c: seq<nat>, sclust: nat, path: seq<Byte>, i: nat)
    requires Usable(v) && i <= |path|
    decreases |path| - i
  {
    && (exists ch :: Beside(v, c, sclust, ch))
    && var e := SegmentEnd(path, i);
       var seg := path[i..e];
       var end := CharAt(path, e);
       seg == [] || !Fine(seg) || end <= 0x20 ||
       match ScanFrom(v.g, v.img, v.fat, sclust, ShortName(seg) + [Status(seg, end)], 0)
       case Hit(n) =>
         var entry := EntryOf(v.g, v.img, v.fat, sclust, n);
         HasAttr(entry[DIR_ATTR], AM_DIR) ==> Way(v, c, StartCluster(entry), path, e + 1)
       case _ => true
  }

  ghost predicate Beside(v: Vol, c: seq<nat>, sclust: nat, ch: seq<nat>)
  {
    Dir(v, sclust, ch) && DirFits(v.g, v.img, ch) && (c == [] || ch != c)
  }

  /** A cluster starts one directory at most. */
  lemma OneDir(v: Vol, d: nat, a: seq<nat>, b: seq<nat>)
    requires Usable(v) && Dir(v, d, a) && Dir(v, d, b)
    ensures a == b
  {
    hide Fits, IsChain;
    if a != [] { HeadIsCluster(v.fat, v.chains, a); }
    if b != [] { HeadIsCluster(v.fat, v.chains, b); }
    if a != [] && b != [] { assert On(a, a[0]) && On(b, b[0]); }
  }

  /** A path that leads to a missing name leads there because the directory does not hold it. */
  lemma {:induction false} MissingIsAbsent(v: Vol, sclust: nat, path: seq<Byte>, i: nat, d: nat, dch: seq<nat>, fn: seq<Byte>)
    requires Usable(v) && i <= |path| && Way(v, [], sclust, path, i)
    requires Walk(v.g, v.img, v.fat, sclust, path, i) == Missing(d, fn) && Dir(v, d, dch) && DirFits(v.g, v.img, dch)
    ensures |fn| == 12 && Lookup(EntriesOf(v, dch), fn, 0) == -1
    decreases |path| - i
  {
    hide Fits, DirFits, Volume, IsDir, ZeroTail, Fine, Status, ShortName, ScanFrom, EntryOf, StartCluster, HasAttr,
         Lookup;
    var ch :| Beside(v, [], sclust, ch);
    var e := SegmentEnd(path, i);
    var seg := path[i..e];
    var name := ShortName(seg) + [Status(seg, CharAt(path, e))];
    ScanIsLookup(v, sclust, ch, name);
    if CharAt(path, e) <= 0x20 {
      OneDir(v, d, dch, ch);
    } else {
      var n := ScanFrom(v.g, v.img, v.fat, sclust, name, 0).n;
      MissingIsAbsent(v, StartCluster(EntryOf(v.g, v.img, v.fat, sclust, n)), path, e + 1, d, dch, fn);
    }
  }

  /** After creating a file at the end of a path, the path leads to it. */
  lemma {:induction false} CreatedIsFound(v: Vol, v': Vol, d: nat, dch: seq<nat>, dch': seq<nat>, fn: seq<Byte>, k: nat,
                                          sclust: nat, path: seq<Byte>, i: nat)
    requires CreatedFile(v, v', d, dch, dch', fn, k)
    requires i <= |path| && Way(v, [], sclust, path, i) && Walk(v.g, v.img, v.fat, sclust, path, i) == Missing(d, fn)
    ensures Walk(v.g, v'.img, v'.fat, sclust, path, i) == Object(d, k, fn) && Way(v', [], sclust, path, i)
    decreases |path| - i
  {
    hide Fits, DirFits, Volume, IsDir, ZeroTail, Fine, Status, ShortName, ScanFrom, EntryOf, StartCluster, HasAttr,
         Lookup, CreatedIn;
    var ch :| Beside(v, [], sclust, ch);
    var e := SegmentEnd(path, i);
    var seg := path[i..e];
    var end := CharAt(path, e);
    var name := ShortName(seg) + [Status(seg, end)];
    var ch' := ChainAfter(ch, dch, dch');
    NameIsProper(seg, Status(seg, end));
    ScanIsLookup(v, sclust, ch, name);
    LookupAfter(v, v', d, dch, dch', fn, k, sclust, ch, name);
    ScanIsLookup(v', sclust, ch', name);
    assert Beside(v', [], sclust, ch');
    if end <= 0x20 {
      OneDir(v, d, dch, ch);
    } else {
      var n := ScanFrom(v.g, v.img, v.fat, sclust, name, 0).n;
      CreatedIsFound(v, v', d, dch, dch', fn, k, StartCluster(EntryOf(v.g, v.img, v.fat, sclust, n)), path, e + 1);
    }
  }

  // ---- creating and opening ----

  /** Where `path` leads on the volume. */
  ghost function TargetOf(v: Vol, path: seq<Byte>): (t: Target)
    requires Usable(v)
    ensures t.Object? ==> Locate(v.g, v.fat, t.dir, t.n).At? && Locate(v.g, v.fat, t.dir, t.n).sect < |v.img|
  {
    Walk(v.g, v.img, v.fat, 0, path, PathStart(path))
  }

  ghost function VolOf(fs: FATFS): Vol
    reads fs
  {
    Vol(fs.g, fs.img, fs.fat, fs.chains)
  }

  lemma SoundIsUsable(fs: FATFS)
    requires fs.Sound()
    ensures Usable(VolOf(fs))
  {
    hide FATFS.Valid, Volume, Fits, Geometry.Sane;
    fs.Facts();
    FitsSane(fs.g, fs.img);
    DirGeometry(fs.g);
  }

  lemma FitsSane(g: Geometry, img: Image)
    requires Fits(g, img)
    ensures g.Sane()
  {
  }

  lemma WalkNames(v: Vol, sclust: nat, path: seq<Byte>, i: nat)
    requires Usable(v) && i <= |path|
    ensures var t := Walk(v.g, v.img, v.fat, sclust, path, i); t.Missing? ==> ProperName(t.fn)
  {
    hide Walk, Fits, Volume;
  }

  /** The created entry is known to belong to a file without clusters. */
  lemma CreatedIsKnown(v: Vol, v': Vol, d: nat, dch: seq<nat>, dch': seq<nat>, fn: seq<Byte>, k: nat)
    requires CreatedFile(v, v', d, dch, dch', fn, k)
    ensures Locate(v.g, v'.fat, d, k).At? && Locate(v.g, v'.fat, d, k).sect < |v'.img|
    ensures Known(v.g, v'.img, v'.fat, v'.chains, Object(d, k, fn), dch', [])
    ensures Pristine(EntryOf(v.g, v'.img, v'.fat, d, k))
  {
    hide Fits, Volume, IsDir, EntryOf, Locate, DirFits, StartCluster, FileSize, Registered, ZeroTail, Lookup;
    EntryHere(v', d, dch', k);
  }

  /** A file created under a new path can be opened by the same path: it is the same entry, and empty. */
  method CreateThenOpen(fs: FATFS, path: seq<Byte>, m: Mode, again: Mode, time: nat, ghost dch: seq<nat>)
    returns (res: FResult, fp: FIL?, fp2: FIL?)
    requires fs.Sound() && time < DWORD && !RootPath(path) && Creating(m) && !Creating(again)
    requires Led(fs, path).Missing? && Known(fs.g, fs.img, fs.fat, fs.chains, Led(fs, path), dch, [])
    requires Usable(VolOf(fs)) && Way(VolOf(fs), [], 0, path, PathStart(path))
    modifies fs, fs.win
    ensures fs.Sound() && (old(fs.Counted()) ==> fs.Counted())
    ensures fs.Pending(old(fs.freeClust), old(fs.fsiFlag))
    ensures res == Ok || NoVacancy(fs.g, fs.img, dch, fs.fat, res)
    ensures res == Ok ==>
      && fp != null && fp2 != null && fresh(fp) && fresh(fp2) && fp != fp2 && fp2.Valid() && fp2.fs == fs
      && fp2.dirSect == fp.dirSect && fp2.dirPtr == fp.dirPtr && fp2.chain == [] && fp2.fsize == 0
      && fp2.canRead == again.read && fp2.canWrite == again.write && !fp2.written
  {
    hide FATFS.Valid, Volume, Fits, Walk, View, Way, IsDir, PathStart, FIL.Valid, EntryAt, DirFits, FileSize,
         StartCluster, CreatedIn, Geometry.Sane, Geometry.FatEnd, NoVacancy, ZeroTail, ChainsMoved, FATFS.Counted,
         Lookup, EntryOf, Locate, DirSect, DirSectors;
    fp2 := null;
    ghost var v, t, dch', k := VolOf(fs), Led(fs, path), dch, 0;
    res, fp, dch', k := Open(fs, path, m, time, dch, []);
    if res == Ok {
      SoundIsUsable(fs);
      ghost var v' := VolOf(fs);
      DirHolds(v, t.dir, dch);
      MissingIsAbsent(v, 0, path, PathStart(path), t.dir, dch, t.fn);
      WalkNames(v, 0, path, PathStart(path));
      CreatedIsFound(v, v', t.dir, dch, dch', t.fn, k, 0, path, PathStart(path));
      CreatedIsKnown(v, v', t.dir, dch, dch', t.fn, k);
      ghost var dch2, k2;
      res, fp2, dch2, k2 := Open(fs, path, again, time, dch', []);
    }
  }
}
