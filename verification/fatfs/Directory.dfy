/** The directory object: stepping, looking up, and registering entries. */
module Directory {
  import opened Bytes
  import opened Layout
  import opened LogicalDisk
  import opened Chains
  import opened FileView
  import opened FileSystem
  import opened DirEntry
  import opened DirTable
  import opened DirView

  /** What the geometry of a mounted volume gives directories. */
  lemma DirGeometry(g: Geometry)
    requires g.Sane()
    ensures 0 < g.csize <= 128 && PowerOfTwo(g.csize) && g.nRootdir % 16 == 0 && g.maxClust >= 2 && g.dirbase > 0
    ensures g.fsType == Fat32 ==> g.ValidCluster(g.dirbase)
    ensures g.fsType != Fat32 ==> g.dirbase == g.FatEnd()
    ensures 0 < g.FatEnd() <= g.database && g.database == g.FatEnd() + g.nRootdir / 16
  {
    hide Geometry.VolEnd;
  }

  class DIR {
    const fs: FATFS
    var sclust: nat     // start cluster of the table, 0 for the static root
    var index: nat      // current entry
    var clust: nat      // its cluster, 0 in a static table
    var sect: nat       // its sector
    var dir: nat        // its offset in the sector
    var fn: seq<Byte>   // the wanted name: 8 + 3 bytes and a status byte

    constructor (fs: FATFS, sclust: nat)
      ensures this.fs == fs && this.sclust == sclust && |fn| == 12
    {
      this.fs := fs;
      this.sclust := sclust;
      index, clust, sect, dir := 0, 0, 0, 0;
      fn := seq(12, i => 0x20);
    }

    /** The object's fields address entry `index`. */
    ghost predicate Here()
      reads this, fs`fat
    {
      && index < MAX_INDEX && dir == index % 16 * 32
      && 0 < fs.g.csize && |fs.fat| == fs.g.maxClust && (fs.g.fsType == Fat32 ==> fs.g.ValidCluster(fs.g.dirbase))
      && Locate(fs.g, fs.fat, sclust, index) == At(clust, sect)
    }

    lemma Facts()
      requires fs.Valid()
      ensures |fs.fat| == fs.g.maxClust && fs.g.Sane()
      ensures 0 < fs.g.csize <= 128 && PowerOfTwo(fs.g.csize) && fs.g.nRootdir % 16 == 0 && fs.g.maxClust >= 2
      ensures fs.g.fsType == Fat32 ==> fs.g.ValidCluster(fs.g.dirbase)
      ensures fs.g.dirbase > 0 && 0 < fs.g.FatEnd() <= fs.g.database
    {
      hide FATFS.Valid, Geometry.Sane;
      fs.Facts();
      DirGeometry(fs.g);
    }

    /** Random access to entry `idx`. */
    method Seek(idx: nat) returns (res: FResult)
      requires fs.Valid() && idx < MAX_INDEX
      modifies `index, `clust, `sect, `dir, fs`disk, fs`winsect, fs`wflag, fs.win
      ensures fs.Valid() && index == idx
      ensures 0 < fs.g.csize && |fs.fat| == fs.g.maxClust && (fs.g.fsType == Fat32 ==> fs.g.ValidCluster(fs.g.dirbase))
      ensures res == if Locate(fs.g, fs.fat, sclust, idx).At? then Ok else IntErr
      ensures res == Ok ==> Here()
      ensures fs.wflag ==> old(fs.wflag)
    {
      hide FATFS.Valid, Follow, Geometry.Sane, PowerOfTwo, Geometry.Clust2Sect;
      Facts();
      index := idx;
      var clst := sclust;
      if clst == 1 || clst >= fs.g.maxClust { return IntErr; }
      if clst == 0 && fs.g.fsType == Fat32 { clst := fs.g.dirbase; }
      if clst == 0 {
        clust := clst;
        if idx >= fs.g.nRootdir { return IntErr; }
        sect := fs.g.dirbase + idx / 16;
      } else {
        var rest: nat;
        clst, rest := FollowTo(clst, idx);
        if clst == 0 { return IntErr; }
        clust := clst;
        fs.g.ClusterFits(clst);
        fs.g.Clust2SectIsSect(clst);
        sect := fs.g.Clust2Sect(clst) + rest / 16;
        dir := rest % 16 * 32;
        return Ok;
      }
      dir := idx % 16 * 32;
      res := Ok;
    }

    /** Follows the chain from `start` for as many clusters as entry `idx` lies behind; 0 when it ends. */
    method FollowTo(start: nat, idx: nat) returns (clst: nat, rest: nat)
      requires fs.Valid() && 2 <= start < fs.g.maxClust
      modifies fs`disk, fs`winsect, fs`wflag, fs.win
      ensures fs.Valid() && Followed(fs.g, fs.fat, start, idx, clst, rest)
      ensures fs.wflag ==> old(fs.wflag)
    {
      hide FATFS.Valid, Follow, Geometry.Sane, PowerOfTwo;
      Facts();
      clst, rest := start, idx;
      var ic := 16 * fs.g.csize;
      ghost var n := 0;
      FollowNone(fs.g, fs.fat, start);
      while rest >= ic
        invariant fs.Valid() && |fs.fat| == fs.g.maxClust && 2 <= clst < fs.g.maxClust && rest >= 0
        invariant fs.wflag ==> old(fs.wflag)
        invariant Follow(fs.g, fs.fat, start, n) == At(clst, 0) && idx == rest + n * ic
      {
        FollowOn(fs.g, fs.fat, start, n);
        clst := fs.GetFat(clst);
        if clst < 2 || clst >= fs.g.maxClust {
          EntryCluster(idx, rest, n, ic, fs.g.csize);
          FollowStuck(fs.g, fs.fat, start, n + 1, idx / 16 / fs.g.csize);
          return 0, 0;
        }
        assert (n + 1) * ic == n * ic + ic;
        rest := rest - ic;
        n := n + 1;
      }
      EntryCluster(idx, rest, n, ic, fs.g.csize);
    }

    /** What `Here` says about the place. */
    lemma PlaceHere()
      requires Here() && fs.Valid()
      ensures sect != 0 && (clust != 0 ==> fs.g.ValidCluster(clust))
    {
      hide FATFS.Valid, Geometry.Sane, Follow;
      Facts();
    }

    /** Stretches a chained directory at its last cluster, and clears the new one. */
    method Stretch(ghost ch: seq<nat>) returns (clst: nat, ghost ch': seq<nat>)
      requires fs.Sound() && IsDir(fs.g, fs.fat, fs.chains, sclust, ch) && ch != [] && clust == ch[|ch| - 1]
      modifies fs`disk, fs`winsect, fs`wflag, fs`img, fs`fat, fs`lastClust, fs`freeClust, fs`fsiFlag, fs`chains, fs.win
      ensures fs.Sound() && (old(fs.Counted()) ==> fs.Counted())
      ensures fs.Pending(old(fs.freeClust), old(fs.fsiFlag))
      ensures IsDir(fs.g, fs.fat, fs.chains, sclust, ch') && ChainsMoved(old(fs.chains), ch, fs.chains, ch')
      ensures clst == 0 ==> ch' == ch && FreeCount(fs.fat) == 0 && fs.fat == old(fs.fat) && fs.img == old(fs.img)
      ensures clst != 0 ==> ch' == ch + [clst] && 2 <= clst < fs.g.maxClust && DirGrown(fs.g, old(fs.img), ch, fs.img, ch')
    {
      hide FATFS.Valid, Geometry.Sane, PowerOfTwo, Volume, IsChain, Geometry.Clust2Sect, FreeCount, Geometry.FatEnd,
           ZeroSector;
      Facts();
      LinkOfChain(fs.fat, fs.chains, ch, |ch| - 1);
      clst, ch' := fs.Grow(clust, ch, |ch| - 1);
      Facts();
      if clst != 0 {
        fs.g.ClusterFits(clst);
        fs.g.Clust2SectIsSect(clst);
        fs.Facts();
        fs.ZeroCluster(fs.g.Clust2Sect(clst));
      }
    }

    /** Steps to the next entry. Without `stretch` nothing changes but the window, on any table contents.
        With it, at the end of a chained directory the chain gets one more cluster, filled with zeros. */
    method Next(stretch: bool, ghost ch: seq<nat>) returns (res: FResult, ghost ch': seq<nat>)
      requires fs.Valid() && Here()
      requires stretch ==> fs.Sound() && IsDir(fs.g, fs.fat, fs.chains, sclust, ch)
      modifies `index, `clust, `sect, `dir, fs`disk, fs`winsect, fs`wflag, fs.win, if stretch then {fs} else {}
      ensures fs.Valid() && (old(fs.Counted()) ==> fs.Counted())
      ensures fs.Pending(old(fs.freeClust), old(fs.fsiFlag))
      ensures Stepped(fs.g, old(index), old(clust), old(sect), old(fs.fat), stretch, res)
      ensures res == Ok ==> Here() && index == old(index) + 1
      ensures !stretch || ch' == ch ==> fs.img == old(fs.img) && fs.fat == old(fs.fat) && fs.chains == old(fs.chains)
      ensures stretch ==> fs.Sound() && IsDir(fs.g, fs.fat, fs.chains, sclust, ch')
                          && ChainsMoved(old(fs.chains), ch, fs.chains, ch')
      ensures stretch && ch' != ch ==> res == Ok && DirGrown(fs.g, old(fs.img), ch, fs.img, ch')
                                       && index == 16 * DirSectors(fs.g, ch)
      ensures !stretch && fs.wflag ==> old(fs.wflag)
    {
      hide FATFS.Valid, Geometry.Sane, PowerOfTwo, Volume, IsChain, Geometry.Clust2Sect, FreeCount, Locate, And,
           DirGrown;
      ch' := ch;
      Facts();
      PlaceHere();
      StepIsLocate(fs.g, fs.fat, sclust, index);
      ChainsMovedNot(fs.chains, ch);
      var i := (index + 1) % MAX_INDEX;
      if i == 0 || sect == 0 { return NoFile, ch'; }
      if i % 16 == 0 {
        var old_sect := sect;
        sect := sect + 1;
        if clust == 0 {
          if i >= fs.g.nRootdir { return NoFile, ch'; }
        } else {
          MaskIsRemainder(i / 16, fs.g.csize);
          if And(i / 16, fs.g.csize - 1) == 0 {
            var clst := fs.GetFat(clust);
            if clst <= 1 { return IntErr, ch'; }
            fs.g.ClusterFits(clust);
            if clst >= fs.g.maxClust {
              if !stretch { return NoFile, ch'; }
              AtDirEnd(ch, i);
              clst, ch' := Stretch(ch);
              if clst == 0 { return Denied, ch'; }
              GrownHere(ch, clst, i);
            }
            clust := clst;
            fs.g.ClusterFits(clst);
            Facts();
            fs.g.Clust2SectIsSect(clst);
            sect := fs.g.Clust2Sect(clst);
          }
        }
      }
      index := i;
      dir := i % 16 * 32;
      res := Ok;
    }

    /** At the end of a chained directory the current cluster is the chain's last. */
    lemma AtDirEnd(ch: seq<nat>, i: nat)
      requires fs.Sound() && IsDir(fs.g, fs.fat, fs.chains, sclust, ch) && i == index + 1 && i % 16 == 0
      requires 0 < fs.g.csize && fs.g.maxClust >= 2 && (fs.g.fsType == Fat32 ==> fs.g.ValidCluster(fs.g.dirbase))
      requires fs.g.nRootdir % 16 == 0
      requires exists s :: Locate(fs.g, fs.fat, sclust, index) == At(clust, s)
      requires 2 <= clust < fs.g.maxClust && fs.fat[clust] >= fs.g.maxClust && i / 16 % fs.g.csize == 0
      ensures ch != [] && clust == ch[|ch| - 1] && i == 16 * DirSectors(fs.g, ch)
    {
      hide FATFS.Valid, Volume, IsChain, Locate;
      DirClusters(fs.g, fs.fat, fs.chains, sclust, ch);
      LocateInDir(fs.g, fs.fat, fs.chains, sclust, ch, index);
      var k, d := index / 16, fs.g.csize;
      hide IsDir, DirSect, FATFS.Sound;
      assert i / 16 == k + 1;
      if ch != [] {
        DivBelow(k, d, |ch|);
        LinkOfChain(fs.fat, fs.chains, ch, k / d);
        UsedUp(k, d);
      }
    }

    static lemma UsedUp(k: nat, d: nat)
      requires d > 0 && (k + 1) % d == 0
      ensures k + 1 == (k / d + 1) * d
    {
      if k % d + 1 < d { DivWithin(k, d, 1); } else { DivNext(k, d); }
      assert k + 1 == (k + 1) / d * d + (k + 1) % d;
    }

    /** The entry behind the old end is the first of the new cluster. */
    lemma GrownHere(ch: seq<nat>, clst: nat, i: nat)
      requires fs.Sound() && IsDir(fs.g, fs.fat, fs.chains, sclust, ch + [clst]) && ch != []
      requires 0 < fs.g.csize && fs.g.maxClust >= 2 && (fs.g.fsType == Fat32 ==> fs.g.ValidCluster(fs.g.dirbase))
      requires fs.g.nRootdir % 16 == 0 && i == 16 * DirSectors(fs.g, ch) && clst >= 2
      ensures Locate(fs.g, fs.fat, sclust, i) == At(clst, fs.g.ClusterSect(clst))
    {
      hide FATFS.Valid, Volume, IsChain, Locate;
      DirClusters(fs.g, fs.fat, fs.chains, sclust, ch + [clst]);
      LocateInDir(fs.g, fs.fat, fs.chains, sclust, ch + [clst], i);
      assert forall j :: 0 <= j < |ch| ==> ch[j] == (ch + [clst])[j];
      GrownPlace(fs.g, ch, clst);
    }

    // ---- looking up ----

    /** Looks for the entry named `fn`: the first one that matches before the directory ends. It terminates on
        any table contents, since the 16-bit index rises until it wraps. */
    method Find() returns (res: FResult, ghost n: nat)
      requires fs.Valid() && |fn| == 12
      modifies `index, `clust, `sect, `dir, fs`disk, fs`winsect, fs`wflag, fs.win
      ensures fs.Valid() && n <= MAX_INDEX
      ensures 0 < fs.g.csize && |fs.fat| == fs.g.maxClust && (fs.g.fsType == Fat32 ==> fs.g.ValidCluster(fs.g.dirbase))
      ensures Scanned(fs.g, fs.img, fs.fat, sclust, fn, n)
      ensures FindResult(fs.g, fs.img, fs.fat, sclust, fn, n, res)
      ensures res == Ok ==> Here() && index == n && fs.winsect == sect && sect < |fs.img| && fs.win[..] == fs.img[sect]
      ensures fs.wflag ==> old(fs.wflag)
    {
      hide FATFS.Valid, Geometry.Sane, PowerOfTwo, Locate, Matches, HasAttr, EntryOf;
      Facts();
      res := Seek(0);
      n := 0;
      if res != Ok { return; }
      while true
        invariant fs.Valid() && Here() && index == n && fs.g.nRootdir % 16 == 0 && (fs.wflag ==> old(fs.wflag))
        invariant Scanned(fs.g, fs.img, fs.fat, sclust, fn, n)
        decreases MAX_INDEX - index
      {
        var e := Load();
        if e[0] == 0 { return NoFile, n; }
        if Matches(e, fn) { return Ok, n; }
        StepIsLocate(fs.g, fs.fat, sclust, index);
        ghost var none;
        res, none := Next(false, []);
        n := n + 1;
        if res != Ok { return; }
      }
    }

    /** Brings the current entry into the window. */
    method Load() returns (e: Entry32)
      requires fs.Valid() && Here()
      modifies fs`disk, fs`winsect, fs`wflag, fs.win
      ensures fs.Valid() && fs.winsect == sect && sect < |fs.img| && fs.win[..] == fs.img[sect]
      ensures Locate(fs.g, fs.fat, sclust, index).sect < |fs.img| && e == EntryOf(fs.g, fs.img, fs.fat, sclust, index)
      ensures fs.wflag ==> old(fs.wflag)
    {
      hide FATFS.Valid, Locate, Geometry.Window;
      InVolume();
      fs.MoveWindow(sect);
      e := EntryAt(fs.win[..], dir);
    }

    /** The entry's sector is one the window may show. */
    lemma InVolume()
      requires fs.Valid() && Here()
      ensures fs.g.FatEnd() <= sect < |fs.img| && |fs.img| == |fs.disk| && sect != 0 && fs.g.Window(sect)
    {
      hide FATFS.Valid, Locate;
      fs.Facts();
      PlaceInVolume(fs.g, fs.fat, sclust, index);
    }

    // ---- registering ----

    /** Puts `fn` into the first blank entry, stretching a chained directory when it has none. */
    method Register(ghost ch: seq<nat>) returns (res: FResult, ghost k: nat, ghost ch': seq<nat>)
      requires fs.Sound() && IsDir(fs.g, fs.fat, fs.chains, sclust, ch) && |fn| == 12
      modifies `index, `clust, `sect, `dir, fs, fs.win
      ensures fs.Sound() && (old(fs.Counted()) ==> fs.Counted())
      ensures fs.Pending(old(fs.freeClust), old(fs.fsiFlag))
      ensures IsDir(fs.g, fs.fat, fs.chains, sclust, ch') && ChainsMoved(old(fs.chains), ch, fs.chains, ch')
      ensures DirFits(fs.g, old(fs.img), ch) && DirFits(fs.g, fs.img, ch')
      ensures res == Ok ==>
        && Registered(View(fs.g, old(fs.img), ch), View(fs.g, fs.img, ch'), NewEntry(fn), k)
        && Here() && index == k && fs.winsect == sect && sect < |fs.img| && fs.win[..] == fs.img[sect]
      ensures res != Ok ==> NoVacancy(fs.g, fs.img, ch, fs.fat, res)
                            && ch' == ch && fs.img == old(fs.img) && fs.fat == old(fs.fat)
      ensures DirOnly(fs.g, old(fs.img), fs.img, ch')
    {
      hide FATFS.Valid, Geometry.Sane, PowerOfTwo, Locate, IsDir, DirFits, View, Registered, DirOwns, Geometry.FatEnd,
           FATFS.Counted, DirGrown, Volume, ChainsMoved, FreeCount, DirCount, NewEntry, Vacant, NoVacancy, DirSectors,
           DirSect;
      ghost var img0 := fs.img;
      res, k, ch' := FindBlank(ch);
      if res == Ok {
        ghost var mid := fs.img;
        Facts();
        StaticRoot(ch');
        DirPlaced(ch', k);
        OnDirVolume(ch');
        PutName();
        RegisteredAt(fs.g, img0, ch, mid, ch', fs.img, fn, k);
        DirOnlyAt(fs.g, img0, ch, mid, ch', fs.img, k, fs.img[sect]);
      }
    }

    /** Looks for the first blank entry. */
    method FindBlank(ghost ch: seq<nat>) returns (res: FResult, ghost k: nat, ghost ch': seq<nat>)
      requires fs.Sound() && IsDir(fs.g, fs.fat, fs.chains, sclust, ch)
      modifies `index, `clust, `sect, `dir, fs, fs.win
      ensures fs.Sound() && (old(fs.Counted()) ==> fs.Counted())
      ensures fs.Pending(old(fs.freeClust), old(fs.fsiFlag))
      ensures IsDir(fs.g, fs.fat, fs.chains, sclust, ch') && ChainsMoved(old(fs.chains), ch, fs.chains, ch')
      ensures DirFits(fs.g, old(fs.img), ch) && DirFits(fs.g, fs.img, ch')
      ensures res == Ok ==> Here() && index == k && Vacant(fs.g, old(fs.img), ch, fs.img, ch', k)
                            && k < DirCount(fs.g, ch') && Blank(View(fs.g, fs.img, ch')[k])
      ensures res != Ok ==> NoVacancy(fs.g, fs.img, ch, fs.fat, res)
                            && ch' == ch && fs.img == old(fs.img) && fs.fat == old(fs.fat)
    {
      hide FATFS.Valid, Geometry.Sane, PowerOfTwo, Locate, IsDir, DirFits, View, FATFS.Counted, DirGrown, Volume,
           ChainsMoved, FreeCount, DirCount, Vacant, NoVacancy, DirSectors, DirSect, Blank, OnVolume, Fits, Stepped;
      Facts();
      fs.Facts();
      DirOnVolume(fs.g, fs.img, fs.fat, fs.chains, sclust, ch);
      ChainsMovedNot(fs.chains, ch);
      res := Seek(0);
      k, ch' := 0, ch;
      VacantStart(fs.g, fs.img, ch);
      if res != Ok {
        LocatedEntry(fs.g, fs.img, fs.fat, fs.chains, sclust, ch, 0);
        NoEntries(fs.g, fs.img, ch, fs.fat);
        return;
      }
      while true
        invariant res == Ok && fs.Sound() && Here() && index == k && (old(fs.Counted()) ==> fs.Counted())
        invariant fs.Pending(old(fs.freeClust), old(fs.fsiFlag))
        invariant IsDir(fs.g, fs.fat, fs.chains, sclust, ch') && ChainsMoved(old(fs.chains), ch, fs.chains, ch')
        invariant DirFits(fs.g, fs.img, ch') && Vacant(fs.g, old(fs.img), ch, fs.img, ch', k)
        invariant ch' == ch ==> fs.img == old(fs.img) && fs.fat == old(fs.fat) && fs.chains == old(fs.chains)
        decreases MAX_INDEX - index
      {
        var blank := BlankHere(ch', k);
        if blank { return; }
        NotVacant(fs.g, old(fs.img), ch, fs.img, ch', k);
        res, ch' := Next(true, ch);
        fs.Facts();
        if res != Ok {
          StepFailed(fs.g, fs.img, fs.fat, fs.chains, sclust, ch, k, res);
          return;
        }
        VacantOn(fs.g, old(fs.img), ch, fs.img, ch', k);
        DirOnVolume(fs.g, fs.img, fs.fat, fs.chains, sclust, ch');
        k := k + 1;
      }
    }

    /** Reads the current entry and tells whether it may be taken. */
    method BlankHere(ghost ch: seq<nat>, ghost k: nat) returns (blank: bool)
      requires fs.Sound() && IsDir(fs.g, fs.fat, fs.chains, sclust, ch) && Here() && index == k
      modifies fs`disk, fs`winsect, fs`wflag, fs.win
      ensures fs.Sound() && DirFits(fs.g, fs.img, ch) && (ch == [] || OnVolume(fs.g, fs.img, ch))
      ensures k < DirCount(fs.g, ch) && blank == Blank(View(fs.g, fs.img, ch)[k])
    {
      hide FATFS.Valid, Geometry.Sane, PowerOfTwo, Locate, IsDir, Volume, Geometry.Window, DirSect, DirSectors, View,
           DirFits;
      DirPlaced(ch, k);
      OnDirVolume(ch);
      fs.MoveWindow(sect);
      var c := fs.win[dir];
      blank := c == 0xE5 || c == 0;
    }

    /** The object stands at entry `k` of the directory. */
    lemma DirPlaced(ch: seq<nat>, k: nat)
      requires fs.Sound() && IsDir(fs.g, fs.fat, fs.chains, sclust, ch) && Here() && index == k
      ensures DirFits(fs.g, fs.img, ch) && k < DirCount(fs.g, ch) && k / 16 < DirSectors(fs.g, ch)
      ensures sect == DirSect(fs.g, ch, k / 16) < |fs.img| && dir == k % 16 * 32 && dir + 32 <= 512
      ensures View(fs.g, fs.img, ch)[k] == EntryAt(fs.img[sect], dir)
      ensures fs.g.Window(sect) && |fs.img| == |fs.disk| && sect != 0
    {
      hide FATFS.Valid, Geometry.Sane, PowerOfTwo, Locate, IsDir, Volume, Geometry.Window, DirSect, DirSectors,
           EntryOf;
      Facts();
      fs.Facts();
      InVolume();
      DirOnVolume(fs.g, fs.img, fs.fat, fs.chains, sclust, ch);
      LocatedEntry(fs.g, fs.img, fs.fat, fs.chains, sclust, ch, k);
      assert View(fs.g, fs.img, ch)[k] == ViewEntry(fs.g, fs.img, ch, k);
    }

    lemma OnDirVolume(ch: seq<nat>)
      requires fs.Sound() && IsDir(fs.g, fs.fat, fs.chains, sclust, ch)
      ensures ch == [] || OnVolume(fs.g, fs.img, ch)
    {
      hide FATFS.Valid, Volume, Geometry.Sane;
      fs.Facts();
      if ch != [] { ChainOnVolume(fs.g, fs.img, fs.fat, fs.chains, ch); }
    }

    /** The static root ends where the data begin. */
    lemma StaticRoot(ch: seq<nat>)
      requires fs.Valid() && IsDir(fs.g, fs.fat, fs.chains, sclust, ch)
      ensures ch == [] ==> fs.g.dirbase + fs.g.nRootdir / 16 <= fs.g.database
    {
      hide FATFS.Valid, Geometry.Sane, Volume;
      Facts();
      DirGeometry(fs.g);
    }

    /** Writes the new entry at the current place. */
    method PutName()
      requires fs.Valid() && Here() && |fn| == 12
      modifies fs`disk, fs`winsect, fs`wflag, fs`img, fs`fat, fs.win
      ensures fs.Valid() && Here() && fs.fat == old(fs.fat) && sect < |old(fs.img)| && dir + 32 <= 512
      ensures fs.img == old(fs.img)[sect := Splice(old(fs.img)[sect], dir, NewEntry(fn))]
      ensures fs.winsect == sect && sect < |fs.img| && fs.win[..] == fs.img[sect]
    {
      hide FATFS.Valid, Locate, Splice, NewEntry, Geometry.FatEnd;
      InVolume();
      fs.MoveWindow(sect);
      fs.PatchData(dir, seq(32, i => 0));
      fs.PatchData(dir, fn[..11]);
      fs.PatchData(dir + DIR_NTRES, [(fn[11] as int / 8 % 4 * 8) as Byte]);
      NewEntryBytes(old(fs.img)[sect], dir, fn);
      fs.Facts();
    }
  }

  /** How a lookup that came as far as entry `n` ends: at a match; at an entry that ends the directory, the
      end of the table or of the index range; or at a table that cannot be followed. */
  ghost predicate FindResult(g: Geometry, img: Image, fat: seq<nat>, sclust: nat, name: seq<Byte>, n: nat, res: FResult)
    requires 0 < g.csize && |fat| == g.maxClust && (g.fsType == Fat32 ==> g.ValidCluster(g.dirbase)) && |name| >= 11
  {
    var p := Locate(g, fat, sclust, n);
    match res
    case Ok => n < MAX_INDEX && p.At? && p.sect < |img|
               && EntryOf(g, img, fat, sclust, n)[0] != 0 && Matches(EntryOf(g, img, fat, sclust, n), name)
    case NoFile => n == MAX_INDEX || (p == End && n > 0) || (p.At? && p.sect < |img| && EntryOf(g, img, fat, sclust, n)[0] == 0)
    case IntErr => n < MAX_INDEX && (p == Broken || (p == End && n == 0))
    case _ => false
  }

  /** The cluster of entry `idx` in the chain from `start`, and the entry's number in it; 0 when the chain ends
      before. */
  ghost predicate Followed(g: Geometry, fat: seq<nat>, start: nat, idx: nat, clst: nat, rest: nat)
  {
    && |fat| == g.maxClust && g.ValidCluster(start) && 0 < g.csize
    && var p := Follow(g, fat, start, idx / 16 / g.csize);
       if clst == 0 then !p.At?
       else p == At(clst, 0) && g.ValidCluster(clst) && rest / 16 == idx / 16 % g.csize && rest % 16 == idx % 16
  }

  lemma FollowNone(g: Geometry, fat: seq<nat>, c: nat)
    requires |fat| == g.maxClust && g.ValidCluster(c)
    ensures Follow(g, fat, c, 0) == At(c, 0)
  {
  }

  lemma FollowOn(g: Geometry, fat: seq<nat>, c: nat, n: nat)
    requires |fat| == g.maxClust && g.ValidCluster(c) && Follow(g, fat, c, n).At?
    ensures var d := Follow(g, fat, c, n).clust;
      Follow(g, fat, c, n + 1) == if fat[d] < 2 then Broken else if fat[d] >= g.maxClust then End else At(fat[d], 0)
  {
  }

  /** Cluster and offset of an entry, from what the loop subtracts. */
  lemma EntryCluster(idx: nat, rest: nat, n: nat, ic: nat, d: nat)
    requires d > 0 && ic == 16 * d && idx == rest + n * ic
    ensures n <= idx / 16 / d && (rest >= ic ==> n < idx / 16 / d)
    ensures rest < ic ==> n == idx / 16 / d && rest / 16 == idx / 16 % d && rest % 16 == idx % 16
  {
    assert n * ic == 16 * (n * d);
    assert idx / 16 == rest / 16 + n * d;
    var q := rest / 16 / d;
    assert rest / 16 == q * d + rest / 16 % d;
    assert (q + n) * d == q * d + n * d;
    DivModUnique(idx / 16, d, q + n, rest / 16 % d);
    if rest >= ic { DivAbove(rest / 16, d, 1); } else { DivModUnique(rest / 16, d, 0, rest / 16); }
  }
}
