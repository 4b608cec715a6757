/** Several files open on one volume do not disturb each other. */
module Isolation {
  import opened Bytes
  import opened Layout
  import opened Chains
  import opened FileView
  import opened FilePosition
  import opened FileSystem
  import opened DirEntry
  import opened File
  import opened DirTable
  import opened DirView
  import opened Path
  import opened OpenFile
  import Creation

  /** A volume that went on from one state to another by growing and writing chain `c0`, now `c`. */
  lemma OtherFileStays(other: FIL, g: Geometry, img0: Image, chains0: set<seq<nat>>, c0: seq<nat>, c: seq<nat>,
                       size: nat, pos: nat, bytes: seq<Byte>)
    requires other.fs.Sound() && g == other.fs.g
    requires c == [] || c in other.fs.chains
    requires Written(g, img0, c0, other.fs.img, c, size, pos, bytes)
    requires ChainsMoved(chains0, c0, other.fs.chains, c)
    requires other.chain == [] || (other.chain in chains0 && other.chain != c0)
    requires other.fsize <= 512 * Sectors(g, other.chain)
    ensures other.chain == [] || other.chain in other.fs.chains
    ensures OnVolume(g, img0, other.chain) && OnVolume(g, other.fs.img, other.chain)
    ensures Content(g, other.fs.img, other.chain, 0, other.fsize) == Content(g, img0, other.chain, 0, other.fsize)
  {
    hide FATFS.Valid, Content, Sectors, IsChain;
    other.fs.Facts();
    if other.chain != [] { OthersStay(chains0, c0, other.fs.fat, other.fs.chains, c, other.chain); }
    ChainOnVolume(g, other.fs.img, other.fs.fat, other.fs.chains, other.chain);
    hide Volume, OwnSector;
    assert Disjoint(other.chain, c);
    OtherFile(g, img0, other.fs.img, c, other.chain, 0, other.fsize);
  }

  /** Writing one file leaves every other open file as it was: position, size, chain and bytes. */
  method WriteBeside(fp: FIL, other: FIL, data: seq<Byte>) returns (res: FResult, bw: nat)
    requires fp.Valid() && other.Valid() && fp != other && fp.fs == other.fs && |data| < DWORD
    requires other.chain == [] || other.chain != fp.chain
    modifies fp, fp.fs, fp.fs.win
    ensures fp.Valid() && other.Valid()
    ensures OnVolume(other.fs.g, old(other.fs.img), other.chain) && OnVolume(other.fs.g, other.fs.img, other.chain)
    ensures other.fsize <= 512 * Sectors(other.fs.g, other.chain)
    ensures Content(other.fs.g, other.fs.img, other.chain, 0, other.fsize)
         == Content(other.fs.g, old(other.fs.img), other.chain, 0, other.fsize)
  {
    hide FATFS.Valid, Content, Sectors, Volume, Written, ChainsMoved, OnVolume, Placed;
    other.SizeFits();
    ghost var chain0, chains0, img0, size, pos := fp.chain, fp.fs.chains, fp.fs.img, fp.fsize, fp.fptr;
    res, bw := fp.Write(data);
    OtherFileStays(other, fp.fs.g, img0, chains0, chain0, fp.chain, size, pos, data[..bw]);
  }

  /** So does seeking, also when it stretches the file. */
  method SeekBeside(fp: FIL, other: FIL, target: nat) returns (res: FResult)
    requires fp.Valid() && other.Valid() && fp != other && fp.fs == other.fs && target < DWORD
    requires other.chain == [] || other.chain != fp.chain
    modifies fp, fp.fs, fp.fs.win
    ensures fp.Valid() && other.Valid()
    ensures OnVolume(other.fs.g, old(other.fs.img), other.chain) && OnVolume(other.fs.g, other.fs.img, other.chain)
    ensures other.fsize <= 512 * Sectors(other.fs.g, other.chain)
    ensures Content(other.fs.g, other.fs.img, other.chain, 0, other.fsize)
         == Content(other.fs.g, old(other.fs.img), other.chain, 0, other.fsize)
  {
    hide FATFS.Valid, Content, Sectors, Volume, Written, ChainsMoved, OnVolume, Placed;
    other.SizeFits();
    ghost var chain0, chains0, img0, size := fp.chain, fp.fs.chains, fp.fs.img, fp.fsize;
    res := fp.Seek(target);
    OtherFileStays(other, fp.fs.g, img0, chains0, chain0, fp.chain, size, 0, []);
  }

  /** A file's bytes do not change when only sectors of a directory do. */
  lemma FileBesideDir(g: Geometry, img: Image, img': Image, dch: seq<nat>, other: seq<nat>, n: nat)
    requires DirOnly(g, img, img', dch) && OnVolume(g, img, other) && Disjoint(other, dch) && n <= 512 * Sectors(g, other)
    ensures OnVolume(g, img', other) && Content(g, img', other, 0, n) == Content(g, img, other, 0, n)
  {
    hide Disjoint, OwnSector, FileByte, Sectors;
    if dch != [] {
      OtherFile(g, img, img', dch, other, 0, n);
    } else {
      var a, b := Content(g, img', other, 0, n), Content(g, img, other, 0, n);
      forall i | 0 <= i < n
        ensures a[i] == b[i]
      {
        ByteBesideRoot(g, img, img', other, i);
      }
    }
  }

  lemma ByteBesideRoot(g: Geometry, img: Image, img': Image, other: seq<nat>, j: nat)
    requires DirOnly(g, img, img', []) && OnVolume(g, img, other) && j / 512 < Sectors(g, other)
    ensures OnVolume(g, img', other) && FileByte(g, img', other, j) == FileByte(g, img, other, j)
  {
    FileSectInVolume(g, img, other, j / 512);
  }

  /** Opening left every chain but the directory's and the opened file's. */
  lemma OpenLeaves(fs: FATFS, img: Image, fat: seq<nat>, chains: set<seq<nat>>, t: Target, m: Mode, fp: FIL,
                   dch: seq<nat>, fch: seq<nat>, dch': seq<nat>, k: nat, other: seq<nat>)
    requires fs.Sound() && Volume(fat, chains)
    requires 0 < fs.g.csize && |fat| == fs.g.maxClust && (fs.g.fsType == Fat32 ==> fs.g.ValidCluster(fs.g.dirbase))
    requires t.Object? ==> Locate(fs.g, fat, t.dir, t.n).At? && Locate(fs.g, fat, t.dir, t.n).sect < |img|
    requires OpenedAs(fs, img, fat, chains, t, m, fp, dch, fch, dch', k) && Known(fs.g, img, fat, chains, t, dch, fch)
    requires other in chains && other != dch && other != fch
    ensures other in fs.chains && Disjoint(other, dch') && DirOnly(fs.g, img, fs.img, dch')
  {
    hide FATFS.Valid, IsChain, Fresh, DirFits, View, Locate, EntryOf, NoVacancy, OwnedBy, Disjoint, DirOwns;
    if t.Missing? {
      OthersStay(chains, dch, fs.fat, fs.chains, dch', other);
    } else if dch == [] {
      assert Disjoint(other, []) by { NoneOn(other); }
    }
  }

  /** A directory that was stretched still owns the sectors it had; the static root is not stretched. */
  lemma StillOwns(g: Geometry, fat: seq<nat>, chains: set<seq<nat>>, sclust: nat, dch: seq<nat>,
                  fat': seq<nat>, chains': set<seq<nat>>, dch': seq<nat>, x: nat)
    requires IsDir(g, fat, chains, sclust, dch) && IsDir(g, fat', chains', sclust, dch') && dch <= dch' && DirOwns(g, dch, x)
    ensures DirOwns(g, dch', x) && (dch == [] ==> dch' == [])
  {
    if dch == [] && dch' != [] { HeadIsCluster(fat', chains', dch'); }
  }

  /** Opening left the entry of every other file in its directory, also where that directory was stretched for it. */
  lemma OtherEntered(fs: FATFS, img: Image, fat: seq<nat>, chains: set<seq<nat>>, t: Target, m: Mode, fp: FIL,
                     dch: seq<nat>, fch: seq<nat>, dch': seq<nat>, k: nat, other: FIL, odch: seq<nat>)
    requires fs.Sound() && Volume(fat, chains) && other.fs == fs
    requires 0 < fs.g.csize && |fat| == fs.g.maxClust && (fs.g.fsType == Fat32 ==> fs.g.ValidCluster(fs.g.dirbase))
    requires t.Object? ==> Locate(fs.g, fat, t.dir, t.n).At? && Locate(fs.g, fat, t.dir, t.n).sect < |img|
    requires OpenedAs(fs, img, fat, chains, t, m, fp, dch, fch, dch', k) && Known(fs.g, img, fat, chains, t, dch, fch)
    requires (odch == [] || odch in chains) && (fch == [] || fch != odch)
    requires DirOwns(fs.g, odch, other.dirSect) && other.dirSect < |img| && other.dirPtr + ENTRY_SIZE <= 512
    requires other.chain == [] || (other.chain in chains && other.chain != odch && other.chain != dch)
    ensures other.Entered(Creation.ChainAfter(odch, dch, dch')) && (other.chain == [] || other.chain != dch')
  {
    hide FATFS.Valid, IsChain, Fresh, DirFits, View, Locate, EntryOf, NoVacancy, OwnedBy, Disjoint, Pristine, AtEntry;
    if t.Missing? {
      if odch == dch {
        StillOwns(fs.g, fat, chains, t.dir, dch, fs.fat, fs.chains, dch', other.dirSect);
      } else if odch != [] {
        OthersStay(chains, dch, fs.fat, fs.chains, dch', odch);
      }
    }
  }

  lemma NoneOn(other: seq<nat>)
    ensures Disjoint(other, [])
  {
  }

  /** Opening, creating or emptying a file leaves every other open file as it was, with its entry in its directory. */
  method OpenBeside(fs: FATFS, other: FIL, path: seq<Byte>, m: Mode, time: nat, ghost dch: seq<nat>, ghost fch: seq<nat>,
                    ghost odch: seq<nat>)
    returns (res: FResult, fp: FIL?, ghost dch': seq<nat>)
    requires fs.Sound() && time < DWORD && other.Valid() && other.fs == fs
    requires RootPath(path) || Known(fs.g, fs.img, fs.fat, fs.chains, Led(fs, path), dch, fch)
    requires other.chain == [] || (other.chain != dch && other.chain != fch)
    modifies fs, fs.win
    ensures fs.Sound() && other.Valid()
    ensures OnVolume(fs.g, old(fs.img), other.chain) && OnVolume(fs.g, fs.img, other.chain)
    ensures other.fsize <= 512 * Sectors(fs.g, other.chain)
    ensures Content(fs.g, fs.img, other.chain, 0, other.fsize) == Content(fs.g, old(fs.img), other.chain, 0, other.fsize)
    ensures old(other.Entered(odch)) && (fch == [] || fch != odch) ==>
      other.Entered(Creation.ChainAfter(odch, dch, dch')) && (other.chain == [] || other.chain != dch')
  {
    hide FATFS.Valid, Content, Sectors, Volume, OnVolume, Placed, OpenedAs, Known, OpenResult, DirOnly, DirOwns;
    other.SizeFits();
    other.Facts();
    fs.Facts();
    VolumeFacts(fs);
    ghost var img0, fat0, chains0, t := fs.img, fs.fat, fs.chains, Led(fs, path);
    ghost var k;
    res, fp, dch', k := Open(fs, path, m, time, dch, fch);
    fs.Facts();
    if res == Ok {
      if other.chain != [] {
        OpenLeaves(fs, img0, fat0, chains0, t, m, fp, dch, fch, dch', k, other.chain);
        FileBesideDir(fs.g, img0, fs.img, dch', other.chain, other.fsize);
      }
      if old(other.Entered(odch)) && (fch == [] || fch != odch) {
        OtherEntered(fs, img0, fat0, chains0, t, m, fp, dch, fch, dch', k, other, odch);
      }
    } else {
      dch' := dch;
    }
    ChainOnVolume(fs.g, fs.img, fs.fat, fs.chains, other.chain);
    if other.chain == [] { NoBytes(fs.g, img0, fs.img, other.fsize); }
  }

  lemma NoBytes(g: Geometry, img: Image, img': Image, n: nat)
    requires OnVolume(g, img, []) && OnVolume(g, img', []) && n <= 512 * Sectors(g, [])
    ensures Content(g, img', [], 0, n) == Content(g, img, [], 0, n)
  {
  }
}
