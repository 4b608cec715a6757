/** Files opened beside others, and then worked on together. */
module Company {
  import opened Bytes
  import opened Layout
  import opened Chains
  import opened FileView
  import opened FilePosition
  import opened FileSystem
  import opened DirEntry
  import opened DirTable
  import opened DirView
  import opened Path
  import opened File
  import opened OpenFile
  import opened Creation
  import opened Session
  import opened Isolation
  import opened Sharing

  /** The directories afterwards: one of them may have been stretched for a new entry. */
  function DirsAfter(dchs: seq<seq<nat>>, dch: seq<nat>, dch': seq<nat>): (r: seq<seq<nat>>)
    ensures |r| == |dchs| && forall j :: 0 <= j < |dchs| ==> r[j] == ChainAfter(dchs[j], dch, dch')
  {
    seq(|dchs|, j requires 0 <= j < |dchs| => ChainAfter(dchs[j], dch, dch'))
  }

  /** The file to be opened, and its directory, are none of the open files, and it is no directory of theirs. */
  ghost predicate Newcomer(files: seq<FIL>, dchs: seq<seq<nat>>, dch: seq<nat>, fch: seq<nat>)
    reads files
  {
    && (forall j :: 0 <= j < |files| ==> ApartFrom(files[j].chain, dch) && ApartFrom(files[j].chain, fch))
    && forall j :: 0 <= j < |dchs| ==> ApartFrom(fch, dchs[j])
  }

  /** What opening a file leaves of another one: its bytes, and its entry in its directory. */
  lemma OpenedBeside(fs: FATFS, img: Image, fat: seq<nat>, chains: set<seq<nat>>, t: Target, m: Mode, fp: FIL,
                     dch: seq<nat>, fch: seq<nat>, dch': seq<nat>, k: nat, other: FIL, odch: seq<nat>)
    requires fs.Sound() && Volume(fat, chains) && other.fs == fs && |fs.img| == |img|
    requires 0 < fs.g.csize && |fat| == fs.g.maxClust && (fs.g.fsType == Fat32 ==> fs.g.ValidCluster(fs.g.dirbase))
    requires t.Object? ==> Locate(fs.g, fat, t.dir, t.n).At? && Locate(fs.g, fat, t.dir, t.n).sect < |img|
    requires OpenedAs(fs, img, fat, chains, t, m, fp, dch, fch, dch', k) && Known(fs.g, img, fat, chains, t, dch, fch)
    requires StandsOn(other, odch, img, chains) && ApartFrom(fch, odch)
    requires ApartFrom(other.chain, odch) && ApartFrom(other.chain, dch) && ApartFrom(other.chain, fch)
    ensures other.Valid() && other.Entered(ChainAfter(odch, dch, dch')) && ApartFrom(other.chain, dch')
    ensures OnVolume(fs.g, img, other.chain) && other.fsize <= 512 * Sectors(fs.g, other.chain)
    ensures PlainOf(other) == PlainOn(other, img)
  {
    hide FATFS.Valid, Volume, OnVolume, Content, Sectors, Placed, OpenedAs, Known, DirOnly, DirOwns, Locate, FIL.Entered;
    fs.Facts();
    OtherEntered(fs, img, fat, chains, t, m, fp, dch, fch, dch', k, other, odch);
    if other.chain != [] { OpenLeaves(fs, img, fat, chains, t, m, fp, dch, fch, dch', k, other.chain); }
    ValidParts(other);
    ChainOnVolume(fs.g, fs.img, fs.fat, fs.chains, other.chain);
    SameSizeOnVolume(fs.g, fs.img, img, other.chain);
    if other.chain != [] {
      FileBesideDir(fs.g, img, fs.img, dch', other.chain, other.fsize);
    } else {
      NoBytes(fs.g, img, fs.img, other.fsize);
    }
  }

  /** The opened file itself. */
  lemma OpenedReady(fs: FATFS, img: Image, fat: seq<nat>, chains: set<seq<nat>>, t: Target, m: Mode, fp: FIL,
                    dch: seq<nat>, fch: seq<nat>, dch': seq<nat>, k: nat)
    requires 0 < fs.g.csize && |fat| == fs.g.maxClust && (fs.g.fsType == Fat32 ==> fs.g.ValidCluster(fs.g.dirbase))
    requires t.Object? ==> Locate(fs.g, fat, t.dir, t.n).At? && Locate(fs.g, fat, t.dir, t.n).sect < |img|
    requires OpenedAs(fs, img, fat, chains, t, m, fp, dch, fch, dch', k)
    ensures Ready(fp, fs, dch') && (fp.chain == [] || (fp.chain == fch && dch' == dch))
    ensures AccessOf(fp) == Access(m.read, m.write)
    ensures (t.Object? ==> dch' == dch) && |fs.img| == |img|
  {
    hide FATFS.Valid, FIL.Valid, FIL.Entered, AtEntry, Locate, EntryOf, View, IsDir, Registered, Pristine, DirOwns,
         FileSize;
  }

  /** Nothing happened to the volume. */
  lemma StillReady(fs: FATFS, fp: FIL, dch: seq<nat>)
    requires fs.Sound() && fp.fs == fs && StandsOn(fp, dch, fs.img, fs.chains) && ApartFrom(fp.chain, dch)
    ensures fp.Valid() && fp.Entered(dch)
    ensures OnVolume(fs.g, fs.img, fp.chain) && fp.fsize <= 512 * Sectors(fs.g, fp.chain)
    ensures PlainOf(fp) == PlainOn(fp, fs.img)
  {
    hide FATFS.Valid, Volume, Placed, Sectors, DirOwns, Content, OnVolume;
    ValidParts(fp);
    fp.OwnsFacts();
  }

  /** Opening, creating or emptying a file beside others that are open: it joins them, and they stay as they were. */
  method OpenAmong(files: seq<FIL>, fs: FATFS, path: seq<Byte>, m: Mode, time: nat, ghost dchs: seq<seq<nat>>,
                   ghost dch: seq<nat>, ghost fch: seq<nat>)
    returns (res: FResult, fp: FIL?, ghost dch': seq<nat>, ghost k: nat)
    requires fs.Sound() && Together(files, fs, dchs) && time < DWORD && Newcomer(files, dchs, dch, fch)
    requires RootPath(path) || Known(fs.g, fs.img, fs.fat, fs.chains, Led(fs, path), dch, fch)
    modifies fs, fs.win
    ensures fs.Sound() && (old(fs.Counted()) ==> fs.Counted()) && (old(fs.Noted()) ==> fs.Noted())
    ensures (fp != null <==> res == Ok) && (fp != null ==> fresh(fp))
    ensures !RootPath(path) ==> OpenResult(fs.g, old(fs.img), old(fs.fat), old(Led(fs, path)), m, dch, res)
    ensures res == Ok ==>
      && OpenedAs(fs, old(fs.img), old(fs.fat), old(fs.chains), old(Led(fs, path)), m, fp, dch, fch, dch', k)
      && Together(files + [fp], fs, DirsAfter(dchs, dch, dch') + [dch'])
    ensures res != Ok ==>
      fs.img == old(fs.img) && fs.fat == old(fs.fat) && fs.chains == old(fs.chains) && Together(files, fs, dchs)
    ensures forall j :: 0 <= j < |files| ==> files[j].Valid() && PlainOf(files[j]) == old(PlainOf(files[j]))
  {
    hide FATFS.Valid, Volume, OnVolume, Content, Sectors, Placed, OpenedAs, Known, DirOnly, DirOwns, Locate, FIL.Entered,
         FIL.Valid, StandsOn, PlainOn, PlainOf, OpenResult, FATFS.Counted, FATFS.Noted;
    ghost var img0, fat0, chains0, t := fs.img, fs.fat, fs.chains, Led(fs, path);
    fs.Facts();
    VolumeFacts(fs);
    forall j | 0 <= j < |files|
      ensures StandsOn(files[j], dchs[j], img0, chains0) && files[j].Valid()
      ensures OnVolume(fs.g, img0, files[j].chain) && files[j].fsize <= 512 * Sectors(fs.g, files[j].chain)
      ensures PlainOf(files[j]) == PlainOn(files[j], img0)
    {
      assert Ready(files[j], fs, dchs[j]);
      ValidStands(files[j], dchs[j]);
    }
    res, fp, dch', k := Open(fs, path, m, time, dch, fch);
    fs.Facts();
    if res == Ok {
      OpenedReady(fs, img0, fat0, chains0, t, m, fp, dch, fch, dch', k);
      forall j | 0 <= j < |files|
        ensures Ready(files[j], fs, ChainAfter(dchs[j], dch, dch')) && PlainOf(files[j]) == old(PlainOf(files[j]))
        ensures ApartFrom(files[j].chain, dch')
      {
        assert StandsOn(files[j], dchs[j], img0, chains0);
        OpenedBeside(fs, img0, fat0, chains0, t, m, fp, dch, fch, dch', k, files[j], dchs[j]);
      }
      Joined(files, fs, dchs, dch, fch, fp, dch');
    } else {
      forall j | 0 <= j < |files|
        ensures Ready(files[j], fs, dchs[j]) && PlainOf(files[j]) == old(PlainOf(files[j]))
      {
        assert StandsOn(files[j], dchs[j], img0, chains0);
        StillReady(fs, files[j], dchs[j]);
      }
    }
  }

  /** The opened file and the others. */
  lemma Joined(files: seq<FIL>, fs: FATFS, dchs: seq<seq<nat>>, dch: seq<nat>, fch: seq<nat>, fp: FIL, dch': seq<nat>)
    requires Apart(files, dchs) && Newcomer(files, dchs, dch, fch) && fp !in files && Ready(fp, fs, dch')
    requires fp.chain == [] || (fp.chain == fch && dch' == dch)
    requires forall j :: 0 <= j < |files| ==> ApartFrom(files[j].chain, dch')
    requires forall j :: 0 <= j < |files| ==> Ready(files[j], fs, ChainAfter(dchs[j], dch, dch'))
    ensures Together(files + [fp], fs, DirsAfter(dchs, dch, dch') + [dch'])
  {
    hide FATFS.Valid, FIL.Valid, DirOwns;
  }

  // ---- several files from the start ----

  /** The path leads to a file of the chain `fch`, in a directory of the chain `dch`. */
  ghost predicate LeadsToFile(v: Vol, path: seq<Byte>, dch: seq<nat>, fch: seq<nat>)
    requires Usable(v)
  {
    var t := TargetOf(v, path);
    && !RootPath(path) && t.Object? && Known(v.g, v.img, v.fat, v.chains, t, dch, fch)
    && !HasAttr(EntryOf(v.g, v.img, v.fat, t.dir, t.n)[DIR_ATTR], AM_DIR)
  }

  /** The file as it lies on the volume. */
  ghost function OnDisk(v: Vol, path: seq<Byte>, dch: seq<nat>, fch: seq<nat>): (p: Plain)
    requires Usable(v) && LeadsToFile(v, path, dch, fch)
  {
    var t := TargetOf(v, path);
    var size := FileSize(EntryOf(v.g, v.img, v.fat, t.dir, t.n));
    ChainOnVolume(v.g, v.img, v.fat, v.chains, fch);
    Plain(Content(v.g, v.img, fch, 0, size), 0, |fch|)
  }

  /** Attributes and mode agree. */
  ghost predicate Opens(v: Vol, path: seq<Byte>, m: Mode)
    requires Usable(v)
  {
    var t := TargetOf(v, path);
    t.Object? && ObjectResult(EntryOf(v.g, v.img, v.fat, t.dir, t.n)[DIR_ATTR], m) == Ok
  }

  /** Different files of the volume, none of them a directory of another. */
  ghost predicate Distinct(dchs: seq<seq<nat>>, fchs: seq<seq<nat>>)
  {
    && |dchs| == |fchs|
    && (forall j, k :: 0 <= j < |fchs| && 0 <= k < |fchs| && j != k ==> ApartFrom(fchs[j], fchs[k]))
    && forall j, k :: 0 <= j < |fchs| && 0 <= k < |fchs| ==> ApartFrom(fchs[j], dchs[k])
  }

  /** The paths lead to different files of the volume, which are to be opened as they are. */
  ghost predicate AllLead(v: Vol, paths: seq<seq<Byte>>, modes: seq<Mode>, dchs: seq<seq<nat>>, fchs: seq<seq<nat>>)
    requires Usable(v)
  {
    && |paths| == |modes| == |dchs| == |fchs| && Distinct(dchs, fchs)
    && forall j :: 0 <= j < |paths| ==> LeadsToFile(v, paths[j], dchs[j], fchs[j]) && !modes[j].createAlways
  }

  /** What the user sees of a file just opened. */
  ghost predicate AsOnDisk(p: Plain, access: Access, v: Vol, path: seq<Byte>, m: Mode, dch: seq<nat>, fch: seq<nat>)
    requires Usable(v)
  {
    LeadsToFile(v, path, dch, fch) && p == OnDisk(v, path, dch, fch) && access == Access(m.read, m.write)
  }

  /** A file opened as it is, beside others opened so. */
  method OpenOneMore(files: seq<FIL>, fs: FATFS, path: seq<Byte>, m: Mode, time: nat, ghost dchs: seq<seq<nat>>,
                     ghost dch: seq<nat>, ghost fch: seq<nat>)
    returns (res: FResult, fp: FIL?)
    requires fs.Sound() && Together(files, fs, dchs) && time < DWORD && Newcomer(files, dchs, dch, fch)
    requires Usable(VolOf(fs)) && LeadsToFile(VolOf(fs), path, dch, fch) && !m.createAlways
    modifies fs, fs.win
    ensures fs.Sound() && (old(fs.Counted()) ==> fs.Counted()) && (old(fs.Noted()) ==> fs.Noted())
    ensures VolOf(fs) == old(VolOf(fs)) && (fp != null <==> res == Ok)
    ensures (res == Ok <==> Opens(old(VolOf(fs)), path, m)) && (res != Ok ==> Together(files, fs, dchs))
    ensures res == Ok ==>
      && fresh(fp) && Together(files + [fp], fs, dchs + [dch]) && fp.Valid() && fp.chain == fch
      && AsOnDisk(PlainOf(fp), AccessOf(fp), VolOf(fs), path, m, dch, fch)
    ensures forall j :: 0 <= j < |files| ==> files[j].Valid() && PlainOf(files[j]) == old(PlainOf(files[j]))
  {
    hide FATFS.Valid, Volume, OnVolume, Content, Sectors, Placed, Known, DirOnly, DirOwns, Locate, FIL.Entered,
         FIL.Valid, PlainOf, FATFS.Counted, FATFS.Noted, EntryOf, Walk, PathStart, FileSize, AtEntry, HasAttr, EntryAt,
         Usable;
    ghost var v, t, dch', k := VolOf(fs), Led(fs, path), dch, 0;
    assert t == TargetOf(v, path);
    VolumeFacts(fs);
    res, fp, dch', k := OpenAmong(files, fs, path, m, time, dchs, dch, fch);
    VolumeFacts(fs);
    if res == Ok {
      OpenedReady(fs, v.img, v.fat, v.chains, t, m, fp, dch, fch, dch', k);
      PlainIs(fp);
      assert DirsAfter(dchs, dch, dch) == dchs;
    }
  }

  lemma PlainIs(fp: FIL)
    requires fp.Valid()
    ensures OnVolume(fp.fs.g, fp.fs.img, fp.chain) && fp.fsize <= 512 * Sectors(fp.fs.g, fp.chain)
    ensures PlainOf(fp) == Plain(Content(fp.fs.g, fp.fs.img, fp.chain, 0, fp.fsize), fp.fptr, |fp.chain|)
  {
    hide FATFS.Valid, Volume, OnVolume, Content, Sectors, Placed;
    fp.OwnsFacts();
  }

  lemma NoFiles(fs: FATFS)
    ensures Together([], fs, [])
  {
  }

  lemma NewOne(v: Vol, files: seq<FIL>, paths: seq<seq<Byte>>, modes: seq<Mode>, dchs: seq<seq<nat>>, fchs: seq<seq<nat>>)
    requires Usable(v) && AllLead(v, paths, modes, dchs, fchs) && |files| < |paths|
    requires forall j :: 0 <= j < |files| ==> files[j].chain == fchs[j]
    ensures var n := |files|;
      && Newcomer(files, dchs[..n], dchs[n], fchs[n]) && LeadsToFile(v, paths[n], dchs[n], fchs[n]) && !modes[n].createAlways
  {
    hide Usable, LeadsToFile;
  }

  /** Opens different files of the volume as they are; all of them, if attributes and modes agree. */
  method OpenEach(fs: FATFS, paths: seq<seq<Byte>>, modes: seq<Mode>, time: nat, ghost dchs: seq<seq<nat>>,
                  ghost fchs: seq<seq<nat>>)
    returns (ok: bool, files: seq<FIL>)
    requires fs.Sound() && time < DWORD && Usable(VolOf(fs)) && AllLead(VolOf(fs), paths, modes, dchs, fchs)
    modifies fs, fs.win
    ensures fs.Sound() && (old(fs.Counted()) ==> fs.Counted()) && (old(fs.Noted()) ==> fs.Noted())
    ensures VolOf(fs) == old(VolOf(fs)) && fresh(files) && |files| <= |paths| && Together(files, fs, dchs[..|files|])
    ensures forall j :: 0 <= j < |files| ==>
      && files[j].Valid() && files[j].chain == fchs[j]
      && AsOnDisk(PlainOf(files[j]), AccessOf(files[j]), old(VolOf(fs)), paths[j], modes[j], dchs[j], fchs[j])
    ensures ok ==> |files| == |paths|
    ensures ok <==> forall j :: 0 <= j < |paths| ==> Opens(old(VolOf(fs)), paths[j], modes[j])
  {
    hide FATFS.Valid, Volume, FIL.Valid, FATFS.Counted, FATFS.Noted, LeadsToFile, Opens, Distinct, Usable, PlainOf, OnDisk,
         FIL.Entered, AsOnDisk, Together, Newcomer;
    files := [];
    ghost var v := VolOf(fs);
    NoFiles(fs);
    assert dchs[..0] == [];
    while |files| < |paths|
      invariant |files| <= |paths| && fs.Sound() && VolOf(fs) == v
      invariant (old(fs.Counted()) ==> fs.Counted()) && (old(fs.Noted()) ==> fs.Noted())
      invariant fresh(files) && Together(files, fs, dchs[..|files|])
      invariant forall j :: 0 <= j < |files| ==>
        && files[j].Valid() && files[j].chain == fchs[j]
        && AsOnDisk(PlainOf(files[j]), AccessOf(files[j]), v, paths[j], modes[j], dchs[j], fchs[j])
      invariant forall j :: 0 <= j < |files| ==> Opens(v, paths[j], modes[j])
      decreases |paths| - |files|
    {
      var n := |files|;
      NewOne(v, files, paths, modes, dchs, fchs);
      var res, fp := OpenOneMore(files, fs, paths[n], modes[n], time, dchs[..n], dchs[n], fchs[n]);
      if res != Ok { return false, files; }
      assert dchs[..n + 1] == dchs[..n] + [dchs[n]];
      files := files + [fp];
    }
    ok := true;
  }

  /** Opens different files of the volume as they are, and works on them in any interleaving: each begins with its bytes
      on the volume. */
  method WorkTogether(fs: FATFS, paths: seq<seq<Byte>>, modes: seq<Mode>, time: nat, script: seq<Call>,
                      ghost dchs: seq<seq<nat>>, ghost fchs: seq<seq<nat>>)
    returns (ok: bool, replies: seq<Reply>, ghost states: seq<Shared>, ghost access: seq<Access>)
    requires fs.Sound() && time < DWORD && Usable(VolOf(fs)) && AllLead(VolOf(fs), paths, modes, dchs, fchs)
    requires forall t :: 0 <= t < |script| ==> script[t].file < |paths| && InRange(script[t].op)
    modifies fs, fs.win
    ensures fs.Sound() && (old(fs.Counted()) ==> fs.Counted()) && (old(fs.Noted()) ==> fs.Noted())
    ensures ok <==> forall j :: 0 <= j < |paths| ==> Opens(old(VolOf(fs)), paths[j], modes[j])
    ensures ok ==> Interleaved(states, script, replies, access, UnitOf(fs))
    ensures ok ==> |access| == |paths| == |states[0].files| && states[0].free == FreeCount(old(fs.fat))
    ensures ok ==> forall j :: 0 <= j < |paths| ==>
      AsOnDisk(states[0].files[j], access[j], old(VolOf(fs)), paths[j], modes[j], dchs[j], fchs[j])
    ensures ok ==> states[|script|].free == FreeCount(fs.fat)
  {
    hide FATFS.Valid, Volume, FIL.Valid, FATFS.Counted, FATFS.Noted, LeadsToFile, Opens, Distinct, Usable, PlainOf, OnDisk,
         FIL.Entered, AsOnDisk, Apart, Moves, FreeCount;
    ghost var v := VolOf(fs);
    var files;
    replies, states, access := [], [], [];
    ok, files := OpenEach(fs, paths, modes, time, dchs, fchs);
    if ok {
      assert dchs[..|files|] == dchs;
      ghost var first;
      first, access := Present(files, fs, dchs);
      replies, states := Interleave(files, fs, script, dchs, first, access);
    }
  }

  /** What the users of the files see. */
  ghost method Present(files: seq<FIL>, fs: FATFS, dchs: seq<seq<nat>>) returns (s: Shared, access: seq<Access>)
    requires Together(files, fs, dchs)
    ensures Shown(files, fs, dchs, s, access)
  {
    hide FIL.Valid, FIL.Entered, PlainOf, FreeCount, ApartFrom;
    s, access := Shared([], FreeCount(fs.fat)), [];
    while |access| < |files|
      invariant |s.files| == |access| <= |files| && s.free == FreeCount(fs.fat)
      invariant forall j :: 0 <= j < |access| ==>
        Ready(files[j], fs, dchs[j]) && s.files[j] == PlainOf(files[j]) && access[j] == AccessOf(files[j])
    {
      var fp := files[|access|];
      assert Ready(fp, fs, dchs[|access|]);
      s, access := s.(files := s.files + [PlainOf(fp)]), access + [AccessOf(fp)];
    }
  }
}
