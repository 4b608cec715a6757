/** Several files open on one volume: in any interleaving each is changed by its own operations alone. */
module Sharing {
  import opened Bytes
  import opened Layout
  import opened Chains
  import opened FileView
  import opened FilePosition
  import opened FileSystem
  import opened DirEntry
  import opened DirView
  import opened File
  import opened Session

  /** File `j` has its entry in the directory with the chain `dchs[j]`; no chain belongs to two files, or to a file
      and a directory. */
  ghost predicate Apart(files: seq<FIL>, dchs: seq<seq<nat>>)
    reads files
  {
    && |dchs| == |files|
    && (forall j, k :: 0 <= j < |files| && 0 <= k < |files| && j != k ==>
          files[j] != files[k] && ApartFrom(files[j].chain, files[k].chain))
    && (forall j, k :: 0 <= j < |files| && 0 <= k < |files| ==> ApartFrom(files[j].chain, dchs[k]))
  }

  predicate ApartFrom(a: seq<nat>, b: seq<nat>) { a == [] || a != b }

  /** A file of the volume, with its entry in the directory `dch`, that no operation has failed on. */
  ghost predicate Ready(fp: FIL, fs: FATFS, dch: seq<nat>)
    reads fp, fs, fs.win
  {
    fp.fs == fs && fp.Valid() && fp.Entered(dch) && !fp.error
  }

  /** Files open on one volume. */
  ghost predicate Together(files: seq<FIL>, fs: FATFS, dchs: seq<seq<nat>>)
    reads files, fs, fs.win
  {
    Apart(files, dchs) && forall j :: 0 <= j < |files| ==> Ready(files[j], fs, dchs[j])
  }

  // ---- what a step of one file leaves of another ----

  lemma ByteBeside(g: Geometry, img: Image, img': Image, ch: seq<nat>, ds: nat, other: seq<nat>, j: nat)
    requires Touched(g, img, img', ch, ds) && OnVolume(g, img, other) && Disjoint(other, ch)
    requires !OwnSector(g, other, ds) && (g.fsType == Fat32 ==> g.fsiSector < g.database) && j / 512 < Sectors(g, other)
    ensures OnVolume(g, img', other) && FileByte(g, img', other, j) == FileByte(g, img, other, j)
  {
    FileSectOwn(g, img, other, j / 512);
    FileSectInVolume(g, img, other, j / 512);
    assert On(other, other[j / 512 / g.csize]);
  }

  lemma BytesBeside(g: Geometry, img: Image, img': Image, ch: seq<nat>, ds: nat, other: seq<nat>, n: nat)
    requires Touched(g, img, img', ch, ds) && OnVolume(g, img, other) && Disjoint(other, ch)
    requires !OwnSector(g, other, ds) && (g.fsType == Fat32 ==> g.fsiSector < g.database) && n <= 512 * Sectors(g, other)
    ensures OnVolume(g, img', other) && Content(g, img', other, 0, n) == Content(g, img, other, 0, n)
  {
    hide FileByte, Disjoint, OwnSector;
    SameSizeOnVolume(g, img, img', other);
    var a, b := Content(g, img', other, 0, n), Content(g, img, other, 0, n);
    forall i | 0 <= i < n
      ensures a[i] == b[i]
    {
      ByteBeside(g, img, img', ch, ds, other, i);
    }
  }

  /** A file whose entry lies elsewhere does not hold it. */
  lemma EntryElsewhere(fp: FIL, other: FIL, dch: seq<nat>)
    requires fp.Owns() && fp.Entered(dch) && other.Owns() && other.fs == fp.fs && ApartFrom(other.chain, dch)
    ensures !OwnSector(fp.fs.g, other.chain, fp.dirSect)
  {
    hide FATFS.Valid, IsChain;
    other.Facts();
    if other.chain != [] && dch != [] { assert Disjoint(other.chain, dch); }
    hide Volume;
  }

  /** Chain `a` of the volume is still there after chain `c0` became `c`, and is still another one. */
  lemma ChainBeside(chains0: set<seq<nat>>, c0: seq<nat>, fs: FATFS, c: seq<nat>, a: seq<nat>)
    requires fs.Sound() && ChainsMoved(chains0, c0, fs.chains, c) && (c == [] || c in fs.chains)
    requires (a == [] || a in chains0) && ApartFrom(c0, a)
    ensures (a == [] || a in fs.chains) && ApartFrom(c, a) && Disjoint(a, c)
  {
    hide FATFS.Valid, IsChain;
    if a != [] { OthersStay(chains0, c0, fs.fat, fs.chains, c, a); }
  }

  /** The file object by itself: its fields fit together. */
  ghost predicate Shaped(fp: FIL)
    reads fp
  {
    && fp.orgClust == (if fp.chain == [] then 0 else fp.chain[0])
    && fp.fptr <= fp.fsize < DWORD && fp.fsize <= 512 * Sectors(fp.fs.g, fp.chain)
    && Placed(fp.fs.g, fp.chain, fp.fptr, fp.csect, fp.currClust, fp.dsect)
  }

  /** A file is sound if it is by itself, the volume is, and the chain is one of the volume's. */
  lemma ValidParts(fp: FIL)
    ensures fp.Valid() ==> fp.Owns()
    ensures fp.Valid() <==> Shaped(fp) && fp.fs.Sound() && (fp.chain == [] || fp.chain in fp.fs.chains)
  {
    hide FATFS.Valid, Volume, Placed, Sectors;
  }

  /** What a file is by itself on a volume with these sectors and chains, with its entry in the directory `dch`. */
  ghost predicate StandsOn(fp: FIL, dch: seq<nat>, img: Image, chains: set<seq<nat>>)
    reads fp
  {
    && Shaped(fp) && (fp.chain == [] || fp.chain in chains) && (dch == [] || dch in chains)
    && DirOwns(fp.fs.g, dch, fp.dirSect) && fp.dirSect < |img| && fp.dirPtr + ENTRY_SIZE <= 512
  }

  /** The file as its user sees it with these sectors. */
  ghost function PlainOn(fp: FIL, img: Image): (p: Plain)
    requires OnVolume(fp.fs.g, img, fp.chain) && fp.fsize <= 512 * Sectors(fp.fs.g, fp.chain)
    reads fp
  {
    Plain(Content(fp.fs.g, img, fp.chain, 0, fp.fsize), fp.fptr, |fp.chain|)
  }

  lemma ValidStands(fp: FIL, dch: seq<nat>)
    requires fp.Valid() && fp.Entered(dch)
    ensures StandsOn(fp, dch, fp.fs.img, fp.fs.chains)
    ensures OnVolume(fp.fs.g, fp.fs.img, fp.chain) && fp.fsize <= 512 * Sectors(fp.fs.g, fp.chain)
    ensures PlainOf(fp) == PlainOn(fp, fp.fs.img)
  {
    hide FATFS.Valid, Volume, Placed, Sectors, DirOwns, Content, OnVolume;
    fp.OwnsFacts();
  }

  /** The file keeps its bytes. */
  lemma OtherContent(fp: FIL, other: FIL, dch: seq<nat>, img0: Image)
    requires other.fs == fp.fs && fp.Owns() && fp.Entered(dch) && other.Owns()
    requires Touched(fp.fs.g, img0, fp.fs.img, fp.chain, fp.dirSect)
    requires ApartFrom(other.chain, dch) && Disjoint(other.chain, fp.chain)
    ensures OnVolume(fp.fs.g, img0, other.chain) && OnVolume(fp.fs.g, fp.fs.img, other.chain)
    ensures other.fsize <= 512 * Sectors(fp.fs.g, other.chain)
    ensures Content(fp.fs.g, fp.fs.img, other.chain, 0, other.fsize) == Content(fp.fs.g, img0, other.chain, 0, other.fsize)
  {
    hide FATFS.Valid, Volume, OnVolume, Content, OwnSector, DirOwns, Sectors, Disjoint;
    other.OwnsFacts();
    fp.fs.Facts();
    fp.FsiBelow();
    EntryElsewhere(fp, other, dch);
    SameSizeOnVolume(fp.fs.g, fp.fs.img, img0, other.chain);
    FirstData(fp.fs.g, fp.fs.img, other.chain);
    BytesBeside(fp.fs.g, img0, fp.fs.img, fp.chain, fp.dirSect, other.chain, other.fsize);
  }

  lemma FirstData(g: Geometry, img: Image, ch: seq<nat>)
    requires OnVolume(g, img, ch)
    ensures g.FatEnd() <= g.database
  {
  }

  /** A step of one file leaves another one as it was. */
  lemma OtherKept(fp: FIL, other: FIL, dch: seq<nat>, odch: seq<nat>, img0: Image, chains0: set<seq<nat>>, c0: seq<nat>)
    requires other.fs == fp.fs && fp.Owns() && fp.Entered(dch) && StandsOn(other, odch, img0, chains0)
    requires Moved(fp.fs.g, img0, chains0, c0, fp.fs.img, fp.fs.chains, fp.chain, fp.dirSect, fp.dirPtr)
    requires ApartFrom(c0, other.chain) && ApartFrom(c0, odch) && ApartFrom(other.chain, dch) && ApartFrom(other.chain, odch)
    ensures other.Valid() && other.Entered(odch) && ApartFrom(fp.chain, other.chain) && ApartFrom(fp.chain, odch)
    ensures OnVolume(fp.fs.g, img0, other.chain) && other.fsize <= 512 * Sectors(fp.fs.g, other.chain)
    ensures PlainOf(other) == PlainOn(other, img0)
  {
    hide FATFS.Valid, Volume, OnVolume, Content, OwnSector, DirOwns, EntryKept, Placed, ChainsMoved, Sectors, Disjoint;
    ChainBeside(chains0, c0, fp.fs, fp.chain, other.chain);
    ChainBeside(chains0, c0, fp.fs, fp.chain, odch);
    ValidParts(other);
    OtherContent(fp, other, dch, img0);
  }

  // ---- a step among others ----

  /** One step of file `i` leaves the others as they were. */
  method StepAmong(files: seq<FIL>, fs: FATFS, i: nat, op: Op, ghost dchs: seq<seq<nat>>) returns (r: Reply)
    requires Together(files, fs, dchs) && i < |files| && InRange(op)
    modifies files[i], fs, fs.win
    ensures Together(files, fs, dchs) && forall j :: 0 <= j < |files| ==> AccessOf(files[j]) == old(AccessOf(files[j]))
    ensures (old(fs.Counted()) ==> fs.Counted()) && (old(fs.Noted()) ==> fs.Noted())
    ensures fs.Sound() && files[i].Valid() && ReachOf(files[i]) == old(ReachOf(files[i]))
    ensures Does(old(PlainOf(files[i])), op, r, PlainOf(files[i]), AccessOf(files[i]), UnitOf(fs), ReachOf(files[i]))
    ensures forall j :: 0 <= j < |files| && j != i ==> files[j].Valid() && PlainOf(files[j]) == old(PlainOf(files[j]))
  {
    hide FIL.Valid, DirOwns, Does, PlainOf, FATFS.Counted, FATFS.Noted, Moved, Shaped, FIL.Owns, FATFS.Valid,
         Volume, OnVolume, Sectors, PlainOn, StandsOn;
    ghost var img0, chains0, c0 := fs.img, fs.chains, files[i].chain;
    assert Ready(files[i], fs, dchs[i]);
    forall j | 0 <= j < |files|
      ensures StandsOn(files[j], dchs[j], img0, chains0) && files[j].Valid()
      ensures OnVolume(fs.g, img0, files[j].chain) && files[j].fsize <= 512 * Sectors(fs.g, files[j].chain)
      ensures PlainOf(files[j]) == PlainOn(files[j], img0)
    {
      assert Ready(files[j], fs, dchs[j]);
      ValidStands(files[j], dchs[j]);
    }
    r := Step(files[i], op, dchs[i]);
    ValidParts(files[i]);
    forall j | 0 <= j < |files| && j != i
      ensures Ready(files[j], fs, dchs[j]) && PlainOf(files[j]) == old(PlainOf(files[j]))
      ensures ApartFrom(files[i].chain, files[j].chain) && ApartFrom(files[j].chain, files[i].chain)
      ensures ApartFrom(files[i].chain, dchs[j])
    {
      assert StandsOn(files[j], dchs[j], img0, chains0);
      OtherKept(files[i], files[j], dchs[i], dchs[j], img0, chains0, c0);
    }
  }

  // ---- interleavings ----

  /** An operation on one of the files. */
  datatype Call = Call(file: nat, op: Op)

  /** What the users of the files see, and the number of free clusters. */
  datatype Shared = Shared(files: seq<Plain>, free: nat)

  /** A run of operations on several files: a step of one file changes what that file's user sees, and only that. */
  ghost predicate Interleaved(states: seq<Shared>, script: seq<Call>, replies: seq<Reply>, access: seq<Access>, unit: nat)
  {
    && |states| == |script| + 1 && |replies| == |script|
    && (forall t :: 0 <= t < |states| ==> |states[t].files| == |access|)
    && forall t :: 0 <= t < |script| ==> Moves(states[t], script[t], replies[t], states[t + 1], access, unit)
  }

  /** The file may take the free clusters to those it has; what it takes is not free any more. */
  ghost predicate Moves(was: Shared, call: Call, r: Reply, now: Shared, access: seq<Access>, unit: nat)
  {
    && call.file < |was.files| == |now.files| == |access|
    && var a, b := was.files[call.file], now.files[call.file];
      && Does(a, call.op, r, b, access[call.file], unit, a.clusters + was.free)
      && now.files == was.files[call.file := b] && now.free + b.clusters == was.free + a.clusters
  }

  lemma InterleavedOn(states: seq<Shared>, script: seq<Call>, replies: seq<Reply>, access: seq<Access>, unit: nat,
                      call: Call, r: Reply, now: Shared)
    requires Interleaved(states, script, replies, access, unit) && Moves(states[|script|], call, r, now, access, unit)
    ensures Interleaved(states + [now], script + [call], replies + [r], access, unit)
  {
    hide Does;
  }

  /** What the users of the files see. */
  ghost predicate Shown(files: seq<FIL>, fs: FATFS, dchs: seq<seq<nat>>, s: Shared, access: seq<Access>)
    requires Together(files, fs, dchs)
    reads files, fs, fs.win
  {
    && |s.files| == |access| == |files| && s.free == FreeCount(fs.fat)
    && forall j :: 0 <= j < |files| ==>
         Ready(files[j], fs, dchs[j]) && s.files[j] == PlainOf(files[j]) && access[j] == AccessOf(files[j])
  }

  /** Any interleaving of operations on open files. */
  method Interleave(files: seq<FIL>, fs: FATFS, script: seq<Call>, ghost dchs: seq<seq<nat>>, ghost first: Shared,
                    ghost access: seq<Access>)
    returns (replies: seq<Reply>, ghost states: seq<Shared>)
    requires Together(files, fs, dchs) && Shown(files, fs, dchs, first, access)
    requires forall t :: 0 <= t < |script| ==> script[t].file < |files| && InRange(script[t].op)
    modifies files, fs, fs.win
    ensures Together(files, fs, dchs) && (old(fs.Counted()) ==> fs.Counted()) && (old(fs.Noted()) ==> fs.Noted())
    ensures old(fs.Sound()) ==> fs.Sound()
    ensures Interleaved(states, script, replies, access, UnitOf(fs))
    ensures states[0] == first && Shown(files, fs, dchs, states[|script|], access)
  {
    hide FIL.Valid, FIL.Entered, Does, PlainOf, FATFS.Counted, FATFS.Noted, FATFS.Sound, Apart;
    replies := [];
    states := [first];
    ghost var unit := UnitOf(fs);
    for t := 0 to |script|
      invariant Together(files, fs, dchs) && (old(fs.Counted()) ==> fs.Counted()) && (old(fs.Noted()) ==> fs.Noted())
      invariant Interleaved(states, script[..t], replies, access, unit) && (old(fs.Sound()) ==> fs.Sound())
      invariant states[0] == first && Shown(files, fs, dchs, states[t], access)
    {
      var i, op := script[t].file, script[t].op;
      ghost var was := states[t];
      var r := StepAmong(files, fs, i, op, dchs);
      ghost var now := Shared(was.files[i := PlainOf(files[i])], FreeCount(fs.fat));
      InterleavedOn(states, script[..t], replies, access, unit, script[t], r, now);
      assert script[..t + 1] == script[..t] + [script[t]];
      replies := replies + [r];
      states := states + [now];
    }
    assert script[..|script|] == script;
  }

  // ---- each file by itself ----

  /** What belongs to the calls of file `j`. */
  function Own<T>(script: seq<Call>, xs: seq<T>, j: nat): seq<T>
    requires |xs| == |script|
  {
    if script == [] then [] else
      var n := |script| - 1;
      Own(script[..n], xs[..n], j) + if script[n].file == j then [xs[n]] else []
  }

  function Ops(script: seq<Call>): seq<Op> { seq(|script|, t requires 0 <= t < |script| => script[t].op) }

  /** What file `j` was after each call. */
  function After(states: seq<Shared>, j: nat): (s: seq<Plain>)
    requires |states| > 0 && forall t :: 0 <= t < |states| ==> j < |states[t].files|
    ensures |s| == |states| - 1
  {
    seq(|states| - 1, t requires 0 <= t < |states| - 1 => states[t + 1].files[j])
  }

  /** How many clusters file `j` might have at each call. */
  function Reaches(states: seq<Shared>, j: nat): (s: seq<nat>)
    requires |states| > 0 && forall t :: 0 <= t < |states| ==> j < |states[t].files|
    ensures |s| == |states| - 1
  {
    seq(|states| - 1, t requires 0 <= t < |states| - 1 => states[t].files[j].clusters + states[t].free)
  }

  lemma OwnOn<T>(script: seq<Call>, xs: seq<T>, j: nat)
    requires |xs| == |script| > 0
    ensures var n := |script| - 1;
      Own(script, xs, j) == if script[n].file == j then Own(script[..n], xs[..n], j) + [xs[n]] else Own(script[..n], xs[..n], j)
  {
  }

  /** Without the last call. */
  lemma Shorter(states: seq<Shared>, script: seq<Call>, replies: seq<Reply>, access: seq<Access>, unit: nat, j: nat)
    requires Interleaved(states, script, replies, access, unit) && j < |access| && |script| > 0
    ensures var n := |script| - 1;
      && Interleaved(states[..n + 1], script[..n], replies[..n], access, unit)
      && Moves(states[n], script[n], replies[n], states[n + 1], access, unit)
      && After(states[..n + 1], j) == After(states, j)[..n] && Ops(script[..n]) == Ops(script)[..n]
      && Reaches(states[..n + 1], j) == Reaches(states, j)[..n]
      && states[..n + 1][0] == states[0] && states[..n + 1][n] == states[n]
  {
    hide Moves;
  }

  /** In any interleaving each file runs by its own operations alone; of the others it sees the clusters they took. */
  lemma {:induction false} EachByItself(states: seq<Shared>, script: seq<Call>, replies: seq<Reply>, access: seq<Access>,
                                        unit: nat, j: nat)
    requires Interleaved(states, script, replies, access, unit) && j < |access|
    ensures var own := [states[0].files[j]] + Own(script, After(states, j), j);
      && Runs(own, Own(script, Ops(script), j), Own(script, replies, j), access[j], unit, Own(script, Reaches(states, j), j))
      && own[|own| - 1] == states[|script|].files[j]
    decreases |script|
  {
    hide Does, Own;
    var first := [states[0].files[j]];
    if |script| == 0 {
      OwnNone(script, After(states, j), j);
      OwnNone(script, Ops(script), j);
      OwnNone(script, replies, j);
      OwnNone(script, Reaches(states, j), j);
    } else {
      var n := |script| - 1;
      Shorter(states, script, replies, access, unit, j);
      EachByItself(states[..n + 1], script[..n], replies[..n], access, unit, j);
      OwnOn(script, After(states, j), j);
      OwnOn(script, Ops(script), j);
      OwnOn(script, replies, j);
      OwnOn(script, Reaches(states, j), j);
      if script[n].file == j {
        var own := first + Own(script[..n], After(states, j)[..n], j);
        RunsOn(own, Own(script[..n], Ops(script)[..n], j), Own(script[..n], replies[..n], j), access[j], unit,
               Own(script[..n], Reaches(states, j)[..n], j), script[n].op, replies[n], states[n + 1].files[j],
               Reaches(states, j)[n]);
        assert first + Own(script, After(states, j), j) == own + [states[n + 1].files[j]];
      }
    }
  }

  lemma OwnNone<T>(script: seq<Call>, xs: seq<T>, j: nat)
    requires |xs| == |script| == 0
    ensures Own(script, xs, j) == []
  {
  }

  /** Files and free clusters together keep all clusters. */
  function Clusters(ps: seq<Plain>): nat
  {
    if ps == [] then 0 else Clusters(ps[..|ps| - 1]) + ps[|ps| - 1].clusters
  }

  lemma {:induction false} ClustersChanged(ps: seq<Plain>, i: nat, b: Plain)
    requires i < |ps|
    ensures Clusters(ps[i := b]) + ps[i].clusters == Clusters(ps) + b.clusters
  {
    var n := |ps| - 1;
    if i == n {
      assert ps[i := b][..n] == ps[..n];
    } else {
      ClustersChanged(ps[..n], i, b);
      assert ps[i := b][..n] == ps[..n][i := b];
    }
  }

  /** No interleaving loses a cluster: what the files gained the free ones lost. */
  lemma {:induction false} SharingConserves(states: seq<Shared>, script: seq<Call>, replies: seq<Reply>, access: seq<Access>,
                                            unit: nat, t: nat)
    requires Interleaved(states, script, replies, access, unit) && t <= |script|
    ensures Clusters(states[t].files) + states[t].free == Clusters(states[0].files) + states[0].free
  {
    hide Does;
    if t > 0 {
      SharingConserves(states, script, replies, access, unit, t - 1);
      assert Moves(states[t - 1], script[t - 1], replies[t - 1], states[t], access, unit);
      var i := script[t - 1].file;
      ClustersChanged(states[t - 1].files, i, states[t].files[i]);
    }
  }
}
