/** Any run of operations on an open file is a run of a plain byte array with a position. */
module Session {
  import opened Bytes
  import opened Layout
  import opened LogicalDisk
  import opened Chains
  import opened FileView
  import opened FilePosition
  import opened FileSystem
  import opened DirEntry
  import opened DirView
  import opened File

  /** A file as its user sees it, and the number of clusters it has. */
  datatype Plain = Plain(content: seq<Byte>, pos: nat, clusters: nat)

  datatype Op = Get(n: nat) | Put(data: seq<Byte>) | MoveTo(target: nat) | Flush(time: nat)

  datatype Reply = Got(bytes: seq<Byte>) | Took(n: nat) | At(pos: nat) | Flushed | Refused

  /** What a file was opened for. */
  datatype Access = Access(read: bool, write: bool)

  /** The position lies in the file, and the file in its clusters of `unit` bytes each. */
  ghost predicate Sized(a: Plain, unit: nat) { a.pos <= |a.content| <= unit * a.clusters }

  /** The clusters are as many as before, or the fewest that hold `p` bytes. */
  ghost predicate Fewest(was: nat, now: nat, p: nat, unit: nat)
  {
    was <= now && p <= unit * now && (now == was || unit * now < p + unit)
  }

  /** How many of `n` bytes a write takes if the file may have `reach` clusters: none if the size would reach 4 GB,
      otherwise as many as there is room for. */
  function Taken(a: Plain, n: nat, unit: nat, reach: nat): nat
  {
    if |a.content| + n >= DWORD || unit * reach < a.pos then 0 else Min(n, unit * reach - a.pos)
  }

  /** Where a seek ends: a file that can be written is made longer, as far as there is room. */
  function Landing(a: Plain, target: nat, write: bool, unit: nat, reach: nat): nat
  {
    if write then Min(target, unit * reach) else Min(target, |a.content|)
  }

  /** The bytes `c` with `d` in place of what was there from `at` on. */
  function Spliced(c: seq<Byte>, at: nat, d: seq<Byte>): seq<Byte>
    requires at <= |c|
  {
    c[..at] + d + if at + |d| < |c| then c[at + |d|..] else []
  }

  /** What one operation does to the plain file, which may have `reach` clusters: its own and the free ones. Only
      the bytes between an old end and the target of a seek behind it are left open. */
  ghost predicate Does(a: Plain, op: Op, r: Reply, b: Plain, access: Access, unit: nat, reach: nat)
  {
    && Sized(a, unit) && Sized(b, unit) && Fewest(a.clusters, b.clusters, b.pos, unit) && b.clusters <= reach
    && match op
       case Get(n) =>
         var m := Min(n, |a.content| - a.pos);
         if access.read then r == Got(a.content[a.pos..a.pos + m]) && b == Plain(a.content, a.pos + m, a.clusters)
         else r == Refused && b == a
       case Put(data) =>
         if access.write then
           var n := Taken(a, |data|, unit, reach);
           r == Took(n) && b.pos == a.pos + n && b.content == Spliced(a.content, a.pos, data[..n])
         else r == Refused && b == a
       case MoveTo(target) =>
         && r == At(b.pos) && b.pos == Landing(a, target, access.write, unit, reach)
         && a.content <= b.content && |b.content| == Max(|a.content|, b.pos)
       case Flush(_) => r == Flushed && b == a
  }

  /** An operation has one outcome, but for the bytes a seek behind the end uncovers. */
  lemma DoesOnly(a: Plain, op: Op, r: Reply, b: Plain, r': Reply, b': Plain, access: Access, unit: nat, reach: nat)
    requires Does(a, op, r, b, access, unit, reach) && Does(a, op, r', b', access, unit, reach)
    ensures r' == r && b'.pos == b.pos && b'.clusters == b.clusters && |b'.content| == |b.content|
    ensures op.MoveTo? || b' == b
  {
    FewestOnly(a.clusters, b.clusters, b'.clusters, b.pos, unit);
  }

  lemma FewestOnly(was: nat, now: nat, now': nat, p: nat, unit: nat)
    requires Fewest(was, now, p, unit) && Fewest(was, now', p, unit)
    ensures now' == now
  {
    OneMore(now, now', unit);
    OneMore(now', now, unit);
  }

  lemma OneMore(k: nat, m: nat, unit: nat)
    ensures k < m ==> unit * k + unit <= unit * m
    ensures k == m ==> unit * k == unit * m
  {
    if k < m {
      MulMono(k + 1, m, unit);
      assert (k + 1) * unit == unit * k + unit;
    }
  }

  /** Arguments that fit the 32-bit parameters. */
  predicate InRange(op: Op)
  {
    match op
    case Get(_) => true
    case Put(data) => |data| < DWORD
    case MoveTo(target) => target < DWORD
    case Flush(time) => time < DWORD
  }

  /** What was written is read back after seeking to where it was written. */
  lemma WriteSeekRead(a: Plain, b: Plain, c: Plain, d: Plain, data: seq<Byte>, at: nat, got: seq<Byte>, access: Access,
                      unit: nat, r1: nat, r2: nat, r3: nat)
    requires Does(a, Put(data), Took(|data|), b, access, unit, r1) && Does(b, MoveTo(a.pos), At(at), c, access, unit, r2)
    requires Does(c, Get(|data|), Got(got), d, access, unit, r3)
    ensures at == a.pos && got == data
  {
    assert data[..|data|] == data;
    MulMono(b.clusters, c.clusters, unit);
    MulMono(c.clusters, r2, unit);
    assert c.content == b.content;
    assert b.content[a.pos..a.pos + |data|] == data;
  }

  /** A write changes no byte outside the ones it took. */
  lemma WriteKeeps(a: Plain, b: Plain, data: seq<Byte>, n: nat, access: Access, unit: nat, reach: nat, i: nat)
    requires Does(a, Put(data), Took(n), b, access, unit, reach) && i < |a.content|
    ensures i < |b.content| && (i < a.pos || i >= a.pos + n ==> b.content[i] == a.content[i])
  {
    hide Sized, Fewest;
    assert a.pos <= |a.content| by { SizedParts(a, unit); }
  }

  lemma SizedParts(a: Plain, unit: nat)
    requires Sized(a, unit)
    ensures a.pos <= |a.content| <= unit * a.clusters
  {
  }

  /** The file as its user sees it. */
  ghost function PlainOf(fp: FIL): (p: Plain)
    requires fp.Valid()
    reads fp, fp.fs, fp.fs.win
    ensures OnVolume(fp.fs.g, fp.fs.img, fp.chain) && fp.fsize <= 512 * Sectors(fp.fs.g, fp.chain)
    ensures p.pos == fp.fptr <= |p.content| == fp.fsize && p.clusters == |fp.chain|
  {
    fp.Facts();
    fp.SizeFits();
    Plain(Content(fp.fs.g, fp.fs.img, fp.chain, 0, fp.fsize), fp.fptr, |fp.chain|)
  }

  ghost function AccessOf(fp: FIL): Access
    reads fp`canRead, fp`canWrite
  {
    Access(fp.canRead, fp.canWrite)
  }

  /** Bytes in a cluster. */
  function UnitOf(fs: FATFS): nat { 512 * fs.g.csize }

  /** The clusters the file may come to have: its own and the free ones. */
  ghost function ReachOf(fp: FIL): nat
    reads fp`chain, fp.fs`fat
  {
    |fp.chain| + FreeCount(fp.fs.fat)
  }

  /** The run writes, if only the attempt. */
  predicate Wrote(ops: seq<Op>, canWrite: bool) { canWrite && exists i :: 0 <= i < |ops| && ops[i].Put? }

  // ---- what a step does to the rest of the volume ----

  /** The FSInfo sector. */
  predicate Info(g: Geometry, s: nat) { g.fsType == Fat32 && s == g.fsiSector }

  /** Only the table, sectors of `ch`, sector `ds` and the FSInfo sector changed. */
  ghost predicate Touched(g: Geometry, img: Image, img': Image, ch: seq<nat>, ds: nat)
  {
    && |img'| == |img|
    && forall s :: 0 <= s < |img| && !g.TableSector(s) && !OwnSector(g, ch, s) && s != ds && !Info(g, s) ==> img'[s] == img[s]
  }

  lemma TouchedOn(g: Geometry, a: Image, b: Image, c: Image, ch: seq<nat>, ch': seq<nat>, ds: nat)
    requires Touched(g, a, b, ch, ds) && Touched(g, b, c, ch', ds) && ch <= ch'
    ensures Touched(g, a, c, ch', ds)
  {
    forall s | 0 <= s < |a| && !OwnSector(g, ch', s)
      ensures !OwnSector(g, ch, s)
    {
    }
  }

  /** The entry's sector as it was, or with the fields a flush brings up to date: outside those, and in the
      attributes that tell what the entry is, nothing changed. */
  ghost predicate EntryKept(s: Sector, r: Sector, o: nat)
    requires o + ENTRY_SIZE <= 512
  {
    && KeptOutside(s, r, o + DIR_ATTR, o + ENTRY_SIZE)
    && HasAttr(r[o + DIR_ATTR], AM_VOL) == HasAttr(s[o + DIR_ATTR], AM_VOL)
    && HasAttr(r[o + DIR_ATTR], AM_DIR) == HasAttr(s[o + DIR_ATTR], AM_DIR)
    && HasAttr(r[o + DIR_ATTR], AM_RDO) == HasAttr(s[o + DIR_ATTR], AM_RDO)
  }

  lemma UpdatedEntryKept(s: Sector, o: nat, size: nat, clust: nat, time: nat)
    requires o + ENTRY_SIZE <= 512
    ensures EntryKept(s, Updated(s, o, size, clust, time), o)
  {
    hide Updated;
    UpdatedKeeps(s, o, size, clust, time);
    ArchiveOnly(s[o + DIR_ATTR]);
  }

  lemma ArchiveOnly(a: Byte)
    ensures HasAttr(WithArchive(a), AM_VOL) == HasAttr(a, AM_VOL) && HasAttr(WithArchive(a), AM_DIR) == HasAttr(a, AM_DIR)
    ensures HasAttr(WithArchive(a), AM_RDO) == HasAttr(a, AM_RDO)
  {
    var n := a as int;
    if !HasAttr(a, AM_ARC) {
      assert n / 32 <= 6;
      assert (n + 32) / 16 == n / 16 + 2 && (n + 32) / 8 == n / 8 + 4 && n + 32 == n / 1 + 32;
    }
  }

  /** What a step of a file leaves: its chain grew at most, other chains are the same, and of the sectors outside
      table and file only the entry's and the FSInfo sector may have changed, the former within the entry. */
  ghost predicate Moved(g: Geometry, img: Image, chains: set<seq<nat>>, c: seq<nat>,
                        img': Image, chains': set<seq<nat>>, c': seq<nat>, ds: nat, o: nat)
  {
    && ChainsMoved(chains, c, chains', c') && Touched(g, img, img', c', ds)
    && ds < |img| && o + ENTRY_SIZE <= 512 && EntryKept(img[ds], img'[ds], o)
  }

  lemma MovedOn(g: Geometry, a: Image, chainsA: set<seq<nat>>, ca: seq<nat>, b: Image, chainsB: set<seq<nat>>, cb: seq<nat>,
                c: Image, chainsC: set<seq<nat>>, cc: seq<nat>, ds: nat, o: nat)
    requires Moved(g, a, chainsA, ca, b, chainsB, cb, ds, o) && Moved(g, b, chainsB, cb, c, chainsC, cc, ds, o)
    ensures Moved(g, a, chainsA, ca, c, chainsC, cc, ds, o)
  {
    hide HasAttr, OwnSector;
    ChainsMovedOn(chainsA, ca, chainsB, cb, chainsC, cc);
    TouchedOn(g, a, b, c, cb, cc, ds);
  }

  /** A write or a seek in these terms. */
  lemma WrittenMoved(fp: FIL, dch: seq<nat>, img: Image, chains: set<seq<nat>>, c: seq<nat>)
    requires fp.Owns() && fp.Entered(dch)
    requires Untouched(fp.fs.g, img, fp.fs.img, fp.chain) && ChainsMoved(chains, c, fp.fs.chains, fp.chain)
    ensures Moved(fp.fs.g, img, chains, c, fp.fs.img, fp.fs.chains, fp.chain, fp.dirSect, fp.dirPtr)
  {
    hide FATFS.Valid, Volume, OwnSector, ChainsMoved, HasAttr, Geometry.FatEnd;
    fp.EntryApart(dch);
    assert !fp.fs.g.TableSector(fp.dirSect);
  }

  /** Nothing happened. */
  lemma StillMoved(fp: FIL, dch: seq<nat>)
    requires fp.Entered(dch)
    ensures Moved(fp.fs.g, fp.fs.img, fp.fs.chains, fp.chain, fp.fs.img, fp.fs.chains, fp.chain, fp.dirSect, fp.dirPtr)
  {
    hide OwnSector, DirOwns;
    ChainsMovedNot(fp.fs.chains, fp.chain);
  }

  /** A flush in these terms. */
  lemma FlushMoved(fp: FIL, dch: seq<nat>, img: Image, written: bool, time: nat)
    requires fp.Entered(dch) && |img| == |fp.fs.img| && fp.orgClust < DWORD
    requires !written ==> fp.fs.img == img
    requires forall s :: 0 <= s < |img| && s != fp.dirSect && !Info(fp.fs.g, s) ==> fp.fs.img[s] == img[s]
    requires written ==> fp.fs.img[fp.dirSect] == Updated(img[fp.dirSect], fp.dirPtr, fp.fsize, fp.orgClust, time)
    ensures Moved(fp.fs.g, img, fp.fs.chains, fp.chain, fp.fs.img, fp.fs.chains, fp.chain, fp.dirSect, fp.dirPtr)
  {
    hide OwnSector, DirOwns, HasAttr, Updated;
    ChainsMovedNot(fp.fs.chains, fp.chain);
    UpdatedEntryKept(img[fp.dirSect], fp.dirPtr, fp.fsize, fp.orgClust, time);
  }

  /** Writing files does not touch the FSInfo sector. */
  lemma InfoUntouched(fp: FIL, img: Image, count: nat, due: bool)
    requires fp.Owns() && Untouched(fp.fs.g, img, fp.fs.img, fp.chain) && fp.fs.Pending(count, due)
    ensures fp.fs.g.fsType == Fat32 && InfoNoted(fp.fs.g.fsiSector, img, count, due) ==> fp.fs.Noted()
  {
    hide FATFS.Valid, Volume, InfoNoted;
    fp.FsiBelow();
    if fp.fs.g.fsType == Fat32 && InfoNoted(fp.fs.g.fsiSector, img, count, due) {
      NotedOn(fp.fs.g.fsiSector, img, count, due, fp.fs.img, fp.fs.freeClust, fp.fs.fsiFlag);
    }
  }

  /** Part of the content. */
  lemma ContentPart(g: Geometry, img: Image, ch: seq<nat>, size: nat, pos: nat, n: nat)
    requires OnVolume(g, img, ch) && size <= 512 * Sectors(g, ch) && pos + n <= size
    ensures Content(g, img, ch, pos, n) == Content(g, img, ch, 0, size)[pos..pos + n]
  {
    hide FileByte, OnVolume, Sectors;
  }

  /** The file fits its clusters, and these its reach. */
  lemma PlainSized(fp: FIL)
    requires fp.Valid()
    ensures Sized(PlainOf(fp), UnitOf(fp.fs)) && 512 * Sectors(fp.fs.g, fp.chain) == UnitOf(fp.fs) * |fp.chain|
    ensures UnitOf(fp.fs) * |fp.chain| <= UnitOf(fp.fs) * ReachOf(fp) && UnitOf(fp.fs) > 0
    ensures Volume(fp.fs.fat, fp.fs.chains) && |fp.fs.fat| == fp.fs.g.maxClust && (fp.chain == [] || fp.chain in fp.fs.chains)
  {
    hide FATFS.Valid, Volume, Placed, Content, OnVolume, FreeCount;
    fp.Facts();
    MulMono(|fp.chain|, ReachOf(fp), UnitOf(fp.fs));
    assert |fp.chain| * fp.fs.g.csize * 512 == UnitOf(fp.fs) * |fp.chain|;
  }

  /** What the file gained the free clusters lost. */
  lemma ReachKept(fp: FIL, fat0: seq<nat>, chains0: set<seq<nat>>, c0: seq<nat>)
    requires fp.Owns() && Volume(fat0, chains0) && |fat0| == |fp.fs.fat| && ChainsMoved(chains0, c0, fp.fs.chains, fp.chain)
    requires c0 == [] || c0 in chains0
    ensures ReachOf(fp) == |c0| + FreeCount(fat0) && |c0| <= |fp.chain| && (|fp.chain| == |c0| ==> fp.chain == c0)
  {
    hide FATFS.Valid, Volume, FreeCount;
    fp.Facts();
    GrowthConserves(fat0, chains0, c0, fp.fs.fat, fp.fs.chains, fp.chain);
  }

  // ---- single steps ----

  /** What every step keeps: file, entry and volume are sound, and only what `Moved` allows changed. */
  twostate predicate StepKept(fp: FIL, dch: seq<nat>)
    reads fp, fp.fs, fp.fs.win
  {
    && fp.Valid() && fp.Entered(dch) && fp.error == old(fp.error)
    && fp.canRead == old(fp.canRead) && fp.canWrite == old(fp.canWrite) && (old(fp.Recorded()) ==> fp.Recorded())
    && (old(fp.Settled()) ==> fp.Settled()) && ReachOf(fp) == old(ReachOf(fp))
    && (old(fp.fs.Counted()) ==> fp.fs.Counted()) && (old(fp.fs.Noted()) ==> fp.fs.Noted())
    && Moved(fp.fs.g, old(fp.fs.img), old(fp.fs.chains), old(fp.chain),
             fp.fs.img, fp.fs.chains, fp.chain, fp.dirSect, fp.dirPtr)
  }

  method DoRead(fp: FIL, n: nat, ghost dch: seq<nat>) returns (r: Reply)
    requires fp.Valid() && fp.Entered(dch) && !fp.error
    modifies fp, fp.fs, fp.fs.win
    ensures StepKept(fp, dch) && fp.written == old(fp.written) && fp.fsize == old(fp.fsize)
    ensures fp.fs.Pending(old(fp.fs.freeClust), old(fp.fs.fsiFlag))
    ensures Does(old(PlainOf(fp)), Get(n), r, PlainOf(fp), AccessOf(fp), UnitOf(fp.fs), ReachOf(fp))
  {
    hide FATFS.Valid, Volume, OnVolume, Sectors, Placed, Content, FreeCount, FIL.InEntry, Moved, DirOwns, FATFS.Noted;
    ghost var was, img0 := PlainOf(fp), fp.fs.img;
    var buff := new Byte[n](_ => 0);
    var res, br := fp.Read(buff, n);
    StillMoved(fp, dch);
    PlainSized(fp);
    if res != Ok { return Refused; }
    r := Got(buff[..br]);
    ContentPart(fp.fs.g, fp.fs.img, fp.chain, fp.fsize, old(fp.fptr), br);
  }

  /** A write by its parts: all bytes are taken, or none for the size, or as many as there is room for. */
  lemma WriteDoes(a: Plain, data: seq<Byte>, n: nat, b: Plain, access: Access, unit: nat, reach: nat)
    requires Sized(a, unit) && Sized(b, unit) && Fewest(a.clusters, b.clusters, b.pos, unit) && b.clusters <= reach
    requires access.write && n <= |data| && b.pos == a.pos + n && unit * a.clusters <= unit * reach
    requires unit * b.clusters <= unit * reach
    requires b.content == Spliced(a.content, a.pos, data[..n])
    requires if |a.content| + |data| >= DWORD then n == 0
             else n == |data| || (b.clusters == reach && b.pos == unit * b.clusters)
    ensures Does(a, Put(data), Took(n), b, access, unit, reach)
  {
    hide Fewest;
  }

  /** So far as a file object is concerned. */
  lemma FewestIs(g: Geometry, c0: seq<nat>, c: seq<nat>, p: nat)
    requires FIL.Fewest(g, c0, c, p) && |c0| <= |c| && p <= 512 * Sectors(g, c) && (|c| == |c0| ==> c == c0)
    ensures Fewest(|c0|, |c|, p, 512 * g.csize)
  {
    assert |c| * g.csize * 512 == 512 * g.csize * |c|;
  }

  lemma RefusedDoes(a: Plain, data: seq<Byte>, access: Access, unit: nat, reach: nat)
    requires Sized(a, unit) && a.clusters <= reach && !access.write
    ensures Does(a, Put(data), Refused, a, access, unit, reach)
  {
  }

  /** The bytes after a write. */
  lemma WriteContent(fp: FIL, was: Plain, img0: Image, chain0: seq<nat>, bytes: seq<Byte>)
    requires fp.Valid() && was.pos <= |was.content|
    requires Written(fp.fs.g, img0, chain0, fp.fs.img, fp.chain, |was.content|, was.pos, bytes)
    requires OnVolume(fp.fs.g, img0, chain0) && |was.content| <= 512 * Sectors(fp.fs.g, chain0)
    requires was.content == Content(fp.fs.g, img0, chain0, 0, |was.content|)
    requires fp.fptr == was.pos + |bytes| && fp.fsize == Max(|was.content|, fp.fptr)
    ensures PlainOf(fp).pos == fp.fptr && PlainOf(fp).clusters == |fp.chain|
    ensures PlainOf(fp).content == Spliced(was.content, was.pos, bytes)
  {
    hide FATFS.Valid, Volume, OnVolume, Sectors, Placed, Content, Written, FIL.Valid;
    WrittenIsSplice(fp.fs.g, img0, chain0, fp.fs.img, fp.chain, |was.content|, was.pos, bytes);
  }

  /** What a write that was not refused did to the plain file. */
  lemma WriteDone(fp: FIL, was: Plain, img0: Image, chain0: seq<nat>, data: seq<Byte>, n: nat)
    requires fp.Valid() && fp.canWrite && n <= |data| && Sized(was, UnitOf(fp.fs)) && was.clusters == |chain0|
    requires |chain0| <= |fp.chain| && (|fp.chain| == |chain0| ==> fp.chain == chain0)
    requires Written(fp.fs.g, img0, chain0, fp.fs.img, fp.chain, |was.content|, was.pos, data[..n])
    requires OnVolume(fp.fs.g, img0, chain0) && |was.content| <= 512 * Sectors(fp.fs.g, chain0)
    requires was.content == Content(fp.fs.g, img0, chain0, 0, |was.content|)
    requires fp.fptr == was.pos + n && fp.fsize == Max(|was.content|, fp.fptr)
    requires FIL.Fewest(fp.fs.g, chain0, fp.chain, fp.fptr)
    requires if |was.content| + |data| >= DWORD then n == 0
             else n == |data| || (FreeCount(fp.fs.fat) == 0 && fp.fptr == 512 * Sectors(fp.fs.g, fp.chain))
    ensures Does(was, Put(data), Took(n), PlainOf(fp), AccessOf(fp), UnitOf(fp.fs), ReachOf(fp))
  {
    hide FATFS.Valid, Volume, OnVolume, Sectors, Placed, Content, FreeCount, Written, Does, Fewest, FIL.Fewest,
         FIL.Valid, Sized, PlainOf, UnitOf, Spliced;
    PlainSized(fp);
    SizedParts(was, UnitOf(fp.fs));
    WriteContent(fp, was, img0, chain0, data[..n]);
    SizedParts(PlainOf(fp), UnitOf(fp.fs));
    MulMono(|chain0|, |fp.chain|, UnitOf(fp.fs));
    FewestUnit(fp, chain0);
    WriteDoes(was, data, n, PlainOf(fp), AccessOf(fp), UnitOf(fp.fs), ReachOf(fp));
  }

  lemma FewestUnit(fp: FIL, chain0: seq<nat>)
    requires FIL.Fewest(fp.fs.g, chain0, fp.chain, fp.fptr) && |chain0| <= |fp.chain| && fp.Valid()
    requires |fp.chain| == |chain0| ==> fp.chain == chain0
    ensures Fewest(|chain0|, |fp.chain|, fp.fptr, UnitOf(fp.fs))
  {
    hide FATFS.Valid, Volume, Sectors, Placed, Fewest, FIL.Fewest;
    fp.SizeFits();
    FewestIs(fp.fs.g, chain0, fp.chain, fp.fptr);
  }

  /** A refused write left the plain file as it was. */
  lemma WriteRefused(fp: FIL, was: Plain, img0: Image)
    requires fp.Valid() && fp.fs.img == img0 && fp.fsize == |was.content| && fp.fptr == was.pos && |fp.chain| == was.clusters
    requires OnVolume(fp.fs.g, img0, fp.chain) && |was.content| <= 512 * Sectors(fp.fs.g, fp.chain)
    requires was.content == Content(fp.fs.g, img0, fp.chain, 0, |was.content|)
    ensures PlainOf(fp) == was
  {
    hide FATFS.Valid, Volume, OnVolume, Sectors, Placed, Content;
  }

  method DoWrite(fp: FIL, data: seq<Byte>, ghost dch: seq<nat>) returns (r: Reply)
    requires fp.Valid() && fp.Entered(dch) && !fp.error && |data| < DWORD
    modifies fp, fp.fs, fp.fs.win
    ensures StepKept(fp, dch) && fp.written == (old(fp.written) || fp.canWrite) && (!fp.canWrite ==> fp.fsize == old(fp.fsize))
    ensures fp.fs.Pending(old(fp.fs.freeClust), old(fp.fs.fsiFlag))
    ensures Does(old(PlainOf(fp)), Put(data), r, PlainOf(fp), AccessOf(fp), UnitOf(fp.fs), ReachOf(fp))
  {
    hide FATFS.Valid, Volume, OnVolume, Sectors, Placed, Content, FreeCount, FIL.InEntry, Written, ChainsMoved, Moved,
         DirOwns, InfoNoted, Does, Fewest, FIL.Fewest, Sized;
    ghost var was := PlainOf(fp);
    ghost var img0, chain0, chains0, size0, pos0, fat0 := fp.fs.img, fp.chain, fp.fs.chains, fp.fsize, fp.fptr, fp.fs.fat;
    PlainSized(fp);
    var res, bw := fp.Write(data);
    PlainSized(fp);
    ReachKept(fp, fat0, chains0, chain0);
    WrittenLeaves(fp.fs.g, img0, chain0, fp.fs.img, fp.chain, size0, pos0, data[..bw]);
    fp.StillEntered(dch, img0, chains0, chain0, fp.chain);
    WrittenMoved(fp, dch, img0, chains0, chain0);
    InfoUntouched(fp, img0, old(fp.fs.freeClust), old(fp.fs.fsiFlag));
    if res == Ok {
      WriteDone(fp, was, img0, chain0, data, bw);
      r := Took(bw);
    } else {
      WriteRefused(fp, was, img0);
      RefusedDoes(was, data, AccessOf(fp), UnitOf(fp.fs), ReachOf(fp));
      r := Refused;
    }
  }

  method DoSeek(fp: FIL, target: nat, ghost dch: seq<nat>) returns (r: Reply)
    requires fp.Valid() && fp.Entered(dch) && !fp.error && target < DWORD
    modifies fp, fp.fs, fp.fs.win
    ensures StepKept(fp, dch) && (old(fp.written) ==> fp.written) && (fp.fsize > old(fp.fsize) ==> fp.written)
    ensures fp.fs.Pending(old(fp.fs.freeClust), old(fp.fs.fsiFlag))
    ensures Does(old(PlainOf(fp)), MoveTo(target), r, PlainOf(fp), AccessOf(fp), UnitOf(fp.fs), ReachOf(fp))
  {
    hide FATFS.Valid, Volume, OnVolume, Sectors, Placed, Content, FreeCount, FIL.InEntry, Written, ChainsMoved, Moved,
         DirOwns, InfoNoted;
    ghost var was := PlainOf(fp);
    ghost var img0, chain0, chains0, size0, fat0 := fp.fs.img, fp.chain, fp.fs.chains, fp.fsize, fp.fs.fat;
    PlainSized(fp);
    var res := fp.Seek(target);
    PlainSized(fp);
    ReachKept(fp, fat0, chains0, chain0);
    WrittenIsSplice(fp.fs.g, img0, chain0, fp.fs.img, fp.chain, size0, 0, []);
    WrittenLeaves(fp.fs.g, img0, chain0, fp.fs.img, fp.chain, size0, 0, []);
    fp.StillEntered(dch, img0, chains0, chain0, fp.chain);
    WrittenMoved(fp, dch, img0, chains0, chain0);
    ghost var now := PlainOf(fp);
    ContentPart(fp.fs.g, fp.fs.img, fp.chain, fp.fsize, 0, size0);
    InfoUntouched(fp, img0, old(fp.fs.freeClust), old(fp.fs.fsiFlag));
    r := At(fp.fptr);
  }

  method DoFlush(fp: FIL, time: nat, ghost dch: seq<nat>) returns (r: Reply)
    requires fp.Valid() && fp.Entered(dch) && !fp.error && time < DWORD
    modifies fp, fp.fs, fp.fs.win
    ensures StepKept(fp, dch) && !fp.written && fp.fsize == old(fp.fsize)
    ensures Does(old(PlainOf(fp)), Flush(time), r, PlainOf(fp), AccessOf(fp), UnitOf(fp.fs), ReachOf(fp))
  {
    hide FATFS.Valid, Volume, OnVolume, Sectors, Placed, Content, FreeCount, Moved, DirOwns, Updated, OwnSector,
         FATFS.Noted, CopiesAgree, IsFsInfo, StartCluster, FileSize, EntryAt;
    ghost var was, img0, written0 := PlainOf(fp), fp.fs.img, fp.written;
    fp.Sync(time, dch);
    fp.StartFits();
    FlushMoved(fp, dch, img0, written0, time);
    PlainSized(fp);
    r := Flushed;
  }

  method Step(fp: FIL, op: Op, ghost dch: seq<nat>) returns (r: Reply)
    requires fp.Valid() && fp.Entered(dch) && !fp.error && InRange(op)
    modifies fp, fp.fs, fp.fs.win
    ensures StepKept(fp, dch) && (op.Put? && fp.canWrite ==> fp.Settled())
    ensures fp.fsize > old(fp.fsize) ==> fp.Settled()
    ensures !op.Flush? ==> fp.fs.Pending(old(fp.fs.freeClust), old(fp.fs.fsiFlag))
    ensures Does(old(PlainOf(fp)), op, r, PlainOf(fp), AccessOf(fp), UnitOf(fp.fs), ReachOf(fp))
  {
    hide FIL.Valid, FIL.Entered, Does, PlainOf, FATFS.Counted, FATFS.Noted, FIL.Recorded, ReachOf, Moved;
    match op {
      case Get(n) => r := DoRead(fp, n, dch);
      case Put(data) => r := DoWrite(fp, data, dch);
      case MoveTo(target) => r := DoSeek(fp, target, dch);
      case Flush(time) => r := DoFlush(fp, time, dch);
    }
  }

  // ---- runs ----

  /** A run of operations, step by step; `reach` says how many clusters the file may have at each. */
  ghost predicate Runs(states: seq<Plain>, ops: seq<Op>, replies: seq<Reply>, access: Access, unit: nat, reach: seq<nat>)
  {
    && |states| == |ops| + 1 && |replies| == |reach| == |ops|
    && forall i :: 0 <= i < |ops| ==> Does(states[i], ops[i], replies[i], states[i + 1], access, unit, reach[i])
  }

  lemma RunsOn(states: seq<Plain>, ops: seq<Op>, replies: seq<Reply>, access: Access, unit: nat, reach: seq<nat>,
               op: Op, r: Reply, b: Plain, c: nat)
    requires Runs(states, ops, replies, access, unit, reach) && Does(states[|ops|], op, r, b, access, unit, c)
    ensures Runs(states + [b], ops + [op], replies + [r], access, unit, reach + [c])
  {
    hide Does;
  }

  /** The reach of a file that is worked on alone. */
  function Alone(n: nat, reach: nat): (s: seq<nat>)
    ensures |s| == n && forall i :: 0 <= i < n ==> s[i] == reach
  {
    seq(n, i => reach)
  }

  /** If a run of one file leaves a cluster free, no write below 4 GB and no seek of it fell short. */
  lemma RoomLeft(states: seq<Plain>, ops: seq<Op>, replies: seq<Reply>, access: Access, unit: nat, reach: nat, i: nat)
    requires Runs(states, ops, replies, access, unit, Alone(|ops|, reach)) && states[|ops|].clusters < reach
    requires i < |ops| && unit > 0 && access.write
    ensures ops[i].Put? && |states[i].content| + |ops[i].data| < DWORD ==> replies[i] == Took(|ops[i].data|)
    ensures ops[i].MoveTo? ==> replies[i] == At(ops[i].target)
  {
    hide Does;
    ClustersStay(states, ops, replies, access, unit, reach, i + 1);
    assert Does(states[i], ops[i], replies[i], states[i + 1], access, unit, reach);
    NotShort(states[i], ops[i], replies[i], states[i + 1], access, unit, reach);
  }

  lemma NotShort(a: Plain, op: Op, r: Reply, b: Plain, access: Access, unit: nat, reach: nat)
    requires Does(a, op, r, b, access, unit, reach) && b.clusters < reach && unit > 0 && access.write
    ensures op.Put? && |a.content| + |op.data| < DWORD ==> r == Took(|op.data|)
    ensures op.MoveTo? ==> r == At(op.target)
  {
    hide Fewest;
    OneMore(b.clusters, reach, unit);
    assert b.pos < unit * reach by { SizedParts(b, unit); }
    hide Sized;
  }

  lemma {:induction false} ClustersStay(states: seq<Plain>, ops: seq<Op>, replies: seq<Reply>, access: Access, unit: nat,
                                        reach: nat, i: nat)
    requires Runs(states, ops, replies, access, unit, Alone(|ops|, reach)) && i <= |ops|
    ensures states[i].clusters <= states[|ops|].clusters
    decreases |ops| - i
  {
    hide Sized, Taken, Landing;
    if i < |ops| { ClustersStay(states, ops, replies, access, unit, reach, i + 1); }
  }

  /** Any run of operations on an open file. The clusters it may have are its own and the free ones, as many before
      as after the run. */
  method Run(fp: FIL, ops: seq<Op>, ghost dch: seq<nat>) returns (replies: seq<Reply>, ghost states: seq<Plain>)
    requires fp.Valid() && fp.Entered(dch) && !fp.error
    requires forall i :: 0 <= i < |ops| ==> InRange(ops[i])
    modifies fp, fp.fs, fp.fs.win
    ensures StepKept(fp, dch) && (Wrote(ops, fp.canWrite) || fp.fsize > old(fp.fsize) ==> fp.Settled())
    ensures (forall i :: 0 <= i < |ops| ==> !ops[i].Flush?) ==> fp.fs.Pending(old(fp.fs.freeClust), old(fp.fs.fsiFlag))
    ensures Runs(states, ops, replies, AccessOf(fp), UnitOf(fp.fs), Alone(|ops|, ReachOf(fp)))
    ensures states[0] == old(PlainOf(fp)) && states[|ops|] == PlainOf(fp)
  {
    hide FIL.Valid, FIL.Entered, Does, PlainOf, FATFS.Counted, FATFS.Noted, FIL.Recorded, FIL.Settled, ReachOf, Moved;
    replies := [];
    states := [PlainOf(fp)];
    ghost var access, unit, reach := AccessOf(fp), UnitOf(fp.fs), ReachOf(fp);
    StillMoved(fp, dch);
    for i := 0 to |ops|
      invariant StepKept(fp, dch) && (Wrote(ops[..i], fp.canWrite) || fp.fsize > old(fp.fsize) ==> fp.Settled())
      invariant (forall j :: 0 <= j < i ==> !ops[j].Flush?) ==> fp.fs.Pending(old(fp.fs.freeClust), old(fp.fs.fsiFlag))
      invariant Runs(states, ops[..i], replies, access, unit, Alone(i, reach))
      invariant states[0] == old(PlainOf(fp)) && states[i] == PlainOf(fp)
    {
      assert InRange(ops[i]);
      ghost var img, chains, chain := fp.fs.img, fp.fs.chains, fp.chain;
      var r := Step(fp, ops[i], dch);
      MovedOn(fp.fs.g, old(fp.fs.img), old(fp.fs.chains), old(fp.chain), img, chains, chain,
              fp.fs.img, fp.fs.chains, fp.chain, fp.dirSect, fp.dirPtr);
      RunsOn(states, ops[..i], replies, access, unit, Alone(i, reach), ops[i], r, PlainOf(fp), reach);
      assert ops[..i + 1] == ops[..i] + [ops[i]] && Alone(i + 1, reach) == Alone(i, reach) + [reach];
      WroteOn(ops[..i], ops[i], fp.canWrite);
      replies := replies + [r];
      states := states + [PlainOf(fp)];
    }
    assert ops[..|ops|] == ops;
  }

  lemma WroteOn(ops: seq<Op>, op: Op, canWrite: bool)
    ensures Wrote(ops + [op], canWrite) ==> Wrote(ops, canWrite) || (canWrite && op.Put?)
  {
  }
}
