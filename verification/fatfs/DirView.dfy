/** A directory of a sound volume as a sequence of entries, and lookups in it. */
module DirView {
  import opened Bytes
  import opened Layout
  import opened LogicalDisk
  import opened Table
  import opened Chains
  import opened FileView
  import opened DirEntry
  import opened DirTable
  import opened FileSystem

  /** The directory's sectors lie on the image. */
  ghost predicate DirFits(g: Geometry, img: Image, ch: seq<nat>)
  {
    && 0 < g.csize && (forall i :: 0 <= i < |ch| ==> ch[i] >= 2)
    && forall k :: 0 <= k < DirSectors(g, ch) ==> g.FatEnd() <= DirSect(g, ch, k) < |img|
  }

  lemma DirOnVolume(g: Geometry, img: Image, fat: seq<nat>, chains: set<seq<nat>>, sclust: nat, ch: seq<nat>)
    requires Fits(g, img) && IsDir(g, fat, chains, sclust, ch)
    ensures DirFits(g, img, ch)
  {
    hide Volume, PowerOfTwo;
    DirClusters(g, fat, chains, sclust, ch);
    ChainOnVolume(g, img, fat, chains, ch);
    forall k | 0 <= k < DirSectors(g, ch)
      ensures g.FatEnd() <= DirSect(g, ch, k) < |img|
    {
      if ch != [] { FileSectInVolume(g, img, ch, k); }
    }
  }

  /** Entry `i` of the directory. */
  ghost function ViewEntry(g: Geometry, img: Image, ch: seq<nat>, i: nat): (e: Entry32)
    requires DirFits(g, img, ch) && i / 16 < DirSectors(g, ch)
  {
    EntryAt(img[DirSect(g, ch, i / 16)], i % 16 * 32)
  }

  /** All entries in reach. */
  ghost function View(g: Geometry, img: Image, ch: seq<nat>): (es: seq<Entry32>)
    requires DirFits(g, img, ch)
    ensures |es| == DirCount(g, ch)
    ensures forall i {:trigger es[i]} :: 0 <= i < |es| ==> es[i] == ViewEntry(g, img, ch, i)
  {
    seq(DirCount(g, ch), i requires 0 <= i < DirCount(g, ch) => ViewEntry(g, img, ch, i))
  }

  /** Where byte `b` of entry `i` lies: sixteen entries of 32 bytes to a sector, from the first sector of the static
      root on, or along the chain of the directory. */
  lemma EntriesLie(g: Geometry, img: Image, ch: seq<nat>, i: nat, b: nat)
    requires DirFits(g, img, ch) && (ch == [] || OnVolume(g, img, ch)) && i < DirCount(g, ch) && b < 32
    ensures DirCount(g, ch) == Min(16 * (if ch == [] then g.nRootdir / 16 else |ch| * g.csize), 0x1_0000)
    ensures ch == [] ==>
      g.dirbase + i / 16 < |img| && View(g, img, ch)[i][b] == img[g.dirbase + i / 16][i % 16 * 32 + b]
    ensures ch != [] ==>
      (32 * i + b) / 512 < Sectors(g, ch) && View(g, img, ch)[i][b] == DiskByte(g, img, ch, 32 * i + b)
  {
    hide View, OnVolume;
    assert View(g, img, ch)[i] == ViewEntry(g, img, ch, i);
    assert (32 * i + b) / 512 == i / 16 && (32 * i + b) % 512 == i % 16 * 32 + b;
    if ch != [] { ByteLies(g, img, ch, 32 * i + b); }
  }

  // ---- lookups ----

  /** The first entry from `i` on that matches, if one comes before the directory ends; -1 otherwise. */
  function Lookup(es: seq<Entry32>, name: seq<Byte>, i: nat): (k: int)
    requires |name| >= 11
    ensures k == -1 || (i <= k < |es| && Matches(es[k], name))
    decreases |es| - i
  {
    if i >= |es| || es[i][0] == 0 then -1
    else if Matches(es[i], name) then i
    else Lookup(es, name, i + 1)
  }

  /** The index up to which a scan for `name` sees live entries that do not match. */
  lemma {:induction false} LookupFrom(es: seq<Entry32>, name: seq<Byte>, i: nat, n: nat)
    requires |name| >= 11 && i <= n <= |es|
    requires forall j :: i <= j < n ==> es[j][0] != 0 && !Matches(es[j], name)
    ensures Lookup(es, name, i) == Lookup(es, name, n)
    decreases n - i
  {
    if i < n { LookupFrom(es, name, i + 1, n); }
  }

  /** Entry `e` has the name `name` and is no volume label: bit 3 of byte 11 is clear. */
  predicate IsObject(e: Entry32, name: seq<Byte>)
    requires |name| >= 11
  {
    && (forall i :: 0 <= i < 11 ==> e[i] == name[i])
    && e[11] / 8 % 2 == 0
  }

  lemma MatchIsObject(e: Entry32, name: seq<Byte>)
    requires |name| >= 11
    ensures Matches(e, name) <==> IsObject(e, name)
  {
    assert IsObject(e, name) ==> e[..11] == name[..11];
    assert forall i :: 0 <= i < 11 ==> e[..11][i] == e[i] && name[..11][i] == name[i];
  }

  /** A lookup gives the first object of that name before the first entry that begins with a zero byte; and it
      gives none exactly when there is none. */
  lemma {:induction false} LookupExactly(es: seq<Entry32>, name: seq<Byte>, i: nat, k: nat)
    requires |name| >= 11 && i <= |es|
    ensures Lookup(es, name, i) == k <==>
      i <= k < |es| && IsObject(es[k], name) && forall j :: i <= j <= k ==> es[j][0] != 0 && (j < k ==> !IsObject(es[j], name))
    decreases |es| - i
  {
    hide Matches;
    if i < |es| {
      MatchIsObject(es[i], name);
      LookupExactly(es, name, i + 1, k);
    }
  }

  lemma LocatedEntry(g: Geometry, img: Image, fat: seq<nat>, chains: set<seq<nat>>, sclust: nat, ch: seq<nat>, i: nat)
    requires Fits(g, img) && IsDir(g, fat, chains, sclust, ch) && DirFits(g, img, ch)
    requires g.nRootdir % 16 == 0 && (g.fsType == Fat32 ==> g.ValidCluster(g.dirbase))
    ensures i < 16 * DirSectors(g, ch) ==>
      && i / 16 < DirSectors(g, ch)
      && Locate(g, fat, sclust, i).At? && Locate(g, fat, sclust, i).sect == DirSect(g, ch, i / 16) < |img|
      && EntryOf(g, img, fat, sclust, i) == ViewEntry(g, img, ch, i)
    ensures i >= 16 * DirSectors(g, ch) ==> Locate(g, fat, sclust, i) == End
  {
    hide Volume, Locate, PowerOfTwo;
    LocateInDir(g, fat, chains, sclust, ch, i);
  }

  // ---- registering ----

  const DELETED: Byte := 0xE5

  /** An entry that may be taken: deleted, or at or behind the end of the directory. */
  predicate Blank(e: Entry32) { e[0] == DELETED || e[0] == 0 }

  /** Behind the first entry that ends the directory all entries do. */
  ghost predicate ZeroTail(es: seq<Entry32>)
  {
    forall i, j :: 0 <= i < j < |es| && es[i][0] == 0 ==> es[j][0] == 0
  }

  /** The entry written for a new name: the name, its case flags, and zeros. */
  function NewEntry(fn: seq<Byte>): (e: Entry32)
    requires |fn| == 12
    ensures e[..11] == fn[..11]
  {
    fn[..11] + [0, (fn[11] / 8 % 4 * 8) as Byte] + seq(19, i => 0)
  }

  /** The new entry, byte by byte: eleven bytes of name, attribute byte 0, in the next byte the two case flags at
      bits 3 and 4, and zeros. */
  lemma NewEntryFields(fn: seq<Byte>)
    requires |fn| == 12
    ensures var e := NewEntry(fn);
      && (forall i :: 0 <= i < 11 ==> e[i] == fn[i])
      && e[11] == 0 && e[12] / 8 % 4 == fn[11] / 8 % 4 && e[12] % 8 == 0 && e[12] < 32
      && forall i :: 13 <= i < 32 ==> e[i] == 0
  {
  }

  /** No name the parser produces starts like a blank entry. */
  predicate ProperName(fn: seq<Byte>) { |fn| == 12 && fn[0] != 0 && fn[0] != DELETED }

  /** `es` with some zero entries behind it and the first blank entry taken by `e`. */
  ghost predicate Registered(es: seq<Entry32>, es': seq<Entry32>, e: Entry32, k: nat)
  {
    && k <= |es| <= |es'| && k < |es'|
    && es'[k] == e
    && (forall i :: 0 <= i < k ==> es'[i] == es[i] && es[i][0] != 0xE5 && es[i][0] != 0)
    && (k < |es| ==> es[k][0] == 0xE5 || es[k][0] == 0)
    && (forall i :: k < i < |es| ==> es'[i] == es[i])
    && (forall i :: |es| <= i < |es'| && i != k ==> es'[i][0] == 0)
  }

  /** An entry under the name `fn`, and not a volume label. */
  predicate Named(e: Entry32, fn: seq<Byte>)
    requires |fn| == 12
  {
    e[..11] == fn[..11] && !HasAttr(e[DIR_ATTR], AM_VOL)
  }

  /** What registering an absent name does to lookups in a directory of any shape: the name is found at its
      entry, and another name where it was found before. A name that was not found stays so, unless the entry
      taken was the one that ended the directory: then the old entries behind it come back. */
  lemma RegisterLookups(es: seq<Entry32>, es': seq<Entry32>, e: Entry32, fn: seq<Byte>, k: nat, other: seq<Byte>)
    requires ProperName(fn) && ProperName(other) && Named(e, fn) && Registered(es, es', e, k)
    requires Lookup(es, fn, 0) == -1
    ensures Lookup(es', fn, 0) == k
    ensures other[..11] != fn[..11] ==>
      var l := Lookup(es, other, 0);
      Lookup(es', other, 0) == if l >= 0 || k == |es| || es[k][0] == 0xE5 then l else Lookup(es, other, k + 1)
  {
    hide Matches;
    NewMatches(e, fn, other);
    NoneBefore(es, fn, 0, Min(k, |es|));
    if k > 0 { assert es'[k - 1] == es[k - 1]; }
    LookupFrom(es', fn, 0, k);
    if other[..11] != fn[..11] {
      BeforeSame(es, es', other, 0, k);
      if k < |es| {
        if es[k][0] == DELETED { BlankNoMatch(es[k], other); }
        SameFrom(es, es', other, k + 1);
      } else {
        EndsHere(es', other, k + 1);
      }
    }
  }

  /** In a directory of zero-tail shape nothing comes back, and the shape stays. */
  lemma RegisterKeepsLookups(es: seq<Entry32>, es': seq<Entry32>, e: Entry32, fn: seq<Byte>, k: nat, other: seq<Byte>)
    requires ProperName(fn) && ProperName(other) && Named(e, fn) && Registered(es, es', e, k) && ZeroTail(es)
    requires Lookup(es, fn, 0) == -1
    ensures ZeroTail(es')
    ensures Lookup(es', fn, 0) == k
    ensures other[..11] != fn[..11] ==> Lookup(es', other, 0) == Lookup(es, other, 0)
  {
    hide Matches;
    NewMatches(e, fn, other);
    RegisterLookups(es, es', e, fn, k, other);
    if k > 0 { assert es'[k - 1] == es[k - 1]; }
    if k < |es| && es[k][0] == 0 { EndsHere(es, other, k + 1); }
  }

  lemma NewMatches(e: Entry32, fn: seq<Byte>, other: seq<Byte>)
    requires ProperName(fn) && ProperName(other) && Named(e, fn)
    ensures e[0] != 0 && Matches(e, fn)
    ensures Matches(e, other) <==> other[..11] == fn[..11]
  {
    assert e[0] == e[..11][0] == fn[..11][0] == fn[0];
  }

  lemma BlankNoMatch(e: Entry32, other: seq<Byte>)
    requires ProperName(other) && Blank(e)
    ensures !Matches(e, other)
  {
    assert e[..11][0] == e[0] && other[..11][0] == other[0];
  }

  /** A lookup that fails met no match among the live entries it passed. */
  lemma {:induction false} NoneBefore(es: seq<Entry32>, name: seq<Byte>, i: nat, n: nat)
    requires |name| >= 11 && i <= n <= |es| && Lookup(es, name, i) == -1
    requires forall j :: i <= j < n ==> es[j][0] != 0
    ensures forall j :: i <= j < n ==> !Matches(es[j], name)
    decreases n - i
  {
    if i < n { NoneBefore(es, name, i + 1, n); }
  }

  /** Up to the entry that was taken both directories look the same. */
  lemma {:induction false} BeforeSame(es: seq<Entry32>, es': seq<Entry32>, name: seq<Byte>, i: nat, k: nat)
    requires |name| >= 11 && i <= k <= |es| && k < |es'|
    requires forall j :: i <= j < k ==> es'[j] == es[j]
    requires forall j :: 0 <= j < k ==> es[j][0] != 0
    ensures (Lookup(es, name, i) == Lookup(es', name, i) && Lookup(es, name, i) != -1)
         || (Lookup(es, name, i) == Lookup(es, name, k) && Lookup(es', name, i) == Lookup(es', name, k))
    decreases k - i
  {
    if i < k { BeforeSame(es, es', name, i + 1, k); }
  }

  lemma {:induction false} SameFrom(es: seq<Entry32>, es': seq<Entry32>, name: seq<Byte>, i: nat)
    requires |name| >= 11 && |es| <= |es'| && i <= |es|
    requires forall j :: i <= j < |es| ==> es'[j] == es[j]
    requires forall j :: |es| <= j < |es'| ==> es'[j][0] == 0
    ensures Lookup(es, name, i) == Lookup(es', name, i)
    decreases |es| - i
  {
    if i < |es| { SameFrom(es, es', name, i + 1); }
  }

  lemma EndsHere(es: seq<Entry32>, name: seq<Byte>, i: nat)
    requires |name| >= 11 && (i < |es| ==> es[i][0] == 0)
    ensures Lookup(es, name, i) == -1
  {
  }

  /** What a step reports: the place of the next entry, the end of the table or of the index range, a broken
      link; with stretching, the end of a chained table only when no cluster is free. */
  ghost predicate Stepped(g: Geometry, idx: nat, clust: nat, sect: nat, fat: seq<nat>, stretch: bool, res: FResult)
    requires 0 < g.csize && |fat| == g.maxClust && (clust != 0 ==> g.ValidCluster(clust))
  {
    if idx + 1 == MAX_INDEX then res == NoFile else
      match NextPlace(g, fat, At(clust, sect), idx + 1)
      case At(_, _) => res == Ok
      case Broken => res == IntErr
      case End => if stretch && clust != 0 then res == Ok || (res == Denied && FreeCount(fat) == 0) else res == NoFile
  }

  // ---- looking for a blank entry ----

  /** The search came to entry `k` without a blank one; if it stretched the directory, `k` is the first entry
      behind the old end. */
  ghost predicate Vacant(g: Geometry, img: Image, ch: seq<nat>, img': Image, ch': seq<nat>, k: nat)
  {
    && DirFits(g, img, ch) && k <= DirCount(g, ch)
    && (forall i :: 0 <= i < k ==> !Blank(View(g, img, ch)[i]))
    && (ch' == ch ==> img' == img)
    && (ch' != ch ==> DirGrown(g, img, ch, img', ch') && k == 16 * DirSectors(g, ch) < MAX_INDEX)
  }

  /** No entry is blank, and the directory cannot get more: it is the static root or has all entries the
      16-bit index reaches, or no cluster is free, or it is a root without entries. */
  ghost predicate NoVacancy(g: Geometry, img: Image, ch: seq<nat>, fat: seq<nat>, res: FResult)
  {
    && DirFits(g, img, ch) && (forall i :: 0 <= i < DirCount(g, ch) ==> !Blank(View(g, img, ch)[i]))
    && match res
       case NoFile => ch == [] || DirCount(g, ch) == MAX_INDEX
       case Denied => FreeCount(fat) == 0
       case IntErr => DirCount(g, ch) == 0
       case _ => false
  }

  lemma VacantStart(g: Geometry, img: Image, ch: seq<nat>)
    requires DirFits(g, img, ch)
    ensures Vacant(g, img, ch, img, ch, 0)
  {
  }

  lemma NoEntries(g: Geometry, img: Image, ch: seq<nat>, fat: seq<nat>)
    requires DirFits(g, img, ch) && DirSectors(g, ch) == 0
    ensures NoVacancy(g, img, ch, fat, IntErr)
  {
  }

  lemma VacantOn(g: Geometry, img: Image, ch: seq<nat>, img': Image, ch': seq<nat>, k: nat)
    requires Vacant(g, img, ch, img, ch, k) && k < DirCount(g, ch) && !Blank(View(g, img, ch)[k])
    requires ch' == ch ==> img' == img
    requires ch' != ch ==> DirGrown(g, img, ch, img', ch') && k + 1 == 16 * DirSectors(g, ch) < MAX_INDEX
    ensures Vacant(g, img, ch, img', ch', k + 1)
  {
    hide DirFits, View, DirGrown, Blank;
  }

  /** A directory just stretched has a blank entry. */
  lemma NotVacant(g: Geometry, img: Image, ch: seq<nat>, img': Image, ch': seq<nat>, k: nat)
    requires Vacant(g, img, ch, img', ch', k) && DirFits(g, img', ch') && (ch' == [] || OnVolume(g, img', ch'))
    requires k < DirCount(g, ch') && !Blank(View(g, img', ch')[k])
    ensures ch' == ch
  {
    hide DirFits, View, DirGrown, OnVolume, DirSectors;
    if ch' != ch {
      NotEmptyGrown(g, img, ch, img', ch');
      ViewGrown(g, img, img', ch, ch');
      assert false;
    }
  }

  /** The search ended at the end of the directory. */
  lemma StepFailed(g: Geometry, img: Image, fat: seq<nat>, chains: set<seq<nat>>, sclust: nat, ch: seq<nat>, k: nat,
                   res: FResult)
    requires Fits(g, img) && IsDir(g, fat, chains, sclust, ch) && DirFits(g, img, ch) && k < MAX_INDEX
    requires g.nRootdir % 16 == 0 && (g.fsType == Fat32 ==> g.ValidCluster(g.dirbase))
    requires Vacant(g, img, ch, img, ch, k) && Locate(g, fat, sclust, k).At?
    requires k < DirCount(g, ch) && !Blank(View(g, img, ch)[k]) && res != Ok
    requires var p := Locate(g, fat, sclust, k); Stepped(g, k, p.clust, p.sect, fat, true, res)
    ensures NoVacancy(g, img, ch, fat, res)
  {
    hide Volume, Locate, PowerOfTwo, View, Geometry.Sane, ViewEntry, EntryOf, FreeCount, NextPlace;
    LocatedEntry(g, img, fat, chains, sclust, ch, k + 1);
    StepIsLocate(g, fat, sclust, k);
    if ch != [] { HeadIsCluster(fat, chains, ch); }
  }

  /** What putting the name into the entry the search found makes of the directory. */
  lemma RegisteredAt(g: Geometry, img: Image, ch: seq<nat>, mid: Image, ch': seq<nat>, img': Image, fn: seq<Byte>, k: nat)
    requires Vacant(g, img, ch, mid, ch', k) && |fn| == 12
    requires DirFits(g, mid, ch') && (ch' == [] || OnVolume(g, mid, ch'))
    requires k < DirCount(g, ch') && Blank(View(g, mid, ch')[k])
    requires k / 16 < DirSectors(g, ch') && k % 16 * 32 + 32 <= 512
    requires var s := DirSect(g, ch', k / 16); s < |mid| && img' == mid[s := Splice(mid[s], k % 16 * 32, NewEntry(fn))]
    ensures DirFits(g, img, ch) && DirFits(g, img', ch')
    ensures Registered(View(g, img, ch), View(g, img', ch'), NewEntry(fn), k)
  {
    hide View, DirGrown, OnVolume, DirSectors, DirSect, NewEntry, Splice, DirCount, DirFits;
    ViewPatched(g, mid, ch', k, NewEntry(fn));
    if ch' != ch {
      NotEmptyGrown(g, img, ch, mid, ch');
      ViewGrown(g, img, mid, ch, ch');
    }
  }

  /** A sector of the directory. */
  ghost predicate DirOwns(g: Geometry, ch: seq<nat>, x: nat)
  {
    if ch == [] then g.FatEnd() <= x < g.database else OwnSector(g, ch, x)
  }

  /** Outside the table area only sectors of the directory changed. */
  ghost predicate DirOnly(g: Geometry, img: Image, img': Image, ch: seq<nat>)
  {
    && |img'| == |img|
    && forall x :: 0 <= x < |img| && !g.TableSector(x) && !DirOwns(g, ch, x) ==> img'[x] == img[x]
  }

  lemma DirOnlyAt(g: Geometry, img: Image, ch: seq<nat>, mid: Image, ch': seq<nat>, img': Image, k: nat, w: Sector)
    requires Vacant(g, img, ch, mid, ch', k) && DirFits(g, mid, ch') && (ch' == [] || OnVolume(g, mid, ch'))
    requires k / 16 < DirSectors(g, ch') && (ch' == [] ==> g.dirbase + g.nRootdir / 16 <= g.database)
    requires var s := DirSect(g, ch', k / 16); s < |mid| && img' == mid[s := w]
    ensures DirOnly(g, img, img', ch')
  {
    hide View, DirCount, Sectors;
    if ch' != [] { FileSectOwn(g, mid, ch', k / 16); }
    if ch' != ch {
      var c := ch'[|ch|];
      forall x: nat | g.ClusterSect(c) <= x < g.ClusterSect(c) + g.csize
        ensures DirOwns(g, ch', x)
      {
        RunCluster(g, c, x);
      }
    }
  }

  lemma NewEntryBytes(s: Sector, o: nat, fn: seq<Byte>)
    requires o + 32 <= 512 && |fn| == 12
    ensures var s1 := Splice(s, o, seq(32, i => 0)); var s2 := Splice(s1, o, fn[..11]);
      Splice(s2, o + DIR_NTRES, [(fn[11] / 8 % 4 * 8) as Byte]) == Splice(s, o, NewEntry(fn))
  {
  }

  // ---- changes of the view ----

  lemma DirSectInjective(g: Geometry, img: Image, ch: seq<nat>, k: nat, m: nat)
    requires (ch == [] || OnVolume(g, img, ch)) && 0 < g.csize && forall i :: 0 <= i < |ch| ==> ch[i] >= 2
    requires k < DirSectors(g, ch) && m < DirSectors(g, ch) && DirSect(g, ch, k) == DirSect(g, ch, m)
    ensures k == m
  {
    if ch != [] { FileSectInjective(g, img, ch, k, m); }
  }

  /** Storing one entry in its sector changes that entry of the view and no other. */
  lemma ViewPatched(g: Geometry, img: Image, ch: seq<nat>, k: nat, e: Entry32)
    requires DirFits(g, img, ch) && (ch == [] || OnVolume(g, img, ch)) && k < DirCount(g, ch)
    ensures k / 16 < DirSectors(g, ch) && k % 16 * 32 + 32 <= 512
    ensures var s := DirSect(g, ch, k / 16);
      && s < |img|
      && var img' := img[s := Splice(img[s], k % 16 * 32, e)];
      DirFits(g, img', ch) && View(g, img', ch) == View(g, img, ch)[k := e]
  {
    var s := DirSect(g, ch, k / 16);
    var w: Sector := Splice(img[s], k % 16 * 32, e);
    var img' := img[s := w];
    hide DirSect, DirSectors, View;
    assert DirFits(g, img', ch);
    forall i | 0 <= i < DirCount(g, ch)
      ensures View(g, img', ch)[i] == if i == k then e else View(g, img, ch)[i]
    {
      assert View(g, img', ch)[i] == ViewEntry(g, img', ch, i) && View(g, img, ch)[i] == ViewEntry(g, img, ch, i);
      PatchedEntry(g, img, ch, k, e, i, w);
    }
  }

  lemma PatchedEntry(g: Geometry, img: Image, ch: seq<nat>, k: nat, e: Entry32, i: nat, w: Sector)
    requires DirFits(g, img, ch) && (ch == [] || OnVolume(g, img, ch))
    requires k / 16 < DirSectors(g, ch) && i / 16 < DirSectors(g, ch)
    requires w == Splice(img[DirSect(g, ch, k / 16)], k % 16 * 32, e)
    ensures var img' := img[DirSect(g, ch, k / 16) := w];
      DirFits(g, img', ch) && ViewEntry(g, img', ch, i) == if i == k then e else ViewEntry(g, img, ch, i)
  {
    if DirSect(g, ch, i / 16) == DirSect(g, ch, k / 16) {
      DirSectInjective(g, img, ch, i / 16, k / 16);
    }
    hide DirSect, DirSectors;
    if i != k && i / 16 == k / 16 { assert i % 16 < k % 16 || k % 16 < i % 16; }
  }

  /** A stretched directory shows its old entries, and entries that end it behind them. */
  lemma ViewGrown(g: Geometry, img: Image, img': Image, ch: seq<nat>, ch': seq<nat>)
    requires DirFits(g, img, ch) && DirFits(g, img', ch') && OnVolume(g, img', ch') && DirGrown(g, img, ch, img', ch')
    requires 16 * DirSectors(g, ch) < MAX_INDEX
    ensures var es, es' := View(g, img, ch), View(g, img', ch');
      && |es| < |es'| && |es| == 16 * DirSectors(g, ch)
      && (forall i :: 0 <= i < |es| ==> es'[i] == es[i])
      && (forall i :: |es| <= i < |es'| ==> es'[i][0] == 0)
  {
    var es, es' := View(g, img, ch), View(g, img', ch');
    assert Sectors(g, ch') == Sectors(g, ch) + g.csize;
    hide View, DirGrown, OnVolume;
    assert ch != [] by { NotEmptyGrown(g, img, ch, img', ch'); }
    forall i | 0 <= i < |es'|
      ensures if i < |es| then es'[i] == es[i] else es'[i][0] == 0
    {
      assert es'[i] == ViewEntry(g, img', ch', i);
      if i < |es| { assert es[i] == ViewEntry(g, img, ch, i); }
      GrownEntry(g, img, img', ch, ch', i);
    }
  }

  lemma NotEmptyGrown(g: Geometry, img: Image, ch: seq<nat>, img': Image, ch': seq<nat>)
    requires DirGrown(g, img, ch, img', ch')
    ensures ch != [] && ch' != []
  {
  }

  lemma GrownEntry(g: Geometry, img: Image, img': Image, ch: seq<nat>, ch': seq<nat>, i: nat)
    requires DirFits(g, img, ch) && DirFits(g, img', ch') && OnVolume(g, img', ch') && DirGrown(g, img, ch, img', ch')
    requires i / 16 < DirSectors(g, ch')
    ensures i / 16 < DirSectors(g, ch) ==> ViewEntry(g, img', ch', i) == ViewEntry(g, img, ch, i)
    ensures i / 16 >= DirSectors(g, ch) ==> ViewEntry(g, img', ch', i)[0] == 0
  {
    var k := i / 16;
    FileSectInVolume(g, img', ch', k);
    GrownSector(g, img', ch, ch', k);
    if k < DirSectors(g, ch) { FileSectPrefix(g, ch, ch', k); }
    hide FileSect, OnVolume, Sectors, Geometry.ClusterSect;
  }

  /** A sector of a stretched directory lies in the new cluster exactly when it is behind the old ones. */
  lemma GrownSector(g: Geometry, img: Image, ch: seq<nat>, ch': seq<nat>, k: nat)
    requires OnVolume(g, img, ch') && |ch'| == |ch| + 1 && ch <= ch' && k < Sectors(g, ch')
    ensures var s := g.ClusterSect(ch'[|ch|]);
      s <= FileSect(g, ch', k) < s + g.csize <==> k >= Sectors(g, ch)
  {
    var d := g.csize;
    FileSectOwn(g, img, ch', k);
    RunCluster(g, ch'[|ch|], FileSect(g, ch', k));
    if k < Sectors(g, ch) {
      DivBelow(k, d, |ch|);
    } else {
      DivAbove(k, d, |ch|);
      DivBelow(k, d, |ch'|);
    }
  }

  lemma RunCluster(g: Geometry, c: nat, x: nat)
    requires g.csize > 0 && c >= 2 && x >= g.database
    ensures g.ClusterSect(c) <= x < g.ClusterSect(c) + g.csize ==> g.ClusterOf(x) == c
  {
    if g.ClusterSect(c) <= x < g.ClusterSect(c) + g.csize { g.ClusterOfSect(c, x - g.ClusterSect(c)); }
  }
}
