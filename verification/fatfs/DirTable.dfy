/** Where directory entries lie: a fixed run of sectors, or a chain of clusters. */
module DirTable {
  import opened Bytes
  import opened Layout
  import opened LogicalDisk
  import opened Table
  import opened Chains
  import opened FileView
  import opened DirEntry

  /** Place of an entry: cluster (0 in a static table) and sector; or past the end of the table; or behind a
      link that is no cluster. */
  datatype Place = At(clust: nat, sect: nat) | End | Broken

  /** Directory indices are 16 bits wide. */
  const MAX_INDEX: nat := 0x1_0000

  /** The cluster `n` links behind `c`. */
  function Follow(g: Geometry, fat: seq<nat>, c: nat, n: nat): (p: Place)
    requires |fat| == g.maxClust && g.ValidCluster(c)
    ensures p.At? ==> g.ValidCluster(p.clust)
  {
    if n == 0 then At(c, 0) else
      match Follow(g, fat, c, n - 1)
      case At(d, _) => if fat[d] < 2 then Broken else if fat[d] >= g.maxClust then End else At(fat[d], 0)
      case p => p
  }

  /** Start cluster of the table; 0 means the static root directory, and on FAT32 the root's cluster. */
  function TableStart(g: Geometry, sclust: nat): nat
  {
    if sclust == 0 && g.fsType == Fat32 then g.dirbase else sclust
  }

  /** Random access: where entry `idx` lies, on any table contents. */
  function Locate(g: Geometry, fat: seq<nat>, sclust: nat, idx: nat): (p: Place)
    requires g.csize > 0 && |fat| == g.maxClust && (g.fsType == Fat32 ==> g.ValidCluster(g.dirbase))
    ensures p.At? && p.clust != 0 ==> g.ValidCluster(p.clust)
  {
    if sclust == 1 || sclust >= g.maxClust then Broken
    else if TableStart(g, sclust) == 0 then
      if idx >= g.nRootdir then End else At(0, g.dirbase + idx / 16)
    else
      match Follow(g, fat, TableStart(g, sclust), idx / 16 / g.csize)
      case At(c, _) => At(c, g.ClusterSect(c) + idx / 16 % g.csize)
      case p => p
  }

  /** From one entry to the next: within a sector, to the next sector, or to the next cluster. */
  function NextPlace(g: Geometry, fat: seq<nat>, p: Place, i: nat): Place
    requires p.At? && g.csize > 0 && |fat| == g.maxClust && (p.clust != 0 ==> g.ValidCluster(p.clust))
  {
    if i % 16 != 0 then p
    else if p.clust == 0 then if i >= g.nRootdir then End else At(0, p.sect + 1)
    else if i / 16 % g.csize != 0 then At(p.clust, p.sect + 1)
    else if fat[p.clust] < 2 then Broken
    else if fat[p.clust] >= g.maxClust then End
    else At(fat[p.clust], g.ClusterSect(fat[p.clust]))
  }

  /** Stepping refines random access, for static and chained tables alike. */
  lemma StepIsLocate(g: Geometry, fat: seq<nat>, sclust: nat, idx: nat)
    requires 0 < g.csize && |fat| == g.maxClust && (g.fsType == Fat32 ==> g.ValidCluster(g.dirbase))
    requires g.nRootdir % 16 == 0 && Locate(g, fat, sclust, idx).At?
    ensures Locate(g, fat, sclust, idx + 1) == NextPlace(g, fat, Locate(g, fat, sclust, idx), idx + 1)
    ensures Locate(g, fat, sclust, idx).clust == 0 <==> TableStart(g, sclust) == 0
  {
    var k, d := idx / 16, g.csize;
    if (idx + 1) % 16 != 0 {
      assert (idx + 1) / 16 == k;
    } else {
      assert (idx + 1) / 16 == k + 1;
      if k % d + 1 < d { DivWithin(k, d, 1); } else { DivNext(k, d); }
    }
  }

  /** A step to entry `i`, on any table: to the next sector after sixteen entries, and in a chained table to the cluster
      linked after `16 * csize` of them, where a link of 0 or 1 is broken and one behind the table is the end; a static
      table ends behind its last entry. */
  lemma StepsExactly(g: Geometry, fat: seq<nat>, p: Place, i: nat)
    requires p.At? && g.csize > 0 && |fat| == g.maxClust && (p.clust != 0 ==> g.ValidCluster(p.clust))
    ensures var q := NextPlace(g, fat, p, i);
      && (i % 16 != 0 ==> q == p)
      && (i % 16 == 0 && p.clust == 0 ==> q == if i < g.nRootdir then At(0, p.sect + 1) else End)
      && (i % 16 == 0 && p.clust != 0 && i / 16 % g.csize != 0 ==> q == At(p.clust, p.sect + 1))
      && (i % 16 == 0 && p.clust != 0 && i / 16 % g.csize == 0 ==> var c := fat[p.clust];
           && (q == Broken <==> c < 2) && (q == End <==> c >= g.maxClust)
           && (2 <= c < g.maxClust ==> q == At(c, g.database + (c - 2) * g.csize)))
  {
  }

  // ---- directories of a sound volume ----

  /** The directory `sclust` names: its chain, or the static root when the chain is empty. */
  ghost predicate IsDir(g: Geometry, fat: seq<nat>, chains: set<seq<nat>>, sclust: nat, ch: seq<nat>)
  {
    && |fat| == g.maxClust && Volume(fat, chains)
    && (if ch == [] then sclust == 0 && g.fsType != Fat32
        else ch in chains && TableStart(g, sclust) == ch[0] && (sclust == 0 ==> g.fsType == Fat32))
  }

  function DirSectors(g: Geometry, ch: seq<nat>): nat
  {
    if ch == [] then g.nRootdir / 16 else Sectors(g, ch)
  }

  /** Sector `k` of the directory. */
  function DirSect(g: Geometry, ch: seq<nat>, k: nat): (s: nat)
    requires g.csize > 0 && k < DirSectors(g, ch) && forall i :: 0 <= i < |ch| ==> ch[i] >= 2
  {
    if ch == [] then g.dirbase + k else FileSect(g, ch, k)
  }

  /** Entries within reach of the 16-bit index. */
  function DirCount(g: Geometry, ch: seq<nat>): nat { Min(16 * DirSectors(g, ch), MAX_INDEX) }

  lemma {:induction false} FollowChain(g: Geometry, fat: seq<nat>, chains: set<seq<nat>>, ch: seq<nat>, n: nat)
    requires |fat| == g.maxClust && Volume(fat, chains) && ch in chains
    ensures ch != [] && g.ValidCluster(ch[0])
    ensures n < |ch| ==> Follow(g, fat, ch[0], n) == At(ch[n], 0)
    ensures n >= |ch| ==> Follow(g, fat, ch[0], n) == End
  {
    hide Volume, IsChain;
    HeadIsCluster(fat, chains, ch);
    LinkOfChain(fat, chains, ch, 0);
    if n > 0 {
      FollowChain(g, fat, chains, ch, n - 1);
      if n - 1 < |ch| { LinkOfChain(fat, chains, ch, n - 1); }
    }
  }

  lemma DirClusters(g: Geometry, fat: seq<nat>, chains: set<seq<nat>>, sclust: nat, ch: seq<nat>)
    requires IsDir(g, fat, chains, sclust, ch)
    ensures forall i :: 0 <= i < |ch| ==> ch[i] >= 2 && g.ValidCluster(ch[i])
  {
    forall i | 0 <= i < |ch| ensures ch[i] >= 2 && g.ValidCluster(ch[i]) { LinkOfChain(fat, chains, ch, i); }
  }

  /** Where sector `idx / 16` of the directory is: its cluster and its sector, or past the end. */
  ghost function DirPlace(g: Geometry, ch: seq<nat>, idx: nat): (p: Place)
    requires g.csize > 0 && forall i :: 0 <= i < |ch| ==> ch[i] >= 2
  {
    if idx / 16 >= DirSectors(g, ch) then End
    else if ch == [] then At(0, DirSect(g, ch, idx / 16))
    else DivBelow(idx / 16, g.csize, |ch|); At(ch[idx / 16 / g.csize], DirSect(g, ch, idx / 16))
  }

  /** On a sound volume random access finds exactly the directory's sectors. */
  lemma LocateInDir(g: Geometry, fat: seq<nat>, chains: set<seq<nat>>, sclust: nat, ch: seq<nat>, idx: nat)
    requires IsDir(g, fat, chains, sclust, ch) && 0 < g.csize && g.nRootdir % 16 == 0 && g.maxClust >= 2
    requires g.fsType == Fat32 ==> g.ValidCluster(g.dirbase)
    requires forall i :: 0 <= i < |ch| ==> ch[i] >= 2
    ensures Locate(g, fat, sclust, idx) == DirPlace(g, ch, idx)
  {
    hide Volume, IsChain, Follow;
    var k, d := idx / 16, g.csize;
    if ch != [] {
      FollowChain(g, fat, chains, ch, k / d);
      LinkOfChain(fat, chains, ch, 0);
      if k < Sectors(g, ch) { DivBelow(k, d, |ch|); } else { DivAbove(k, d, |ch|); }
    }
  }

  lemma DivAbove(k: nat, d: nat, n: nat)
    requires d > 0 && k >= n * d
    ensures k / d >= n
  {
    assert k == k / d * d + k % d;
    assert (k / d + 1) * d == k / d * d + d;
    if k / d < n { MulMono(k / d + 1, n, d); }
  }

  /** The directory got one more cluster of zeros, and no other sector outside the table area changed. */
  ghost predicate DirGrown(g: Geometry, img: Image, ch: seq<nat>, img': Image, ch': seq<nat>)
  {
    && |ch'| == |ch| + 1 && ch <= ch' && ch != [] && g.ValidCluster(ch'[|ch|]) && |img'| == |img|
    && var s := g.ClusterSect(ch'[|ch|]);
       forall x :: 0 <= x < |img| && !g.TableSector(x) ==> img'[x] == if s <= x < s + g.csize then ZeroSector() else img[x]
  }

  /** A stretched directory finds its first new entry at the start of the new cluster. */
  lemma GrownPlace(g: Geometry, ch: seq<nat>, c: nat)
    requires 0 < g.csize && ch != [] && c >= 2 && forall i :: 0 <= i < |ch| ==> ch[i] >= 2
    ensures DirPlace(g, ch + [c], 16 * DirSectors(g, ch)) == At(c, g.ClusterSect(c))
  {
    var k, d := Sectors(g, ch), g.csize;
    assert Sectors(g, ch + [c]) == k + d;
    DivModUnique(k, d, |ch|, 0);
    assert 16 * k / 16 == k;
  }

  /** `n` single steps from the first entry. */
  function Steps(g: Geometry, fat: seq<nat>, sclust: nat, n: nat): (p: Place)
    requires 0 < g.csize && |fat| == g.maxClust && (g.fsType == Fat32 ==> g.ValidCluster(g.dirbase))
    ensures p.At? && p.clust != 0 ==> g.ValidCluster(p.clust)
  {
    if n == 0 then Locate(g, fat, sclust, 0) else
      match Steps(g, fat, sclust, n - 1)
      case At(c, s) => NextPlace(g, fat, At(c, s), n)
      case p => p
  }

  /** Stepping `n` times and seeking `n` lead to the same place, or to the same failure. */
  lemma {:induction false} StepsAreLocate(g: Geometry, fat: seq<nat>, sclust: nat, n: nat)
    requires 0 < g.csize && |fat| == g.maxClust && (g.fsType == Fat32 ==> g.ValidCluster(g.dirbase))
    requires g.nRootdir % 16 == 0
    ensures Steps(g, fat, sclust, n) == Locate(g, fat, sclust, n)
  {
    hide Locate;
    if n > 0 {
      StepsAreLocate(g, fat, sclust, n - 1);
      if Locate(g, fat, sclust, n - 1).At? {
        StepIsLocate(g, fat, sclust, n - 1);
      } else {
        LocateStuck(g, fat, sclust, n - 1);
      }
    }
  }

  lemma LocateStuck(g: Geometry, fat: seq<nat>, sclust: nat, idx: nat)
    requires 0 < g.csize && |fat| == g.maxClust && (g.fsType == Fat32 ==> g.ValidCluster(g.dirbase))
    requires !Locate(g, fat, sclust, idx).At?
    ensures Locate(g, fat, sclust, idx + 1) == Locate(g, fat, sclust, idx)
  {
    hide Follow;
    var start := TableStart(g, sclust);
    if g.ValidCluster(start) {
      var k, m := idx / 16, (idx + 1) / 16;
      DivMono(k, m, g.csize);
      FollowStuck(g, fat, start, k / g.csize, m / g.csize);
    }
  }

  lemma DivMono(k: nat, m: nat, d: nat)
    requires d > 0 && k <= m
    ensures k / d <= m / d
  {
    assert k == k / d * d + k % d && m == m / d * d + m % d;
    assert (m / d + 1) * d == m / d * d + d;
    if k / d > m / d { MulMono(m / d + 1, k / d, d); }
  }

  lemma {:induction false} FollowStuck(g: Geometry, fat: seq<nat>, c: nat, n: nat, m: nat)
    requires |fat| == g.maxClust && g.ValidCluster(c) && n <= m && !Follow(g, fat, c, n).At?
    ensures Follow(g, fat, c, m) == Follow(g, fat, c, n)
  {
    if n < m { FollowStuck(g, fat, c, n, m - 1); }
  }

  /** Directory sectors lie behind the table area, inside the volume. */
  lemma PlaceInVolume(g: Geometry, fat: seq<nat>, sclust: nat, idx: nat)
    requires g.Sane() && |fat| == g.maxClust && Locate(g, fat, sclust, idx).At?
    ensures 0 < g.FatEnd() <= Locate(g, fat, sclust, idx).sect < g.VolEnd()
  {
    hide Follow;
    match Locate(g, fat, sclust, idx)
    case At(c, s) =>
      if c != 0 { g.ClusterInVolume(c, idx / 16 % g.csize); }
  }

  // ---- entries ----

  /** Entry `idx` of the table. */
  function EntryOf(g: Geometry, img: Image, fat: seq<nat>, sclust: nat, idx: nat): (e: Entry32)
    requires 0 < g.csize && |fat| == g.maxClust && (g.fsType == Fat32 ==> g.ValidCluster(g.dirbase))
    requires Locate(g, fat, sclust, idx).At? && Locate(g, fat, sclust, idx).sect < |img|
  {
    EntryAt(img[Locate(g, fat, sclust, idx).sect], idx % 16 * 32)
  }

  /** A live entry for the wanted name: not a volume label, and the same eleven name bytes. */
  predicate Matches(e: Entry32, name: seq<Byte>)
    requires |name| >= 11
  {
    !HasAttr(e[DIR_ATTR], AM_VOL) && e[..11] == name[..11]
  }

  /** The first `n` entries exist, none ends the directory, and none is the wanted one. */
  ghost predicate Scanned(g: Geometry, img: Image, fat: seq<nat>, sclust: nat, name: seq<Byte>, n: nat)
    requires 0 < g.csize && |fat| == g.maxClust && (g.fsType == Fat32 ==> g.ValidCluster(g.dirbase)) && |name| >= 11
  {
    forall i :: 0 <= i < n ==>
      && Locate(g, fat, sclust, i).At? && Locate(g, fat, sclust, i).sect < |img|
      && EntryOf(g, img, fat, sclust, i)[0] != 0 && !Matches(EntryOf(g, img, fat, sclust, i), name)
  }
}
