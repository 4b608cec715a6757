/** The bytes of a file: its clusters' sectors, in chain order, on the logical disk. */
module FileView {
  import opened Bytes
  import opened Layout
  import opened LogicalDisk
  import opened Table
  import opened Chains

  // ---- quotients by the cluster size ----

  lemma DivBelow(k: nat, d: nat, n: nat)
    requires d > 0 && k < n * d
    ensures k / d < n
  {
    assert k == k / d * d + k % d;
    if k / d >= n { MulMono(n, k / d, d); }
  }

  lemma DivWithin(k: nat, d: nat, c: nat)
    requires d > 0 && k % d + c < d
    ensures (k + c) / d == k / d && (k + c) % d == k % d + c
  {
    DivModUnique(k + c, d, k / d, k % d + c);
  }

  lemma DivNext(k: nat, d: nat)
    requires d > 0 && k % d + 1 == d
    ensures (k + 1) / d == k / d + 1 && (k + 1) % d == 0
  {
    assert (k / d + 1) * d == k / d * d + d;
    DivModUnique(k + 1, d, k / d + 1, 0);
  }

  // ---- sectors ----

  /** Clusters of a chain on a volume inside the image. */
  ghost predicate OnVolume(g: Geometry, img: Image, ch: seq<nat>)
  {
    && g.csize > 0 && g.maxClust >= 2 && g.VolEnd() <= |img| && 0 < g.FatEnd() <= g.database
    && (forall i :: 0 <= i < |ch| ==> g.ValidCluster(ch[i]))
    && (forall i, j :: 0 <= i < j < |ch| ==> ch[i] != ch[j])
  }

  lemma ChainOnVolume(g: Geometry, img: Image, fat: seq<nat>, chains: set<seq<nat>>, ch: seq<nat>)
    requires Fits(g, img) && |fat| == g.maxClust && Volume(fat, chains) && (ch == [] || ch in chains)
    ensures OnVolume(g, img, ch)
  {
    hide Geometry.FatEnd;
    if ch != [] {
      assert IsChain(fat, ch);
      forall i | 0 <= i < |ch| ensures g.ValidCluster(ch[i]) { assert InTable(fat, ch[i]); }
    }
  }

  /** Sectors the chain has room for. */
  function Sectors(g: Geometry, ch: seq<nat>): nat { |ch| * g.csize }

  /** Sector `k` of the file. */
  function FileSect(g: Geometry, ch: seq<nat>, k: nat): (s: nat)
    requires g.csize > 0 && k < Sectors(g, ch) && forall i :: 0 <= i < |ch| ==> ch[i] >= 2
    ensures s >= g.database
  {
    DivBelow(k, g.csize, |ch|);
    g.ClusterSect(ch[k / g.csize]) + k % g.csize
  }

  lemma FileSectInVolume(g: Geometry, img: Image, ch: seq<nat>, k: nat)
    requires OnVolume(g, img, ch) && k < Sectors(g, ch)
    ensures 0 < g.FatEnd() <= g.database <= FileSect(g, ch, k) < |img|
  {
    DivBelow(k, g.csize, |ch|);
    g.ClusterInVolume(ch[k / g.csize], k % g.csize);
  }

  /** A sector belongs to the file if its cluster does. */
  predicate OwnSector(g: Geometry, ch: seq<nat>, s: nat)
  {
    g.csize > 0 && s >= g.database && On(ch, g.ClusterOf(s))
  }

  lemma FileSectOwn(g: Geometry, img: Image, ch: seq<nat>, k: nat)
    requires OnVolume(g, img, ch) && k < Sectors(g, ch)
    ensures OwnSector(g, ch, FileSect(g, ch, k))
    ensures k / g.csize < |ch| && g.ClusterOf(FileSect(g, ch, k)) == ch[k / g.csize]
  {
    DivBelow(k, g.csize, |ch|);
    g.ClusterOfSect(ch[k / g.csize], k % g.csize);
  }

  /** Different places in a file are different sectors. */
  lemma FileSectInjective(g: Geometry, img: Image, ch: seq<nat>, k: nat, m: nat)
    requires OnVolume(g, img, ch) && k < Sectors(g, ch) && m < Sectors(g, ch)
    requires FileSect(g, ch, k) == FileSect(g, ch, m)
    ensures k == m
  {
    hide *;
    FileSectOwn(g, img, ch, k);
    FileSectOwn(g, img, ch, m);
    FileSectIs(g, img, ch, k);
    FileSectIs(g, img, ch, m);
    ClustersDiffer(g, img, ch, k / g.csize, m / g.csize);
    SameParts(k, m, g.csize);
  }

  lemma FileSectIs(g: Geometry, img: Image, ch: seq<nat>, k: nat)
    requires OnVolume(g, img, ch) && k < Sectors(g, ch)
    ensures 0 < g.csize && k / g.csize < |ch| && ch[k / g.csize] >= 2
    ensures FileSect(g, ch, k) == g.ClusterSect(ch[k / g.csize]) + k % g.csize
  {
    hide PowerOfTwo, Geometry.FatEnd;
    DivBelow(k, g.csize, |ch|);
  }

  lemma ClustersDiffer(g: Geometry, img: Image, ch: seq<nat>, i: nat, j: nat)
    requires OnVolume(g, img, ch) && i < |ch| && j < |ch| && ch[i] == ch[j]
    ensures i == j && 0 < g.csize && forall n :: 0 <= n < |ch| ==> ch[n] >= 2
  {
  }

  lemma SameParts(k: nat, m: nat, d: nat)
    requires d > 0 && k / d == m / d && k % d == m % d
    ensures k == m
  {
    assert k == k / d * d + k % d && m == m / d * d + m % d;
  }

  /** Sectors of one cluster follow each other. */
  lemma FileSectRun(g: Geometry, img: Image, ch: seq<nat>, k: nat, c: nat)
    requires OnVolume(g, img, ch) && k < Sectors(g, ch) && k % g.csize + c < g.csize
    ensures k + c < Sectors(g, ch) && FileSect(g, ch, k + c) == FileSect(g, ch, k) + c
  {
    DivBelow(k, g.csize, |ch|);
    DivWithin(k, g.csize, c);
    MulMono(k / g.csize + 1, |ch|, g.csize);
    assert (k / g.csize + 1) * g.csize == k / g.csize * g.csize + g.csize;
  }

  /** A longer chain keeps the sectors it had. */
  lemma FileSectPrefix(g: Geometry, ch: seq<nat>, ch': seq<nat>, k: nat)
    requires g.csize > 0 && k < Sectors(g, ch) && ch <= ch' && forall i :: 0 <= i < |ch'| ==> ch'[i] >= 2
    ensures k < Sectors(g, ch') && FileSect(g, ch', k) == FileSect(g, ch, k)
  {
    DivBelow(k, g.csize, |ch|);
    MulMono(|ch|, |ch'|, g.csize);
  }

  // ---- bytes ----

  /** Byte `j` of the file. */
  function FileByte(g: Geometry, img: Image, ch: seq<nat>, j: nat): (b: Byte)
    requires OnVolume(g, img, ch) && j / 512 < Sectors(g, ch)
  {
    FileSectInVolume(g, img, ch, j / 512);
    img[FileSect(g, ch, j / 512)][j % 512]
  }

  /** `n` bytes of the file from `pos` on. */
  ghost function Content(g: Geometry, img: Image, ch: seq<nat>, pos: nat, n: nat): (b: seq<Byte>)
    requires OnVolume(g, img, ch) && pos + n <= 512 * Sectors(g, ch)
    ensures |b| == n
    ensures forall i {:trigger b[i]} :: 0 <= i < n ==> b[i] == FileByte(g, img, ch, pos + i)
  {
    seq<Byte>(n, i requires 0 <= i < n => FileByte(g, img, ch, pos + i))
  }

  /** Sectors that are neither the file's nor the table's are as they were. */
  ghost predicate Untouched(g: Geometry, img: Image, img': Image, ch: seq<nat>)
  {
    && |img'| == |img|
    && forall s :: 0 <= s < |img| && !g.TableSector(s) && !OwnSector(g, ch, s) ==> img'[s] == img[s]
  }

  lemma UntouchedTrans(g: Geometry, a: Image, b: Image, c: Image, ch: seq<nat>, ch': seq<nat>)
    requires Untouched(g, a, b, ch) && Untouched(g, b, c, ch') && ch <= ch'
    ensures Untouched(g, a, c, ch')
  {
    forall s | 0 <= s < |a| && !g.TableSector(s) && !OwnSector(g, ch', s)
      ensures !OwnSector(g, ch, s)
    {
    }
  }

  lemma SameDataUntouched(g: Geometry, a: Image, b: Image, ch: seq<nat>)
    requires SameData(g, a, b)
    ensures Untouched(g, a, b, ch)
  {
  }

  lemma OtherByte(g: Geometry, img: Image, img': Image, ch: seq<nat>, other: seq<nat>, j: nat)
    requires Untouched(g, img, img', ch) && OnVolume(g, img, other) && Disjoint(other, ch)
    requires j / 512 < Sectors(g, other)
    ensures OnVolume(g, img', other) && FileByte(g, img', other, j) == FileByte(g, img, other, j)
  {
    FileSectOwn(g, img, other, j / 512);
    FileSectInVolume(g, img, other, j / 512);
    assert On(other, other[j / 512 / g.csize]);
  }

  /** Another chain's bytes do not change when a file is written. */
  lemma OtherFile(g: Geometry, img: Image, img': Image, ch: seq<nat>, other: seq<nat>, pos: nat, n: nat)
    requires Untouched(g, img, img', ch) && OnVolume(g, img, other) && Disjoint(other, ch)
    requires pos + n <= 512 * Sectors(g, other)
    ensures OnVolume(g, img', other) && Content(g, img', other, pos, n) == Content(g, img, other, pos, n)
  {
    hide FileByte, Disjoint, OwnSector;
    var a, b := Content(g, img', other, pos, n), Content(g, img, other, pos, n);
    forall i | 0 <= i < n
      ensures a[i] == b[i]
    {
      OtherByte(g, img, img', ch, other, pos + i);
    }
  }

  /** Where a byte of the file lies on the disk: cluster 2 begins the data area, and clusters follow each other. */
  lemma ByteLies(g: Geometry, img: Image, ch: seq<nat>, j: nat)
    requires OnVolume(g, img, ch) && j / 512 < Sectors(g, ch)
    ensures var i, k := j / 512 / g.csize, j / 512 % g.csize;
      && i < |ch| && ch[i] >= 2 && 0 <= k < g.csize
      && var s := g.database + (ch[i] - 2) * g.csize + k;
        s < |img| && FileByte(g, img, ch, j) == img[s][j % 512]
  {
    DivBelow(j / 512, g.csize, |ch|);
    FileSectInVolume(g, img, ch, j / 512);
  }

  /** The disk's byte at place `j` of the file. */
  function DiskByte(g: Geometry, img: Image, ch: seq<nat>, j: nat): Byte
    requires OnVolume(g, img, ch) && j / 512 < Sectors(g, ch)
  {
    ByteLies(g, img, ch, j);
    img[g.database + (ch[j / 512 / g.csize] - 2) * g.csize + j / 512 % g.csize][j % 512]
  }

  lemma ContentLies(g: Geometry, img: Image, ch: seq<nat>, pos: nat, n: nat)
    requires OnVolume(g, img, ch) && pos + n <= 512 * Sectors(g, ch)
    ensures forall i :: 0 <= i < n ==> Content(g, img, ch, pos, n)[i] == DiskByte(g, img, ch, pos + i)
  {
    hide OnVolume, Sectors, FileByte;
    forall i | 0 <= i < n
      ensures Content(g, img, ch, pos, n)[i] == DiskByte(g, img, ch, pos + i)
    {
      ByteLies(g, img, ch, pos + i);
    }
  }

  // ---- what a write leaves ----

  /** A byte after one sector of the file was replaced. */
  lemma SectorReplaced(g: Geometry, img: Image, ch: seq<nat>, k: nat, w: Sector, j: nat)
    requires OnVolume(g, img, ch) && k < Sectors(g, ch) && j / 512 < Sectors(g, ch)
    ensures FileSect(g, ch, k) < |img|
    ensures var img' := img[FileSect(g, ch, k) := w];
      && OnVolume(g, img', ch)
      && FileByte(g, img', ch, j) == if j / 512 == k then w[j % 512] else FileByte(g, img, ch, j)
  {
    FileSectInVolume(g, img, ch, k);
    FileSectInVolume(g, img, ch, j / 512);
    if FileSect(g, ch, k) == FileSect(g, ch, j / 512) { FileSectInjective(g, img, ch, k, j / 512); }
  }

  lemma SectorReplacedElsewhere(g: Geometry, img: Image, ch: seq<nat>, k: nat, w: Sector)
    requires OnVolume(g, img, ch) && k < Sectors(g, ch)
    ensures FileSect(g, ch, k) < |img| && Untouched(g, img, img[FileSect(g, ch, k) := w], ch)
  {
    FileSectInVolume(g, img, ch, k);
    FileSectOwn(g, img, ch, k);
  }

  /** A byte after a run of whole sectors inside one cluster was written. */
  lemma RunWritten(g: Geometry, img: Image, ch: seq<nat>, k: nat, data: seq<Byte>, j: nat)
    requires OnVolume(g, img, ch) && k < Sectors(g, ch) && j / 512 < Sectors(g, ch)
    requires |data| % 512 == 0 && k % g.csize + |data| / 512 <= g.csize
    ensures var img' := WriteRun(img, FileSect(g, ch, k), data);
      && OnVolume(g, img', ch)
      && FileByte(g, img', ch, j) == if 512 * k <= j < 512 * k + |data| then data[j - 512 * k] else FileByte(g, img, ch, j)
  {
    hide FileSect, Sectors, Geometry.ClusterSect;
    var m, cc, sect := j / 512, |data| / 512, FileSect(g, ch, k);
    FileSectInVolume(g, img, ch, m);
    FileSectInVolume(g, img, ch, k);
    var img' := WriteRun(img, sect, data);
    SameSizeOnVolume(g, img, img', ch);
    if k <= m < k + cc {
      FileSectRun(g, img, ch, k, m - k);
      assert img'[sect + (m - k)] == Slice(data, m - k);
    } else if sect <= FileSect(g, ch, m) < sect + cc {
      var c := FileSect(g, ch, m) - sect;
      FileSectRun(g, img, ch, k, c);
      FileSectInjective(g, img, ch, k + c, m);
    }
  }

  lemma SameSizeOnVolume(g: Geometry, img: Image, img': Image, ch: seq<nat>)
    requires OnVolume(g, img, ch) && |img'| == |img|
    ensures OnVolume(g, img', ch)
  {
  }

  lemma RunWrittenElsewhere(g: Geometry, img: Image, ch: seq<nat>, k: nat, data: seq<Byte>)
    requires OnVolume(g, img, ch) && k < Sectors(g, ch)
    requires |data| % 512 == 0 && k % g.csize + |data| / 512 <= g.csize
    ensures FileSect(g, ch, k) + |data| / 512 <= |img|
    ensures Untouched(g, img, WriteRun(img, FileSect(g, ch, k), data), ch)
  {
    var cc, sect := |data| / 512, FileSect(g, ch, k);
    FileSectInVolume(g, img, ch, k);
    if cc > 0 {
      FileSectRun(g, img, ch, k, cc - 1);
      FileSectInVolume(g, img, ch, k + cc - 1);
    }
    forall s | sect <= s < sect + cc
      ensures OwnSector(g, ch, s)
    {
      FileSectRun(g, img, ch, k, s - sect);
      FileSectOwn(g, img, ch, k + (s - sect));
    }
  }

  /** A file's bytes after its chain got longer and only the table was written. */
  lemma GrownContent(g: Geometry, img: Image, img': Image, ch: seq<nat>, ch': seq<nat>, n: nat)
    requires SameData(g, img, img') && OnVolume(g, img, ch) && OnVolume(g, img', ch') && ch <= ch'
    requires n <= 512 * Sectors(g, ch)
    ensures n <= 512 * Sectors(g, ch') && Content(g, img', ch', 0, n) == Content(g, img, ch, 0, n)
  {
    MulMono(|ch|, |ch'|, g.csize);
    var a, b := Content(g, img', ch', 0, n), Content(g, img, ch, 0, n);
    hide Content, SameData, OnVolume;
    forall i | 0 <= i < n
      ensures a[i] == b[i]
    {
      assert a[i] == FileByte(g, img', ch', 0 + i) && b[i] == FileByte(g, img, ch, 0 + i);
      GrownByte(g, img, img', ch, ch', i);
    }
  }

  lemma GrownByte(g: Geometry, img: Image, img': Image, ch: seq<nat>, ch': seq<nat>, j: nat)
    requires SameData(g, img, img') && OnVolume(g, img, ch) && OnVolume(g, img', ch') && ch <= ch'
    requires j / 512 < Sectors(g, ch)
    ensures j / 512 < Sectors(g, ch') && FileByte(g, img', ch', j) == FileByte(g, img, ch, j)
  {
    FileSectPrefix(g, ch, ch', j / 512);
    FileSectInVolume(g, img, ch, j / 512);
  }

  /** `d` laid over `c` from `p` on, past its end if need be. */
  function Overwrite(c: seq<Byte>, p: nat, d: seq<Byte>): (r: seq<Byte>)
    requires p <= |c|
    ensures |r| == Max(|c|, p + |d|)
    ensures forall i :: 0 <= i < |r| ==> r[i] == if p <= i < p + |d| then d[i - p] else c[i]
  {
    c[..p] + d + if p + |d| < |c| then c[p + |d|..] else []
  }

  lemma OverwriteOn(c: seq<Byte>, p: nat, d: seq<Byte>, e: seq<Byte>)
    requires p <= |c|
    ensures Overwrite(Overwrite(c, p, d), p + |d|, e) == Overwrite(c, p, d + e)
  {
  }

  /** Byte by byte, `img'` holds the file of `img` with `bytes` laid over it from `pos` on. */
  ghost predicate Overlaid(g: Geometry, img: Image, img': Image, ch: seq<nat>, pos: nat, bytes: seq<Byte>, n: nat)
  {
    && OnVolume(g, img, ch) && OnVolume(g, img', ch)
    && pos <= n <= 512 * Sectors(g, ch) && pos + |bytes| <= 512 * Sectors(g, ch)
    && forall j {:trigger FileByte(g, img', ch, j)} :: 0 <= j < Max(n, pos + |bytes|) ==>
         FileByte(g, img', ch, j) == if pos <= j < pos + |bytes| then bytes[j - pos] else FileByte(g, img, ch, j)
  }

  lemma OverlaidContent(g: Geometry, img: Image, img': Image, ch: seq<nat>, pos: nat, bytes: seq<Byte>, n: nat)
    requires Overlaid(g, img, img', ch, pos, bytes, n)
    ensures OnVolume(g, img, ch) && OnVolume(g, img', ch)
    ensures pos <= n <= 512 * Sectors(g, ch) && pos + |bytes| <= 512 * Sectors(g, ch)
    ensures Content(g, img', ch, 0, Max(n, pos + |bytes|)) == Overwrite(Content(g, img, ch, 0, n), pos, bytes)
  {
    hide OnVolume, FileByte, Sectors;
    var hi := Max(n, pos + |bytes|);
    var a, b := Content(g, img', ch, 0, hi), Content(g, img, ch, 0, n);
    forall j | 0 <= j < hi
      ensures a[j] == Overwrite(b, pos, bytes)[j]
    {
      assert a[j] == FileByte(g, img', ch, 0 + j);
      if j < n { assert b[j] == FileByte(g, img, ch, 0 + j); }
    }
  }

  /** Writing part of a sector, what the sector held around it is kept. */
  lemma PartOverlaid(g: Geometry, img: Image, ch: seq<nat>, pos: nat, bytes: seq<Byte>, n: nat)
    requires OnVolume(g, img, ch) && pos / 512 < Sectors(g, ch) && pos % 512 + |bytes| <= 512
    requires pos <= n <= 512 * Sectors(g, ch)
    ensures var s := FileSect(g, ch, pos / 512);
      && s < |img|
      && var img' := img[s := Splice(img[s], pos % 512, bytes)];
      Untouched(g, img, img', ch) && Overlaid(g, img, img', ch, pos, bytes, n)
  {
    hide Untouched, FileSect, FileByte, Geometry.VolEnd, Geometry.FatEnd;
    var k := pos / 512;
    FileSectInVolume(g, img, ch, k);
    var s := FileSect(g, ch, k);
    var w := Splice(img[s], pos % 512, bytes);
    SectorReplacedElsewhere(g, img, ch, k, w);
    var img' := img[s := w];
    forall j | 0 <= j < Max(n, pos + |bytes|)
      ensures FileByte(g, img', ch, j) == if pos <= j < pos + |bytes| then bytes[j - pos] else FileByte(g, img, ch, j)
    {
      SectorReplaced(g, img, ch, k, w, j);
      if j / 512 == k { ByteInSector(g, img, ch, j); }
    }
  }

  lemma ByteInSector(g: Geometry, img: Image, ch: seq<nat>, j: nat)
    requires OnVolume(g, img, ch) && j / 512 < Sectors(g, ch)
    ensures FileSect(g, ch, j / 512) < |img| && FileByte(g, img, ch, j) == img[FileSect(g, ch, j / 512)][j % 512]
  {
    FileSectInVolume(g, img, ch, j / 512);
  }

  /** At the growing edge the rest of the sector may become anything. */
  lemma FreshOverlaid(g: Geometry, img: Image, ch: seq<nat>, pos: nat, bytes: seq<Byte>, tail: seq<Byte>)
    requires OnVolume(g, img, ch) && pos / 512 < Sectors(g, ch) && pos % 512 == 0 && |bytes| + |tail| == 512
    ensures var s := FileSect(g, ch, pos / 512);
      && s < |img|
      && var img' := img[s := bytes + tail];
      Untouched(g, img, img', ch) && Overlaid(g, img, img', ch, pos, bytes, pos)
  {
    hide Untouched, FileSect, FileByte, Geometry.VolEnd, Geometry.FatEnd;
    var k := pos / 512;
    FileSectInVolume(g, img, ch, k);
    SectorReplacedElsewhere(g, img, ch, k, bytes + tail);
    var img' := img[FileSect(g, ch, k) := bytes + tail];
    forall j | 0 <= j < pos + |bytes|
      ensures FileByte(g, img', ch, j) == if pos <= j < pos + |bytes| then bytes[j - pos] else FileByte(g, img, ch, j)
    {
      SectorReplaced(g, img, ch, k, bytes + tail, j);
    }
  }

  /** A run of whole sectors. */
  lemma RunOverlaid(g: Geometry, img: Image, ch: seq<nat>, pos: nat, data: seq<Byte>, n: nat)
    requires OnVolume(g, img, ch) && pos / 512 < Sectors(g, ch) && pos % 512 == 0
    requires |data| % 512 == 0 && pos / 512 % g.csize + |data| / 512 <= g.csize
    requires pos <= n <= 512 * Sectors(g, ch)
    ensures FileSect(g, ch, pos / 512) + |data| / 512 <= |img|
    ensures var img' := WriteRun(img, FileSect(g, ch, pos / 512), data);
      Untouched(g, img, img', ch) && Overlaid(g, img, img', ch, pos, data, n)
  {
    hide Untouched, FileSect, FileByte, Geometry.VolEnd, Geometry.FatEnd, WriteRun;
    var k := pos / 512;
    RunWrittenElsewhere(g, img, ch, k, data);
    if |data| > 0 { FileSectRun(g, img, ch, k, |data| / 512 - 1); }
    var img' := WriteRun(img, FileSect(g, ch, k), data);
    RunWritten(g, img, ch, k, data, pos);
    forall j | 0 <= j < Max(n, pos + |data|)
      ensures FileByte(g, img', ch, j) == if pos <= j < pos + |data| then data[j - pos] else FileByte(g, img, ch, j)
    {
      RunWritten(g, img, ch, k, data, j);
    }
  }

  /** From `(img, ch)` to `(img', ch')` a file of `size` bytes took `bytes` at `pos`, its chain grew at
      most, and no sector of anything else changed. */
  ghost predicate Written(g: Geometry, img: Image, ch: seq<nat>, img': Image, ch': seq<nat>,
                          size: nat, pos: nat, bytes: seq<Byte>)
  {
    && OnVolume(g, img, ch) && OnVolume(g, img', ch') && ch <= ch'
    && Max(size, pos) <= 512 * Sectors(g, ch) && Max(size, pos + |bytes|) <= 512 * Sectors(g, ch')
    && Content(g, img', ch', 0, Max(size, pos + |bytes|)) == Overwrite(Content(g, img, ch, 0, Max(size, pos)), pos, bytes)
    && Untouched(g, img, img', ch')
  }

  /** Writes one after the other are one write. */
  lemma WrittenOn(g: Geometry, img: Image, ch: seq<nat>, img1: Image, ch1: seq<nat>, img2: Image, ch2: seq<nat>,
                  size: nat, pos: nat, b1: seq<Byte>, b2: seq<Byte>)
    requires Written(g, img, ch, img1, ch1, size, pos, b1)
    requires Written(g, img1, ch1, img2, ch2, size, pos + |b1|, b2)
    ensures Written(g, img, ch, img2, ch2, size, pos, b1 + b2)
  {
    hide OnVolume, Content, Overwrite, Untouched, Sectors;
    UntouchedTrans(g, img, img1, img2, ch1, ch2);
    OverwriteOn(Content(g, img, ch, 0, Max(size, pos)), pos, b1, b2);
  }

  lemma KeptOn(g: Geometry, img: Image, ch: seq<nat>, img1: Image, ch1: seq<nat>, img2: Image, ch2: seq<nat>,
               size: nat, pos: nat)
    requires Written(g, img, ch, img1, ch1, size, pos, []) && Written(g, img1, ch1, img2, ch2, size, pos, [])
    ensures Written(g, img, ch, img2, ch2, size, pos, [])
  {
    hide Written;
    var none: seq<Byte> := [];
    WrittenOn(g, img, ch, img1, ch1, img2, ch2, size, pos, none, none);
    assert none + none == none;
  }

  /** A longer chain alone writes nothing. */
  lemma GrownWritten(g: Geometry, img: Image, ch: seq<nat>, img': Image, ch': seq<nat>, size: nat, pos: nat)
    requires SameData(g, img, img') && OnVolume(g, img, ch) && OnVolume(g, img', ch') && ch <= ch'
    requires Max(size, pos) <= 512 * Sectors(g, ch)
    ensures Written(g, img, ch, img', ch', size, pos, [])
  {
    hide OnVolume, Content, Sectors, SameData, Untouched;
    SameDataUntouched(g, img, img', ch');
    GrownContent(g, img, img', ch, ch', Max(size, pos));
  }

  lemma OverlaidWritten(g: Geometry, img: Image, img': Image, ch: seq<nat>, size: nat, pos: nat, bytes: seq<Byte>)
    requires Overlaid(g, img, img', ch, pos, bytes, Max(size, pos)) && Untouched(g, img, img', ch)
    ensures Written(g, img, ch, img', ch, size, pos, bytes)
  {
    hide OnVolume, Content, Sectors, Untouched, Overlaid;
    OverlaidContent(g, img, img', ch, pos, bytes, Max(size, pos));
  }

  lemma WrittenLeaves(g: Geometry, img: Image, ch: seq<nat>, img': Image, ch': seq<nat>, size: nat, pos: nat, bytes: seq<Byte>)
    requires Written(g, img, ch, img', ch', size, pos, bytes)
    ensures Untouched(g, img, img', ch')
  {
  }

  /** A write inside or at the end of a file: the bytes before, the new bytes, and what is left behind them. */
  lemma WrittenIsSplice(g: Geometry, img: Image, ch: seq<nat>, img': Image, ch': seq<nat>,
                        size: nat, pos: nat, bytes: seq<Byte>)
    requires Written(g, img, ch, img', ch', size, pos, bytes) && pos <= size
    ensures OnVolume(g, img, ch) && size <= 512 * Sectors(g, ch)
    ensures OnVolume(g, img', ch') && Max(size, pos + |bytes|) <= 512 * Sectors(g, ch')
    ensures var was, now := Content(g, img, ch, 0, size), Content(g, img', ch', 0, Max(size, pos + |bytes|));
      now == was[..pos] + bytes + if pos + |bytes| < size then was[pos + |bytes|..] else []
  {
    hide OnVolume, Content, Sectors, Untouched;
  }

  /** A file's bytes do not depend on a sector outside the data area, or of another chain. */
  lemma ForeignSector(g: Geometry, img: Image, ch: seq<nat>, s: nat, w: Sector, pos: nat, n: nat)
    requires OnVolume(g, img, ch) && s < |img| && !OwnSector(g, ch, s) && pos + n <= 512 * Sectors(g, ch)
    ensures OnVolume(g, img[s := w], ch) && Content(g, img[s := w], ch, pos, n) == Content(g, img, ch, pos, n)
  {
    hide OwnSector, Sectors, FileSect;
    var a, b := Content(g, img[s := w], ch, pos, n), Content(g, img, ch, pos, n);
    forall i | 0 <= i < n
      ensures a[i] == b[i]
    {
      FileSectOwn(g, img, ch, (pos + i) / 512);
      FileSectInVolume(g, img, ch, (pos + i) / 512);
    }
  }
}
