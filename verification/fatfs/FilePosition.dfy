/** How the file object's incremental position fields agree with the chain. */
module FilePosition {
  import opened Bytes
  import opened Layout
  import opened LogicalDisk
  import opened FileView

  /** Once something precedes the pointer, the current cluster holds the byte before it, `csect` counts the
      sectors up to that byte, and inside a sector `dsect` is that sector. At the top of the file
      `csect` has a value that counts as a cluster boundary. */
  ghost predicate Placed(g: Geometry, ch: seq<nat>, fptr: nat, csect: nat, curr: nat, dsect: nat)
  {
    && 0 < g.csize <= 128 && (forall i :: 0 <= i < |ch| ==> ch[i] >= 2)
    && fptr <= 512 * Sectors(g, ch)
    && if fptr == 0 then csect == 255 else InSector(g, ch, (fptr - 1) / 512, csect, curr, dsect, fptr % 512 != 0)
  }

  /** The byte before the pointer lies in sector `k` of the file. */
  ghost predicate InSector(g: Geometry, ch: seq<nat>, k: nat, csect: nat, curr: nat, dsect: nat, inside: bool)
    requires 0 < g.csize && forall i :: 0 <= i < |ch| ==> ch[i] >= 2
  {
    && k < Sectors(g, ch) && k / g.csize < |ch|
    && curr == ch[k / g.csize] && csect == k % g.csize + 1
    && (inside ==> dsect == FileSect(g, ch, k))
  }

  /** The next transfer starts at sector `k` of the file: `csect` and `curr` address it. */
  ghost predicate AtSector(g: Geometry, ch: seq<nat>, k: nat, csect: nat, curr: nat)
  {
    && 0 < g.csize <= 128 && (forall i :: 0 <= i < |ch| ==> ch[i] >= 2)
    && k < Sectors(g, ch) && k / g.csize < |ch| && curr == ch[k / g.csize] && csect == k % g.csize
  }

  /** On a sector boundary: either the next sector is in the current cluster, or the current cluster is
      used up and the next sector starts the cluster behind it. */
  lemma AtBoundary(g: Geometry, ch: seq<nat>, fptr: nat, csect: nat, curr: nat, dsect: nat)
    requires Placed(g, ch, fptr, csect, curr, dsect) && fptr % 512 == 0
    ensures var k := fptr / 512;
      && (csect < g.csize ==> AtSector(g, ch, k, csect, curr) && fptr > 0)
      && (csect >= g.csize ==> k % g.csize == 0 && k / g.csize <= |ch|)
      && (csect >= g.csize ==>
            if fptr == 0 then k / g.csize == 0 else k / g.csize > 0 && curr == ch[k / g.csize - 1])
  {
    var d := g.csize;
    if fptr == 0 {
      DivModUnique(0, d, 0, 0);
    } else {
      var m := fptr / 512 - 1;
      assert m == (fptr - 1) / 512;
      if csect < d {
        DivWithin(m, d, 1);
        MulMono(m / d + 1, |ch|, d);
        assert (m / d + 1) * d == m / d * d + d;
      } else {
        DivNext(m, d);
      }
    }
  }

  /** The first sector of cluster `i`. */
  lemma AtClusterStart(g: Geometry, ch: seq<nat>, k: nat)
    requires 0 < g.csize <= 128 && (forall i :: 0 <= i < |ch| ==> ch[i] >= 2)
    requires k % g.csize == 0 && k / g.csize < |ch|
    ensures AtSector(g, ch, k, 0, ch[k / g.csize])
  {
    MulMono(k / g.csize + 1, |ch|, g.csize);
    assert (k / g.csize + 1) * g.csize == k / g.csize * g.csize + g.csize;
  }

  /** Inside a sector. */
  lemma InsideSector(g: Geometry, ch: seq<nat>, fptr: nat, csect: nat, curr: nat, dsect: nat)
    requires Placed(g, ch, fptr, csect, curr, dsect) && fptr % 512 != 0
    ensures var k := fptr / 512;
      k < Sectors(g, ch) && csect == k % g.csize + 1 && dsect == FileSect(g, ch, k)
      && AtSector(g, ch, k, csect - 1, curr)
  {
    assert (fptr - 1) / 512 == fptr / 512;
  }

  /** The address of the sector to transfer. */
  lemma SectorAddress(g: Geometry, img: Image, ch: seq<nat>, k: nat, csect: nat, curr: nat)
    requires g.Sane() && OnVolume(g, img, ch) && AtSector(g, ch, k, csect, curr)
    ensures curr < DWORD && g.Clust2Sect(curr) != 0 && g.Clust2Sect(curr) + csect == FileSect(g, ch, k)
  {
    hide Geometry.Sane, Geometry.VolEnd, Geometry.FatEnd, Geometry.Clust2Sect;
    assert g.ValidCluster(ch[k / g.csize]);
    g.ClusterFits(curr);
    g.Clust2SectIsSect(curr);
  }

  /** After a run of `cc` whole sectors inside the cluster. */
  lemma AfterRun(g: Geometry, ch: seq<nat>, k: nat, csect: nat, curr: nat, dsect: nat, cc: nat)
    requires AtSector(g, ch, k, csect, curr) && 0 < cc && csect + cc <= g.csize
    ensures Placed(g, ch, 512 * (k + cc), csect + cc, curr, dsect)
  {
    hide FileSect;
    DivWithin(k, g.csize, cc - 1);
    MulMono(k / g.csize + 1, |ch|, g.csize);
    assert (k / g.csize + 1) * g.csize == k / g.csize * g.csize + g.csize;
    LastByte(k + cc);
  }

  /** The sector of the byte before `m` whole sectors and `o` bytes. */
  lemma ByteBehind(m: nat, o: nat, d: nat)
    requires 0 < o <= 512 * d
    ensures (512 * m + o - 1) / 512 == m + (o - 1) / 512 && (o - 1) / 512 < d
    ensures (o - 1) / 512 + 1 == (if o % 512 == 0 then o / 512 else o / 512 + 1)
    ensures (512 * m + o) % 512 == o % 512
  {
    DivModUnique(512 * m + o - 1, 512, m + (o - 1) / 512, (o - 1) % 512);
  }

  lemma LastByte(m: nat)
    requires m > 0
    ensures (512 * m - 1) / 512 == m - 1 && 512 * m % 512 == 0
  {
    DivModUnique(512 * m - 1, 512, m - 1, 511);
    DivModUnique(512 * m, 512, m, 0);
  }

  /** After `n` bytes of the sector that holds byte `pos`. */
  lemma AfterPart(g: Geometry, ch: seq<nat>, pos: nat, csect: nat, curr: nat, n: nat)
    requires AtSector(g, ch, pos / 512, csect, curr) && 0 < n && pos % 512 + n <= 512
    ensures Placed(g, ch, pos + n, csect + 1, curr, FileSect(g, ch, pos / 512))
  {
    assert (pos + n - 1) / 512 == pos / 512;
  }

  /** One step of reading: the bytes read so far and the next ones. */
  lemma ContentJoin(g: Geometry, img: Image, ch: seq<nat>, s: seq<Byte>, pos: nat, m: nat, n: nat)
    requires OnVolume(g, img, ch) && pos + m + n <= 512 * Sectors(g, ch) && m + n <= |s|
    ensures Splice(Splice(s, 0, Content(g, img, ch, pos, m)), m, Content(g, img, ch, pos + m, n))
         == Splice(s, 0, Content(g, img, ch, pos, m + n))
  {
    hide FileByte, OnVolume, Sectors;
    var a, b := Splice(s, 0, Content(g, img, ch, pos, m)), Content(g, img, ch, pos + m, n);
    var c := Content(g, img, ch, pos, m + n);
    forall i | 0 <= i < |s|
      ensures Splice(a, m, b)[i] == Splice(s, 0, c)[i]
    {
      if m <= i < m + n {
        assert b[i - m] == FileByte(g, img, ch, pos + m + (i - m));
        assert c[i] == FileByte(g, img, ch, pos + i);
        assert pos + m + (i - m) == pos + i;
      }
    }
  }

  lemma ContentNone(g: Geometry, img: Image, ch: seq<nat>, pos: nat, s: seq<Byte>)
    requires OnVolume(g, img, ch) && pos <= 512 * Sectors(g, ch)
    ensures Splice(s, 0, Content(g, img, ch, pos, 0)) == s
  {
  }

  /** Part of one sector. */
  lemma ContentOfSector(g: Geometry, img: Image, ch: seq<nat>, pos: nat, n: nat)
    requires OnVolume(g, img, ch) && pos / 512 < Sectors(g, ch) && pos % 512 + n <= 512
    ensures FileSect(g, ch, pos / 512) < |img| && pos + n <= 512 * Sectors(g, ch)
    ensures Content(g, img, ch, pos, n) == img[FileSect(g, ch, pos / 512)][pos % 512..pos % 512 + n]
  {
    FileSectInVolume(g, img, ch, pos / 512);
    var c := Content(g, img, ch, pos, n);
    forall i | 0 <= i < n
      ensures c[i] == img[FileSect(g, ch, pos / 512)][pos % 512 + i]
    {
      DivModUnique(pos + i, 512, pos / 512, pos % 512 + i);
    }
  }

  /** A run of whole sectors. */
  lemma ContentOfRun(g: Geometry, img: Image, ch: seq<nat>, k: nat, cc: nat)
    requires OnVolume(g, img, ch) && k < Sectors(g, ch) && k % g.csize + cc <= g.csize
    ensures k + cc <= Sectors(g, ch) && g.FatEnd() <= FileSect(g, ch, k) && FileSect(g, ch, k) + cc <= |img|
    ensures Content(g, img, ch, 512 * k, 512 * cc) == RunBytes(img, FileSect(g, ch, k), cc)
  {
    FileSectInVolume(g, img, ch, k);
    if cc > 0 {
      FileSectRun(g, img, ch, k, cc - 1);
      FileSectInVolume(g, img, ch, k + cc - 1);
    }
    forall i | 0 <= i < 512 * cc
      ensures FileByte(g, img, ch, 512 * k + i) == img[FileSect(g, ch, k) + i / 512][i % 512]
    {
      FileSectRun(g, img, ch, k, i / 512);
      DivModUnique(512 * k + i, 512, k + i / 512, i % 512);
    }
  }

  // ---- seeking ----

  /** `fptr` is the start of cluster `i`. */
  ghost predicate AtCluster(g: Geometry, ch: seq<nat>, i: nat, fptr: nat, curr: nat)
  {
    && 0 < g.csize <= 128 && (forall j :: 0 <= j < |ch| ==> ch[j] >= 2)
    && i < |ch| && curr == ch[i] && fptr == 512 * (i * g.csize)
  }

  /** Masking the byte before the pointer gives the start of its cluster, which is the current one. */
  ghost predicate InCluster(g: Geometry, ch: seq<nat>, fptr: nat, curr: nat)
  {
    && fptr > 0 && 0 < 512 * g.csize < DWORD
    && var bcs := 512 * g.csize; var i := (fptr - 1) / bcs;
       And(fptr - 1, DWORD - bcs) == i * bcs && AtCluster(g, ch, i, i * bcs, curr)
  }

  /** Rounding the byte before the pointer down to its cluster gives the start of the current cluster. */
  lemma CurrentCluster(g: Geometry, ch: seq<nat>, fptr: nat, csect: nat, curr: nat, dsect: nat)
    requires Placed(g, ch, fptr, csect, curr, dsect) && 0 < fptr <= DWORD && PowerOfTwo(g.csize)
    ensures 0 < 512 * g.csize < DWORD
    ensures InCluster(g, ch, fptr, curr)
  {
    hide PowerOfTwo, And, FileSect;
    var x, d, k := fptr - 1, g.csize, (fptr - 1) / 512;
    DwordIsPower();
    PowerProduct(512, d);
    HighMaskRounds(x, 512 * d, DWORD);
    ClusterOfByte(x, d);
  }

  /** Dividing by the cluster size in bytes, or by the sector size and then by sectors per cluster. */
  lemma ClusterOfByte(x: nat, d: nat)
    requires d > 0
    ensures x / (512 * d) == x / 512 / d
    ensures x - x % (512 * d) == x / 512 / d * (512 * d) == 512 * (x / 512 / d * d)
  {
    var k := x / 512;
    assert k == k / d * d + k % d;
    assert x == 512 * k + x % 512;
    assert 512 * (k / d * d) == k / d * (512 * d);
    DivModUnique(x, 512 * d, k / d, 512 * (k % d) + x % 512);
  }

  lemma NotBefore(x: nat, bcs: nat, i: nat)
    requires bcs > 0 && x / bcs >= i
    ensures i * bcs <= x
  {
    MulMono(i, x / bcs, bcs);
    assert x == x / bcs * bcs + x % bcs;
  }

  /** More than one cluster to go inside the file: there is a next cluster. */
  lemma ClusterFollows(g: Geometry, ch: seq<nat>, i: nat, fptr: nat, curr: nat, ofs: nat)
    requires AtCluster(g, ch, i, fptr, curr) && 512 * g.csize < ofs && fptr + ofs <= 512 * Sectors(g, ch)
    ensures i + 1 < |ch|
  {
    assert (i + 1) * g.csize == i * g.csize + g.csize;
    if |ch| <= i + 1 { MulMono(|ch|, i + 1, g.csize); }
  }

  lemma LastCluster(g: Geometry, ch: seq<nat>, i: nat, fptr: nat, curr: nat)
    requires AtCluster(g, ch, i, fptr, curr) && i + 1 == |ch|
    ensures fptr + 512 * g.csize == 512 * Sectors(g, ch)
  {
    assert (i + 1) * g.csize == i * g.csize + g.csize;
  }

  lemma NextCluster(g: Geometry, ch: seq<nat>, i: nat, fptr: nat)
    requires 0 < g.csize <= 128 && (forall j :: 0 <= j < |ch| ==> ch[j] >= 2)
    requires fptr == 512 * (i * g.csize) && i + 1 < |ch|
    ensures AtCluster(g, ch, i + 1, fptr + 512 * g.csize, ch[i + 1])
  {
    assert (i + 1) * g.csize == i * g.csize + g.csize;
  }

  /** The position `o` bytes into cluster `i`, with the fields the source computes for it. */
  lemma IntoCluster(g: Geometry, ch: seq<nat>, i: nat, fptr: nat, curr: nat, o: nat, csect: nat, dsect: nat)
    requires AtCluster(g, ch, i, fptr, curr) && 0 < o <= 512 * g.csize
    requires csect == if o % 512 == 0 then o / 512 else o / 512 + 1
    requires o % 512 != 0 ==> curr >= 2 && dsect == g.ClusterSect(curr) + o / 512
    ensures Placed(g, ch, fptr + o, csect, curr, dsect)
    ensures fptr + 512 * g.csize <= 512 * Sectors(g, ch)
  {
    var d, k, s := g.csize, (fptr + o - 1) / 512, (o - 1) / 512;
    ByteBehind(i * d, o, d);
    assert k == i * d + s;
    DivModUnique(k, d, i, s);
    MulMono(i + 1, |ch|, d);
    assert (i + 1) * d == i * d + d;
  }
}
