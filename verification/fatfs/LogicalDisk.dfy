/** The logical disk: sectors, mirrored table copies, table entries and their byte packing. */
module LogicalDisk {
  import opened Bytes
  import opened Layout

  /** The image is large enough to hold the volume, and its sector numbers fit 32 bits. */
  predicate Fits(g: Geometry, img: Image)
  {
    g.Sane() && g.VolEnd() <= |img| <= DWORD
  }

  /** The sector of the first table copy that a table sector mirrors; any other sector is its own home. */
  function Home(g: Geometry, x: nat): (h: nat)
    ensures g.fatbase + g.sectsFat <= g.FatEnd() && g.fatbase <= x < g.FatEnd() && g.sectsFat > 0
        ==> g.fatbase <= h < g.fatbase + g.sectsFat
    ensures !(g.fatbase <= x < g.FatEnd()) ==> h == x
    ensures g.fatbase <= x < g.fatbase + g.sectsFat ==> h == x
    ensures h <= x
  {
    if g.fatbase <= x < g.FatEnd() && g.sectsFat > 0 then
      assert x < g.fatbase + g.sectsFat ==> (x - g.fatbase) % g.sectsFat == x - g.fatbase by {
        if x < g.fatbase + g.sectsFat { DivModUnique(x - g.fatbase, g.sectsFat, 0, x - g.fatbase); }
      }
      RemainderLe(x - g.fatbase, g.sectsFat);
      g.fatbase + (x - g.fatbase) % g.sectsFat
    else x
  }

  lemma RemainderLe(x: nat, d: nat)
    requires d > 0
    ensures x % d <= x
  {
    assert x == x / d * d + x % d;
  }

  /** All table copies hold the same bytes. */
  predicate CopiesAgree(g: Geometry, img: Image)
  {
    forall x {:trigger Home(g, x)} {:trigger img[x]} :: 0 <= x < |img| ==> img[x] == img[Home(g, x)]
  }

  /** Storing a sector through the window: a table sector goes to every copy. */
  function Store(g: Geometry, img: Image, s: nat, w: Sector): (r: Image)
    ensures |r| == |img|
    ensures forall x {:trigger r[x]} :: 0 <= x < |img| ==> r[x] == if Home(g, x) == s then w else img[x]
  {
    seq(|img|, x requires 0 <= x < |img| => if Home(g, x) == s then w else img[x])
  }

  /** Behind the table area a store is a plain sector write. */
  lemma StoreData(g: Geometry, img: Image, s: nat, w: Sector)
    requires g.Sane() && g.FatEnd() <= s < |img|
    ensures Store(g, img, s, w) == img[s := w]
  {
  }

  lemma StoreKeepsCopies(g: Geometry, img: Image, s: nat, w: Sector)
    requires Fits(g, img) && CopiesAgree(g, img)
    ensures CopiesAgree(g, Store(g, img, s, w))
  {
    forall x | 0 <= x < |img|
      ensures Store(g, img, s, w)[x] == Store(g, img, s, w)[Home(g, x)]
    {
      assert Home(g, Home(g, x)) == Home(g, x);
    }
  }

  lemma StoreTwice(g: Geometry, img: Image, s: nat, w: Sector, w': Sector)
    ensures Store(g, Store(g, img, s, w), s, w') == Store(g, img, s, w')
  {
  }

  /** Writing the first copy before mirroring it makes no difference. */
  lemma StoreOver(g: Geometry, img: Image, s: nat, w: Sector)
    requires s < |img| && Home(g, s) == s
    ensures Store(g, img[s := w], s, w) == Store(g, img, s, w)
  {
  }

  /** The copies of table sector `s` lie `sectsFat` apart, and nothing between them mirrors `s`. */
  lemma NextCopy(g: Geometry, s: nat, k: nat, x: nat)
    requires g.nFats >= 1 && g.fatbase <= s < g.fatbase + g.sectsFat && k < g.nFats
    ensures s + k * g.sectsFat < g.FatEnd()
    ensures Home(g, s + k * g.sectsFat) == s
    ensures s + k * g.sectsFat < x < s + k * g.sectsFat + g.sectsFat ==> Home(g, x) != s
    ensures s + (g.nFats - 1) * g.sectsFat < x ==> Home(g, x) != s
  {
    var d := g.sectsFat;
    MulMono(k + 1, g.nFats, d);
    assert (k + 1) * d == k * d + d;
    DivModUnique(s - g.fatbase + k * d, d, k, s - g.fatbase);
    if s + k * d < x < s + k * d + d && x < g.FatEnd() {
      RowOnce(g, s, k, x);
    }
    if s + (g.nFats - 1) * d < x {
      assert (g.nFats - 1) * d + d == g.nFats * d;
      if x < g.FatEnd() {
        RowOnce(g, s, g.nFats - 1, x);
      }
    }
  }

  lemma RowOnce(g: Geometry, s: nat, k: nat, x: nat)
    requires g.fatbase <= s < g.fatbase + g.sectsFat
    requires s + k * g.sectsFat < x < s + k * g.sectsFat + g.sectsFat
    ensures (x - g.fatbase) % g.sectsFat != s - g.fatbase
  {
    var d := g.sectsFat;
    var r := x - g.fatbase - k * d;
    if r < d {
      DivModUnique(x - g.fatbase, d, k, r);
    } else {
      assert (k + 1) * d == k * d + d;
      DivModUnique(x - g.fatbase, d, k + 1, r - d);
    }
  }

  /** Copies 0 to `k` of table sector `s` hold `w`, the rest is as before. */
  ghost predicate Copied(g: Geometry, before: Image, disk: Image, s: nat, k: nat, w: Sector)
  {
    && |disk| == |before|
    && forall x :: 0 <= x < |disk| ==> disk[x] == if x <= s + k * g.sectsFat && Home(g, x) == s then w else before[x]
  }

  lemma TableFits(g: Geometry, img: Image, s: nat)
    requires Fits(g, img) && g.fatbase <= s < g.fatbase + g.sectsFat
    ensures s < |img| && g.nFats >= 1
  {
    MulMono(1, g.nFats, g.sectsFat);
  }

  lemma CopiedFirst(g: Geometry, before: Image, s: nat, w: Sector)
    requires Fits(g, before) && g.fatbase <= s < g.fatbase + g.sectsFat && s < |before| && before[s] == w
    ensures Copied(g, before, before, s, 0, w)
  {
    hide Home;
  }

  lemma CopiedNext(g: Geometry, before: Image, disk: Image, s: nat, k: nat, w: Sector)
    requires Fits(g, before) && g.fatbase <= s < g.fatbase + g.sectsFat && k + 1 < g.nFats
    requires Copied(g, before, disk, s, k, w)
    ensures s + (k + 1) * g.sectsFat == s + k * g.sectsFat + g.sectsFat < |disk|
    ensures Copied(g, before, disk[s + k * g.sectsFat + g.sectsFat := w], s, k + 1, w)
  {
    hide Home;
    var a := s + k * g.sectsFat;
    assert (k + 1) * g.sectsFat == k * g.sectsFat + g.sectsFat;
    NextCopy(g, s, k + 1, 0);
    forall x: nat { NextCopy(g, s, k, x); }
  }

  lemma CopiedAll(g: Geometry, before: Image, disk: Image, s: nat, w: Sector)
    requires Fits(g, before) && g.fatbase <= s < g.fatbase + g.sectsFat && s < |before|
    requires Copied(g, before, disk, s, g.nFats - 1, w)
    ensures disk == Store(g, before, s, w)
  {
    hide Home;
    forall x: nat { NextCopy(g, s, g.nFats - 1, x); }
  }

  // ---- the window over the disk ----

  /** Window contents `w`, its sector and dirty flag, and the physical disk together show the logical
      disk `img`: the disk itself, or the disk with a dirty window stored. Sector 0 means no sector. */
  ghost predicate Coherent(g: Geometry, disk: Image, img: Image, w: seq<Byte>, winsect: nat, wflag: bool)
  {
    && |w| == 512 && Fits(g, disk) && |img| == |disk|
    && (winsect == 0 || (g.Window(winsect) && winsect < |disk|))
    && (wflag ==> winsect != 0)
    && (!wflag && winsect != 0 ==> w == disk[winsect])
    && img == (if wflag then Store(g, disk, winsect, w) else disk)
    && CopiesAgree(g, img)
  }

  lemma CoherentMounted(g: Geometry, disk: Image, w: seq<Byte>)
    requires g.Sane() && g.VolEnd() <= |disk| <= DWORD && CopiesAgree(g, disk) && |w| == 512
    ensures Coherent(g, disk, disk, w, 0, false)
  {
  }

  lemma CoherentShows(g: Geometry, disk: Image, img: Image, w: seq<Byte>, winsect: nat, wflag: bool)
    requires Coherent(g, disk, img, w, winsect, wflag)
    ensures |w| == 512 && |img| == |disk| && Fits(g, disk) && Fits(g, img) && CopiesAgree(g, img) && g.nFats >= 1
    ensures winsect != 0 ==> winsect < |img| && w == img[winsect] && g.Window(winsect)
    ensures !wflag ==> img == disk
    ensures wflag ==> winsect != 0 && Store(g, disk, winsect, w) == img
  {
    hide CopiesAgree, PowerOfTwo, Geometry.VolEnd;
    if winsect != 0 { assert Home(g, winsect) == winsect; }
  }

  lemma CoherentFlushed(g: Geometry, disk: Image, img: Image, w: seq<Byte>, winsect: nat)
    requires Coherent(g, disk, img, w, winsect, true)
    ensures Coherent(g, img, img, w, winsect, false)
  {
    CoherentShows(g, disk, img, w, winsect, true);
    hide CopiesAgree, Geometry.Sane, Store;
  }

  lemma CoherentLoaded(g: Geometry, disk: Image, img: Image, w: seq<Byte>, winsect: nat, sector: nat)
    requires Coherent(g, disk, img, w, winsect, false)
    requires sector < |disk| && g.Window(sector)
    ensures Coherent(g, disk, img, disk[sector], sector, false)
  {
    hide CopiesAgree, Geometry.Sane, Store;
  }

  lemma CoherentStored(g: Geometry, disk: Image, img: Image, w: seq<Byte>, winsect: nat, wflag: bool, w': Sector)
    requires Coherent(g, disk, img, w, winsect, wflag) && winsect != 0
    ensures Coherent(g, disk, Store(g, img, winsect, w'), w', winsect, true)
  {
    CoherentShows(g, disk, img, w, winsect, wflag);
    StoreKeepsCopies(g, img, winsect, w');
    hide CopiesAgree, Geometry.Sane;
    if wflag { StoreTwice(g, disk, winsect, w, w'); }
  }

  /** A window that claims `sector` without reading it, and is then written and marked dirty. */
  lemma CoherentClaimed(g: Geometry, disk: Image, w: seq<Byte>, winsect: nat, sector: nat, w': Sector)
    requires Coherent(g, disk, disk, w, winsect, false)
    requires 0 < sector < |disk| && g.Window(sector)
    ensures Coherent(g, disk, Store(g, disk, sector, w'), w', sector, true)
  {
    hide Geometry.Sane, Store, CopiesAgree;
    StoreKeepsCopies(g, disk, sector, w');
  }

  // ---- transfers that bypass the window ----

  /** Sector `i` of a buffer. */
  function Slice(data: seq<Byte>, i: nat): (s: Sector)
    requires i < |data| / 512
    ensures forall j :: 0 <= j < 512 ==> 512 * i + j < |data| && s[j] == data[512 * i + j]
  {
    data[512 * i..512 * i + 512]
  }

  function RunSector(img: Image, sect: nat, data: seq<Byte>, x: nat): (s: Sector)
    requires x < |img|
  {
    if sect <= x < sect + |data| / 512 then Slice(data, x - sect) else img[x]
  }

  /** `data`, cut into sectors, written from sector `sect` on. */
  function WriteRun(img: Image, sect: nat, data: seq<Byte>): (r: Image)
    ensures |r| == |img|
    ensures forall x {:trigger r[x]} :: 0 <= x < |img| ==>
      r[x] == if sect <= x < sect + |data| / 512 then Slice(data, x - sect) else img[x]
  {
    seq(|img|, x requires 0 <= x < |img| => RunSector(img, sect, data, x))
  }

  /** The bytes of `cc` sectors from `sect` on. */
  function RunBytes(img: Image, sect: nat, cc: nat): (b: seq<Byte>)
    requires sect + cc <= |img|
    ensures |b| == 512 * cc
    ensures forall k :: 0 <= k < 512 * cc ==> b[k] == img[sect + k / 512][k % 512]
  {
    seq(512 * cc, k requires 0 <= k < 512 * cc => img[sect + k / 512][k % 512])
  }

  /** Laying the window's sector over a run read from the disk gives the run of the logical disk. */
  lemma PatchedRun(g: Geometry, disk: Image, img: Image, w: seq<Byte>, winsect: nat, sect: nat, cc: nat)
    requires Coherent(g, disk, img, w, winsect, true)
    requires g.FatEnd() <= sect && sect + cc <= |img|
    ensures |w| == 512
    ensures sect <= winsect < sect + cc ==>
      Splice(RunBytes(disk, sect, cc), 512 * (winsect - sect), w) == RunBytes(img, sect, cc)
    ensures !(sect <= winsect < sect + cc) ==> RunBytes(disk, sect, cc) == RunBytes(img, sect, cc)
  {
    hide Geometry.Sane, CopiesAgree;
    CoherentShows(g, disk, img, w, winsect, true);
    var a, b := RunBytes(disk, sect, cc), RunBytes(img, sect, cc);
    forall k | 0 <= k < 512 * cc
      ensures sect + k / 512 != winsect ==> a[k] == b[k]
      ensures sect <= winsect < sect + cc && 512 * (winsect - sect) <= k < 512 * (winsect - sect) + 512 ==>
        b[k] == w[k - 512 * (winsect - sect)]
    {
      assert Home(g, sect + k / 512) == sect + k / 512;
      if sect <= winsect && 512 * (winsect - sect) <= k < 512 * (winsect - sect) + 512 {
        DivModUnique(k, 512, winsect - sect, k - 512 * (winsect - sect));
      }
    }
  }

  /** A run behind the table area, written to the disk past the window, with the window refilled from
      the data if its sector was hit: the logical disk gets the same run. */
  lemma CoherentRun(g: Geometry, disk: Image, img: Image, w: seq<Byte>, winsect: nat, wflag: bool,
                    sect: nat, data: seq<Byte>)
    requires Coherent(g, disk, img, w, winsect, wflag)
    requires |data| % 512 == 0 && sect + |data| / 512 <= |img| && g.FatEnd() <= sect && 0 < sect
    ensures var hit := sect <= winsect < sect + |data| / 512;
      Coherent(g, WriteRun(disk, sect, data), WriteRun(img, sect, data),
               if hit then Slice(data, winsect - sect) else w, winsect, wflag && !hit)
  {
    hide Geometry.Sane, CopiesAgree, Slice;
    CoherentShows(g, disk, img, w, winsect, wflag);
    RunKeepsCopies(g, img, sect, data);
    var hit := sect <= winsect < sect + |data| / 512;
    if wflag {
      forall x | 0 <= x < |img| && !hit
        ensures Store(g, WriteRun(disk, sect, data), winsect, w)[x] == WriteRun(img, sect, data)[x]
      {
      }
    }
  }

  lemma RunKeepsCopies(g: Geometry, img: Image, sect: nat, data: seq<Byte>)
    requires CopiesAgree(g, img) && g.nFats >= 1
    requires |data| % 512 == 0 && sect + |data| / 512 <= |img| && g.FatEnd() <= sect
    ensures CopiesAgree(g, WriteRun(img, sect, data))
  {
    var r := WriteRun(img, sect, data);
    forall x | 0 <= x < |r|
      ensures r[x] == r[Home(g, x)]
    {
    }
  }

  // ---- the FSInfo sector ----

  const LEAD_SIG: nat := 0x4161_5252
  const STRUC_SIG: nat := 0x6141_7272

  /** The signatures by which mounting recognises an FSInfo sector. */
  predicate SignedFsInfo(s: Sector)
  {
    LdWord(s, 510) == 0xAA55 && LdDword(s, 0) == LEAD_SIG && LdDword(s, 484) == STRUC_SIG
  }

  /** The signatures byte by byte: "RRaA", "rrAa", and 55 AA at the end. */
  predicate MarkedFsInfo(s: Sector)
  {
    s[..4] == [0x52, 0x52, 0x61, 0x41] && s[484..488] == [0x72, 0x72, 0x41, 0x61] && s[510] == 0x55 && s[511] == 0xAA
  }

  /** The two numbers, low byte first. */
  function InfoNumber(s: Sector, o: nat): nat
    requires o + 4 <= 512
  {
    s[o] as int + 0x100 * s[o + 1] as int + 0x1_0000 * s[o + 2] as int + 0x100_0000 * s[o + 3] as int
  }

  /** How the driver finds signatures and numbers. */
  lemma InfoBytes(s: Sector)
    ensures SignedFsInfo(s) <==> MarkedFsInfo(s)
    ensures LdDword(s, 488) == InfoNumber(s, 488) && LdDword(s, 492) == InfoNumber(s, 492)
  {
    FourBytes(s, 0, 0x52, 0x52, 0x61, 0x41);
    FourBytes(s, 484, 0x72, 0x72, 0x41, 0x61);
    TwoBytes(s, 510, 0x55, 0xAA);
    assert s[..4] == [s[0], s[1], s[2], s[3]] && s[484..488] == [s[484], s[485], s[486], s[487]];
  }

  lemma TwoBytes(s: Sector, o: nat, b0: Byte, b1: Byte)
    requires o + 2 <= 512
    ensures LdWord(s, o) == b0 as int + 0x100 * b1 as int <==> s[o] == b0 && s[o + 1] == b1
  {
  }

  lemma FourBytes(s: Sector, o: nat, b0: Byte, b1: Byte, b2: Byte, b3: Byte)
    requires o + 4 <= 512
    ensures LdDword(s, o) == b0 as int + 0x100 * b1 as int + 0x1_0000 * (b2 as int + 0x100 * b3 as int) <==>
            s[o] == b0 && s[o + 1] == b1 && s[o + 2] == b2 && s[o + 3] == b3
  {
    TwoBytes(s, o, b0, b1);
    TwoBytes(s, o + 2, b2, b3);
  }

  /** An FSInfo sector with the given free count and hint. */
  predicate IsFsInfo(s: Sector, free: nat, last: nat)
  {
    SignedFsInfo(s) && LdDword(s, 488) == free && LdDword(s, 492) == last
  }

  /** The FSInfo sector `s` holds the free count, unless that is unknown or an update is due. */
  predicate InfoNoted(s: nat, img: Image, count: nat, due: bool)
  {
    due || count == NO_COUNT || (s < |img| && SignedFsInfo(img[s]) && LdDword(img[s], 488) == count)
  }

  lemma NotedOn(s: nat, img: Image, count: nat, due: bool, img': Image, count': nat, due': bool)
    requires InfoNoted(s, img, count, due) && (s < |img| ==> s < |img'| && img'[s] == img[s])
    requires (count' == count || due') && (due ==> due')
    ensures InfoNoted(s, img', count', due')
  {
  }

  /** Five stores into a cleared sector. */
  function FsInfo(free: nat, last: nat): (s: Sector)
  {
    var s0 := PutAt(seq(512, i => 0), 510, StWord(0xAA55));
    var s1 := PutAt(s0, 0, StDword(LEAD_SIG));
    var s2 := PutAt(s1, 484, StDword(STRUC_SIG));
    var s3 := PutAt(s2, 488, StDword(free));
    PutAt(s3, 492, StDword(last))
  }

  /** None of the stores disturbs another: the sector is recognised, and holds count and hint. */
  /** The sector that is written, byte by byte. */
  lemma FsInfoMarked(free: nat, last: nat)
    requires free < DWORD && last < DWORD
    ensures var s := FsInfo(free, last);
      && MarkedFsInfo(s) && InfoNumber(s, 488) == free && InfoNumber(s, 492) == last
      && forall i :: 4 <= i < 484 || 496 <= i < 510 ==> s[i] == 0
  {
    hide MarkedFsInfo, InfoNumber, SignedFsInfo, LdWord, LdDword, StWord, StDword;
    FsInfoReadsBack(free, last);
    InfoBytes(FsInfo(free, last));
  }

  lemma FsInfoReadsBack(free: nat, last: nat)
    requires free < DWORD && last < DWORD
    ensures IsFsInfo(FsInfo(free, last), free, last)
  {
    hide StWord, StDword, LdWord, LdDword, PutAt;
    var s: Sector := seq(512, i => 0);
    var s0 := PutAt(s, 510, StWord(0xAA55));
    var s1 := PutAt(s0, 0, StDword(LEAD_SIG));
    var s2 := PutAt(s1, 484, StDword(STRUC_SIG));
    var s3 := PutAt(s2, 488, StDword(free));
    WordPut(s, 510, 0xAA55, 0);
    DwordPut(s0, 0, LEAD_SIG, 510);
    DwordPut(s1, 484, STRUC_SIG, 510);
    DwordPut(s1, 484, STRUC_SIG, 0);
    DwordPut(s2, 488, free, 510);
    DwordPut(s2, 488, free, 0);
    DwordPut(s2, 488, free, 484);
    DwordPut(s3, 492, last, 510);
    DwordPut(s3, 492, last, 0);
    DwordPut(s3, 492, last, 484);
    DwordPut(s3, 492, last, 488);
  }

  /** A reserved sector, ahead of the table, changes while the window holds nothing. */
  lemma CoherentReserved(g: Geometry, disk: Image, w: seq<Byte>, winsect: nat, s: nat, w': Sector)
    requires Coherent(g, disk, disk, w, winsect, false) && s < g.fatbase && s < |disk|
    ensures Coherent(g, disk[s := w'], disk[s := w'], w', 0, false)
  {
    hide Geometry.Sane;
    var r := disk[s := w'];
    forall x | 0 <= x < |r|
      ensures r[x] == r[Home(g, x)]
    {
      assert disk[x] == disk[Home(g, x)];
    }
  }

  // ---- clearing a cluster ----

  /** `n` sectors of zeros from `sect` on. */
  function Cleared(img: Image, sect: nat, n: nat): (r: Image)
    ensures |r| == |img|
    ensures forall x {:trigger r[x]} :: 0 <= x < |img| ==> r[x] == if sect <= x < sect + n then ZeroSector() else img[x]
  {
    seq(|img|, x requires 0 <= x < |img| => ClearedSector(img, sect, n, x))
  }

  function ClearedSector(img: Image, sect: nat, n: nat, x: nat): (s: Sector)
    requires x < |img|
  {
    if sect <= x < sect + n then ZeroSector() else img[x]
  }

  function ZeroSector(): (s: Sector)
    ensures forall i :: 0 <= i < 512 ==> s[i] == 0
  {
    seq(512, i => 0)
  }

  /** The window set to zeros at a sector that is neither read nor written yet. */
  lemma CoherentZero(g: Geometry, disk: Image, w: seq<Byte>, winsect: nat, wflag: bool, s: nat)
    requires Coherent(g, disk, disk, w, winsect, wflag) && !wflag
    requires s < |disk| && 0 < g.FatEnd() <= s
    ensures Coherent(g, disk, disk[s := ZeroSector()], ZeroSector(), s, true)
    ensures disk[s] == ZeroSector() ==> Coherent(g, disk, disk, ZeroSector(), s, false)
  {
    hide Geometry.Sane, ZeroSector;
    CoherentShows(g, disk, disk, w, winsect, wflag);
    StoreData(g, disk, s, ZeroSector());
    StoreKeepsCopies(g, disk, s, ZeroSector());
  }
}
