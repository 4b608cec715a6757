/** Following a path from the root directory to an object, on any table and directory contents. */
module Path {
  import opened Bytes
  import opened Layout
  import opened FileSystem
  import opened DirEntry
  import opened DirTable
  import opened DirView
  import opened Directory
  import opened Names

  /** How a scan of a directory ends: at entry `n`, at the end of the directory, or at a broken table. */
  datatype Scan = Hit(n: nat) | Miss | Stuck

  ghost function ScanFrom(g: Geometry, img: Image, fat: seq<nat>, sclust: nat, name: seq<Byte>, n: nat): (r: Scan)
    requires 0 < g.csize && |fat| == g.maxClust && (g.fsType == Fat32 ==> g.ValidCluster(g.dirbase)) && |name| >= 11
    ensures r.Hit? ==> Locate(g, fat, sclust, r.n).At? && Locate(g, fat, sclust, r.n).sect < |img|
    decreases MAX_INDEX - n
  {
    if n >= MAX_INDEX then Miss else
      match Locate(g, fat, sclust, n)
      case At(_, s) =>
        if s >= |img| then Stuck
        else if EntryOf(g, img, fat, sclust, n)[0] == 0 then Miss
        else if Matches(EntryOf(g, img, fat, sclust, n), name) then Hit(n)
        else ScanFrom(g, img, fat, sclust, name, n + 1)
      case End => if n == 0 then Stuck else Miss
      case Broken => Stuck
  }

  /** What the lookup loop found is what the scan defines. */
  lemma FindIsScan(g: Geometry, img: Image, fat: seq<nat>, sclust: nat, name: seq<Byte>, n: nat, res: FResult)
    requires 0 < g.csize && |fat| == g.maxClust && (g.fsType == Fat32 ==> g.ValidCluster(g.dirbase)) && |name| >= 11
    requires n <= MAX_INDEX && Scanned(g, img, fat, sclust, name, n) && FindResult(g, img, fat, sclust, name, n, res)
    ensures res == Ok || res == NoFile || res == IntErr
    ensures ScanFrom(g, img, fat, sclust, name, 0) == match res case Ok => Hit(n) case NoFile => Miss case _ => Stuck
  {
    hide Locate, Matches, EntryOf;
    PastScanned(g, img, fat, sclust, name, 0, n);
  }

  lemma {:induction false} PastScanned(g: Geometry, img: Image, fat: seq<nat>, sclust: nat, name: seq<Byte>, i: nat, n: nat)
    requires 0 < g.csize && |fat| == g.maxClust && (g.fsType == Fat32 ==> g.ValidCluster(g.dirbase)) && |name| >= 11
    requires i <= n <= MAX_INDEX && Scanned(g, img, fat, sclust, name, n)
    ensures ScanFrom(g, img, fat, sclust, name, i) == ScanFrom(g, img, fat, sclust, name, n)
    decreases n - i
  {
    hide Locate, Matches, EntryOf;
    if i < n { PastScanned(g, img, fat, sclust, name, i + 1, n); }
  }

  /** What a path leads to: entry `n` of a directory, a name a directory does not hold, or an error. */
  datatype Target = Object(dir: nat, n: nat, fn: seq<Byte>) | Missing(dir: nat, fn: seq<Byte>) | Failed(res: FResult)

  ghost function Walk(g: Geometry, img: Image, fat: seq<nat>, sclust: nat, path: seq<Byte>, i: nat): (t: Target)
    requires 0 < g.csize && |fat| == g.maxClust && (g.fsType == Fat32 ==> g.ValidCluster(g.dirbase)) && i <= |path|
    ensures t.Object? ==> Locate(g, fat, t.dir, t.n).At? && Locate(g, fat, t.dir, t.n).sect < |img|
    ensures t.Missing? ==> ProperName(t.fn)
    ensures t.Failed? ==> t.res in {InvalidName, NoPath, IntErr}
    decreases |path| - i
  {
    var e := SegmentEnd(path, i);
    var seg := path[i..e];
    if seg == [] || !Fine(seg) then Failed(InvalidName) else
    var end := CharAt(path, e);
    NameIsProper(seg, Status(seg, end));
    var fn := ShortName(seg) + [Status(seg, end)];
    match ScanFrom(g, img, fat, sclust, fn, 0)
    case Stuck => Failed(IntErr)
    case Miss => if end <= 0x20 then Missing(sclust, fn) else Failed(NoPath)
    case Hit(n) =>
      if end <= 0x20 then Object(sclust, n, fn)
      else if !HasAttr(EntryOf(g, img, fat, sclust, n)[DIR_ATTR], AM_DIR) then Failed(NoPath)
      else Walk(g, img, fat, StartCluster(EntryOf(g, img, fat, sclust, n)), path, e + 1)
  }

  /** One step of the walk, from what the parser and the scan say. */
  lemma WalkStep(g: Geometry, img: Image, fat: seq<nat>, sclust: nat, path: seq<Byte>, i: nat, sfn: seq<Byte>, r: Scan)
    requires 0 < g.csize && |fat| == g.maxClust && (g.fsType == Fat32 ==> g.ValidCluster(g.dirbase)) && i <= |path|
    requires |sfn| == 12 && r == ScanFrom(g, img, fat, sclust, sfn, 0)
    requires var e := SegmentEnd(path, i); var seg := path[i..e];
      seg != [] && Fine(seg) && sfn == ShortName(seg) + [Status(seg, CharAt(path, e))]
    ensures var last := sfn[11] as int / NS_LAST % 2 == 1; var e := SegmentEnd(path, i);
      && (last || e < |path|)
      && Walk(g, img, fat, sclust, path, i) ==
        match r
        case Stuck => Failed(IntErr)
        case Miss => if last then Missing(sclust, sfn) else Failed(NoPath)
        case Hit(n) =>
          if last then Object(sclust, n, sfn)
          else if !HasAttr(EntryOf(g, img, fat, sclust, n)[DIR_ATTR], AM_DIR) then Failed(NoPath)
          else Walk(g, img, fat, StartCluster(EntryOf(g, img, fat, sclust, n)), path, e + 1)
  {
    hide Locate, Fine, Status, ScanFrom, EntryOf, StartCluster, HasAttr, ShortName;
    LastFlag(path[i..SegmentEnd(path, i)], CharAt(path, SegmentEnd(path, i)));
  }

  lemma WalkBad(g: Geometry, img: Image, fat: seq<nat>, sclust: nat, path: seq<Byte>, i: nat)
    requires 0 < g.csize && |fat| == g.maxClust && (g.fsType == Fat32 ==> g.ValidCluster(g.dirbase)) && i <= |path|
    ensures var seg := path[i..SegmentEnd(path, i)];
      seg == [] || !Fine(seg) ==> Walk(g, img, fat, sclust, path, i) == Failed(InvalidName)
  {
    hide Fine, ScanFrom;
  }

  lemma LastFlag(seg: seq<Byte>, end: Byte)
    ensures Status(seg, end) as int / NS_LAST % 2 == 1 <==> end <= 0x20
  {
    hide Small, Body, Ext;
  }

  // ---- paths that mean the same ----

  /** The same character but for the case of a letter and the choice of the separator. */
  predicate SamePlace(a: Byte, b: Byte) { SameLetter(a, b) || (a in {0x2F, 0x5C} && b in {0x2F, 0x5C}) }

  predicate SamePath(p: seq<Byte>, q: seq<Byte>)
  {
    |p| == |q| && forall i :: 0 <= i < |p| ==> SamePlace(p[i], q[i])
  }

  lemma PlaceCase(a: Byte, b: Byte)
    requires SamePlace(a, b)
    ensures (EndsSegment(a) <==> EndsSegment(b)) && (a <= 0x20 <==> b <= 0x20) && (!EndsSegment(a) ==> SameLetter(a, b))
  {
  }

  lemma {:induction false} SegmentSame(p: seq<Byte>, q: seq<Byte>, i: nat)
    requires SamePath(p, q) && i <= |p|
    ensures SegmentEnd(p, i) == SegmentEnd(q, i) && SameLetters(p[i..SegmentEnd(p, i)], q[i..SegmentEnd(q, i)])
    ensures CharAt(p, SegmentEnd(p, i)) <= 0x20 <==> CharAt(q, SegmentEnd(q, i)) <= 0x20
    decreases |p| - i
  {
    hide EndsSegment, SameLetter, SamePlace;
    if i < |p| {
      PlaceCase(p[i], q[i]);
      if !EndsSegment(p[i]) {
        SegmentSame(p, q, i + 1);
        var e := SegmentEnd(p, i);
        assert p[i..e] == [p[i]] + p[i + 1..e] && q[i..e] == [q[i]] + q[i + 1..e];
      }
    }
  }

  /** A scan asks for the eleven bytes of a name only. */
  lemma {:induction false} ScanByName(g: Geometry, img: Image, fat: seq<nat>, sclust: nat, a: seq<Byte>, b: seq<Byte>, n: nat)
    requires 0 < g.csize && |fat| == g.maxClust && (g.fsType == Fat32 ==> g.ValidCluster(g.dirbase))
    requires |a| >= 11 && |b| >= 11 && a[..11] == b[..11]
    ensures ScanFrom(g, img, fat, sclust, a, n) == ScanFrom(g, img, fat, sclust, b, n)
    decreases MAX_INDEX - n
  {
    hide Locate, EntryOf, HasAttr;
    if n < MAX_INDEX { ScanByName(g, img, fat, sclust, a, b, n + 1); }
  }

  /** The same entry, the same missing name, or the same error. */
  predicate SameTarget(t: Target, u: Target)
  {
    match t
    case Object(d, n, _) => u.Object? && u.dir == d && u.n == n
    case Missing(d, fn) => u.Missing? && u.dir == d && |u.fn| == |fn| == 12 && u.fn[..11] == fn[..11]
    case Failed(res) => u == Failed(res)
  }

  /** Paths that differ in the case of letters and in their separators lead to the same place. */
  lemma {:induction false} WalkCaseBlind(g: Geometry, img: Image, fat: seq<nat>, sclust: nat, p: seq<Byte>, q: seq<Byte>,
                                         i: nat)
    requires 0 < g.csize && |fat| == g.maxClust && (g.fsType == Fat32 ==> g.ValidCluster(g.dirbase)) && i <= |p|
    requires SamePath(p, q)
    ensures SameTarget(Walk(g, img, fat, sclust, p, i), Walk(g, img, fat, sclust, q, i))
    decreases |p| - i
  {
    hide Locate, Fine, Status, ScanFrom, EntryOf, StartCluster, HasAttr, ShortName, EndsSegment, SamePath;
    assert |q| == |p| by { SameLength(p, q); }
    SegmentSame(p, q, i);
    var e := SegmentEnd(p, i);
    var s, t := p[i..e], q[i..e];
    CaseBlind(s, t);
    if s != [] && Fine(s) {
      var a, b := ShortName(s) + [Status(s, CharAt(p, e))], ShortName(t) + [Status(t, CharAt(q, e))];
      ScanByName(g, img, fat, sclust, a, b, 0);
      var r := ScanFrom(g, img, fat, sclust, a, 0);
      if r.Hit? && CharAt(p, e) > 0x20 && HasAttr(EntryOf(g, img, fat, sclust, r.n)[DIR_ATTR], AM_DIR) {
        WalkCaseBlind(g, img, fat, StartCluster(EntryOf(g, img, fat, sclust, r.n)), p, q, e + 1);
      }
    }
  }

  lemma SameLength(p: seq<Byte>, q: seq<Byte>)
    requires SamePath(p, q)
    ensures |p| == |q|
  {
  }

  /** The walk of the rest of a path does not depend on what stands before it. */
  lemma {:induction false} WalkShift(g: Geometry, img: Image, fat: seq<nat>, sclust: nat, path: seq<Byte>, k: nat, i: nat)
    requires 0 < g.csize && |fat| == g.maxClust && (g.fsType == Fat32 ==> g.ValidCluster(g.dirbase)) && k + i <= |path|
    ensures Walk(g, img, fat, sclust, path, k + i) == Walk(g, img, fat, sclust, path[k..], i)
    decreases |path| - i
  {
    hide Locate, Fine, Status, ScanFrom, EntryOf, StartCluster, HasAttr, ShortName, EndsSegment;
    SegmentShift(path, k, i);
    var e := SegmentEnd(path[k..], i);
    var seg := path[k..][i..e];
    assert path[k + i..k + e] == seg && CharAt(path, k + e) == CharAt(path[k..], e);
    if seg != [] && Fine(seg) {
      var fn := ShortName(seg) + [Status(seg, CharAt(path, k + e))];
      var r := ScanFrom(g, img, fat, sclust, fn, 0);
      if r.Hit? && CharAt(path, k + e) > 0x20 && HasAttr(EntryOf(g, img, fat, sclust, r.n)[DIR_ATTR], AM_DIR) {
        WalkShift(g, img, fat, StartCluster(EntryOf(g, img, fat, sclust, r.n)), path, k, e + 1);
      }
    }
  }

  lemma {:induction false} SegmentShift(path: seq<Byte>, k: nat, i: nat)
    requires k + i <= |path|
    ensures SegmentEnd(path, k + i) == k + SegmentEnd(path[k..], i)
    decreases |path| - i
  {
    hide EndsSegment;
    assert CharAt(path, k + i) == CharAt(path[k..], i);
    assert EndsSegment(CharAt(path, |path|)) by { EndsAtEnd(path); }
    if !EndsSegment(CharAt(path, k + i)) { SegmentShift(path, k, i + 1); }
  }

  lemma EndsAtEnd(path: seq<Byte>)
    ensures EndsSegment(CharAt(path, |path|))
  {
  }

  /** A path of several segments: the first must name a directory (bit 4 of the attribute byte), and the rest is walked
      from its start cluster; a path of one segment leads to the object of that name. */
  lemma WalkComposes(g: Geometry, img: Image, fat: seq<nat>, sclust: nat, a: seq<Byte>, sep: Byte, b: seq<Byte>)
    requires 0 < g.csize && |fat| == g.maxClust && (g.fsType == Fat32 ==> g.ValidCluster(g.dirbase))
    requires a != [] && Fine(a) && forall i :: 0 <= i < |a| ==> !EndsSegment(a[i])
    requires sep == 0x2F || sep == 0x5C
    ensures var r := ScanFrom(g, img, fat, sclust, ShortName(a), 0);
      var w := Walk(g, img, fat, sclust, a + [sep] + b, 0);
      match r
      case Stuck => w == Failed(IntErr)
      case Miss => w == Failed(NoPath)
      case Hit(n) =>
        var e := EntryOf(g, img, fat, sclust, n);
        w == if e[11] / 16 % 2 == 0 then Failed(NoPath) else Walk(g, img, fat, StartCluster(e), b, 0)
    ensures var r := ScanFrom(g, img, fat, sclust, ShortName(a), 0);
      var w := Walk(g, img, fat, sclust, a, 0);
      match r
      case Stuck => w == Failed(IntErr)
      case Miss => w.Missing? && w.dir == sclust && w.fn[..11] == ShortName(a)
      case Hit(n) => w.Object? && w.dir == sclust && w.n == n
  {
    hide Locate, Fine, Status, ScanFrom, EntryOf, StartCluster, ShortName;
    var p := a + [sep] + b;
    FirstSegment(p, |a|);
    FirstSegment(a, |a|);
    assert p[0..|a|] == a && a[0..|a|] == a;
    var f, h := ShortName(a) + [Status(a, sep)], ShortName(a) + [Status(a, 0)];
    ScanByName(g, img, fat, sclust, ShortName(a), f, 0);
    ScanByName(g, img, fat, sclust, ShortName(a), h, 0);
    var r := ScanFrom(g, img, fat, sclust, f, 0);
    if r.Hit? && EntryOf(g, img, fat, sclust, r.n)[11] / 16 % 2 == 1 {
      WalkShift(g, img, fat, StartCluster(EntryOf(g, img, fat, sclust, r.n)), p, |a| + 1, 0);
      assert p[|a| + 1..] == b;
    }
  }

  lemma {:induction false} FirstSegment(path: seq<Byte>, n: nat)
    requires n <= |path| && (forall i :: 0 <= i < n ==> !EndsSegment(path[i])) && EndsSegment(CharAt(path, n))
    ensures SegmentEnd(path, 0) == n
  {
    hide EndsSegment;
  }

  /** Blanks in front are skipped, and one separator. */
  function SkipBlanks(path: seq<Byte>, i: nat): (r: nat)
    requires i <= |path|
    ensures i <= r <= |path|
    decreases |path| - i
  {
    if i < |path| && path[i] == BLANK then SkipBlanks(path, i + 1) else i
  }

  function PathStart(path: seq<Byte>): (r: nat)
    ensures r <= |path|
  {
    var i := SkipBlanks(path, 0);
    if CharAt(path, i) == 0x2F || CharAt(path, i) == 0x5C then i + 1 else i
  }

  /** The walk starts behind all blanks in front, and behind one slash or backslash that follows them. */
  lemma PathStartExactly(path: seq<Byte>, n: nat)
    requires n <= |path| && (forall i :: 0 <= i < n ==> path[i] == 0x20) && (n < |path| ==> path[n] != 0x20)
    ensures PathStart(path) == if n < |path| && path[n] in {0x2F, 0x5C} then n + 1 else n
  {
    BlanksTo(path, 0, n);
  }

  lemma {:induction false} BlanksTo(path: seq<Byte>, i: nat, n: nat)
    requires i <= n <= |path| && (forall j :: i <= j < n ==> path[j] == 0x20) && (n < |path| ==> path[n] != 0x20)
    ensures SkipBlanks(path, i) == n
    decreases n - i
  {
    if i < n { BlanksTo(path, i + 1, n); }
  }

  lemma {:induction false} BlanksSame(p: seq<Byte>, q: seq<Byte>, i: nat)
    requires SamePath(p, q) && i <= |p|
    ensures SkipBlanks(p, i) == SkipBlanks(q, i)
    decreases |p| - i
  {
    if i < |p| {
      assert SamePlace(p[i], q[i]);
      BlanksSame(p, q, i + 1);
    }
  }

  /** So do such paths as a whole. */
  lemma PathsAlike(g: Geometry, img: Image, fat: seq<nat>, p: seq<Byte>, q: seq<Byte>)
    requires 0 < g.csize && |fat| == g.maxClust && (g.fsType == Fat32 ==> g.ValidCluster(g.dirbase)) && SamePath(p, q)
    ensures PathStart(p) == PathStart(q)
    ensures SameTarget(Walk(g, img, fat, 0, p, PathStart(p)), Walk(g, img, fat, 0, q, PathStart(q)))
  {
    hide Walk, SameTarget;
    BlanksSame(p, q, 0);
    var i := SkipBlanks(p, 0);
    if i < |p| { assert SamePlace(p[i], q[i]); }
    WalkCaseBlind(g, img, fat, 0, p, q, PathStart(p));
  }

  /** The directory object stands where the path leads. */
  ghost predicate Arrived(dj: DIR, t: Target, res: FResult)
    reads dj, dj.fs, dj.fs.win
  {
    match t
    case Failed(e) => res == e
    case Missing(d, fn) => res == NoFile && dj.sclust == d && dj.fn == fn
    case Object(d, n, fn) =>
      && res == Ok && dj.sclust == d && dj.fn == fn && dj.Here() && dj.index == n
      && dj.fs.winsect == dj.sect < |dj.fs.img| && dj.fs.win[..] == dj.fs.img[dj.sect]
  }

  /** Follows the path. A path that is empty stands for the root directory itself, which has no entry. */
  method FollowPath(dj: DIR, path: seq<Byte>) returns (res: FResult, none: bool)
    requires dj.fs.Valid() && |dj.fn| == 12
    modifies dj, dj.fs`disk, dj.fs`winsect, dj.fs`wflag, dj.fs.win
    ensures dj.fs.Valid() && |dj.fn| == 12 && 0 < dj.fs.g.csize && |dj.fs.fat| == dj.fs.g.maxClust
    ensures dj.fs.g.fsType == Fat32 ==> dj.fs.g.ValidCluster(dj.fs.g.dirbase)
    ensures none == (CharAt(path, PathStart(path)) < 0x20)
    ensures none ==> res == if Locate(dj.fs.g, dj.fs.fat, 0, 0).At? then Ok else IntErr
    ensures !none ==> Arrived(dj, Walk(dj.fs.g, dj.fs.img, dj.fs.fat, 0, path, PathStart(path)), res)
    ensures dj.fs.wflag ==> old(dj.fs.wflag)
  {
    hide FATFS.Valid, Geometry.Sane, Locate, Walk, Fine, SegmentEnd, PowerOfTwo;
    dj.Facts();
    var i: nat := 0;
    while CharAt(path, i) == BLANK
      invariant i <= |path| && SkipBlanks(path, 0) == SkipBlanks(path, i)
      decreases |path| - i
    {
      i := i + 1;
    }
    if CharAt(path, i) == 0x2F || CharAt(path, i) == 0x5C { i := i + 1; }
    dj.sclust := 0;
    none := CharAt(path, i) < 0x20;
    if none {
      res := dj.Seek(0);
      return;
    }
    ghost var goal := Walk(dj.fs.g, dj.fs.img, dj.fs.fat, 0, path, i);
    while true
      invariant dj.fs.Valid() && |dj.fn| == 12 && i <= |path| && (dj.fs.wflag ==> old(dj.fs.wflag))
      invariant Walk(dj.fs.g, dj.fs.img, dj.fs.fat, dj.sclust, path, i) == goal
      decreases |path| - i
    {
      var more: bool;
      res, more, i := FollowSegment(dj, path, i, goal);
      if !more { return; }
    }
  }

  /** One segment of the path. */
  method FollowSegment(dj: DIR, path: seq<Byte>, i: nat, ghost goal: Target) returns (res: FResult, more: bool, next: nat)
    requires dj.fs.Valid() && |dj.fn| == 12 && i <= |path|
    requires 0 < dj.fs.g.csize && |dj.fs.fat| == dj.fs.g.maxClust
    requires dj.fs.g.fsType == Fat32 ==> dj.fs.g.ValidCluster(dj.fs.g.dirbase)
    requires Walk(dj.fs.g, dj.fs.img, dj.fs.fat, dj.sclust, path, i) == goal
    modifies dj, dj.fs`disk, dj.fs`winsect, dj.fs`wflag, dj.fs.win
    ensures dj.fs.Valid() && |dj.fn| == 12
    ensures !more ==> Arrived(dj, goal, res)
    ensures more ==> i < next <= |path| && Walk(dj.fs.g, dj.fs.img, dj.fs.fat, dj.sclust, path, next) == goal
    ensures dj.fs.wflag ==> old(dj.fs.wflag)
  {
    hide FATFS.Valid, Geometry.Sane, Locate, Fine, SegmentEnd, PowerOfTwo, Status, Scanned, FindResult, ScanFrom,
         Walk, ShortName, HasAttr, StartCluster;
    WalkBad(dj.fs.g, dj.fs.img, dj.fs.fat, dj.sclust, path, i);
    more := false;
    var sfn: seq<Byte>;
    res, sfn, next := CreateName(path, i);
    if res != Ok { return; }
    dj.fn := sfn;
    ghost var n;
    res, n := dj.Find();
    FindIsScan(dj.fs.g, dj.fs.img, dj.fs.fat, dj.sclust, sfn, n, res);
    WalkStep(dj.fs.g, dj.fs.img, dj.fs.fat, dj.sclust, path, i, sfn,
             ScanFrom(dj.fs.g, dj.fs.img, dj.fs.fat, dj.sclust, sfn, 0));
    var last := sfn[11] as int / NS_LAST % 2 == 1;
    if res != Ok {
      if res == NoFile && !last { res := NoPath; }
      return;
    }
    if last { return; }
    var e := EntryAt(dj.fs.win[..], dj.dir);
    if !HasAttr(e[DIR_ATTR], AM_DIR) { return NoPath, false, next; }
    dj.sclust := StartCluster(e);
    more := true;
  }
}
