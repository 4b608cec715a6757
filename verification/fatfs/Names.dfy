/** 8.3 names: from a path segment to the eleven bytes of a directory entry, and back to text. */
module Names {
  import opened Bytes
  import opened DirEntry
  import opened DirView
  import opened FileSystem

  const BLANK: Byte := 0x20
  const DOT: Byte := 0x2E
  const NS_LAST: nat := 0x04      // last segment of the path
  const NS_BODY: nat := 0x08      // the body had small letters only
  const NS_EXT: nat := 0x10       // so had the extension

  /** Upper-case form of an extended character in code page 858; the others stand for themselves. */
  function Convert(c: Byte): Byte
  {
    match c
    case 0x81 => 0x9A case 0x82 => 0x90 case 0x83 => 0xB6 case 0x84 => 0x8E
    case 0x85 => 0xB7 case 0x86 => 0x8F case 0x87 => 0x80 case 0x88 => 0xD2
    case 0x89 => 0xD3 case 0x8A => 0xD4 case 0x8B => 0xD8 case 0x8C => 0xD7
    case 0x8D => 0xDE case 0x91 => 0x92 case 0x93 => 0xE2 case 0x94 => 0x99
    case 0x95 => 0xE3 case 0x96 => 0xEA case 0x97 => 0xEB case 0x98 => 0x59
    case 0x9B => 0x9D case 0xA0 => 0xB5 case 0xA1 => 0xD6 case 0xA2 => 0xE0
    case 0xA3 => 0xE9 case 0xA4 => 0xA5 case 0xAD => 0x21 case 0xC6 => 0xC7
    case 0xD0 => 0xD1 case 0xE4 => 0xE5 case 0xE8 => 0xE7 case 0xEC => 0xED
    case _ => c
  }

  predicate IsUpper(c: Byte) { 0x41 <= c <= 0x5A }

  predicate IsLower(c: Byte) { 0x61 <= c <= 0x7A }

  /** Characters that end a segment. */
  predicate EndsSegment(c: Byte) { c <= 0x20 || c == 0x2F || c == 0x5C }

  /** Characters no short name may hold. */
  predicate Illegal(c: Byte)
  {
    c in [0x20, 0x22, 0x2A, 0x2B, 0x2C, 0x5B, 0x3D, 0x5D, 0x7C, 0x7F]
  }

  /** The character a name stores for `c`. */
  function Fold(c: Byte): (r: Byte)
  {
    var d := Convert(c);
    if IsLower(d) then d - 0x20 else d
  }

  /** Converting is idempotent and produces no letter but a capital. */
  lemma ConvertTwice(c: Byte)
    ensures var d := Convert(c);
      && Convert(d) == d && (c < 0x80 ==> d == c)
      && (c >= 0x80 ==> d >= 0x80 || d == 0x59 || d == 0x21)
  {
  }

  /** A stored character can be typed again, and is stored as itself. */
  lemma FoldOnce(c: Byte)
    requires !EndsSegment(c) && c != DOT && !Illegal(Convert(c))
    ensures var d := Fold(c);
      && !EndsSegment(d) && d != DOT && d != BLANK && !Illegal(Convert(d)) && Fold(d) == d && d != 0x05
  {
    ConvertTwice(c);
    ConvertTwice(Fold(c));
    hide Convert;
  }

  /** Letters are stored as capitals, other characters below 0x80 as they are, and no small letter is ever stored. */
  lemma FoldPlain(c: Byte)
    ensures c < 0x80 ==> Fold(c) == if 0x61 <= c <= 0x7A then c - 0x20 else c
    ensures !(0x61 <= Fold(c) <= 0x7A)
  {
    ConvertTwice(c);
    hide Convert;
  }

  /** The small letters above 0x7F in code page 858 and their capitals. */
  lemma FoldPairs()
    ensures Fold(0x81) == 0x9A && Fold(0x82) == 0x90 && Fold(0x83) == 0xB6 && Fold(0x84) == 0x8E
    ensures Fold(0x85) == 0xB7 && Fold(0x86) == 0x8F && Fold(0x87) == 0x80 && Fold(0x88) == 0xD2
    ensures Fold(0x89) == 0xD3 && Fold(0x8A) == 0xD4 && Fold(0x8B) == 0xD8 && Fold(0x8C) == 0xD7
    ensures Fold(0x8D) == 0xDE && Fold(0x91) == 0x92 && Fold(0x93) == 0xE2 && Fold(0x94) == 0x99
    ensures Fold(0x95) == 0xE3 && Fold(0x96) == 0xEA && Fold(0x97) == 0xEB && Fold(0x98) == 0x59
    ensures Fold(0x9B) == 0x9D && Fold(0xA0) == 0xB5 && Fold(0xA1) == 0xD6 && Fold(0xA2) == 0xE0
    ensures Fold(0xA3) == 0xE9 && Fold(0xA4) == 0xA5 && Fold(0xAD) == 0x21 && Fold(0xC6) == 0xC7
    ensures Fold(0xD0) == 0xD1 && Fold(0xE4) == 0xE5 && Fold(0xE8) == 0xE7 && Fold(0xEC) == 0xED
  {
    hide Fold;
    FoldPairsLow();
    FoldPairsMiddle();
    FoldPairsHigh();
  }

  lemma FoldPairsLow()
    ensures Fold(0x81) == 0x9A && Fold(0x82) == 0x90 && Fold(0x83) == 0xB6 && Fold(0x84) == 0x8E
    ensures Fold(0x85) == 0xB7 && Fold(0x86) == 0x8F && Fold(0x87) == 0x80 && Fold(0x88) == 0xD2
    ensures Fold(0x89) == 0xD3 && Fold(0x8A) == 0xD4 && Fold(0x8B) == 0xD8 && Fold(0x8C) == 0xD7
  {
  }

  lemma FoldPairsMiddle()
    ensures Fold(0x8D) == 0xDE && Fold(0x91) == 0x92 && Fold(0x93) == 0xE2 && Fold(0x94) == 0x99
    ensures Fold(0x95) == 0xE3 && Fold(0x96) == 0xEA && Fold(0x97) == 0xEB && Fold(0x98) == 0x59
    ensures Fold(0x9B) == 0x9D && Fold(0xA0) == 0xB5 && Fold(0xA1) == 0xD6 && Fold(0xA2) == 0xE0
  {
  }

  lemma FoldPairsHigh()
    ensures Fold(0xA3) == 0xE9 && Fold(0xA4) == 0xA5 && Fold(0xAD) == 0x21 && Fold(0xC6) == 0xC7
    ensures Fold(0xD0) == 0xD1 && Fold(0xE4) == 0xE5 && Fold(0xE8) == 0xE7 && Fold(0xEC) == 0xED
  {
  }

  /** Every other character there is stored as it is. */
  lemma FoldOthers(c: Byte)
    ensures c >= 0x80 && c !in {
        0x81, 0x82, 0x83, 0x84, 0x85, 0x86, 0x87, 0x88, 0x89, 0x8A, 0x8B,
        0x8C, 0x8D, 0x91, 0x93, 0x94, 0x95, 0x96, 0x97, 0x98, 0x9B, 0xA0,
        0xA1, 0xA2, 0xA3, 0xA4, 0xAD, 0xC6, 0xD0, 0xE4, 0xE8, 0xEC
      } ==> Fold(c) == c
  {
  }

  /** Characters a name may hold: all above the blank but the ten that the source lists, a dot between the parts, and the
      two that separate segments; an inverted exclamation mark is stored as a plain one. */
  lemma LegalExactly(c: Byte)
    ensures c > 0x20 && c != 0x2F && c != 0x5C ==>
      (Illegal(Convert(c)) <==> c in {0x22, 0x2A, 0x2B, 0x2C, 0x3D, 0x5B, 0x5D, 0x7C, 0x7F})
  {
  }

  /** The byte at `i` of a C string. */
  function CharAt(p: seq<Byte>, i: nat): Byte { if i < |p| then p[i] else 0 }

  /** Where the segment that starts at `i` ends. */
  function SegmentEnd(p: seq<Byte>, i: nat): (e: nat)
    requires i <= |p|
    ensures i <= e <= |p| && EndsSegment(CharAt(p, e)) && forall j :: i <= j < e ==> !EndsSegment(p[j])
    decreases |p| - i
  {
    if EndsSegment(CharAt(p, i)) then i else SegmentEnd(p, i + 1)
  }

  // ---- the parts of a segment ----

  /** The first dot, or the length when there is none. */
  function DotAt(seg: seq<Byte>): (d: nat)
    ensures d <= |seg| && (d < |seg| ==> seg[d] == DOT) && forall i :: 0 <= i < d ==> seg[i] != DOT
  {
    if seg == [] || seg[0] == DOT then 0 else 1 + DotAt(seg[1..])
  }

  function Body(seg: seq<Byte>): seq<Byte> { seg[..DotAt(seg)] }

  function Ext(seg: seq<Byte>): seq<Byte> { if DotAt(seg) < |seg| then seg[DotAt(seg) + 1..] else [] }

  predicate LegalChars(s: seq<Byte>)
  {
    forall i :: 0 <= i < |s| ==> s[i] != DOT && !Illegal(Convert(s[i]))
  }

  /** No part too long, no second dot, and legal characters. */
  predicate Fine(seg: seq<Byte>)
  {
    |Body(seg)| <= 8 && |Ext(seg)| <= 3 && LegalChars(Body(seg)) && LegalChars(Ext(seg))
  }

  function FoldAll(s: seq<Byte>): (r: seq<Byte>)
    ensures |r| == |s| && forall i :: 0 <= i < |s| ==> r[i] == Fold(s[i])
  {
    seq(|s|, i requires 0 <= i < |s| => Fold(s[i]))
  }

  function Pad(s: seq<Byte>, n: nat): (r: seq<Byte>)
    requires |s| <= n
    ensures |r| == n && forall i :: 0 <= i < n ==> r[i] == if i < |s| then s[i] else BLANK
  {
    s + seq(n - |s|, i => BLANK)
  }

  /** The eleven bytes: body and extension padded with blanks. */
  function Padded(seg: seq<Byte>): (r: seq<Byte>)
    requires Fine(seg)
    ensures |r| == 11
  {
    Pad(FoldAll(Body(seg)), 8) + Pad(FoldAll(Ext(seg)), 3)
  }

  /** A name must not begin like a deleted entry. */
  function Guarded(n: seq<Byte>): (r: seq<Byte>)
    requires |n| == 11
    ensures |r| == 11
  {
    if n[0] == 0xE5 then n[0 := 0x05] else n
  }

  /** Stored name of a segment. */
  function ShortName(seg: seq<Byte>): (r: seq<Byte>)
    requires Fine(seg)
    ensures |r| == 11
  {
    Guarded(Padded(seg))
  }

  predicate HasLower(s: seq<Byte>) { exists i :: 0 <= i < |s| && IsLower(Convert(s[i])) }

  predicate HasUpper(s: seq<Byte>) { exists i :: 0 <= i < |s| && IsUpper(Convert(s[i])) }

  predicate Small(s: seq<Byte>) { HasLower(s) && !HasUpper(s) }

  /** The status byte: case of the parts, and whether the path ends here. */
  function Status(seg: seq<Byte>, end: Byte): Byte
  {
    (if end <= 0x20 then NS_LAST else 0) + (if Small(Ext(seg)) then NS_EXT else 0) + (if Small(Body(seg)) then NS_BODY else 0)
  }

  // ---- the parser ----

  /** Case bits of a part: 1 for small letters, 2 for capitals. */
  function CaseBits(s: seq<Byte>): (b: nat)
    ensures b <= 3
  {
    (if HasLower(s) then 1 else 0) + (if HasUpper(s) then 2 else 0)
  }

  /** Sets bit 0 or bit 1. */
  function SetBit(b: nat, bit: nat): nat
  {
    if (if bit == 1 then b else b / 2) % 2 == 1 then b else b + bit
  }

  /** State of the parser's variables after the characters `seg`. */
  ghost predicate Parsed(seg: seq<Byte>, sfn: seq<Byte>, i: nat, ni: nat, b: nat)
  {
    && Fine(seg) && |sfn| == 12 && sfn[..11] == Padded(seg)
    && (if DotAt(seg) < |seg| then ni == 11 && i == 8 + |Ext(seg)| && b == 4 * CaseBits(Body(seg)) + CaseBits(Ext(seg))
        else ni == 8 && i == |seg| && b == CaseBits(seg))
  }

  lemma PartsWith(seg: seq<Byte>, c: Byte)
    ensures DotAt(seg) < |seg| ==>
      DotAt(seg + [c]) == DotAt(seg) && Body(seg + [c]) == Body(seg) && Ext(seg + [c]) == Ext(seg) + [c]
    ensures DotAt(seg) == |seg| && c != DOT ==>
      DotAt(seg + [c]) == |seg| + 1 && Body(seg + [c]) == seg + [c] && Ext(seg + [c]) == []
    ensures DotAt(seg) == |seg| && c == DOT ==>
      DotAt(seg + [c]) == |seg| && Body(seg + [c]) == seg && Ext(seg + [c]) == []
    ensures DotAt(seg) == |seg| ==> Body(seg) == seg && Ext(seg) == []
  {
    hide DotAt, Body, Ext;
    if DotAt(seg) < |seg| {
      BehindDot(seg, c);
    } else {
      NoDot(seg);
      if c == DOT { AtDot(seg); } else { BeforeDot(seg, c); }
    }
  }

  lemma NoDot(seg: seq<Byte>)
    requires DotAt(seg) == |seg|
    ensures Body(seg) == seg && Ext(seg) == []
  {
    hide DotAt;
  }

  lemma BehindDot(seg: seq<Byte>, c: Byte)
    requires DotAt(seg) < |seg|
    ensures DotAt(seg + [c]) == DotAt(seg) && Body(seg + [c]) == Body(seg) && Ext(seg + [c]) == Ext(seg) + [c]
  {
    hide DotAt;
    FirstDot(seg + [c], DotAt(seg));
    SlicesWith(seg, c, DotAt(seg));
  }

  lemma SlicesWith(seg: seq<Byte>, c: Byte, d: nat)
    requires d < |seg|
    ensures (seg + [c])[..d] == seg[..d] && (seg + [c])[d + 1..] == seg[d + 1..] + [c]
  {
  }

  lemma AtDot(seg: seq<Byte>)
    requires DotAt(seg) == |seg|
    ensures DotAt(seg + [DOT]) == |seg| && Body(seg + [DOT]) == seg && Ext(seg + [DOT]) == []
  {
    hide DotAt;
    FirstDot(seg + [DOT], |seg|);
  }

  lemma BeforeDot(seg: seq<Byte>, c: Byte)
    requires DotAt(seg) == |seg| && c != DOT
    ensures DotAt(seg + [c]) == |seg| + 1 && Body(seg + [c]) == seg + [c] && Ext(seg + [c]) == []
  {
    hide DotAt;
    FirstDot(seg + [c], |seg| + 1);
  }

  lemma ParsedNone(sfn: seq<Byte>)
    requires |sfn| == 12 && forall k :: 0 <= k < 11 ==> sfn[k] == BLANK
    ensures Parsed([], sfn, 0, 8, 0)
  {
  }

  lemma ParsedDot(seg: seq<Byte>, sfn: seq<Byte>, i: nat, b: nat)
    requires Parsed(seg, sfn, i, 8, b)
    ensures Parsed(seg + [DOT], sfn, 8, 11, 4 * b) && b <= 3
  {
    PartsWith(seg, DOT);
  }

  lemma BitsWith(s: seq<Byte>, c: Byte)
    ensures var d := Convert(c); var b := CaseBits(s);
      CaseBits(s + [c]) == if IsUpper(d) then SetBit(b, 2) else if IsLower(d) then SetBit(b, 1) else b
  {
    var t := s + [c];
    assert t[|s|] == c && forall i :: 0 <= i < |s| ==> t[i] == s[i];
    assert HasLower(t) <==> HasLower(s) || IsLower(Convert(c));
    assert HasUpper(t) <==> HasUpper(s) || IsUpper(Convert(c));
  }

  lemma ParsedChar(seg: seq<Byte>, sfn: seq<Byte>, i: nat, ni: nat, b: nat, c: Byte)
    requires Parsed(seg, sfn, i, ni, b) && c != DOT && i < ni && !Illegal(Convert(c))
    ensures i < 11 && |sfn| == 12
    ensures var d := Convert(c);
      Parsed(seg + [c], sfn[i := Fold(c)], i + 1, ni,
             if IsUpper(d) then SetBit(b, 2) else if IsLower(d) then SetBit(b, 1) else b)
  {
    hide Convert, Illegal, Fold, HasLower, HasUpper, IsUpper, IsLower, SetBit, CaseBits, Padded;
    PartsWith(seg, c);
    BitsWith(if DotAt(seg) < |seg| then Ext(seg) else seg, c);
    if DotAt(seg) < |seg| {
      ShiftedBit(CaseBits(Body(seg)), CaseBits(Ext(seg)), 1);
      ShiftedBit(CaseBits(Body(seg)), CaseBits(Ext(seg)), 2);
    }
    FineWith(seg, c, i, ni);
    PaddedWith(seg, sfn, i, c);
  }

  lemma ShiftedBit(x: nat, y: nat, bit: nat)
    requires y <= 3 && (bit == 1 || bit == 2)
    ensures SetBit(4 * x + y, bit) == 4 * x + SetBit(y, bit)
  {
    var h := y / 2;
    assert y == 2 * h + y % 2 && h <= 1;
    DivModUnique(4 * x + y, 2, 2 * x + h, y % 2);
    DivModUnique(2 * x + h, 2, x, h);
  }

  lemma FineWith(seg: seq<Byte>, c: Byte, i: nat, ni: nat)
    requires Fine(seg) && c != DOT && !Illegal(Convert(c)) && i < ni
    requires if DotAt(seg) < |seg| then ni == 11 && i == 8 + |Ext(seg)| else ni == 8 && i == |seg|
    ensures Fine(seg + [c])
  {
    hide Convert, Illegal, DotAt;
    PartsWith(seg, c);
  }

  lemma PaddedWith(seg: seq<Byte>, sfn: seq<Byte>, i: nat, c: Byte)
    requires Fine(seg) && Fine(seg + [c]) && |sfn| == 12 && sfn[..11] == Padded(seg) && c != DOT
    requires i == if DotAt(seg) < |seg| then 8 + |Ext(seg)| else |seg|
    ensures i < 11 && sfn[i := Fold(c)][..11] == Padded(seg + [c])
  {
    hide Convert, Illegal, Fold, DotAt, LegalChars;
    PartsWith(seg, c);
    var b, e := FoldAll(Body(seg + [c])), FoldAll(Ext(seg + [c]));
    assert |b| <= 8 && |e| <= 3;
    assert Padded(seg + [c]) == Pad(b, 8) + Pad(e, 3);
  }

  /** What makes the parser give up makes the whole segment no name. */
  lemma ParsedBad(seg: seq<Byte>, sfn: seq<Byte>, i: nat, ni: nat, b: nat, c: Byte)
    requires Parsed(seg, sfn, i, ni, b)
    requires if c == DOT then ni != 8 else i >= ni || Illegal(Convert(c))
    ensures !Fine(seg + [c])
  {
    hide Convert, Illegal;
    PartsWith(seg, c);
    var e := if DotAt(seg) < |seg| then Ext(seg) else seg;
    assert (e + [c])[|e|] == c;
  }

  lemma FinePrefix(seg: seq<Byte>, n: nat)
    requires n <= |seg| && !Fine(seg[..n])
    ensures !Fine(seg)
  {
    hide Convert, Illegal, DotAt;
    var p, d := seg[..n], DotAt(seg);
    FirstDot(p, Min(d, n));
    PrefixLegal(Body(p), Body(seg));
    PrefixLegal(Ext(p), Ext(seg));
  }

  lemma PrefixLegal(a: seq<Byte>, b: seq<Byte>)
    requires a <= b
    ensures |a| <= |b| && (LegalChars(b) ==> LegalChars(a))
  {
    hide Convert, Illegal;
    assert forall i :: 0 <= i < |a| ==> a[i] == b[i];
  }

  lemma FirstDot(seg: seq<Byte>, d: nat)
    requires d <= |seg| && (d < |seg| ==> seg[d] == DOT) && forall i :: 0 <= i < d ==> seg[i] != DOT
    ensures DotAt(seg) == d
  {
  }

  lemma NextChar(path: seq<Byte>, start: nat, k: nat, e: nat)
    requires start <= |path| && start <= k <= e == SegmentEnd(path, start) && !EndsSegment(CharAt(path, k))
    ensures k < e && CharAt(path, k) == path[k] && path[start..k] + [path[k]] == path[start..k + 1]
    ensures path[start..k + 1] == path[start..e][..k + 1 - start]
  {
  }

  /** What the parser's variables say at the end. */
  lemma ParsedEnd(seg: seq<Byte>, sfn: seq<Byte>, i: nat, ni: nat, b: nat, end: Byte)
    requires Parsed(seg, sfn, i, ni, b)
    ensures Fine(seg) && |sfn| == 12 && sfn[..11] == Padded(seg) && (i == 0 <==> seg == [])
    ensures var bits := if ni == 8 then 4 * b else b;
      && (bits % 4 == 1 <==> Small(Ext(seg))) && (bits / 4 % 4 == 1 <==> Small(Body(seg)))
  {
    hide HasLower, HasUpper, Fine, Padded;
    if ni == 8 { assert Body(seg) == seg; }
    assert !HasLower([]) by { NoneSmall(); }
  }

  lemma NoneSmall()
    ensures !HasLower([])
  {
  }

  /** Where the characters of a segment are stored: what precedes the first dot in bytes 0 to 7, what follows it in
      bytes 8 to 10, blanks behind both, and 0x05 for a first byte of 0xE5. */
  lemma StoredPlaces(seg: seq<Byte>)
    requires Fine(seg)
    ensures var d, n := DotAt(seg), ShortName(seg);
      && (d < |seg| ==> seg[d] == 0x2E) && (forall i :: 0 <= i < d ==> seg[i] != 0x2E)
      && (forall i :: 0 < i < 8 ==> n[i] == if i < d then Fold(seg[i]) else 0x20)
      && n[0] == (if d == 0 then 0x20 else if Fold(seg[0]) == 0xE5 then 0x05 else Fold(seg[0]))
      && forall i :: 8 <= i < 11 ==> n[i] == if d + i - 7 < |seg| then Fold(seg[d + i - 7]) else 0x20
  {
    hide Fold, DotAt, Fine, Padded;
    PaddedPlaces(seg);
  }

  lemma PaddedPlaces(seg: seq<Byte>)
    requires Fine(seg)
    ensures forall i :: 0 <= i < 8 ==> Padded(seg)[i] == if i < DotAt(seg) then Fold(seg[i]) else 0x20
    ensures forall i :: 8 <= i < 11 ==>
      Padded(seg)[i] == if DotAt(seg) + i - 7 < |seg| then Fold(seg[DotAt(seg) + i - 7]) else 0x20
  {
    hide Fold, DotAt, LegalChars, FoldAll, Pad;
    var d, b, x := DotAt(seg), Pad(FoldAll(Body(seg)), 8), Pad(FoldAll(Ext(seg)), 3);
    forall i | 0 <= i < 8
      ensures Padded(seg)[i] == if i < d then Fold(seg[i]) else 0x20
    {
      assert (b + x)[i] == b[i];
    }
    forall i | 8 <= i < 11
      ensures Padded(seg)[i] == if d + i - 7 < |seg| then Fold(seg[d + i - 7]) else 0x20
    {
      assert (b + x)[i] == x[i - 8];
    }
  }

  /** Among its letters are small ones and no capitals; the code page makes a capital Y of 0x98. */
  predicate SmallOnly(s: seq<Byte>)
  {
    && (exists i :: 0 <= i < |s| && 0x61 <= s[i] <= 0x7A)
    && forall i :: 0 <= i < |s| ==> !(0x41 <= s[i] <= 0x5A) && s[i] != 0x98
  }

  lemma SmallExactly(s: seq<Byte>)
    ensures Small(s) <==> SmallOnly(s)
  {
    forall c: Byte | true
      ensures (IsLower(Convert(c)) <==> 0x61 <= c <= 0x7A) && (IsUpper(Convert(c)) <==> 0x41 <= c <= 0x5A || c == 0x98)
    {
    }
    hide Convert;
  }

  /** The status byte: bit 2 for the end of the path, bit 3 for a body and bit 4 for an extension in small letters. */
  lemma StatusBits(seg: seq<Byte>, end: Byte)
    ensures var b := Status(seg, end);
      && b < 0x20 && b % 4 == 0 && (b / 4 % 2 == 1 <==> end <= 0x20)
      && (b / 8 % 2 == 1 <==> SmallOnly(Body(seg))) && (b / 16 % 2 == 1 <==> SmallOnly(Ext(seg)))
  {
    hide Small, SmallOnly, Body, Ext;
    SmallExactly(Body(seg));
    SmallExactly(Ext(seg));
  }

  /** No stored byte is a small letter. */
  lemma StoredCapital(seg: seq<Byte>)
    requires Fine(seg)
    ensures forall i :: 0 <= i < 11 ==> !(0x61 <= ShortName(seg)[i] <= 0x7A)
  {
    hide Fold;
    forall c: Byte | true
      ensures !(0x61 <= Fold(c) <= 0x7A)
    {
      FoldPlain(c);
    }
  }

  /** The same character but for the case of a letter. */
  predicate SameLetter(a: Byte, b: Byte)
  {
    a == b || (0x61 <= a <= 0x7A && b == a - 0x20) || (0x61 <= b <= 0x7A && a == b - 0x20)
  }

  predicate SameLetters(s: seq<Byte>, t: seq<Byte>)
  {
    |s| == |t| && forall i :: 0 <= i < |s| ==> SameLetter(s[i], t[i])
  }

  lemma LetterCase(a: Byte, b: Byte)
    requires SameLetter(a, b)
    ensures Fold(a) == Fold(b) && (a == DOT <==> b == DOT) && (Illegal(Convert(a)) <==> Illegal(Convert(b)))
    ensures EndsSegment(a) <==> EndsSegment(b)
  {
    ConvertTwice(a);
    ConvertTwice(b);
    hide Convert;
  }

  lemma {:induction false} DotSame(s: seq<Byte>, t: seq<Byte>)
    requires SameLetters(s, t)
    ensures DotAt(s) == DotAt(t)
  {
    hide EndsSegment, Fold, Illegal, Convert;
    if s != [] {
      LetterCase(s[0], t[0]);
      DotSame(s[1..], t[1..]);
    }
  }

  lemma LegalSame(s: seq<Byte>, t: seq<Byte>)
    requires SameLetters(s, t)
    ensures (LegalChars(s) <==> LegalChars(t)) && FoldAll(s) == FoldAll(t)
  {
    hide Fold, Illegal, Convert, EndsSegment, SameLetter;
    forall i | 0 <= i < |s|
      ensures Fold(s[i]) == Fold(t[i]) && (s[i] == DOT <==> t[i] == DOT) && (Illegal(Convert(s[i])) <==> Illegal(Convert(t[i])))
    {
      LetterCase(s[i], t[i]);
    }
  }

  /** The case of its letters makes no difference to a segment's name. */
  lemma CaseBlind(s: seq<Byte>, t: seq<Byte>)
    requires SameLetters(s, t)
    ensures Fine(s) <==> Fine(t)
    ensures Fine(s) ==> ShortName(s) == ShortName(t)
  {
    hide Fold, Illegal, Convert, EndsSegment, SameLetter, LegalChars, FoldAll;
    DotSame(s, t);
    LegalSame(Body(s), Body(t));
    LegalSame(Ext(s), Ext(t));
  }

  /** Takes the segment at `start` of the path apart: it is a name exactly when it is not empty, its parts are
      not too long and its characters legal. */
  method CreateName(path: seq<Byte>, start: nat) returns (res: FResult, sfn: seq<Byte>, next: nat)
    requires start <= |path|
    ensures var e := SegmentEnd(path, start); var seg := path[start..e];
      && (res == if seg != [] && Fine(seg) then Ok else InvalidName)
      && (res == Ok ==> next == e + 1 && Fine(seg) && sfn == ShortName(seg) + [Status(seg, CharAt(path, e))])
  {
    hide Convert, Illegal, HasLower, HasUpper, Fine, Padded, DotAt, Body, Ext, Parsed, Small;
    sfn := seq(12, k => BLANK);
    var si, i, b, ni: nat := start, 0, 0, 8;
    var c: Byte := 0;
    ghost var e := SegmentEnd(path, start);
    ghost var seg := path[start..e];
    assert path[start..start] == [];
    ParsedNone(sfn);
    while true
      invariant start <= si <= e && seg == path[start..e] && Parsed(path[start..si], sfn, i, ni, b)
      decreases e - si
    {
      c := CharAt(path, si);
      si := si + 1;
      if EndsSegment(c) { break; }
      NextChar(path, start, si - 1, e);
      if c == DOT || i >= ni {
        if ni != 8 || c != DOT {
          ParsedBad(path[start..si - 1], sfn, i, ni, b, c);
          FinePrefix(seg, si - start);
          return InvalidName, sfn, start;
        }
        assert c == DOT;
        ParsedDot(path[start..si - 1], sfn, i, b);
        i, ni := 8, 11;
        b := 4 * b % 0x100;
        continue;
      }
      ghost var raw := c;
      c := Convert(c);
      if Illegal(c) {
        ParsedBad(path[start..si - 1], sfn, i, ni, b, raw);
        FinePrefix(seg, si - start);
        return InvalidName, sfn, start;
      }
      ParsedChar(path[start..si - 1], sfn, i, ni, b, raw);
      if IsUpper(c) {
        b := SetBit(b, 2);
      } else if IsLower(c) {
        b := SetBit(b, 1);
        c := c - 0x20;
      }
      sfn := sfn[i := c];
      i := i + 1;
    }
    next := si;
    assert c == CharAt(path, e) && si == e + 1;
    var status: Byte := if c <= 0x20 then 4 else 0;
    ParsedEnd(seg, sfn, i, ni, b, c);
    if i == 0 { return InvalidName, sfn, start; }
    if sfn[0] == 0xE5 { sfn := sfn[0 := 0x05]; }
    assert sfn[..11] == ShortName(seg);
    if ni == 8 { b := 4 * b; }
    if b % 4 == 1 { status := status + 0x10; }
    if b / 4 % 4 == 1 { status := status + 0x08; }
    assert sfn[11 := status] == sfn[..11] + [status];
    sfn := sfn[11 := status];
    res := Ok;
  }

  // ---- the printer ----

  /** The bytes before the first blank. */
  function UpToBlank(s: seq<Byte>): (r: seq<Byte>)
    ensures r <= s && (forall i :: 0 <= i < |r| ==> r[i] != BLANK) && (|r| < |s| ==> s[|r|] == BLANK)
  {
    if s == [] || s[0] == BLANK then [] else [s[0]] + UpToBlank(s[1..])
  }

  /** The printed form of a stored byte of the body. */
  function Unguard(c: Byte): Byte { if c == 0x05 then 0xE5 else c }

  function UnguardAll(s: seq<Byte>): (r: seq<Byte>)
    ensures |r| == |s| && forall i :: 0 <= i < |s| ==> r[i] == Unguard(s[i])
  {
    seq(|s|, i requires 0 <= i < |s| => Unguard(s[i]))
  }

  /** Text of a stored name. */
  function Text(name: seq<Byte>): seq<Byte>
    requires |name| >= 11
  {
    UnguardAll(UpToBlank(name[..8])) + if name[8] != BLANK then [DOT] + UpToBlank(name[8..11]) else []
  }

  lemma UpToBlankIs(s: seq<Byte>, n: nat)
    requires n <= |s| && (forall i :: 0 <= i < n ==> s[i] != BLANK) && (n < |s| ==> s[n] == BLANK)
    ensures UpToBlank(s) == s[..n]
  {
  }

  /** Prints the name of a directory entry into a buffer of 13 bytes, and terminates it. */
  method PrintName(dir: Entry32, fname: array<Byte>)
    requires fname.Length == 13
    modifies fname
    ensures var t := Text(dir); |t| <= 12 && fname[..|t|] == t && fname[|t|] == 0
  {
    var i, p: nat := 0, 0;
    while i < 8 && dir[i] != BLANK
      invariant i <= 8 && p == i && fname[..p] == UnguardAll(dir[..i])
      invariant forall k :: 0 <= k < i ==> dir[k] != BLANK
    {
      var c := dir[i];
      if c == 0x05 { c := 0xE5; }
      fname[p] := c;
      p := p + 1;
      i := i + 1;
    }
    UpToBlankIs(dir[..8], i);
    assert dir[..8][..i] == dir[..i];
    ghost var body := fname[..p];
    if dir[8] != BLANK {
      fname[p] := DOT;
      p := PrintExt(dir, fname, p + 1);
      assert fname[..p] == body + [DOT] + UpToBlank(dir[8..11]);
    }
    assert fname[..p] == Text(dir);
    fname[p] := 0;
  }

  /** Prints the extension from `at` on. */
  method PrintExt(dir: Entry32, fname: array<Byte>, at: nat) returns (p: nat)
    requires fname.Length == 13 && at <= 9
    modifies fname
    ensures p == at + |UpToBlank(dir[8..11])| <= 12 && fname[..p] == old(fname[..at]) + UpToBlank(dir[8..11])
  {
    p := at;
    var i: nat := 8;
    while i < 11 && dir[i] != BLANK
      invariant 8 <= i <= 11 && p == at + (i - 8) && fname[..p] == old(fname[..at]) + dir[8..i]
      invariant forall k :: 8 <= k < i ==> dir[k] != BLANK
    {
      fname[p] := dir[i];
      p := p + 1;
      i := i + 1;
    }
    UpToBlankIs(dir[8..11], i - 8);
    assert dir[8..11][..i - 8] == dir[8..i];
  }

  // ---- printer and parser undo each other ----

  /** The parts of a name as they are stored. */
  lemma FoldedPart(s: seq<Byte>)
    requires LegalChars(s) && forall i :: 0 <= i < |s| ==> !EndsSegment(s[i])
    ensures var f := FoldAll(s);
      && LegalChars(f) && FoldAll(f) == f
      && forall i :: 0 <= i < |f| ==> !EndsSegment(f[i]) && f[i] != BLANK && f[i] != DOT && f[i] != 0x05
  {
    forall i | 0 <= i < |s|
      ensures var d := Fold(s[i]);
        !EndsSegment(d) && d != DOT && d != BLANK && !Illegal(Convert(d)) && Fold(d) == d && d != 0x05
    {
      FoldOnce(s[i]);
    }
    hide Convert, Illegal, EndsSegment, Fold;
  }

  lemma DotInside()
    ensures !EndsSegment(DOT)
  {
  }

  /** The text of a stored name: the folded parts, with a dot between them when there is an extension. */
  lemma TextOfName(seg: seq<Byte>)
    requires Fine(seg) && forall i :: 0 <= i < |seg| ==> !EndsSegment(seg[i])
    ensures Text(ShortName(seg)) ==
      FoldAll(Body(seg)) + if Ext(seg) == [] then [] else [DOT] + FoldAll(Ext(seg))
    ensures var b, e := FoldAll(Body(seg)), FoldAll(Ext(seg));
      LegalChars(b) && LegalChars(e) && FoldAll(b) == b && FoldAll(e) == e
    ensures forall i :: 0 <= i < |Text(ShortName(seg))| ==> !EndsSegment(Text(ShortName(seg))[i])
  {
    hide Convert, Illegal, EndsSegment, Fold;
    var b, e, n := FoldAll(Body(seg)), FoldAll(Ext(seg)), ShortName(seg);
    FoldedPart(Body(seg));
    FoldedPart(Ext(seg));
    UpToBlankIs(n[..8], |b|);
    assert UnguardAll(n[..8][..|b|]) == b;
    UpToBlankIs(n[8..11], |e|);
    assert n[8..11][..|e|] == e;
    DotInside();
  }

  lemma EmptyParts(seg: seq<Byte>)
    requires Fine(seg)
    ensures Body(seg) == [] && Ext(seg) == [] ==> ShortName(seg) == seq(11, i => BLANK)
  {
  }

  lemma PartsOfText(b: seq<Byte>, e: seq<Byte>)
    requires LegalChars(b)
    ensures var t := b + if e == [] then [] else [DOT] + e; Body(t) == b && Ext(t) == e
  {
    hide Convert, Illegal, DotAt;
    FirstDot(b + if e == [] then [] else [DOT] + e, |b|);
  }

  /** Parsing the text of any stored name but the blank one gives the stored name again, and the text with its
      terminator fits a buffer of 13 bytes. */
  lemma PrintThenParse(seg: seq<Byte>)
    requires Fine(seg) && forall i :: 0 <= i < |seg| ==> !EndsSegment(seg[i])
    requires ShortName(seg) != seq(11, i => BLANK)
    ensures var t := Text(ShortName(seg));
      && 0 < |t| <= 12 && SegmentEnd(t, 0) == |t| && t[..|t|] == t
      && Fine(t) && ShortName(t) == ShortName(seg)
  {
    hide Convert, Illegal, EndsSegment, Fold, DotAt, Body, Ext, Text, Pad, UnguardAll, UpToBlank;
    var b, e, t := FoldAll(Body(seg)), FoldAll(Ext(seg)), Text(ShortName(seg));
    TextOfName(seg);
    PartsOfText(b, e);
    EmptyParts(seg);
    NoEndInside(t, 0);
  }

  lemma {:induction false} NoEndInside(t: seq<Byte>, i: nat)
    requires i <= |t| && forall j :: i <= j < |t| ==> !EndsSegment(t[j])
    ensures SegmentEnd(t, i) == |t|
    decreases |t| - i
  {
    if i < |t| { NoEndInside(t, i + 1); }
  }

  /** Only a lone dot gives the blank name. */
  lemma BlankName(seg: seq<Byte>)
    requires Fine(seg) && seg != [] && forall i :: 0 <= i < |seg| ==> !EndsSegment(seg[i])
    ensures ShortName(seg) == seq(11, i => BLANK) <==> seg == [DOT]
  {
    hide Convert, Illegal, EndsSegment, Fold, DotAt;
    var n := ShortName(seg);
    FoldedPart(Body(seg));
    FoldedPart(Ext(seg));
    if Body(seg) != [] { assert n[0] != BLANK; }
    if Ext(seg) != [] { assert n[8] != BLANK; }
    if seg == [DOT] { FirstDot(seg, 0); }
  }

  /** Printer and parser undo each other for every segment but the lone dot, whose name prints as the empty
      text, which is no name. */
  lemma RoundTripExactly(seg: seq<Byte>)
    requires Fine(seg) && seg != [] && forall i :: 0 <= i < |seg| ==> !EndsSegment(seg[i])
    ensures var t := Text(ShortName(seg));
      && (t != [] && Fine(t) && ShortName(t) == ShortName(seg) <==> seg != [DOT])
      && (seg == [DOT] ==> t == [])
  {
    hide Fine, ShortName;
    BlankName(seg);
    if seg == [DOT] {
      BlankText();
    } else {
      PrintThenParse(seg);
    }
  }

  lemma BlankText()
    ensures Text(seq(11, i => BLANK)) == []
  {
    UpToBlankIs(seq(11, i => BLANK)[..8], 0);
  }

  /** A name never begins like a blank entry. */
  lemma NameIsProper(seg: seq<Byte>, status: Byte)
    requires Fine(seg) && forall i :: 0 <= i < |seg| ==> !EndsSegment(seg[i])
    ensures ProperName(ShortName(seg) + [status])
  {
    hide Convert, Illegal, Fold, DotAt;
    FoldedPart(Body(seg));
  }
}
