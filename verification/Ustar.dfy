/** Archive headers of src/lib/ustar.c, in the "ustar Interchange Format" of the pax utility in
    POSIX.1-2001: composing one in a 512-byte buffer and parsing it. Strings are byte sequences
    without null bytes. */
module Ustar {
  import opened Bytes
  import opened OctalText

  const HEADER_SIZE := 512
  const REGULAR: byte := 48         // '0'
  const DIRECTORY: byte := 53       // '5'
  const SLASH: byte := 47
  const DOT: byte := 46
  const INT_MAX := 0x7FFF_FFFF

  // Where the fields begin.
  const MODE := 100
  const UID := 108
  const GID := 116
  const SIZE := 124
  const MTIME := 136
  const CHKSUM := 148
  const TYPEFLAG := 156
  const MAGIC := 257
  const VERSION := 263
  const UNAME := 265
  const GNAME := 297
  const DEVMAJOR := 329
  const PREFIX := 345

  const USTAR: seq<byte> := [117, 115, 116, 97, 114]        // "ustar"
  const ROOT: seq<byte> := [114, 111, 111, 116]             // "root"

  // ---------------------------------------------------------------------------------------
  // File names.

  ghost predicate IsString(s: seq<byte>) {
    forall i :: 0 <= i < |s| ==> s[i] != 0
  }

  // A name that starts with "/", "./" or "../".
  predicate Antisocial(s: seq<byte>): (b: bool)
    ensures b ==> SLASH in s
  {
    || (|s| >= 1 && s[0] == SLASH)
    || (|s| >= 2 && s[0] == DOT && s[1] == SLASH)
    || (|s| >= 3 && s[0] == DOT && s[1] == DOT && s[2] == SLASH)
  }

  // The name after the first slash.
  function AfterSlash(s: seq<byte>): (r: seq<byte>)
    requires SLASH in s
    ensures |r| < |s|
  {
    if s[0] == SLASH then s[1..] else AfterSlash(s[1..])
  }

  /** What strip_antisocial_prefixes makes of a name. */
  ghost function Stripped(s: seq<byte>): seq<byte>
    decreases |s|
  {
    if Antisocial(s) then Stripped(AfterSlash(s)) else if s == [] || s == [DOT, DOT] then [DOT] else s
  }

  method Strip(s: seq<byte>) returns (r: seq<byte>)
    ensures r == Stripped(s)
  {
    r := s;
    while Antisocial(r)
      invariant Stripped(r) == Stripped(s)
      decreases |r|
    {
      r := AfterSlash(r);
    }
    if r == [] || r == [DOT, DOT] {
      r := [DOT];
    }
  }

  /** A stripped name names something below the current directory. */
  lemma {:induction false} StrippedIsSocial(s: seq<byte>)
    ensures !Antisocial(Stripped(s)) && Stripped(s) != [] && Stripped(s) != [DOT, DOT]
    ensures Stripped(Stripped(s)) == Stripped(s)
    decreases |s|
  {
    if Antisocial(s) { StrippedIsSocial(AfterSlash(s)); }
  }

  // p is "/", "./" and "../" in any order and number.
  ghost predicate Pieces(p: seq<byte>) {
    || p == []
    || ([47] <= p && Pieces(p[1..])) || ([46, 47] <= p && Pieces(p[2..])) || ([46, 46, 47] <= p && Pieces(p[3..]))
  }

  // t starts with none of them.
  ghost predicate Clean(t: seq<byte>) {
    !([47] <= t) && !([46, 47] <= t) && !([46, 46, 47] <= t)
  }

  /** Stripping drops the pieces "/", "./" and "../" at the front, as many as there are, and nothing
      else; what is left stands for itself, or for "." if it is empty or "..". */
  lemma {:induction false} StripsPieces(p: seq<byte>, t: seq<byte>)
    requires Pieces(p) && Clean(t)
    ensures Stripped(p + t) == if t == [] || t == [46, 46] then [46] else t
    decreases |p|
  {
    hide AfterSlash, Antisocial;
    var s := p + t;
    if p == [] {
      assert s == t;
      CleanIsSocial(t);
    } else {
      var n := if [47] <= p && Pieces(p[1..]) then 1 else if [46, 47] <= p && Pieces(p[2..]) then 2 else 3;
      assert p[..n] == s[..n] && s[n..] == p[n..] + t;
      FirstPiece(s, n);
      StripsPieces(p[n..], t);
    }
  }

  lemma CleanIsSocial(t: seq<byte>)
    requires Clean(t)
    ensures !Antisocial(t)
  {
  }

  lemma FirstPiece(s: seq<byte>, n: nat)
    requires 1 <= n <= |s| && n <= 3 && s[n - 1] == 47 && forall i :: 0 <= i < n - 1 ==> s[i] == 46
    ensures Antisocial(s) && SLASH in s && AfterSlash(s) == s[n..]
  {
    if n >= 2 {
      assert s[1..][n - 2] == 47;
      if n == 3 {
        assert AfterSlash(s[2..]) == s[3..];
        assert s[1..][0] == 46 && s[1..][1..] == s[2..];
      }
    }
  }

  /** Every name is such pieces and a clean rest. */
  lemma {:induction false} EveryNameHasPieces(s: seq<byte>) returns (p: seq<byte>, t: seq<byte>)
    ensures s == p + t && Pieces(p) && Clean(t)
    decreases |s|
  {
    var n := if [47] <= s then 1 else if [46, 47] <= s then 2 else if [46, 46, 47] <= s then 3 else 0;
    if n == 0 {
      p, t := [], s;
    } else {
      var q;
      q, t := EveryNameHasPieces(s[n..]);
      p := s[..n] + q;
      assert p[n..] == q && p + t == s[..n] + (q + t);
      assert p[..n] == s[..n];
      assert if n == 1 then [47] <= p else if n == 2 then [46, 47] <= p else [46, 46, 47] <= p;
    }
  }

  // s ends with t.
  ghost predicate Suffix(s: seq<byte>, t: seq<byte>) {
    |t| <= |s| && s[|s| - |t|..] == t
  }

  lemma {:induction false} AfterSlashIsSuffix(s: seq<byte>)
    requires SLASH in s
    ensures Suffix(s, AfterSlash(s))
  {
    if s[0] != SLASH { AfterSlashIsSuffix(s[1..]); }
  }

  /** Stripping only drops a prefix, except that an empty name becomes ".". */
  lemma {:induction false} StrippedIsSuffix(s: seq<byte>)
    ensures Suffix(s, Stripped(s)) || Stripped(s) == [DOT]
    ensures IsString(s) ==> IsString(Stripped(s))
    decreases |s|
  {
    if Antisocial(s) {
      AfterSlashIsSuffix(s);
      var t := AfterSlash(s);
      StrippedIsSuffix(t);
      if IsString(s) { assert forall i :: 0 <= i < |t| ==> t[i] == s[|s| - |t|..][i]; }
    }
  }

  // ---------------------------------------------------------------------------------------
  // The checksum.

  ghost function Summand(h: seq<byte>, i: nat): nat
    requires i < |h|
  {
    if CHKSUM <= i < TYPEFLAG then SPACE else h[i]
  }

  /** The sum of the octets with spaces for the checksum field. */
  ghost function Sum(h: seq<byte>, n: nat): (r: nat)
    requires n <= |h|
    ensures r <= 255 * n
  {
    if n == 0 then 0 else Sum(h, n - 1) + Summand(h, n - 1)
  }

  /** calculate_chksum. */
  method CalculateChksum(h: array<byte>) returns (chksum: nat)
    requires h.Length == HEADER_SIZE
    ensures chksum == Sum(h[..], HEADER_SIZE)
  {
    chksum := 0;
    var i := 0;
    while i < HEADER_SIZE
      invariant 0 <= i <= HEADER_SIZE && chksum == Sum(h[..], i)
    {
      var inChksumField := i >= CHKSUM && i < CHKSUM + 8;
      var octet: int := if inChksumField then SPACE else h[i];
      chksum := chksum + octet;
      i := i + 1;
    }
  }

  /** The checksum does not depend on its own field. */
  lemma {:induction false} ChecksumIgnoresItself(h: seq<byte>, g: seq<byte>, n: nat)
    requires n <= |h| == |g| && forall i :: 0 <= i < n && !(CHKSUM <= i < TYPEFLAG) ==> h[i] == g[i]
    ensures Sum(h, n) == Sum(g, n)
  {
    if n > 0 { ChecksumIgnoresItself(h, g, n - 1); }
  }

  // ---------------------------------------------------------------------------------------
  // The layout.

  datatype Fields = Fields(name: seq<byte>, mode: seq<byte>, size: seq<byte>, mtime: seq<byte>, chksum: seq<byte>,
      typeflag: byte)

  // Byte k of a field that holds a text and then nulls.
  ghost function TextAt(text: seq<byte>, k: int): byte
    requires k >= 0
  {
    if k < |text| then text[k] else 0
  }

  /** Byte i of a header with the given fields. */
  ghost function HeaderByte(f: Fields, i: nat): byte {
    if i < MODE then TextAt(f.name, i)
    else if i < UID then TextAt(f.mode, i - MODE)
    else if i < GID then TextAt(Zeros(7), i - UID)
    else if i < SIZE then TextAt(Zeros(7), i - GID)
    else if i < MTIME then TextAt(f.size, i - SIZE)
    else if i < CHKSUM then TextAt(f.mtime, i - MTIME)
    else if i < TYPEFLAG then TextAt(f.chksum, i - CHKSUM)
    else if i == TYPEFLAG then f.typeflag
    else if i < MAGIC then 0
    else if i < VERSION then TextAt(USTAR, i - MAGIC)
    else if i < UNAME then ZERO
    else if i < GNAME then TextAt(ROOT, i - UNAME)
    else if i < DEVMAJOR then TextAt(ROOT, i - GNAME)
    else 0
  }

  ghost predicate ByteIs(h: seq<byte>, f: Fields, n: nat, i: int)
    requires 0 <= i < |h|
  {
    h[i] == if i < n then HeaderByte(f, i) else 0
  }

  // The first n bytes are those of the header and the rest is null.
  ghost predicate UpTo(h: seq<byte>, f: Fields, n: nat) {
    |h| == HEADER_SIZE && forall i {:trigger ByteIs(h, f, n, i)} :: 0 <= i < HEADER_SIZE ==> ByteIs(h, f, n, i)
  }

  // A text and a null were written at a place.
  ghost predicate Wrote(before: seq<byte>, h: seq<byte>, at: nat, text: seq<byte>) {
    && |h| == |before| && at + |text| < |h|
    && forall i {:trigger h[i]} :: 0 <= i < |h| ==>
         h[i] == if at <= i < at + |text| then text[i - at] else if i == at + |text| then 0 else before[i]
  }

  // A text goes into the next field, whose other bytes are null already.
  lemma NextField(before: seq<byte>, h: seq<byte>, f: Fields, at: nat, end: nat, text: seq<byte>)
    requires UpTo(before, f, at) && Wrote(before, h, at, text) && at + |text| < end <= HEADER_SIZE
    requires forall i {:trigger HeaderByte(f, i)} :: at <= i < end ==> HeaderByte(f, i) == TextAt(text, i - at)
    ensures UpTo(h, f, end)
  {
    forall i | 0 <= i < HEADER_SIZE ensures ByteIs(h, f, end, i) {
      assert ByteIs(before, f, at, i);
      assert h[i] == if at <= i < at + |text| then text[i - at] else if i == at + |text| then 0 else before[i];
    }
  }

  /** strlcpy into a buffer. */
  method Strlcpy(dst: array<byte>, at: nat, src: seq<byte>, size: nat)
    requires size > 0 && at + size <= dst.Length
    modifies dst
    ensures Wrote(old(dst[..]), dst[..], at, if |src| < size - 1 then src else src[..size - 1])
  {
    var dstLen := size - 1;
    if |src| < dstLen { dstLen := |src|; }
    var k := 0;
    while k < dstLen
      invariant k <= dstLen
      invariant forall i :: 0 <= i < dst.Length ==> dst[i] == if at <= i < at + k then src[i - at] else old(dst[i])
    {
      dst[at + k] := src[k];
      k := k + 1;
    }
    dst[at + dstLen] := 0;
  }

  // snprintf of a number that fills its field but for the null.
  method PutOctal(h: array<byte>, at: nat, width: nat, value: nat)
    requires width > 0 && at + width + 1 <= h.Length && value < Pow8(width)
    modifies h
    ensures Wrote(old(h[..]), h[..], at, Padded(value, width)) && |Padded(value, width)| == width
  {
    hide Padded, Kept, Wrote, Pow8;
    PaddedValue(value, width);
    Snprintf(h, at, width + 1, width, value);
    ghost var text := Padded(value, width);
    KeptWhole(text, width);
    assert h[..][at..at + width + 1] == h[at..at + width + 1] == text + [0];
    FieldWritten(old(h[..]), h[..], at, text);
  }

  lemma KeptWhole(text: seq<byte>, width: nat)
    requires |text| <= width
    ensures Kept(text, width) == text
  {
  }

  // A text and its null stand in a buffer that is otherwise unchanged.
  lemma FieldWritten(before: seq<byte>, after: seq<byte>, at: nat, text: seq<byte>)
    requires |after| == |before| && at + |text| + 1 <= |after| && after[at..at + |text| + 1] == text + [0]
    requires forall i :: 0 <= i < |after| && !(at <= i <= at + |text|) ==> after[i] == before[i]
    ensures Wrote(before, after, at, text)
  {
    forall i | 0 <= i < |after|
      ensures after[i] == if at <= i < at + |text| then text[i - at] else if i == at + |text| then 0 else before[i]
    {
      if at <= i <= at + |text| { assert after[i] == after[at..at + |text| + 1][i - at]; }
    }
  }

  // ---------------------------------------------------------------------------------------
  // Composing a header.

  function Mode(typeflag: byte): nat {
    if typeflag == REGULAR then 420 else 493        // 0644 and 0755
  }

  const TIMESTAMP := 1136102400

  // The fields of a header before its checksum is known. "%o" prints an int as unsigned.
  ghost function BlankFields(name: seq<byte>, typeflag: byte, size: int, mtime: nat): Fields {
    Fields(name, Padded(Mode(typeflag), 7), Padded(size % ULONG_LIMIT, 11), Padded(mtime, 11), [], typeflag)
  }

  ghost function FieldsOf(h: seq<byte>, name: seq<byte>, typeflag: byte, size: int, mtime: nat): Fields
    requires |h| == HEADER_SIZE
  {
    BlankFields(name, typeflag, size, mtime).(chksum := Padded(Sum(h, HEADER_SIZE), 7))
  }

  /** h is the header of an archive entry with the given modification time. */
  ghost predicate IsHeader(h: seq<byte>, name: seq<byte>, typeflag: byte, size: int, mtime: nat) {
    |h| == HEADER_SIZE &&
    UpTo(h, FieldsOf(h, name, typeflag, size, mtime), HEADER_SIZE)
  }

  lemma Pow8Values()
    ensures Pow8(7) == 0x20_0000 && Pow8(11) == 0x2_0000_0000
  {
    assert Pow8(2) == 64;
    assert Pow8(4) == 4096;
    assert Pow8(6) == 262144;
    assert Pow8(8) == 0x100_0000;
    assert Pow8(10) == 0x4000_0000;
  }

  method FillNameToGid(h: array<byte>, name: seq<byte>, typeflag: byte, ghost f: Fields)
    requires h.Length == HEADER_SIZE && |name| <= 99 && f.name == name && f.mode == Padded(Mode(typeflag), 7)
    requires UpTo(h[..], f, 0)
    modifies h
    ensures UpTo(h[..], f, SIZE)
  {
    Pow8Values();
    ghost var g := h[..];
    Strlcpy(h, 0, name, 100);
    NextField(g, h[..], f, 0, MODE, name);
    FillNumber(h, MODE, 7, Mode(typeflag), f);
    g := h[..];
    var seven: seq<byte> := [ZERO, ZERO, ZERO, ZERO, ZERO, ZERO, ZERO];
    assert seven == Zeros(7);
    Strlcpy(h, UID, seven, 8);
    NextField(g, h[..], f, UID, GID, seven);
    g := h[..];
    Strlcpy(h, GID, seven, 8);
    NextField(g, h[..], f, GID, SIZE, seven);
  }

  // The next field takes a number.
  method FillNumber(h: array<byte>, at: nat, width: nat, value: nat, ghost f: Fields)
    requires h.Length == HEADER_SIZE && at + width + 1 <= HEADER_SIZE && width > 0 && value < Pow8(width)
    requires forall i {:trigger HeaderByte(f, i)} :: at <= i < at + width + 1 ==>
      HeaderByte(f, i) == TextAt(Padded(value, width), i - at)
    requires UpTo(h[..], f, at)
    modifies h
    ensures UpTo(h[..], f, at + width + 1)
  {
    ghost var g := h[..];
    PutOctal(h, at, width, value);
    NextField(g, h[..], f, at, at + width + 1, Padded(value, width));
  }

  method FillSizeToType(h: array<byte>, typeflag: byte, size: nat, mtime: nat, ghost f: Fields)
    requires h.Length == HEADER_SIZE && f.size == Padded(size, 11) && f.mtime == Padded(mtime, 11)
    requires size < ULONG_LIMIT && mtime < ULONG_LIMIT
    requires f.chksum == [] && f.typeflag == typeflag && UpTo(h[..], f, SIZE)
    modifies h
    ensures UpTo(h[..], f, MAGIC)
  {
    FillSize(h, size, f);
    FillMtime(h, mtime, f);
    FillType(h, typeflag, f);
  }

  method FillSize(h: array<byte>, size: nat, ghost f: Fields)
    requires h.Length == HEADER_SIZE && f.size == Padded(size, 11) && size < ULONG_LIMIT && UpTo(h[..], f, SIZE)
    modifies h
    ensures UpTo(h[..], f, MTIME)
  {
    Pow8Values();
    FillNumber(h, SIZE, 11, size, f);
  }

  method FillMtime(h: array<byte>, mtime: nat, ghost f: Fields)
    requires h.Length == HEADER_SIZE && f.mtime == Padded(mtime, 11) && mtime < ULONG_LIMIT && UpTo(h[..], f, MTIME)
    modifies h
    ensures UpTo(h[..], f, CHKSUM)
  {
    Pow8Values();
    FillNumber(h, MTIME, 11, mtime, f);
  }

  method FillType(h: array<byte>, typeflag: byte, ghost f: Fields)
    requires h.Length == HEADER_SIZE && f.chksum == [] && f.typeflag == typeflag && UpTo(h[..], f, CHKSUM)
    modifies h
    ensures UpTo(h[..], f, MAGIC)
  {
    ghost var g := h[..];
    h[TYPEFLAG] := typeflag;
    TypeField(g, h[..], f);
  }

  lemma TypeField(before: seq<byte>, h: seq<byte>, f: Fields)
    requires UpTo(before, f, CHKSUM) && f.chksum == [] && h == before[TYPEFLAG := f.typeflag]
    ensures UpTo(h, f, MAGIC)
  {
    forall i | 0 <= i < HEADER_SIZE ensures ByteIs(h, f, MAGIC, i) { assert ByteIs(before, f, CHKSUM, i); }
  }

  lemma VersionField(before: seq<byte>, h: seq<byte>, f: Fields)
    requires UpTo(before, f, VERSION) && h == before[VERSION := ZERO][VERSION + 1 := ZERO]
    ensures UpTo(h, f, UNAME)
  {
    forall i | 0 <= i < HEADER_SIZE ensures ByteIs(h, f, UNAME, i) { assert ByteIs(before, f, VERSION, i); }
  }

  method FillMagicToGname(h: array<byte>, ghost f: Fields)
    requires h.Length == HEADER_SIZE && UpTo(h[..], f, MAGIC)
    modifies h
    ensures UpTo(h[..], f, HEADER_SIZE)
  {
    ghost var g := h[..];
    Strlcpy(h, MAGIC, USTAR, 6);
    NextField(g, h[..], f, MAGIC, VERSION, USTAR);
    g := h[..];
    h[VERSION], h[VERSION + 1] := ZERO, ZERO;
    VersionField(g, h[..], f);
    FillOwners(h, f);
  }

  // gname is filled before uname.
  method FillOwners(h: array<byte>, ghost f: Fields)
    requires h.Length == HEADER_SIZE && UpTo(h[..], f, UNAME)
    modifies h
    ensures UpTo(h[..], f, HEADER_SIZE)
  {
    ghost var g := h[..];
    Strlcpy(h, GNAME, ROOT, 32);
    ghost var k := h[..];
    Strlcpy(h, UNAME, ROOT, 32);
    OwnerFields(g, k, h[..], f);
  }

  lemma OwnerFields(before: seq<byte>, between: seq<byte>, h: seq<byte>, f: Fields)
    requires UpTo(before, f, UNAME) && Wrote(before, between, GNAME, ROOT) && Wrote(between, h, UNAME, ROOT)
    ensures UpTo(h, f, HEADER_SIZE)
  {
    forall i | 0 <= i < HEADER_SIZE ensures ByteIs(h, f, HEADER_SIZE, i) {
      assert ByteIs(before, f, UNAME, i);
      assert h[i] == if UNAME <= i < UNAME + 4 then ROOT[i - UNAME] else if i == UNAME + 4 then 0 else between[i];
      assert between[i] == if GNAME <= i < GNAME + 4 then ROOT[i - GNAME] else if i == GNAME + 4 then 0 else before[i];
    }
  }

  /** ustar_make_header: fails if and only if the stripped name is longer than 99 bytes. */
  method MakeHeader(fileName: seq<byte>, typeflag: byte, size: int, h: array<byte>) returns (ok: bool)
    requires h.Length == HEADER_SIZE && IsString(fileName) && (typeflag == REGULAR || typeflag == DIRECTORY)
    requires -INT_MAX - 1 <= size <= INT_MAX
    modifies h
    ensures ok <==> |Stripped(fileName)| <= 99
    ensures ok ==> IsHeader(h[..], Stripped(fileName), typeflag, size, TIMESTAMP)
    ensures !ok ==> h[..] == old(h[..])
  {
    var name := Strip(fileName);
    if |name| > 99 {
      return false;
    }
    FillHeader(h, name, typeflag, size, TIMESTAMP);
    ok := true;
  }

  method FillHeader(h: array<byte>, name: seq<byte>, typeflag: byte, size: int, mtime: nat)
    requires h.Length == HEADER_SIZE && |name| <= 99 && mtime < ULONG_LIMIT
    modifies h
    ensures IsHeader(h[..], name, typeflag, size, mtime)
  {
    ghost var f := BlankFields(name, typeflag, size, mtime);
    forall i | 0 <= i < HEADER_SIZE { h[i] := 0; }
    FillNameToGid(h, name, typeflag, f);
    FillSizeToType(h, typeflag, size % ULONG_LIMIT, mtime, f);
    FillMagicToGname(h, f);
    FillChecksum(h, f);
  }

  method FillChecksum(h: array<byte>, ghost f: Fields)
    requires h.Length == HEADER_SIZE && UpTo(h[..], f, HEADER_SIZE) && f.chksum == []
    modifies h
    ensures UpTo(h[..], f.(chksum := Padded(Sum(h[..], HEADER_SIZE), 7)), HEADER_SIZE)
  {
    ghost var g := h[..];
    var chksum := CalculateChksum(h);
    Pow8Values();
    PutOctal(h, CHKSUM, 7, chksum);
    ChecksumIgnoresItself(h[..], g, HEADER_SIZE);
    ChecksumField(g, h[..], f, Padded(chksum, 7));
  }

  lemma ChecksumField(before: seq<byte>, h: seq<byte>, f: Fields, text: seq<byte>)
    requires UpTo(before, f, HEADER_SIZE) && f.chksum == [] && |text| == 7 && Wrote(before, h, CHKSUM, text)
    ensures UpTo(h, f.(chksum := text), HEADER_SIZE)
  {
    forall i | 0 <= i < HEADER_SIZE ensures ByteIs(h, f.(chksum := text), HEADER_SIZE, i) {
      assert ByteIs(before, f, HEADER_SIZE, i);
      assert h[i] == if CHKSUM <= i < CHKSUM + 7 then text[i - CHKSUM] else if i == CHKSUM + 7 then 0 else before[i];
    }
  }

  // ---------------------------------------------------------------------------------------
  // Parsing a header.

  datatype Parsed = Eof | Entry(name: seq<byte>, typeflag: byte, size: nat) | Error(why: string)

  // The C string at the start of a field.
  function CString(s: seq<byte>): (r: seq<byte>)
    ensures |r| <= |s|
  {
    if s == [] || s[0] == 0 then [] else [s[0]] + CString(s[1..])
  }

  ghost predicate AllZeros(h: seq<byte>) {
    forall i :: 0 <= i < |h| ==> h[i] == 0
  }

  ghost function OctalAt(h: seq<byte>, at: nat, size: nat): int
    requires at + size <= |h|
  {
    Value(h[at..at + size][..Lead(h[at..at + size])])
  }

  /** The first thing wrong with a header, in the order in which they are looked for. */
  ghost function Why(h: seq<byte>): string
    requires |h| == HEADER_SIZE
  {
    if h[MAGIC..VERSION] != USTAR + [0] then "not a ustar archive"
    else if h[VERSION] != ZERO || h[VERSION + 1] != ZERO then "invalid ustar version"
    else if !OctalField(h[CHKSUM..TYPEFLAG]) then "corrupt chksum field"
    else if OctalAt(h, CHKSUM, 8) != Sum(h, HEADER_SIZE) then "checksum mismatch"
    else if h[MODE - 1] != 0 || h[PREFIX] != 0 then "file name too long"
    else if h[TYPEFLAG] != REGULAR && h[TYPEFLAG] != DIRECTORY then "unimplemented file type"
    else if h[TYPEFLAG] == REGULAR && !OctalField(h[SIZE..MTIME]) then "corrupt file size field"
    else if h[TYPEFLAG] == REGULAR && OctalAt(h, SIZE, 12) > INT_MAX then "file too large"
    else ""
  }

  method IsAllZeros(h: array<byte>) returns (yes: bool)
    ensures yes <==> AllZeros(h[..])
  {
    var i := 0;
    while i < h.Length
      invariant i <= h.Length && forall j :: 0 <= j < i ==> h[j] == 0
    {
      if h[i] != 0 {
        assert h[..][i] != 0;
        return false;
      }
      i := i + 1;
    }
    yes := true;
  }

  /** ustar_parse_header. */
  method ParseHeader(h: array<byte>) returns (r: Parsed)
    requires h.Length == HEADER_SIZE
    ensures r.Eof? <==> AllZeros(h[..])
    ensures r.Error? <==> !AllZeros(h[..]) && Why(h[..]) != ""
    ensures r.Error? ==> r.why == Why(h[..])
    ensures r.Entry? ==> r.name == Stripped(CString(h[..MODE])) && r.typeflag == h[TYPEFLAG]
    ensures r.Entry? ==> r.size == if h[TYPEFLAG] == REGULAR then OctalAt(h[..], SIZE, 12) else 0
  {
    var zeros := IsAllZeros(h);
    if zeros {
      return Eof;
    }
    assert h[..][MAGIC..VERSION] == h[MAGIC..VERSION];
    assert h[..][CHKSUM..TYPEFLAG] == h[CHKSUM..TYPEFLAG];
    assert h[..][SIZE..MTIME] == h[SIZE..MTIME];
    if h[MAGIC..VERSION] != USTAR + [0] {
      return Error("not a ustar archive");
    } else if h[VERSION] != ZERO || h[VERSION + 1] != ZERO {
      return Error("invalid ustar version");
    }
    var ok, chksum := ParseOctalField(h, CHKSUM, 8);
    if !ok {
      return Error("corrupt chksum field");
    }
    var sum := CalculateChksum(h);
    if chksum != sum {
      return Error("checksum mismatch");
    } else if h[MODE - 1] != 0 || h[PREFIX] != 0 {
      return Error("file name too long");
    } else if h[TYPEFLAG] != REGULAR && h[TYPEFLAG] != DIRECTORY {
      return Error("unimplemented file type");
    }
    var size := 0;
    if h[TYPEFLAG] == REGULAR {
      ok, size := ParseOctalField(h, SIZE, 12);
      if !ok {
        return Error("corrupt file size field");
      } else if size > INT_MAX {
        return Error("file too large");
      }
    }
    var name := Strip(CString(h[..MODE]));
    r := Entry(name, h[TYPEFLAG], size);
  }

  // ---------------------------------------------------------------------------------------
  // Round trip.

  lemma {:induction false} CStringIs(s: seq<byte>, name: seq<byte>)
    requires IsString(name) && |name| < |s| && s[..|name|] == name && s[|name|] == 0
    ensures CString(s) == name
  {
    if name != [] {
      assert s[0] == s[..|name|][0];
      assert s[1..][..|name| - 1] == s[..|name|][1..];
      CStringIs(s[1..], name[1..]);
    }
  }

  // A field full of text but for the null.
  lemma FieldIs(h: seq<byte>, at: nat, text: seq<byte>)
    requires at + |text| < |h| && forall i :: at <= i <= at + |text| ==> h[i] == TextAt(text, i - at)
    ensures h[at..at + |text| + 1] == text + [0]
  {
  }

  // The bytes at..end of a header with fields f.
  lemma BytesOf(h: seq<byte>, f: Fields, at: nat, end: nat)
    requires UpTo(h, f, HEADER_SIZE) && at <= end <= HEADER_SIZE
    ensures forall i {:trigger HeaderByte(f, i)} {:trigger h[i]} :: at <= i < end ==> h[i] == HeaderByte(f, i)
  {
    forall i | at <= i < end ensures h[i] == HeaderByte(f, i) { assert ByteIs(h, f, HEADER_SIZE, i); }
  }

  lemma ChecksumIsRead(h: seq<byte>, f: Fields, sum: nat)
    requires UpTo(h, f, HEADER_SIZE) && sum == Sum(h, HEADER_SIZE) && f.chksum == Padded(sum, 7)
    ensures OctalField(h[CHKSUM..TYPEFLAG]) && OctalAt(h, CHKSUM, 8) == sum
  {
    Pow8Values();
    BytesOf(h, f, CHKSUM, TYPEFLAG);
    PaddedValue(sum, 7);
    FieldIs(h, CHKSUM, Padded(sum, 7));
    PrintedIsRead(h[CHKSUM..TYPEFLAG], sum, 7);
  }

  lemma SizeIsRead(h: seq<byte>, f: Fields, bytes: nat)
    requires UpTo(h, f, HEADER_SIZE) && bytes < ULONG_LIMIT && f.size == Padded(bytes, 11)
    ensures OctalField(h[SIZE..MTIME]) && OctalAt(h, SIZE, 12) == bytes
  {
    Pow8Values();
    BytesOf(h, f, SIZE, MTIME);
    PaddedValue(bytes, 11);
    FieldIs(h, SIZE, Padded(bytes, 11));
    PrintedIsRead(h[SIZE..MTIME], bytes, 11);
  }

  lemma NameIsRead(h: seq<byte>, f: Fields)
    requires UpTo(h, f, HEADER_SIZE) && IsString(f.name) && |f.name| <= 99
    ensures CString(h[..MODE]) == f.name && h[MODE - 1] == 0
  {
    BytesOf(h, f, 0, MODE);
    assert h[..MODE][..|f.name|] == f.name;
    CStringIs(h[..MODE], f.name);
  }

  lemma MagicIsRead(h: seq<byte>, f: Fields)
    requires UpTo(h, f, HEADER_SIZE)
    ensures h[MAGIC..VERSION] == USTAR + [0] && h[VERSION] == ZERO && h[VERSION + 1] == ZERO
    ensures h[TYPEFLAG] == f.typeflag && h[PREFIX] == 0
  {
    BytesOf(h, f, MAGIC, VERSION);
    FieldIs(h, MAGIC, USTAR);
    assert ByteIs(h, f, HEADER_SIZE, VERSION) && ByteIs(h, f, HEADER_SIZE, VERSION + 1);
    assert ByteIs(h, f, HEADER_SIZE, TYPEFLAG) && ByteIs(h, f, HEADER_SIZE, PREFIX);
  }

  // All that is looked for before the size.
  ghost predicate Sound(h: seq<byte>) {
    && |h| == HEADER_SIZE && h[MAGIC..VERSION] == USTAR + [0] && h[VERSION] == ZERO && h[VERSION + 1] == ZERO
    && OctalField(h[CHKSUM..TYPEFLAG]) && OctalAt(h, CHKSUM, 8) == Sum(h, HEADER_SIZE)
    && h[MODE - 1] == 0 && h[PREFIX] == 0 && (h[TYPEFLAG] == REGULAR || h[TYPEFLAG] == DIRECTORY)
  }

  lemma ComposedIsSound(h: seq<byte>, f: Fields, sum: nat)
    requires UpTo(h, f, HEADER_SIZE) && sum == Sum(h, HEADER_SIZE) && f.chksum == Padded(sum, 7)
    requires IsString(f.name) && |f.name| <= 99 && (f.typeflag == REGULAR || f.typeflag == DIRECTORY)
    ensures Sound(h) && h[TYPEFLAG] == f.typeflag
  {
    ChecksumIsRead(h, f, sum);
    NameIsRead(h, f);
    MagicIsRead(h, f);
  }

  lemma SoundIsAccepted(h: seq<byte>, bytes: nat)
    requires Sound(h) && OctalField(h[SIZE..MTIME]) && OctalAt(h, SIZE, 12) == bytes
    ensures !AllZeros(h) && Why(h) == if h[TYPEFLAG] == REGULAR && bytes > INT_MAX then "file too large" else ""
  {
  }

  /** A header that was composed is accepted, with the same name, type and size, unless it is the
      header of a regular file whose size was given as negative. */
  lemma RoundTrip(h: seq<byte>, name: seq<byte>, typeflag: byte, size: int, mtime: nat)
    requires IsHeader(h, name, typeflag, size, mtime) && IsString(name) && |name| <= 99
    requires typeflag == REGULAR || typeflag == DIRECTORY
    requires -INT_MAX - 1 <= size <= INT_MAX
    ensures !AllZeros(h) && Why(h) == if typeflag == REGULAR && size < 0 then "file too large" else ""
    ensures CString(h[..MODE]) == name && h[TYPEFLAG] == typeflag
    ensures size >= 0 ==> OctalAt(h, SIZE, 12) == size
  {
    Composed(h, FieldsOf(h, name, typeflag, size, mtime), Sum(h, HEADER_SIZE), size % ULONG_LIMIT);
    AsUnsigned(size);
  }

  lemma AsUnsigned(size: int)
    requires -INT_MAX - 1 <= size <= INT_MAX
    ensures size % ULONG_LIMIT == if size < 0 then size + ULONG_LIMIT else size
  {
  }

  lemma Composed(h: seq<byte>, f: Fields, sum: nat, bytes: nat)
    requires UpTo(h, f, HEADER_SIZE) && sum == Sum(h, HEADER_SIZE) && f.chksum == Padded(sum, 7)
    requires IsString(f.name) && |f.name| <= 99 && (f.typeflag == REGULAR || f.typeflag == DIRECTORY)
    requires bytes < ULONG_LIMIT && f.size == Padded(bytes, 11)
    ensures !AllZeros(h) && Why(h) == if f.typeflag == REGULAR && bytes > INT_MAX then "file too large" else ""
    ensures CString(h[..MODE]) == f.name && h[TYPEFLAG] == f.typeflag && OctalAt(h, SIZE, 12) == bytes
  {
    ComposedIsSound(h, f, sum);
    SizeIsRead(h, f, bytes);
    NameIsRead(h, f);
    SoundIsAccepted(h, bytes);
  }

  /** The bytes of a composed header that do not depend on the entry, and the mode, as the format and
      the program give them: "0000644" or "0000755", "0000000" twice, the time, "ustar", "00", "root"
      twice, and nulls. */
  lemma FixedBytes(h: seq<byte>, name: seq<byte>, typeflag: byte, size: int)
    requires IsHeader(h, name, typeflag, size, TIMESTAMP)
    ensures |h| == 512 && h[156] == typeflag
    ensures h[100..108] == [48, 48, 48, 48] + (if typeflag == 48 then [54, 52, 52] else [55, 53, 53]) + [0]
    ensures h[108..116] == [48, 48, 48, 48, 48, 48, 48, 0] == h[116..124]
    ensures h[136..148] == [49, 48, 51, 53, 53, 55, 48, 54, 48, 48, 48, 0]
    ensures h[257..265] == [117, 115, 116, 97, 114, 0, 48, 48]
    ensures h[265..270] == [114, 111, 111, 116, 0] == h[297..302]
    ensures forall i :: (157 <= i < 257 || 270 <= i < 297 || 302 <= i < 512) ==> h[i] == 0
  {
    hide UpTo, Padded;
    var f := FieldsOf(h, name, typeflag, size, TIMESTAMP);
    BytesOf(h, f, 0, HEADER_SIZE);
    PrintedModes();
    PrintedTime();
    FieldIs(h, MODE, f.mode);
    FieldIs(h, MTIME, f.mtime);
    FixedTexts(h, f);
  }

  lemma FixedTexts(h: seq<byte>, f: Fields)
    requires UpTo(h, f, HEADER_SIZE)
    ensures h[108..116] == [48, 48, 48, 48, 48, 48, 48, 0] == h[116..124]
    ensures h[257..265] == [117, 115, 116, 97, 114, 0, 48, 48]
    ensures h[265..270] == [114, 111, 111, 116, 0] == h[297..302]
  {
    BytesOf(h, f, 0, HEADER_SIZE);
    assert Zeros(7) == [48, 48, 48, 48, 48, 48, 48];
    FieldIs(h, UID, Zeros(7));
    FieldIs(h, GID, Zeros(7));
    FieldIs(h, MAGIC, USTAR);
    FieldIs(h, UNAME, ROOT);
    FieldIs(h, GNAME, ROOT);
  }

  lemma OneMoreDigit(v: nat, d: nat)
    requires d < 8 && v > 0
    ensures Digits(8 * v + d) == Digits(v) + [48 + d]
  {
    assert (8 * v + d) / 8 == v && (8 * v + d) % 8 == d;
  }

  lemma PrintedModes()
    ensures Padded(420, 7) == [48, 48, 48, 48, 54, 52, 52] && Padded(493, 7) == [48, 48, 48, 48, 55, 53, 53]
  {
    assert Digits(6) == [54] && Digits(7) == [55];
    FourZeros(420, [54, 52, 52]) by { OneMoreDigit(6, 4); OneMoreDigit(52, 4); }
    FourZeros(493, [55, 53, 53]) by { OneMoreDigit(7, 5); OneMoreDigit(61, 5); }
  }

  lemma FourZeros(v: nat, d: seq<byte>)
    requires v > 0 && Digits(v) == d && |d| == 3
    ensures Padded(v, 7) == [48, 48, 48, 48] + d
  {
    assert Zeros(4) == [48, 48, 48, 48];
  }

  lemma PrintedTime()
    ensures Padded(TIMESTAMP, 11) == [49, 48, 51, 53, 53, 55, 48, 54, 48, 48, 48]
  {
    OneDigit();
    hide Digits;
    OneMoreDigit(1, 0);
    OneMoreDigit(8, 3);
    OneMoreDigit(67, 5);
    OneMoreDigit(541, 5);
    OneMoreDigit(4333, 7);
    assert Digits(34671) == [49, 48, 51, 53, 53, 55];
    OneMoreDigit(34671, 0);
    OneMoreDigit(277368, 6);
    OneMoreDigit(2218950, 0);
    OneMoreDigit(17751600, 0);
    OneMoreDigit(142012800, 0);
  }

  lemma OneDigit()
    ensures Digits(1) == [49]
  {
  }

  /** Composing and parsing in a row. */
  method MakeThenParse(fileName: seq<byte>, typeflag: byte, size: int, h: array<byte>) returns (ok: bool, r: Parsed)
    requires h.Length == HEADER_SIZE && IsString(fileName) && (typeflag == REGULAR || typeflag == DIRECTORY)
    requires 0 <= size <= INT_MAX
    modifies h
    ensures ok <==> |Stripped(fileName)| <= 99
    ensures ok ==> r == Entry(Stripped(fileName), typeflag, if typeflag == REGULAR then size else 0)
  {
    StrippedIsSocial(fileName);
    StrippedIsSuffix(fileName);
    ok := MakeHeader(fileName, typeflag, size, h);
    r := Eof;
    if ok {
      RoundTrip(h[..], Stripped(fileName), typeflag, size, TIMESTAMP);
      r := ParseHeader(h);
      assert h[..][..MODE] == h[..MODE];
    }
  }
}
