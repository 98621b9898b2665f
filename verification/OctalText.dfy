/** Octal numbers as text: format_integer and vsnprintf of src/lib/stdio.c for the conversions that
    ustar headers use (zero-padded unsigned octal), and parse_octal_field of src/lib/ustar.c. */
module OctalText {
  import opened Bytes

  const ZERO: byte := 48
  const SPACE: byte := 32
  const ULONG_LIMIT := 0x1_0000_0000        // one more than ULONG_MAX

  predicate IsOctal(c: byte) { 48 <= c <= 55 }

  ghost predicate AllOctal(s: seq<byte>) {
    forall i :: 0 <= i < |s| ==> IsOctal(s[i])
  }

  function Num(c: byte): int {
    var x: int := c;
    x - 48
  }

  /** The number that digits denote. */
  ghost function Value(s: seq<byte>): int {
    if s == [] then 0 else Value(s[..|s| - 1]) * 8 + Num(s[|s| - 1])
  }

  ghost function Zeros(n: nat): (s: seq<byte>)
    ensures |s| == n && forall i :: 0 <= i < n ==> s[i] == ZERO
  {
    if n == 0 then [] else Zeros(n - 1) + [ZERO]
  }

  /** The digits of v, none for 0. */
  ghost function Digits(v: nat): (s: seq<byte>)
    ensures AllOctal(s) && (s == [] <==> v == 0)
  {
    if v == 0 then [] else Digits(v / 8) + [48 + v % 8]
  }

  /** At least one digit, and zeros in front up to the width. */
  ghost function Padded(v: nat, width: nat): (s: seq<byte>)
    ensures AllOctal(s) && |s| >= width && |s| >= 1
  {
    var d := if v == 0 then [ZERO] else Digits(v);
    if |d| < width then Zeros(width - |d|) + d else d
  }

  ghost function Pow8(n: nat): nat {
    if n == 0 then 1 else 8 * Pow8(n - 1)
  }

  lemma {:induction false} DigitsValue(v: nat)
    ensures Value(Digits(v)) == v
  {
    if v > 0 {
      DigitsValue(v / 8);
      assert Digits(v)[..|Digits(v)| - 1] == Digits(v / 8);
    }
  }

  lemma {:induction false} DigitsLength(v: nat, n: nat)
    requires v < Pow8(n)
    ensures |Digits(v)| <= n
  {
    if v > 0 { DigitsLength(v / 8, n - 1); }
  }

  lemma {:induction false} ZerosValue(n: nat, s: seq<byte>)
    ensures Value(Zeros(n) + s) == Value(s)
    decreases n + |s|
  {
    if s != [] {
      ZerosValue(n, s[..|s| - 1]);
      assert (Zeros(n) + s)[..n + |s| - 1] == Zeros(n) + s[..|s| - 1];
    } else if n > 0 {
      ZerosValue(n - 1, []);
      assert Zeros(n) + [] == Zeros(n) && Zeros(n - 1) + [] == Zeros(n - 1);
      assert Zeros(n)[..n - 1] == Zeros(n - 1);
    } else {
      assert Zeros(0) + [] == [];
    }
  }

  /** Printing and reading back. */
  lemma PaddedValue(v: nat, width: nat)
    ensures Value(Padded(v, width)) == v
    ensures v < Pow8(width) && width > 0 ==> |Padded(v, width)| == width
  {
    DigitsValue(v);
    var d := if v == 0 then [ZERO] else Digits(v);
    assert v == 0 ==> Value([ZERO]) == 0 by { assert [ZERO][..0] == []; }
    if |d| < width { ZerosValue(width - |d|, d); }
    if v < Pow8(width) { DigitsLength(v, width); }
  }

  lemma {:induction false} ValueBounds(s: seq<byte>)
    requires AllOctal(s)
    ensures 0 <= Value(s)
  {
    if s != [] { ValueBounds(s[..|s| - 1]); }
  }

  // Reading on never makes the number smaller.
  lemma {:induction false} ValueGrows(s: seq<byte>, k: nat)
    requires AllOctal(s) && k <= |s|
    ensures Value(s[..k]) <= Value(s)
    decreases |s|
  {
    if k < |s| {
      ValueGrows(s[..|s| - 1], k);
      ValueBounds(s[..|s| - 1]);
      assert s[..|s| - 1][..k] == s[..k];
    } else {
      assert s[..k] == s;
    }
  }

  // ---------------------------------------------------------------------------------------
  // Printing.

  /** struct vsnprintf_aux with its output function: keeps what fits, counts everything. */
  class Output {
    const buffer: array<byte>
    const start: nat
    const maxLength: nat
    var p: nat
    var length: nat
    ghost var out: seq<byte>      // all characters so far

    ghost predicate Valid()
      reads this, buffer
    {
      && start + maxLength <= buffer.Length && length == |out|
      && p == start + (if length < maxLength then length else maxLength)
      && buffer[start..p] == out[..p - start]
    }

    constructor (buffer: array<byte>, start: nat, maxLength: nat)
      requires start + maxLength <= buffer.Length
      ensures Valid() && this.buffer == buffer && this.start == start && this.maxLength == maxLength && out == []
    {
      this.buffer := buffer;
      this.start := start;
      this.maxLength := maxLength;
      p := start;
      length := 0;
      out := [];
    }

    /** vsnprintf_helper. */
    method Emit(ch: byte)
      requires Valid()
      modifies this, buffer
      ensures Valid() && out == old(out) + [ch]
      ensures forall i :: 0 <= i < buffer.Length && !(start <= i < start + maxLength) ==> buffer[i] == old(buffer[i])
    {
      if length < maxLength {
        buffer[p] := ch;
        p := p + 1;
      }
      length := length + 1;
      out := out + [ch];
    }

    /** output_dup for '0'. */
    method Dup(cnt: nat)
      requires Valid()
      modifies this, buffer
      ensures Valid() && out == old(out) + Zeros(cnt)
      ensures forall i :: 0 <= i < buffer.Length && !(start <= i < start + maxLength) ==> buffer[i] == old(buffer[i])
    {
      var i := 0;
      while i < cnt
        invariant i <= cnt && Valid() && out == old(out) + Zeros(i)
        invariant forall i :: 0 <= i < buffer.Length && !(start <= i < start + maxLength) ==>
          buffer[i] == old(buffer[i])
      {
        Emit(ZERO);
        i := i + 1;
      }
    }

    // The digit buffer of format_integer, least significant digit first.
    static method DigitBuffer(value: nat) returns (buf: seq<byte>)
      ensures |buf| >= 1 && Reversed(buf) == (if value == 0 then [ZERO] else Digits(value))
    {
      buf := [];
      var v := value;
      while v > 0
        invariant Digits(value) == Digits(v) + Reversed(buf) && (buf == [] ==> v == value)
      {
        ReversedPush(buf, 48 + v % 8);
        buf := buf + [48 + v % 8];
        v := v / 8;
      }
      if |buf| < 1 {
        buf := [ZERO];
      }
    }

    /** format_integer: unsigned, base 8, flag 0, no precision. */
    method FormatInteger(value: nat, width: nat)
      requires Valid()
      modifies this, buffer
      ensures Valid() && out == old(out) + Padded(value, width)
      ensures forall i :: 0 <= i < buffer.Length && !(start <= i < start + maxLength) ==> buffer[i] == old(buffer[i])
    {
      var buf := DigitBuffer(value);
      var padCnt := if width > |buf| then width - |buf| else 0;
      PaddedIs(value, width, Reversed(buf), padCnt);
      Assoc(out, Zeros(padCnt), Reversed(buf));
      Dup(padCnt);
      EmitReversed(buf);
    }

    // The digit buffer, from its end.
    method EmitReversed(buf: seq<byte>)
      requires Valid()
      modifies this, buffer
      ensures Valid() && out == old(out) + Reversed(buf)
      ensures forall i :: 0 <= i < buffer.Length && !(start <= i < start + maxLength) ==> buffer[i] == old(buffer[i])
    {
      ghost var before := out;
      var cp := |buf|;
      assert buf[..cp] == buf;
      while cp > 0
        invariant 0 <= cp <= |buf| && Valid() && out + Reversed(buf[..cp]) == before + Reversed(buf)
        invariant forall i :: 0 <= i < buffer.Length && !(start <= i < start + maxLength) ==>
          buffer[i] == old(buffer[i])
      {
        cp := cp - 1;
        ReversedPop(buf, cp);
        Emit(buf[cp]);
      }
    }
  }

  ghost function Reversed(s: seq<byte>): (r: seq<byte>)
    ensures |r| == |s|
  {
    if s == [] then [] else [s[|s| - 1]] + Reversed(s[..|s| - 1])
  }

  lemma ReversedPush(s: seq<byte>, c: byte)
    ensures Reversed(s + [c]) == [c] + Reversed(s)
  {
    assert (s + [c])[..|s|] == s;
  }

  lemma ReversedPop(s: seq<byte>, k: nat)
    requires k < |s|
    ensures Reversed(s[..k + 1]) == [s[k]] + Reversed(s[..k])
  {
    assert s[..k + 1][..k] == s[..k];
  }

  lemma Assoc(a: seq<byte>, b: seq<byte>, c: seq<byte>)
    ensures a + b + c == a + (b + c)
  {
  }

  lemma PaddedIs(value: nat, width: nat, d: seq<byte>, pad: nat)
    requires d == (if value == 0 then [ZERO] else Digits(value)) && pad == (if width > |d| then width - |d| else 0)
    ensures Padded(value, width) == Zeros(pad) + d
  {
    if pad == 0 { assert Zeros(0) + d == d; }
  }

  ghost function Kept(text: seq<byte>, max: nat): seq<byte> {
    if |text| < max then text else text[..max]
  }

  /** snprintf of a number in octal with zero padding: the text, cut to the buffer, and a null. */
  method Snprintf(buffer: array<byte>, at: nat, bufSize: nat, width: nat, value: nat)
    requires 0 < bufSize && at + bufSize <= buffer.Length
    modifies buffer
    ensures var kept := Kept(Padded(value, width), bufSize - 1); buffer[at..at + |kept| + 1] == kept + [0]
    ensures forall i :: 0 <= i < buffer.Length && !(at <= i < at + bufSize) ==> buffer[i] == old(buffer[i])
  {
    hide Padded;
    var o := new Output(buffer, at, bufSize - 1);
    o.FormatInteger(value, width);
    assert o.out == Padded(value, width);
    ghost var kept := buffer[at..o.p];
    assert kept == Kept(Padded(value, width), bufSize - 1);
    buffer[o.p] := 0;
    assert buffer[at..o.p] == kept;
    assert buffer[at..o.p + 1] == kept + [0];
  }

  // ---------------------------------------------------------------------------------------
  // Reading.

  /** How many octal digits a field begins with. */
  ghost function Lead(s: seq<byte>): (k: nat)
    ensures k <= |s| && AllOctal(s[..k]) && (k < |s| ==> !IsOctal(s[k]))
  {
    if s == [] || !IsOctal(s[0]) then 0 else 1 + Lead(s[1..])
  }

  /** A field that parse_octal_field takes: digits, then a space or null, and no overflow. */
  ghost predicate OctalField(s: seq<byte>) {
    0 < Lead(s) < |s| && s[Lead(s)] in [SPACE, 0] && Value(s[..Lead(s)]) < ULONG_LIMIT
  }

  lemma {:induction false} LeadIs(s: seq<byte>, k: nat)
    requires k <= |s| && AllOctal(s[..k]) && (k < |s| ==> !IsOctal(s[k]))
    ensures Lead(s) == k
  {
    if k > 0 {
      assert IsOctal(s[..k][0]);
      assert s[1..][..k - 1] == s[..k][1..];
      LeadIs(s[1..], k - 1);
    }
  }

  /** parse_octal_field of the bytes at..at+size. */
  method ParseOctalField(h: array<byte>, at: nat, size: nat) returns (ok: bool, value: nat)
    requires at + size <= h.Length
    ensures ok <==> OctalField(h[at..at + size])
    ensures ok ==> value == Value(h[at..at + size][..Lead(h[at..at + size])])
  {
    ghost var s := h[at..at + size];
    value := 0;
    var ofs := 0;
    while ofs < size
      invariant ofs <= size && AllOctal(s[..ofs]) && value == Value(s[..ofs]) && value < ULONG_LIMIT
    {
      var c := h[at + ofs];
      assert c == s[ofs];
      if IsOctal(c) {
        if value > (ULONG_LIMIT - 1) / 8 {
          Overflows(s, ofs);
          return false, value;
        }
        assert s[..ofs + 1][..ofs] == s[..ofs];
        value := Num(c) + value * 8;
      } else {
        LeadIs(s, ofs);
        return c in [SPACE, 0] && ofs > 0, value;
      }
      ofs := ofs + 1;
    }
    assert s[..size] == s;
    LeadIs(s, size);
    ok := false;
  }

  lemma {:induction false} LeadBeyond(s: seq<byte>, k: nat)
    requires k < |s| && AllOctal(s[..k]) && IsOctal(s[k])
    ensures Lead(s) > k
  {
    if k > 0 {
      assert IsOctal(s[..k][0]);
      assert s[1..][..k - 1] == s[..k][1..];
      LeadBeyond(s[1..], k - 1);
    }
  }

  lemma Overflows(s: seq<byte>, k: nat)
    requires k < |s| && AllOctal(s[..k]) && IsOctal(s[k]) && Value(s[..k]) > (ULONG_LIMIT - 1) / 8
    ensures !OctalField(s)
  {
    LeadBeyond(s, k);
    var n := Lead(s);
    ValueGrows(s[..n], k + 1);
    assert s[..n][..k + 1] == s[..k + 1];
    assert s[..k + 1][..k] == s[..k];
  }

  /** What Snprintf writes into a field of width + 1 bytes is read back. */
  lemma PrintedIsRead(field: seq<byte>, v: nat, width: nat)
    requires width > 0 && v < Pow8(width) && v < ULONG_LIMIT && field == Padded(v, width) + [0]
    ensures OctalField(field) && Value(field[..Lead(field)]) == v
  {
    PaddedValue(v, width);
    assert field[..width] == Padded(v, width);
    LeadIs(field, width);
  }
}
