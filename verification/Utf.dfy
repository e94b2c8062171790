/**
  Transcoding: a decoder from UTF-8 that skips what it cannot read, and the encodings the writer can produce
  (section 3 of RFC 3629, section 2 of RFC 2781).
  */
module Utf {
  import opened Bytes
  import opened Utf8Bytes

  /** A decoded character; the two forms are handed to different functions of an encoder. */
  datatype Point = Low(ch: nat) | High(ch: nat)

  predicate Continues(c: byte) {
    0x80 <= c < 0xC0
  }

  /** Length of the complete sequence the bytes start with, 0 when they start with none. */
  function UnitLen(s: bytes): (n: nat)
    ensures n <= |s| && n <= 4
  {
    if s == [] then 0
    else if s[0] < 0x80 then 1
    else if 0xC0 <= s[0] < 0xE0 && |s| >= 2 && Continues(s[1]) then 2
    else if 0xE0 <= s[0] < 0xF0 && |s| >= 3 && Continues(s[1]) && Continues(s[2]) then 3
    else if 0xF0 <= s[0] < 0xF8 && |s| >= 4 && Continues(s[1]) && Continues(s[2]) && Continues(s[3]) then 4
    else 0
  }

  function PointOf(s: bytes): Point
    requires UnitLen(s) > 0
  {
    match UnitLen(s)
    case 1 => Low(s[0])
    case 2 => Low((s[0] as int - 0xC0) * 0x40 + (s[1] as int - 0x80))
    case 3 => Low((s[0] as int - 0xE0) * 0x1000 + (s[1] as int - 0x80) * 0x40 + (s[2] as int - 0x80))
    case _ => High((s[0] as int - 0xF0) * 0x40000 + (s[1] as int - 0x80) * 0x1000 + (s[2] as int - 0x80) * 0x40 + (s[3] as int - 0x80))
  }

  function Decode(s: bytes): (r: seq<Point>)
    ensures |r| <= |s|
    decreases |s|
  {
    if s == [] then []
    else if UnitLen(s) > 0 then [PointOf(s)] + Decode(s[UnitLen(s)..])
    else Decode(s[1..])
  }

  /** A string of complete sequences. */
  predicate WellFormed(s: bytes)
    decreases |s|
  {
    s == [] || (UnitLen(s) > 0 && WellFormed(s[UnitLen(s)..]))
  }

  // ---------------------------------------------------------------- cutting

  lemma {:induction false} UnitPrefix(a: bytes, b: bytes)
    requires UnitLen(a) > 0
    ensures UnitLen(a + b) == UnitLen(a) && PointOf(a + b) == PointOf(a)
    ensures (a + b)[UnitLen(a)..] == a[UnitLen(a)..] + b
  {
    assert forall i :: 0 <= i < |a| ==> (a + b)[i] == a[i];
  }

  /** Decoding distributes over complete prefixes. */
  lemma {:induction false} DecodeConcat(a: bytes, b: bytes)
    requires WellFormed(a)
    ensures Decode(a + b) == Decode(a) + Decode(b)
    ensures WellFormed(b) ==> WellFormed(a + b)
    decreases |a|
  {
    if a == [] {
      assert a + b == b;
    } else {
      UnitPrefix(a, b);
      DecodeConcat(a[UnitLen(a)..], b);
    }
  }

  /** The bytes of a unit after its first are continuations, and only those. */
  lemma {:induction false} UnitShape(s: bytes, i: nat)
    requires UnitLen(s) > 0 && i < UnitLen(s)
    ensures Continues(s[i]) <==> i > 0
  {
  }

  /** A well-formed string may be cut before any byte that is not a continuation. */
  lemma {:induction false} CutAtLead(s: bytes, i: nat)
    requires WellFormed(s) && i <= |s| && (i < |s| ==> !Continues(s[i]))
    ensures WellFormed(s[..i]) && WellFormed(s[i..])
    decreases |s|
  {
    var n := UnitLen(s);
    if 0 < i < n {
      UnitShape(s, i);
      assert false;
    } else if i > 0 {
      CutAtLead(s[n..], i - n);
      OneUnit(s, n);
      CutAfterUnit(s, n, i);
    }
  }

  lemma {:induction false} CutAfterUnit(s: bytes, n: nat, i: nat)
    requires n <= i <= |s| && WellFormed(s[..n]) && WellFormed(s[n..][..i - n]) && WellFormed(s[n..][i - n..])
    ensures WellFormed(s[..i]) && WellFormed(s[i..])
  {
    hide WellFormed, Decode;
    var t := s[n..];
    DecodeConcat(s[..n], t[..i - n]);
    assert s[i..] == t[i - n..] && s[..i] == s[..n] + t[..i - n];
  }

  lemma {:induction false} OneUnit(s: bytes, n: nat)
    requires 0 < n == UnitLen(s)
    ensures WellFormed(s[..n])
  {
    var u := s[..n];
    assert forall i :: 0 <= i < n ==> u[i] == s[i];
    assert u[n..] == [];
  }

  /** No more than three continuations in a row. */
  lemma {:induction false} LeadWithinFour(s: bytes, i: nat)
    requires WellFormed(s) && i + 4 <= |s|
    ensures exists j :: i <= j < i + 4 && !Continues(s[j])
    decreases |s|
  {
    var n := UnitLen(s);
    if i == 0 {
      UnitShape(s, 0);
    } else if i < n {
      if n < |s| {
        var t := s[n..];
        UnitShape(t, 0);
        assert !Continues(s[n]) && i <= n < i + 4;
      }
    } else {
      var t := s[n..];
      LeadWithinFour(t, i - n);
      var j :| i - n <= j < i - n + 4 && !Continues(t[j]);
      assert !Continues(s[j + n]);
    }
  }

  // ---------------------------------------------------------------- encodings

  datatype Encoding = Utf8 | Utf16(bigEndian16: bool) | Utf32(bigEndian32: bool) | Latin1

  /** `utf16_writer`; the arithmetic is that of 32-bit unsigned numbers stored into 16 bits. */
  function Units16(p: Point): (r: seq<nat>)
    ensures 1 <= |r| <= 2 && forall i :: 0 <= i < |r| ==> r[i] < 0x10000
  {
    match p
    case Low(ch) => [ch % 0x10000]
    case High(ch) =>
      var v := (ch + 0xFFFF_0000) % 0x1_0000_0000;
      [(0xD800 + v / 0x400) % 0x10000, 0xDC00 + v % 0x400]
  }

  /** A unit of `width` bytes as it lies in memory. */
  function Stored(u: nat, width: nat, bigEndian: bool): (r: bytes)
    ensures |r| == width
  {
    if width == 0 then []
    else if bigEndian then Stored(u / 0x100, width - 1, true) + [u % 0x100]
    else [u % 0x100] + Stored(u / 0x100, width - 1, false)
  }

  function StoredAll(us: seq<nat>, width: nat, bigEndian: bool): (r: bytes)
    ensures |r| == width * |us|
  {
    if us == [] then []
    else
      assert width * |us| == width + width * |us[1..]|;
      Stored(us[0], width, bigEndian) + StoredAll(us[1..], width, bigEndian)
  }

  /** The units an encoder writes for one character. */
  function Units(e: Encoding, p: Point): (r: seq<nat>)
    requires !e.Utf8?
    ensures |r| <= 2 && (p.Low? ==> |r| == 1)
  {
    match e
    case Utf16(_) => Units16(p)
    case Utf32(_) => [p.ch]
    case Latin1 => [if p.High? || p.ch > 255 then 63 else p.ch]
  }

  function Width(e: Encoding): (w: nat)
    ensures 1 <= w <= 4
  {
    match e case Utf16(_) => 2 case Utf32(_) => 4 case _ => 1
  }

  predicate BigEndian(e: Encoding) {
    match e case Utf16(big) => big case Utf32(big) => big case _ => false
  }

  function UnitsOf(e: Encoding, ps: seq<Point>): (r: seq<nat>)
    requires !e.Utf8?
  {
    if ps == [] then [] else Units(e, ps[0]) + UnitsOf(e, ps[1..])
  }

  function Encode(e: Encoding, ps: seq<Point>): (r: bytes)
    requires !e.Utf8?
  {
    StoredAll(UnitsOf(e, ps), Width(e), BigEndian(e))
  }

  /** What the whole of `s` is in the encoding `e`; text is kept in UTF-8. */
  function Transcode(e: Encoding, s: bytes): (r: bytes) {
    if e.Utf8? then s else Encode(e, Decode(s))
  }

  lemma {:induction false} UnitsConcat(e: Encoding, a: seq<Point>, b: seq<Point>)
    requires !e.Utf8?
    ensures UnitsOf(e, a + b) == UnitsOf(e, a) + UnitsOf(e, b)
  {
    if a == [] {
      assert a + b == b;
    } else {
      assert (a + b)[1..] == a[1..] + b;
      UnitsConcat(e, a[1..], b);
    }
  }

  lemma {:induction false} StoredConcat(a: seq<nat>, b: seq<nat>, width: nat, big: bool)
    ensures StoredAll(a + b, width, big) == StoredAll(a, width, big) + StoredAll(b, width, big)
  {
    if a == [] {
      assert a + b == b;
    } else {
      assert (a + b)[1..] == a[1..] + b;
      StoredConcat(a[1..], b, width, big);
    }
  }

  /** Transcoding in pieces gives the same as transcoding at once. */
  lemma {:induction false} TranscodeConcat(e: Encoding, a: bytes, b: bytes)
    requires WellFormed(a)
    ensures Transcode(e, a + b) == Transcode(e, a) + Transcode(e, b)
  {
    if !e.Utf8? {
      DecodeConcat(a, b);
      UnitsConcat(e, Decode(a), Decode(b));
      StoredConcat(UnitsOf(e, Decode(a)), UnitsOf(e, Decode(b)), Width(e), BigEndian(e));
    }
  }

  /** A conversion writes no more units than it reads bytes. */
  lemma {:induction false} UnitsFit(e: Encoding, s: bytes)
    requires !e.Utf8?
    ensures |UnitsOf(e, Decode(s))| <= |s|
    decreases |s|
  {
    if s != [] {
      var n := UnitLen(s);
      if n > 0 {
        UnitsFit(e, s[n..]);
        assert PointOf(s).High? ==> n == 4;
        assert Decode(s)[1..] == Decode(s[n..]);
      } else {
        UnitsFit(e, s[1..]);
      }
    }
  }

  /** So no conversion needs more than four bytes for each byte. */
  lemma {:induction false} TranscodeFits(e: Encoding, s: bytes)
    ensures |Transcode(e, s)| <= 4 * |s|
  {
    if !e.Utf8? {
      UnitsFit(e, s);
      var n := |UnitsOf(e, Decode(s))|;
      assert Width(e) * n <= 4 * n;
    }
  }

  // ---------------------------------------------------------------- code points back and forth

  /** A code point as the decoder reports it. */
  function AsPoint(cp: nat): Point {
    if cp < 0x10000 then Low(cp) else High(cp)
  }

  function AsPoints(cps: seq<nat>): (r: seq<Point>) {
    if cps == [] then [] else [AsPoint(cps[0])] + AsPoints(cps[1..])
  }

  function Utf8Of(cps: seq<nat>): (r: bytes) {
    if cps == [] then [] else Encoded(cps[0]) + Utf8Of(cps[1..])
  }

  function Utf16Of(ps: seq<Point>): (r: seq<nat>) {
    if ps == [] then [] else Units16(ps[0]) + Utf16Of(ps[1..])
  }

  ghost predicate CodePoints(cps: seq<nat>) {
    forall i :: 0 <= i < |cps| ==> cps[i] < 0x110000
  }

  lemma {:induction false} ReadEncoded(cp: nat, rest: bytes)
    requires cp < 0x110000
    ensures var s := Encoded(cp) + rest; UnitLen(s) == |Encoded(cp)| && PointOf(s) == AsPoint(cp) && s[|Encoded(cp)|..] == rest
  {
    var e := Encoded(cp);
    UnitEncoded(cp);
    UnitPrefix(e, rest);
    hide UnitLen, PointOf, Encoded;
    assert e[|e|..] == [];
  }

  lemma {:induction false} UnitEncoded(cp: nat)
    requires cp < 0x110000
    ensures UnitLen(Encoded(cp)) == |Encoded(cp)| && PointOf(Encoded(cp)) == AsPoint(cp)
  {
    SixBits(cp);
  }

  /** A code point from its groups of six bits. */
  lemma {:induction false} SixBits(cp: nat)
    requires cp < 0x110000
    ensures cp == cp / 0x40 * 0x40 + cp % 0x40
    ensures cp == cp / 0x1000 * 0x1000 + cp / 0x40 % 0x40 * 0x40 + cp % 0x40
    ensures cp == cp / 0x40000 * 0x40000 + cp / 0x1000 % 0x40 * 0x1000 + cp / 0x40 % 0x40 * 0x40 + cp % 0x40
    ensures cp / 0x40000 % 0x10 == cp / 0x40000
  {
    var q1 := cp / 0x40;
    assert cp / 0x1000 == q1 / 0x40 && cp / 0x40000 == q1 / 0x40 / 0x40;
  }

  /** UTF-8 decodes to the code points it was made from. */
  lemma {:induction false} Utf8RoundTrip(cps: seq<nat>)
    requires CodePoints(cps)
    ensures WellFormed(Utf8Of(cps)) && Decode(Utf8Of(cps)) == AsPoints(cps)
  {
    if cps != [] {
      Utf8RoundTrip(cps[1..]);
      ReadEncoded(cps[0], Utf8Of(cps[1..]));
      hide UnitLen, PointOf, Encoded;
    }
  }

  /** `decode_utf16_block` on units in native order. */
  function Decode16(us: seq<nat>): (r: seq<Point>)
    decreases |us|
  {
    if us == [] then []
    else if us[0] < 0xD800 || 0xE000 <= us[0] < 0x10000 then [Low(us[0])] + Decode16(us[1..])
    else if 0xD800 <= us[0] < 0xDC00 && |us| > 1 && 0xDC00 <= us[1] < 0xE000 then
      [High(0x10000 + (us[0] - 0xD800) * 0x400 + (us[1] - 0xDC00))] + Decode16(us[2..])
    else Decode16(us[1..])
  }

  /** Unicode scalar values: code points that are not surrogates. */
  ghost predicate Scalars(cps: seq<nat>) {
    forall i :: 0 <= i < |cps| ==> cps[i] < 0xD800 || 0xE000 <= cps[i] < 0x110000
  }

  lemma {:induction false} Read16(cp: nat, rest: seq<nat>)
    requires cp < 0xD800 || 0xE000 <= cp < 0x110000
    ensures Decode16(Units16(AsPoint(cp)) + rest) == [AsPoint(cp)] + Decode16(rest)
  {
    hide Decode16;
    if cp < 0x10000 {
      ReadLow(cp, rest);
    } else {
      SurrogatePair(cp);
      hide Units16;
      var v := cp - 0x10000;
      ReadPair(v / 0x400, v % 0x400, rest);
    }
  }

  lemma {:induction false} ReadLow(u: nat, rest: seq<nat>)
    requires u < 0xD800 || 0xE000 <= u < 0x10000
    ensures Decode16([u] + rest) == [Low(u)] + Decode16(rest)
  {
    assert ([u] + rest)[1..] == rest;
  }

  lemma {:induction false} ReadPair(a: nat, b: nat, rest: seq<nat>)
    requires a < 0x400 && b < 0x400
    ensures Decode16([0xD800 + a, 0xDC00 + b] + rest) == [High(0x10000 + a * 0x400 + b)] + Decode16(rest)
  {
    assert ([0xD800 + a, 0xDC00 + b] + rest)[2..] == rest;
  }

  lemma {:induction false} SurrogatePair(cp: nat)
    requires 0x10000 <= cp < 0x110000
    ensures var v := cp - 0x10000; Units16(High(cp)) == [0xD800 + v / 0x400, 0xDC00 + v % 0x400] && v / 0x400 < 0x400
  {
    assert (cp + 0xFFFF_0000) % 0x1_0000_0000 == cp - 0x10000;
  }

  /** UTF-16 decodes to the scalar values it was made from; so text written in UTF-16 says what it said in UTF-8. */
  lemma {:induction false} Utf16RoundTrip(cps: seq<nat>)
    requires Scalars(cps)
    ensures Decode16(Utf16Of(Decode(Utf8Of(cps)))) == AsPoints(cps)
  {
    Utf8RoundTrip(cps);
    Utf16Back(cps);
  }

  lemma {:induction false} Utf16Back(cps: seq<nat>)
    requires Scalars(cps)
    ensures Decode16(Utf16Of(AsPoints(cps))) == AsPoints(cps)
  {
    if cps != [] {
      Utf16Back(cps[1..]);
      Read16(cps[0], Utf16Of(AsPoints(cps[1..])));
      assert AsPoints(cps)[1..] == AsPoints(cps[1..]);
    }
  }

  // ---------------------------------------------------------------- byte order

  /** `endian_swap` on a unit of `width` bytes. */
  function Swapped(u: nat, width: nat): nat {
    if width == 2 then u % 0x100 * 0x100 + u / 0x100 % 0x100
    else
      var b0, b1, b2, b3 := u % 0x100, u / 0x100 % 0x100, u / 0x100 / 0x100 % 0x100, u / 0x100 / 0x100 / 0x100 % 0x100;
      b0 * 0x1000000 + b1 * 0x10000 + b2 * 0x100 + b3
  }

  /** On a machine of either byte order, swapping when the orders differ leaves the wanted bytes in memory. */
  lemma {:induction false} SwapStores(u: nat, width: nat, machineBig: bool, wantBig: bool)
    requires width == 2 || width == 4
    ensures Stored(if machineBig == wantBig then u else Swapped(u, width), width, machineBig) == Stored(u, width, wantBig)
  {
    StoredBytes(u, width, machineBig);
    StoredBytes(u, width, wantBig);
    StoredBytes(Swapped(u, width), width, machineBig);
    hide Stored;
    SwapDigits(u, width);
  }

  lemma {:induction false} StoredBytes(u: nat, width: nat, big: bool)
    requires width == 2 || width == 4
    ensures var b0, b1, b2, b3 := u % 0x100, u / 0x100 % 0x100, u / 0x100 / 0x100 % 0x100, u / 0x100 / 0x100 / 0x100 % 0x100;
            Stored(u, width, big) ==
            if width == 2 then (if big then [b1, b0] else [b0, b1]) else if big then [b3, b2, b1, b0] else [b0, b1, b2, b3]
  {
    var u1, u2, u3 := u / 0x100, u / 0x100 / 0x100, u / 0x100 / 0x100 / 0x100;
    assert Stored(u3 / 0x100, 0, big) == [];
    assert Stored(u3, 1, big) == [u3 % 0x100] && Stored(u1, 1, big) == [u1 % 0x100];
    assert Stored(u2, 2, big) == if big then [u3 % 0x100, u2 % 0x100] else [u2 % 0x100, u3 % 0x100];
    assert Stored(u1, 3, big) == if big then [u3 % 0x100, u2 % 0x100, u1 % 0x100] else [u1 % 0x100, u2 % 0x100, u3 % 0x100];
  }

  lemma {:induction false} SwapDigits(u: nat, width: nat)
    requires width == 2 || width == 4
    ensures var v := Swapped(u, width);
            if width == 2 then v % 0x100 == u / 0x100 % 0x100 && v / 0x100 % 0x100 == u % 0x100
            else && v % 0x100 == u / 0x100 / 0x100 / 0x100 % 0x100 && v / 0x100 % 0x100 == u / 0x100 / 0x100 % 0x100
                 && v / 0x100 / 0x100 % 0x100 == u / 0x100 % 0x100 && v / 0x100 / 0x100 / 0x100 % 0x100 == u % 0x100
  {
    FourDigits(u % 0x100, u / 0x100 % 0x100, u / 0x100 / 0x100 % 0x100, u / 0x100 / 0x100 / 0x100 % 0x100);
  }

  lemma {:induction false} FourDigits(b0: byte, b1: byte, b2: byte, b3: byte)
    ensures var v: nat := b0 as int * 0x1000000 + b1 as int * 0x10000 + b2 as int * 0x100 + b3;
            && v % 0x100 == b3 && v / 0x100 % 0x100 == b2
            && v / 0x100 / 0x100 % 0x100 == b1 && v / 0x100 / 0x100 / 0x100 % 0x100 == b0
  {
    var v: nat := b0 as int * 0x1000000 + b1 as int * 0x10000 + b2 as int * 0x100 + b3;
    assert v / 0x100 == b0 as int * 0x10000 + b1 as int * 0x100 + b2;
    assert v / 0x100 / 0x100 == b0 as int * 0x100 + b1;
    assert v / 0x100 / 0x100 / 0x100 == b0;
  }
}
