/** What the writer's output means to a reader of each encoding. */
module Encodings {
  import opened Bytes
  import opened Utf8Bytes
  import opened Utf

  // ---------------------------------------------------------------- reading units from memory

  /** The number that bytes in memory stand for. */
  function Loaded(b: bytes, big: bool): (u: nat) {
    if b == [] then 0
    else if big then Loaded(b[..|b| - 1], big) * 0x100 + b[|b| - 1]
    else b[0] + 0x100 * Loaded(b[1..], big)
  }

  function LoadedAll(s: bytes, width: nat, big: bool): (us: seq<nat>)
    requires width > 0
    decreases |s|
  {
    if |s| < width then [] else [Loaded(s[..width], big)] + LoadedAll(s[width..], width, big)
  }

  /** How many numbers fit. */
  function Room(width: nat): (n: nat) {
    if width == 0 then 1 else 0x100 * Room(width - 1)
  }

  lemma {:induction false} LoadStored(u: nat, width: nat, big: bool)
    requires u < Room(width)
    ensures Loaded(Stored(u, width, big), big) == u
  {
    if width > 0 {
      LoadStored(u / 0x100, width - 1, big);
      var s := Stored(u, width, big);
      if big {
        assert s[..|s| - 1] == Stored(u / 0x100, width - 1, big);
      } else {
        assert s[1..] == Stored(u / 0x100, width - 1, big);
      }
    }
  }

  lemma {:induction false} LoadStoredAll(us: seq<nat>, width: nat, big: bool)
    requires width > 0 && forall i :: 0 <= i < |us| ==> us[i] < Room(width)
    ensures LoadedAll(StoredAll(us, width, big), width, big) == us
  {
    if us != [] {
      var first, rest := Stored(us[0], width, big), StoredAll(us[1..], width, big);
      LoadStored(us[0], width, big);
      LoadStoredAll(us[1..], width, big);
      assert (first + rest)[..width] == first && (first + rest)[width..] == rest;
      hide Stored, Loaded, Room;
    }
  }

  // ---------------------------------------------------------------- what is read

  /** The decoded characters are exactly these code points. */
  ghost predicate Names(ps: seq<Point>, cps: seq<nat>) {
    |ps| == |cps| && forall i :: 0 <= i < |cps| ==> ps[i].ch == cps[i] && (ps[i].High? <==> cps[i] >= 0x10000)
  }

  lemma {:induction false} NamesPoints(cps: seq<nat>)
    ensures Names(AsPoints(cps), cps)
  {
    if cps != [] {
      NamesPoints(cps[1..]);
    }
  }

  lemma {:induction false} UnitsOf16(big: bool, ps: seq<Point>)
    ensures UnitsOf(Utf16(big), ps) == Utf16Of(ps) && forall i :: 0 <= i < |Utf16Of(ps)| ==> Utf16Of(ps)[i] < 0x10000
  {
    if ps != [] {
      UnitsOf16(big, ps[1..]);
      hide Units16;
    }
  }

  /** Text of any scalar values, written in UTF-16 of either byte order, decodes to the same scalar values. */
  lemma {:induction false} Utf16Written(big: bool, cps: seq<nat>)
    requires Scalars(cps)
    ensures Names(Decode16(LoadedAll(Transcode(Utf16(big), Utf8Of(cps)), 2, big)), cps)
  {
    var us := Utf16Of(AsPoints(cps));
    Utf8RoundTrip(cps);
    Utf16Back(cps);
    NamesPoints(cps);
    UnitsOf16(big, AsPoints(cps));
    assert Room(2) == 0x10000 by { assert Room(1) == 0x100 && Room(0) == 1; }
    hide Utf16Of, AsPoints, Decode, Utf8Of, Decode16, UnitsOf, StoredAll, LoadedAll, Names, Scalars;
    LoadStoredAll(us, 2, big);
  }

  lemma {:induction false} UnitsOf32(big: bool, cps: seq<nat>)
    ensures UnitsOf(Utf32(big), AsPoints(cps)) == cps
  {
    if cps != [] {
      UnitsOf32(big, cps[1..]);
      assert AsPoints(cps)[1..] == AsPoints(cps[1..]) && AsPoints(cps)[0].ch == cps[0];
      assert [cps[0]] + cps[1..] == cps;
    }
  }

  /** Written in UTF-32 of either byte order, the groups of four bytes are the code points themselves. */
  lemma {:induction false} Utf32Written(big: bool, cps: seq<nat>)
    requires CodePoints(cps)
    ensures LoadedAll(Transcode(Utf32(big), Utf8Of(cps)), 4, big) == cps
  {
    Utf8RoundTrip(cps);
    UnitsOf32(big, cps);
    assert Room(4) == 0x1_0000_0000 by { assert Room(0) == 1 && Room(1) == 0x100 && Room(2) == 0x10000 && Room(3) == 0x1000000; }
    hide AsPoints, Decode, Utf8Of, UnitsOf, StoredAll, LoadedAll;
    LoadStoredAll(cps, 4, big);
  }

  /** Written in Latin-1, there is one byte for each code point: itself where it fits, a question mark elsewhere. */
  lemma {:induction false} Latin1Written(cps: seq<nat>)
    requires CodePoints(cps)
    ensures var r := Transcode(Latin1, Utf8Of(cps));
            |r| == |cps| && forall i :: 0 <= i < |cps| ==> r[i] == if cps[i] < 256 then cps[i] else 63
  {
    Utf8RoundTrip(cps);
    hide Decode, Utf8Of;
    Latin1Units(cps);
    OneByteEach(UnitsOf(Latin1, AsPoints(cps)));
  }

  lemma {:induction false} Latin1Units(cps: seq<nat>)
    ensures var us := UnitsOf(Latin1, AsPoints(cps));
            |us| == |cps| && forall i :: 0 <= i < |cps| ==> us[i] == if cps[i] < 256 then cps[i] else 63
  {
    if cps != [] {
      Latin1Units(cps[1..]);
      assert AsPoints(cps)[1..] == AsPoints(cps[1..]);
    }
  }

  lemma {:induction false} OneByteEach(us: seq<nat>)
    requires forall i :: 0 <= i < |us| ==> us[i] < 256
    ensures var r := StoredAll(us, 1, false); |r| == |us| && forall i :: 0 <= i < |us| ==> r[i] == us[i]
  {
    if us != [] {
      OneByteEach(us[1..]);
      assert Stored(us[0] / 0x100, 0, false) == [];
      assert Stored(us[0], 1, false) == [us[0]];
    }
  }

  // ---------------------------------------------------------------- broken text

  /**
    A byte that is no part of a sequence, be it a stray continuation, no lead at all, or a lead without its
    continuation, is passed over, and the text after it reads as if it were not there.
    */
  lemma {:induction false} StrayBytePassed(e: Encoding, a: bytes, x: byte, b: bytes)
    requires WellFormed(a) && x >= 0x80 && (x < 0xC0 || x >= 0xF8 || b == [] || !(0x80 <= b[0] < 0xC0))
    ensures Decode(a + ([x] + b)) == Decode(a + b)
    ensures !e.Utf8? ==> Transcode(e, a + ([x] + b)) == Transcode(e, a + b)
  {
    var s := [x] + b;
    assert s[1..] == b && (b != [] ==> s[1] == b[0]);
    assert UnitLen(s) == 0;
    DecodeConcat(a, s);
    DecodeConcat(a, b);
  }

  // ---------------------------------------------------------------- UTF-8 itself

  /** The bytes of UTF-8 compare as the code points do (section 1 of RFC 3629). */
  lemma {:induction false} Utf8Order(a: nat, b: nat)
    requires a < b < 0x110000
    ensures Less(Encoded(a), Encoded(b))
  {
    SixBits(a);
    SixBits(b);
    var s, t := Encoded(a), Encoded(b);
    if |s| == |t| {
      SameLength(a, b);
    } else {
      assert s[0] < t[0];
    }
  }

  lemma {:induction false} SameLength(a: nat, b: nat)
    requires a < b < 0x110000 && |Encoded(a)| == |Encoded(b)|
    ensures Less(Encoded(a), Encoded(b))
  {
    hide Less;
    HigherDigits(a, b);
    HigherDigits(a / 0x40, b / 0x40);
    HigherDigits(a / 0x1000, b / 0x1000);
    Quotients(a);
    Quotients(b);
    match |Encoded(a)| {
      case 1 => FirstLess([a], [b], 0);
      case 2 => TwoBytes(a, b);
      case 3 => ThreeBytes(a, b);
      case _ => FourBytes(a, b);
    }
  }

  /** All digits but the last agree, or the numbers without their last digit are in order already. */
  ghost predicate Ordered(a: nat, b: nat) {
    if a / 0x40 == b / 0x40 then a % 0x40 < b % 0x40 else a / 0x40 < b / 0x40
  }

  lemma {:induction false} TwoBytes(a: nat, b: nat)
    requires 0x80 <= a < b < 0x800 && Ordered(a, b)
    ensures Less(Encoded(a), Encoded(b))
  {
    hide Less;
    FirstLess(Encoded(a), Encoded(b), if a / 0x40 == b / 0x40 then 1 else 0);
  }

  lemma {:induction false} ThreeBytes(a: nat, b: nat)
    requires 0x800 <= a < b < 0x10000 && Ordered(a, b)
    requires a / 0x1000 == a / 0x40 / 0x40 && b / 0x1000 == b / 0x40 / 0x40 && (a / 0x40 < b / 0x40 ==> Ordered(a / 0x40, b / 0x40))
    ensures Less(Encoded(a), Encoded(b))
  {
    hide Less;
    FirstLess(Encoded(a), Encoded(b), if a / 0x40 == b / 0x40 then 2 else if a / 0x1000 == b / 0x1000 then 1 else 0);
  }

  lemma {:induction false} FourBytes(a: nat, b: nat)
    requires 0x10000 <= a < b < 0x110000 && Ordered(a, b) && a / 0x40000 < 0x10 && b / 0x40000 < 0x10
    requires a / 0x1000 == a / 0x40 / 0x40 && b / 0x1000 == b / 0x40 / 0x40 && (a / 0x40 < b / 0x40 ==> Ordered(a / 0x40, b / 0x40))
    requires a / 0x40000 == a / 0x1000 / 0x40 && b / 0x40000 == b / 0x1000 / 0x40 && (a / 0x1000 < b / 0x1000 ==> Ordered(a / 0x1000, b / 0x1000))
    ensures Less(Encoded(a), Encoded(b))
  {
    hide Less;
    FirstLess(Encoded(a), Encoded(b),
              if a / 0x40 == b / 0x40 then 3 else if a / 0x1000 == b / 0x1000 then 2 else if a / 0x40000 == b / 0x40000 then 1 else 0);
  }

  lemma {:induction false} Quotients(a: nat)
    requires a < 0x110000
    ensures a / 0x1000 == a / 0x40 / 0x40 && a / 0x40000 == a / 0x1000 / 0x40 && a / 0x40000 < 0x10
    ensures a < 0x80 ==> a / 0x40 < 2
    ensures a < 0x800 ==> a / 0x1000 == 0
    ensures a < 0x10000 ==> a / 0x40000 == 0
  {
  }

  lemma {:induction false} HigherDigits(a: nat, b: nat)
    requires a <= b
    ensures a / 0x40 <= b / 0x40
    ensures a < b && a / 0x40 == b / 0x40 ==> a % 0x40 < b % 0x40
  {
  }

  lemma {:induction false} FirstLess(s: bytes, t: bytes, i: nat)
    requires i < |s| && i < |t| && s[..i] == t[..i] && s[i] < t[i]
    ensures Less(s, t)
    decreases i
  {
    if i > 0 {
      assert s[0] == s[..i][0] == t[..i][0] == t[0];
      assert s[1..][..i - 1] == s[..i][1..] == t[..i][1..] == t[1..][..i - 1];
      FirstLess(s[1..], t[1..], i - 1);
    }
  }
}
