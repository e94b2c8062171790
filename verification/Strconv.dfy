/**
  What parsing does to character data and attribute values, as functions on byte strings: references are
  replaced, line ends and white space normalised. Also the escaping that the writer applies, and why the
  parser undoes it.
  */
module Strconv {
  import opened Bytes
  import opened Utf8Bytes
  import opened Digits

  const TAB: byte := 9
  const LF: byte := 10
  const CR: byte := 13
  const SPACE: byte := 32
  const QUOTE: byte := 34
  const HASH: byte := 35
  const AMP: byte := 38
  const APOS: byte := 39
  const ZERO: byte := 48
  const SEMICOLON: byte := 59
  const LT: byte := 60
  const GT: byte := 62
  const LETTER_X: byte := 120

  const AMP_REF: bytes := [38, 97, 109, 112, 59]        // &amp;
  const APOS_REF: bytes := [38, 97, 112, 111, 115, 59]  // &apos;
  const GT_REF: bytes := [38, 103, 116, 59]             // &gt;
  const LT_REF: bytes := [38, 108, 116, 59]             // &lt;
  const QUOT_REF: bytes := [38, 113, 117, 111, 116, 59] // &quot;

  // ---------------------------------------------------------------- references

  datatype Reference = Reference(text: bytes, length: nat)

  const WORD := 0x1_0000_0000

  /** A reference by number, of which `from` bytes come before the digits; the number is kept in 32 bits. */
  function Numeric(s: bytes, from: nat, base: int): (r: Option<Reference>)
    requires from <= |s| && base > 0
  {
    var n := Run(s[from..], base);
    if 0 < n && from + n < |s| && s[from + n] == SEMICOLON
    then Some(Reference(Encoded(Number(s[from..][..n], base) % WORD), from + n + 1))
    else None
  }

  /** The well-formed reference the string starts with, if any. */
  function RefAt(s: bytes): (r: Option<Reference>) {
    if StartsWith(s, AMP_REF) then Some(Reference([AMP], 5))
    else if StartsWith(s, APOS_REF) then Some(Reference([APOS], 6))
    else if StartsWith(s, GT_REF) then Some(Reference([GT], 4))
    else if StartsWith(s, LT_REF) then Some(Reference([LT], 4))
    else if StartsWith(s, QUOT_REF) then Some(Reference([QUOTE], 6))
    else if StartsWith(s, [AMP, HASH, LETTER_X]) then Numeric(s, 3, 16)
    else if StartsWith(s, [AMP, HASH]) then Numeric(s, 2, 10)
    else None
  }

  /** A reference lies within the string and is never shorter than what replaces it. */
  lemma {:induction false} RefFits(s: bytes)
    requires RefAt(s).Some?
    ensures var r := RefAt(s).value; 4 <= r.length <= |s| && |r.text| <= 4 && s[0] == AMP
  {
    assert forall p: bytes :: StartsWith(s, p) && p != [] ==> s[0] == s[..|p|][0] == p[0];
  }

  // ---------------------------------------------------------------- conversion

  predicate IsSpace(c: byte) {
    c == TAB || c == LF || c == CR || c == SPACE
  }

  /** What happens to white space: nothing, line ends become line feeds, everything becomes spaces, runs become one space. */
  datatype White = Keep | Eol | Wconv | Wnorm

  datatype Mode = Mode(escapes: bool, white: White)

  /** The bytes a mode changes where they stand unescaped. */
  predicate Altered(m: Mode, c: byte) {
    match m.white
    case Keep => false
    case Eol => c == CR
    case Wconv => c == CR || c == LF || c == TAB
    case Wnorm => IsSpace(c)
  }

  function SkipSpaces(s: bytes): (r: bytes)
    ensures |r| <= |s|
  {
    if s == [] || !IsSpace(s[0]) then s else SkipSpaces(s[1..])
  }

  /** What follows white space at the start of the string that counts as one. */
  function AfterWhite(m: Mode, s: bytes): (r: bytes)
    requires s != []
    ensures |r| < |s|
  {
    if m.white.Wnorm? then SkipSpaces(s[1..])
    else if |s| > 1 && s[0] == CR && s[1] == LF then s[2..]
    else s[1..]
  }

  function Convert(m: Mode, s: bytes): (r: bytes)
    decreases |s|
  {
    if s == [] then []
    else if Altered(m, s[0]) then [if m.white.Eol? then LF else SPACE] + Convert(m, AfterWhite(m, s))
    else if m.escapes && RefAt(s).Some? then
      RefFits(s);
      RefAt(s).value.text + Convert(m, s[RefAt(s).value.length..])
    else [s[0]] + Convert(m, s[1..])
  }

  function TrimRight(s: bytes): (r: bytes)
    ensures |r| <= |s| && r == s[..|r|] && (r != [] ==> !IsSpace(r[|r| - 1]))
    ensures forall i :: |r| <= i < |s| ==> IsSpace(s[i])
  {
    if s == [] || !IsSpace(s[|s| - 1]) then s else TrimRight(s[..|s| - 1])
  }

  /** Attribute values under white space normalisation. */
  function Normalise(escapes: bool, s: bytes): (r: bytes) {
    TrimRight(Convert(Mode(escapes, Wnorm), SkipSpaces(s)))
  }

  // ---------------------------------------------------------------- escaping

  /** The bytes that are not written as they are; the end of the string counts as one of them. */
  predicate Special(c: byte, attribute: bool) {
    c == AMP || c == LT || c == GT || (attribute && c == QUOTE)
    || (c < 32 && c != TAB && (attribute || (c != LF && c != CR)))
  }

  function EscapeByte(c: byte, attribute: bool): (r: bytes) {
    if !Special(c, attribute) then [c]
    else if c == AMP then AMP_REF
    else if c == LT then LT_REF
    else if c == GT then GT_REF
    else if c == QUOTE then QUOT_REF
    else [AMP, HASH, ZERO + c / 10, ZERO + c % 10, SEMICOLON]
  }

  function Escape(s: bytes, attribute: bool): (r: bytes) {
    if s == [] then [] else EscapeByte(s[0], attribute) + Escape(s[1..], attribute)
  }

  // ---------------------------------------------------------------- round trip

  /** An escaped byte reads as a reference to that byte, whatever follows. */
  lemma {:induction false} EscapedReads(c: byte, attribute: bool, rest: bytes)
    requires c != 0 && Special(c, attribute)
    ensures RefAt(EscapeByte(c, attribute) + rest) == Some(Reference([c], |EscapeByte(c, attribute)|))
  {
    var e := EscapeByte(c, attribute);
    if c == AMP || c == LT || c == GT || c == QUOTE {
      NamedReads(c, rest);
    } else {
      ControlReads(c, rest);
    }
  }

  lemma {:induction false} NamedReads(c: byte, rest: bytes)
    requires c == AMP || c == LT || c == GT || c == QUOTE
    ensures RefAt(EscapeByte(c, true) + rest) == Some(Reference([c], |EscapeByte(c, true)|))
  {
    var s := EscapeByte(c, true) + rest;
    assert s[0] == AMP && s[1] == EscapeByte(c, true)[1];
    if c == AMP {
      assert s[..5] == AMP_REF;
    } else if c == LT {
      assert s[..4] == LT_REF;
    } else if c == GT {
      assert s[..4] == GT_REF;
    } else {
      assert s[..6] == QUOT_REF;
    }
    SecondByte(s);
  }

  lemma {:induction false} SecondByte(s: bytes)
    requires |s| >= 2
    ensures forall p: bytes :: StartsWith(s, p) && |p| >= 2 ==> s[1] == p[1]
  {
    forall p: bytes | StartsWith(s, p) && |p| >= 2 ensures s[1] == p[1] {
      assert s[..|p|][1] == p[1];
    }
  }

  lemma {:induction false} ControlReads(c: byte, rest: bytes)
    requires 0 < c < 32
    ensures RefAt([AMP, HASH, ZERO + c / 10, ZERO + c % 10, SEMICOLON] + rest) == Some(Reference([c], 5))
  {
    var s := [AMP, HASH, ZERO + c / 10, ZERO + c % 10, SEMICOLON] + rest;
    DecimalRef(s);
    hide RefAt;
    assert s[2..][0] == s[2] && s[2..][1] == s[3] && s[2..][2] == s[4];
    TwoDigits(s[2..], c / 10, c % 10);
    hide Number, Run;
    assert Encoded(c) == [c];
  }

  lemma {:induction false} DecimalRef(s: bytes)
    requires |s| >= 3 && s[0] == AMP && s[1] == HASH && s[2] != LETTER_X
    ensures RefAt(s) == Numeric(s, 2, 10)
  {
    hide Numeric;
    SecondByte(s);
    assert s[..2] == [AMP, HASH];
    assert s[..3][2] != LETTER_X;
  }

  lemma {:induction false} TwoDigits(t: bytes, tens: int, ones: int)
    requires 0 <= tens < 10 && 0 <= ones < 10 && |t| >= 3 && t[0] == ZERO + tens && t[1] == ZERO + ones && t[2] == SEMICOLON
    ensures Run(t, 10) == 2 && Number(t[..2], 10) == 10 * tens + ones
  {
    RunUpTo(t, 2, 10);
    var d := t[..2];
    assert d[..1] == [d[0]] && d[..1][..0] == [];
    assert Number(d[..1], 10) == tens;
  }

  lemma {:induction false} PlainReads(m: Mode, c: byte, rest: bytes)
    requires c != AMP && !Altered(m, c)
    ensures Convert(m, [c] + rest) == [c] + Convert(m, rest)
  {
    var s := [c] + rest;
    assert s[1..] == rest;
    if RefAt(s).Some? {
      RefFits(s);
      assert false;
    }
  }

  /** Converting the escaped form of a byte gives the byte back, unless it was left alone and the mode alters it. */
  lemma {:induction false} OneByteBack(m: Mode, c: byte, attribute: bool, rest: bytes)
    requires c != 0 && m.escapes && (Special(c, attribute) || !Altered(m, c))
    ensures Convert(m, EscapeByte(c, attribute) + rest) == [c] + Convert(m, rest)
  {
    var e := EscapeByte(c, attribute);
    if Special(c, attribute) {
      EscapedReads(c, attribute, rest);
      assert (e + rest)[0] == AMP && (e + rest)[|e|..] == rest;
    } else {
      PlainReads(m, c, rest);
    }
  }

  ghost predicate Survives(m: Mode, s: bytes, attribute: bool) {
    forall i :: 0 <= i < |s| ==> Special(s[i], attribute) || !Altered(m, s[i])
  }

  /** A byte the writer leaves alone and the mode alters comes back as a different one. */
  lemma {:induction false} OneByteLost(m: Mode, c: byte, attribute: bool, rest: bytes)
    requires !Special(c, attribute) && Altered(m, c) && c != SPACE
    ensures Convert(m, EscapeByte(c, attribute) + rest) != [] && Convert(m, EscapeByte(c, attribute) + rest)[0] != c
  {
    assert (EscapeByte(c, attribute) + rest)[0] == c;
  }

  /** Parsing what was escaped gives the text back exactly when the mode alters none of the bytes left as they are. */
  lemma {:induction false} EscapeThenConvert(m: Mode, s: bytes, attribute: bool)
    requires m.escapes && !m.white.Wnorm? && 0 !in s
    ensures Convert(m, Escape(s, attribute)) == s <==> Survives(m, s, attribute)
  {
    if s != [] {
      var t := s[1..];
      assert s == [s[0]] + t && s[0] in s;
      EscapeThenConvert(m, t, attribute);
      SurvivesStep(m, s, attribute);
      hide Convert, Escape, Survives, Special, Altered;
      EscapeStep(s, attribute);
      if Special(s[0], attribute) || !Altered(m, s[0]) {
        OneByteBack(m, s[0], attribute, Escape(t, attribute));
      } else {
        OneByteLost(m, s[0], attribute, Escape(t, attribute));
      }
    }
  }

  lemma {:induction false} SurvivesStep(m: Mode, s: bytes, attribute: bool)
    requires s != []
    ensures Survives(m, s, attribute) <==> (Special(s[0], attribute) || !Altered(m, s[0])) && Survives(m, s[1..], attribute)
  {
    assert forall i :: 0 < i < |s| ==> s[i] == s[1..][i - 1];
  }

  lemma {:induction false} EscapeStep(s: bytes, attribute: bool)
    requires s != []
    ensures Escape(s, attribute) == EscapeByte(s[0], attribute) + Escape(s[1..], attribute)
  {
  }

  /** Character data: every text comes back, except that end-of-line handling loses carriage returns. */
  lemma {:induction false} PcdataRoundTrip(s: bytes)
    requires 0 !in s
    ensures Convert(Mode(true, Keep), Escape(s, false)) == s
    ensures Convert(Mode(true, Eol), Escape(s, false)) == s <==> CR !in s
  {
    EscapeThenConvert(Mode(true, Keep), s, false);
    EscapeThenConvert(Mode(true, Eol), s, false);
  }

  /** Attribute values: every text comes back, except that white space conversion loses tabs. */
  lemma {:induction false} AttributeRoundTrip(s: bytes)
    requires 0 !in s
    ensures Convert(Mode(true, Keep), Escape(s, true)) == s && Convert(Mode(true, Eol), Escape(s, true)) == s
    ensures Convert(Mode(true, Wconv), Escape(s, true)) == s <==> TAB !in s
  {
    EscapeThenConvert(Mode(true, Keep), s, true);
    EscapeThenConvert(Mode(true, Eol), s, true);
    EscapeThenConvert(Mode(true, Wconv), s, true);
  }

  /** Escaped text cannot end early: it holds neither the terminator of its kind nor a zero. */
  lemma {:induction false} EscapeHidesStops(s: bytes, attribute: bool)
    requires 0 !in s
    ensures 0 !in Escape(s, attribute) && LT !in Escape(s, attribute) && (attribute ==> QUOTE !in Escape(s, attribute))
  {
    if s != [] {
      EscapeHidesStops(s[1..], attribute);
      assert s[0] in s;
      var e := EscapeByte(s[0], attribute);
      assert 0 !in e && LT !in e && (attribute ==> QUOTE !in e);
    }
  }

  /** What may stand in the output as it is: no markup, and of control characters only tabs, and line ends outside attributes. */
  predicate Ordinary(c: byte, attribute: bool) {
    c != 38 && c != 60 && c != 62 && !(attribute && c == 34) && (c >= 32 || c == 9 || (!attribute && (c == 10 || c == 13)))
  }

  /** Text is written as it is exactly when all of it is ordinary; anything else makes it longer. */
  lemma {:induction false} EscapeUnchanged(s: bytes, attribute: bool)
    ensures Escape(s, attribute) == s <==> forall i :: 0 <= i < |s| ==> Ordinary(s[i], attribute)
    ensures Escape(s, attribute) == s || |Escape(s, attribute)| > |s|
  {
    if s != [] {
      EscapeUnchanged(s[1..], attribute);
      assert forall i :: 0 < i < |s| ==> s[i] == s[1..][i - 1];
      assert s == [s[0]] + s[1..];
      OneByteWritten(s[0], attribute);
      hide EscapeByte, Ordinary;
    }
  }

  lemma {:induction false} OneByteWritten(c: byte, attribute: bool)
    ensures if Ordinary(c, attribute) then EscapeByte(c, attribute) == [c] else |EscapeByte(c, attribute)| > 1
    ensures forall i :: 0 <= i < |EscapeByte(c, attribute)| ==>
              var d := EscapeByte(c, attribute)[i]; Ordinary(d, attribute) || (d == 38 && i == 0 && !Ordinary(c, attribute))
  {
  }

  /** Nothing but ordinary bytes is ever written, apart from the ampersands that start references. */
  lemma {:induction false} EscapedOrdinary(s: bytes, attribute: bool, c: byte)
    requires c in Escape(s, attribute)
    ensures Ordinary(c, attribute) || c == 38
  {
    var e := EscapeByte(s[0], attribute);
    OneByteWritten(s[0], attribute);
    if c !in e {
      EscapedOrdinary(s[1..], attribute, c);
    }
  }

  // ---------------------------------------------------------------- normalised attributes

  /** White space that escaping leaves as it is. */
  predicate Blank(c: byte) {
    c == SPACE || c == TAB
  }

  function SkipBlanks(s: bytes): (r: bytes)
    ensures |r| <= |s|
  {
    if s == [] || !Blank(s[0]) then s else SkipBlanks(s[1..])
  }

  function Squash(s: bytes): (r: bytes)
    ensures |r| <= |s|
    decreases |s|
  {
    if s == [] then []
    else if Blank(s[0]) then [SPACE] + Squash(SkipBlanks(s[1..]))
    else [s[0]] + Squash(s[1..])
  }

  lemma {:induction false} SkipEscaped(s: bytes)
    ensures SkipSpaces(Escape(s, true)) == Escape(SkipBlanks(s), true)
  {
    if s != [] {
      var e, t := EscapeByte(s[0], true), Escape(s[1..], true);
      EscapeStep(s, true);
      EscapedStart(s[0]);
      hide EscapeByte, Escape;
      if Blank(s[0]) {
        SkipEscaped(s[1..]);
        SkipOne(s[0], t);
      } else {
        SkipNone(e, t);
      }
    }
  }

  lemma {:induction false} SkipOne(c: byte, t: bytes)
    ensures SkipSpaces([c] + t) == if IsSpace(c) then SkipSpaces(t) else [c] + t
  {
    assert ([c] + t)[1..] == t;
  }

  lemma {:induction false} SkipNone(e: bytes, t: bytes)
    requires e != [] && !IsSpace(e[0])
    ensures SkipSpaces(e + t) == e + t
  {
    assert (e + t)[0] == e[0];
  }

  lemma {:induction false} EscapedStart(c: byte)
    ensures if Blank(c) then EscapeByte(c, true) == [c] else EscapeByte(c, true) != [] && !IsSpace(EscapeByte(c, true)[0])
  {
  }

  lemma {:induction false} SkipBlanksSubset(s: bytes)
    ensures forall c :: c in SkipBlanks(s) ==> c in s
  {
    if s != [] && Blank(s[0]) {
      SkipBlanksSubset(s[1..]);
    }
  }

  lemma {:induction false} SqueezeEscaped(s: bytes)
    requires 0 !in s
    ensures Convert(Mode(true, Wnorm), Escape(s, true)) == Squash(s)
    decreases |s|
  {
    if s != [] {
      var t := Escape(s[1..], true);
      EscapeStep(s, true);
      assert s[0] in s;
      hide Convert, Escape, EscapeByte;
      if Blank(s[0]) {
        SkipEscaped(s[1..]);
        SkipBlanksSubset(s[1..]);
        SqueezeEscaped(SkipBlanks(s[1..]));
        SqueezeBlank(s[0], t);
      } else {
        SqueezeEscaped(s[1..]);
        SqueezeByte(s[0], t);
      }
    }
  }

  lemma {:induction false} SqueezeBlank(c: byte, rest: bytes)
    requires Blank(c)
    ensures Convert(Mode(true, Wnorm), EscapeByte(c, true) + rest) == [SPACE] + Convert(Mode(true, Wnorm), SkipSpaces(rest))
  {
    hide RefAt, SkipSpaces;
    assert ([c] + rest)[1..] == rest;
  }

  lemma {:induction false} SqueezeByte(c: byte, rest: bytes)
    requires c != 0 && !Blank(c)
    ensures Convert(Mode(true, Wnorm), EscapeByte(c, true) + rest) == [c] + Convert(Mode(true, Wnorm), rest)
  {
    var e := EscapeByte(c, true);
    assert (e + rest)[|e|..] == rest && (e + rest)[0] == e[0];
    if Special(c, true) {
      EscapedReads(c, true, rest);
      hide RefAt;
    } else if RefAt(e + rest).Some? {
      RefFits(e + rest);
      assert false;
    }
  }

  /** No tab and no two spaces in a row. */
  ghost predicate Tidy(s: bytes) {
    && TAB !in s
    && forall i :: 0 <= i < |s| - 1 ==> !(s[i] == SPACE && s[i + 1] == SPACE)
  }

  lemma {:induction false} TidyStep(s: bytes)
    requires s != []
    ensures Tidy(s) <==> s[0] != TAB && Tidy(s[1..]) && !(|s| > 1 && s[0] == SPACE && s[1] == SPACE)
  {
    var t := s[1..];
    assert forall i :: 0 < i < |s| ==> s[i] == t[i - 1];
    assert s == [s[0]] + t;
    if Tidy(s) {
      forall i | 0 <= i < |t| - 1 ensures !(t[i] == SPACE && t[i + 1] == SPACE) {
        assert t[i] == s[i + 1] && t[i + 1] == s[i + 1 + 1];
      }
    }
    if Tidy(t) {
      forall i | 0 < i < |s| - 1 ensures !(s[i] == SPACE && s[i + 1] == SPACE) {
        assert s[i] == t[i - 1] && s[i + 1] == t[i];
      }
    }
  }

  lemma {:induction false} SquashFix(s: bytes)
    ensures Squash(s) == s <==> Tidy(s)
    decreases |s|
  {
    if s != [] {
      var t := s[1..];
      TidyStep(s);
      SquashFix(t);
      assert s == [s[0]] + t;
      if Blank(s[0]) && t != [] && Blank(t[0]) {
        assert |SkipBlanks(t)| < |t|;
        assert s[1] == t[0];
        if s[0] == SPACE && t[0] == TAB {
          assert TAB in t;
        }
      }
    }
  }

  /** Exactly the attribute values that white space normalisation gives back. */
  ghost predicate Canonical(s: bytes) {
    Tidy(s) && (s != [] ==> s[0] != SPACE && !IsSpace(s[|s| - 1]))
  }

  lemma {:induction false} SquashedFix(s: bytes)
    ensures TrimRight(Squash(SkipBlanks(s))) == s <==> Canonical(s)
  {
    var t := SkipBlanks(s);
    SquashFix(s);
    if Canonical(s) {
      assert s != [] ==> s[0] in s;
    } else {
      hide Squash, TrimRight;
      if |t| == |s| {
        SkippedNothing(s);
      }
      assert |Squash(t)| <= |t|;
    }
  }

  lemma {:induction false} SkippedNothing(s: bytes)
    requires |SkipBlanks(s)| == |s|
    ensures SkipBlanks(s) == s
  {
  }

  /** Exactly the canonical values come back from white space normalisation. */
  lemma {:induction false} NormalisedRoundTrip(s: bytes)
    requires 0 !in s
    ensures Normalise(true, Escape(s, true)) == s <==> Canonical(s)
  {
    hide Escape, Convert, Squash, Canonical;
    SkipEscaped(s);
    SkipBlanksSubset(s);
    SqueezeEscaped(SkipBlanks(s));
    SquashedFix(s);
  }
}
