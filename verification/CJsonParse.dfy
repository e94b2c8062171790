/** The parsers of cJSON, advancing a position through the text. */
module CJsonParse {
  import opened Bytes
  import opened Digits
  import opened Utf8Bytes
  import opened Json

  datatype Step<T> = Bad | Ok(value: T, end: nat)

  /** The outcome at a position is what the grammar says about the text from there on. */
  ghost predicate Agrees<T>(r: Step<T>, p: Parsed<T>, s: bytes) {
    match r
    case Bad => p.Fail?
    case Ok(v, end) => end <= |s| && p == Done(v, s[end..])
  }

  /** `*ptr`: the text ends with a zero. */
  function Char(s: bytes, i: nat): byte {
    if i < |s| then s[i] else 0
  }

  lemma {:induction false} Tail(s: bytes, i: nat, k: nat)
    requires i <= k <= |s|
    ensures s[i..][k - i..] == s[k..]
  {
  }

  lemma {:induction false} Here(s: bytes, i: nat, k: nat)
    requires i + k <= |s|
    ensures |s[i..]| == |s| - i && (i + k < |s| ==> s[i..][k] == s[i + k]) && s[i..][k..] == s[i + k..]
  {
  }

  /** Looking at a character is looking at the head of the rest. */
  lemma {:induction false} Look(s: bytes, x: nat, c: byte)
    requires x <= |s| && c != 0
    ensures At(s[x..], c) <==> Char(s, x) == c
    ensures Char(s, x) == c ==> x < |s| && s[x..][1..] == s[x + 1..]
  {
  }

  method SkipAt(s: bytes, at: nat) returns (e: nat)
    requires at <= |s|
    ensures at <= e <= |s| && s[e..] == Skip(s[at..])
  {
    e := at;
    while e < |s| && 0 < s[e] <= 32
      invariant at <= e <= |s| && Skip(s[e..]) == Skip(s[at..])
    {
      assert s[e..][1..] == s[e + 1..];
      e := e + 1;
    }
  }

  // ---------------------------------------------------------------- strings

  /** What the first pass over a string counts. */
  function Counted(s: bytes): (n: nat)
    decreases |s|
  {
    if s == [] || s[0] == QUOTE then 0
    else if s[0] == BACKSLASH && |s| >= 2 then 1 + Counted(s[2..])
    else 1 + Counted(s[1..])
  }

  /** The body of a well-formed literal, up to its closing quote and beyond. */
  predicate Literal(s: bytes)
    decreases |s|
  {
    s != [] &&
    if s[0] == QUOTE then true
    else if s[0] != BACKSLASH then Literal(s[1..])
    else if |s| < 2 then false
    else if s[1] == LETTER_U then
      |s| >= 6 && IsDigit(s[2], 16) && IsDigit(s[3], 16) && IsDigit(s[4], 16) && IsDigit(s[5], 16) && Literal(s[6..])
    else s[1] in {QUOTE, BACKSLASH, 47, 98, 102, 110, 114, 116} && Literal(s[2..])
  }

  lemma {:induction false} CountUnicode(s: bytes)
    requires Literal(s) && s[0] == BACKSLASH && s[1] == LETTER_U
    ensures Counted(s) == 5 + Counted(s[6..])
  {
    assert s[2..][1..] == s[3..] && s[3..][1..] == s[4..] && s[4..][1..] == s[5..] && s[5..][1..] == s[6..];
    assert Counted(s) == 1 + Counted(s[2..]);
    assert Counted(s[2..]) == 1 + Counted(s[3..]);
    assert Counted(s[3..]) == 1 + Counted(s[4..]);
    assert Counted(s[4..]) == 1 + Counted(s[5..]);
  }

  lemma {:induction false} UnicodeFits(s: bytes)
    requires Literal(s) && s[0] == BACKSLASH && s[1] == LETTER_U
    ensures var e := UnicodeEscape(s);
            && e.length <= |s| && Literal(s[e.length..]) && |e.text| + Counted(s[e.length..]) <= Counted(s)
  {
    CountUnicode(s);
    if UnicodeEscape(s).length == 12 {
      Tail(s, 6, 12);
      assert s[6..][0] == s[6] && s[6..][1] == s[7];
      CountUnicode(s[6..]);
    }
  }

  /** A character of a well-formed literal takes no more room than the first pass counts for it. */
  lemma {:induction false} OneCharFits(s: bytes)
    requires Literal(s) && s[0] != QUOTE
    ensures OneChar(s).Some?
    ensures var e := OneChar(s).value; Literal(s[e.length..]) && |e.text| + Counted(s[e.length..]) <= Counted(s)
  {
    if s[0] == BACKSLASH && s[1] == LETTER_U {
      UnicodeFits(s);
    }
  }

  /** The buffer that the first pass of `parse_string` sizes is never too short for a well-formed literal. */
  lemma {:induction false} LiteralFits(s: bytes)
    requires Literal(s)
    ensures ParseChars(s).Done? && |ParseChars(s).value| <= Counted(s)
    decreases |s|
  {
    if s[0] != QUOTE {
      OneCharFits(s);
      hide OneChar, Literal, Counted;
      LiteralFits(s[OneChar(s).value.length..]);
    }
  }

  method CountString(s: bytes, from: nat) returns (len: nat)
    requires from <= |s|
    ensures len == Counted(s[from..])
  {
    var ptr := from;
    len := 0;
    while ptr < |s| && s[ptr] != QUOTE
      invariant from <= ptr <= |s| && len + Counted(s[ptr..]) == Counted(s[from..])
    {
      Here(s, ptr, 1);
      len := len + 1;
      if s[ptr] == BACKSLASH && ptr + 2 <= |s| {
        Here(s, ptr, 2);
        ptr := ptr + 2;
      } else {
        ptr := ptr + 1;
      }
    }
  }

  /** `parse_hex4` */
  method ParseHex4(s: bytes, at: nat) returns (h: nat)
    requires at + 4 <= |s|
    ensures h == Hex4(s[at..])
  {
    ghost var t := s[at..];
    assert t[0] == s[at] && t[1] == s[at + 1] && t[2] == s[at + 2] && t[3] == s[at + 3];
    if !IsDigit(s[at], 16) {
      return 0;
    }
    h := DigitValue(s[at]);
    if !IsDigit(s[at + 1], 16) {
      return 0;
    }
    h := h * 16 + DigitValue(s[at + 1]);
    if !IsDigit(s[at + 2], 16) {
      return 0;
    }
    h := h * 16 + DigitValue(s[at + 2]);
    if !IsDigit(s[at + 3], 16) {
      return 0;
    }
    h := h * 16 + DigitValue(s[at + 3]);
  }

  /** The escape `\u`, from its backslash on: four digits, and four more for the second half of a pair. */
  method UnicodeAt(s: bytes, at: nat) returns (text: bytes, end: nat)
    requires at + 6 <= |s|
    ensures at < end <= |s| && UnicodeEscape(s[at..]) == Escape(text, end - at)
  {
    hide Hex4, Encoded;
    ghost var t := s[at..];
    Here(s, at, 2);
    text, end := [], at + 6;
    var uc := ParseHex4(s, at + 2);
    if 0xDC00 <= uc <= 0xDFFF || uc == 0 {
      return;
    }
    if 0xD800 <= uc <= 0xDBFF {
      if at + 12 > |s| || s[at + 6] != BACKSLASH || s[at + 7] != LETTER_U {
        assert |t| >= 12 ==> t[6] == s[at + 6] && t[7] == s[at + 7];
        return;
      }
      Here(s, at, 8);
      assert t[6] == s[at + 6] && t[7] == s[at + 7];
      var uc2 := ParseHex4(s, at + 8);
      end := at + 12;
      if uc2 < 0xDC00 || uc2 > 0xDFFF {
        return;
      }
      uc := 0x10000 + uc % 0x400 * 0x400 + uc2 % 0x400;
    }
    text := EncodeBackwards(uc);
  }

  /** One character of the second pass. */
  method CharAt(s: bytes, at: nat) returns (r: Step<bytes>)
    requires at < |s|
    ensures match r
            case Bad => OneChar(s[at..]).None?
            case Ok(text, end) => at < end <= |s| && OneChar(s[at..]) == Some(Escape(text, end - at))
  {
    hide UnicodeEscape;
    Here(s, at, 0);
    if s[at] != BACKSLASH {
      return Ok([s[at]], at + 1);
    }
    var ptr := at + 1;
    if ptr == |s| {
      return Bad;
    }
    Here(s, at, 1);
    if s[ptr] != LETTER_U {
      return Ok([Unescaped(s[ptr])], ptr + 1);
    }
    if ptr + 5 > |s| {
      return Bad;
    }
    var text, end := UnicodeAt(s, at);
    r := Ok(text, end);
  }

  const FIRST_MARK: seq<nat> := [0, 0, 0xC0, 0xE0, 0xF0]

  /** How `parse_string` writes a code point: from the last byte back, six bits at a time. */
  method EncodeBackwards(uc: nat) returns (out: bytes)
    requires uc < 0x110000
    ensures out == Encoded(uc)
  {
    var len := 4;
    if uc < 0x80 { len := 1; } else if uc < 0x800 { len := 2; } else if uc < 0x10000 { len := 3; }
    var u := uc;
    out := [];
    if len >= 4 {
      out := [0x80 + u % 0x40];
      u := u / 0x40;
    }
    if len >= 3 {
      out := [0x80 + u % 0x40] + out;
      u := u / 0x40;
    }
    if len >= 2 {
      out := [0x80 + u % 0x40] + out;
      u := u / 0x40;
    }
    SixBitGroups(uc);
    out := [FIRST_MARK[len] + u] + out;
  }

  lemma {:induction false} SixBitGroups(uc: nat)
    requires uc < 0x110000
    ensures uc / 0x40 / 0x40 == uc / 0x1000 && uc / 0x40 / 0x40 / 0x40 == uc / 0x40000 < 0x10
  {
  }

  lemma {:induction false} CharsStep(s: bytes, at: nat, text: bytes, end: nat)
    requires at < end <= |s| && s[at] != QUOTE && OneChar(s[at..]) == Some(Escape(text, end - at))
    ensures ParseChars(s[at..]) == Prepend(text, ParseChars(s[end..]))
  {
    hide OneChar;
    Here(s, at, 0);
    Tail(s, at, end);
  }

  lemma {:induction false} PrependTwice(a: bytes, b: bytes, p: Parsed<bytes>)
    ensures Prepend(a, Prepend(b, p)) == Prepend(a + b, p)
  {
    if p.Done? {
      assert a + (b + p.value) == (a + b) + p.value;
    }
  }

  /** `parse_string`; `len` is the size of the buffer that the first pass asks for. */
  method ParseStringAt(s: bytes, at: nat) returns (r: Step<bytes>, len: nat)
    requires at <= |s|
    ensures Agrees(r, ParseString(s[at..]), s)
    ensures at < |s| && s[at] == QUOTE && Literal(s[at + 1..]) ==> r.Ok? && |r.value| <= len
  {
    len := 0;
    if Char(s, at) != QUOTE {
      return Bad, 0;
    }
    len := CountString(s, at + 1);
    if Literal(s[at + 1..]) {
      LiteralFits(s[at + 1..]);
    }
    r := CharsAt(s, at + 1);
  }

  method CharsAt(s: bytes, from: nat) returns (r: Step<bytes>)
    requires from <= |s|
    ensures Agrees(r, ParseChars(s[from..]), s)
  {
    var ptr, out := from, [];
    PrependNothing(ParseChars(s[from..]));
    while ptr < |s| && s[ptr] != QUOTE
      invariant from <= ptr <= |s| && ParseChars(s[from..]) == Prepend(out, ParseChars(s[ptr..]))
    {
      var ok, text, end := NextChar(s, ptr, from, out);
      if !ok {
        return Bad;
      }
      out, ptr := out + text, end;
    }
    CharsEnd(s, ptr, out);
    r := Ok(out, if ptr < |s| then ptr + 1 else ptr);
  }

  method NextChar(s: bytes, ptr: nat, ghost from: nat, ghost out: bytes) returns (ok: bool, text: bytes, end: nat)
    requires from <= ptr < |s| && s[ptr] != QUOTE && ParseChars(s[from..]) == Prepend(out, ParseChars(s[ptr..]))
    ensures ok ==> ptr < end <= |s| && OneChar(s[ptr..]) == Some(Escape(text, end - ptr))
    ensures if ok then ParseChars(s[from..]) == Prepend(out + text, ParseChars(s[end..])) else ParseChars(s[from..]).Fail? && OneChar(s[ptr..]).None?
  {
    var c := CharAt(s, ptr);
    Here(s, ptr, 0);
    if c.Bad? {
      return false, [], ptr;
    }
    CharsStep(s, ptr, c.value, c.end);
    hide OneChar, ParseChars;
    PrependTwice(out, c.value, ParseChars(s[c.end..]));
    ok, text, end := true, c.value, c.end;
  }

  /** `parse_string` on a well-formed literal: the value is written into the buffer that the first pass sizes. */
  method ParseLiteral(s: bytes, at: nat) returns (out: array<byte>, end: nat)
    requires at < |s| && s[at] == QUOTE && Literal(s[at + 1..])
    ensures fresh(out) && out.Length == Counted(s[at + 1..]) + 1
    ensures end <= |s| && ParseString(s[at..]).Done? && s[end..] == ParseString(s[at..]).rest && Holds(out, ParseString(s[at..]).value)
  {
    var from := at + 1;
    Here(s, at, 1);
    Here(s, at, 0);
    var len := CountString(s, from);
    out := new byte[len + 1];
    var ptr, ptr2 := from, 0;
    ghost var done: bytes := [];
    PrependNothing(ParseChars(s[from..]));
    while Char(s, ptr) != QUOTE
      invariant from <= ptr <= |s| && Literal(s[ptr..]) && ptr2 == |done| && ptr2 + Counted(s[ptr..]) <= len
      invariant out[..ptr2] == done && ParseChars(s[from..]) == Prepend(done, ParseChars(s[ptr..]))
      decreases |s| - ptr
    {
      ptr, ptr2, done := WriteChar(out, s, ptr, ptr2, from, done);
    }
    CharsEnd(s, ptr, done);
    Fill(out, ptr2, [0]);
    end := ptr + 1;
  }

  /** One character of the second pass, written where the first pass left room for it. */
  method WriteChar(out: array<byte>, s: bytes, ptr: nat, ptr2: nat, ghost from: nat, ghost done: bytes)
    returns (end: nat, end2: nat, ghost now: bytes)
    requires from <= ptr <= |s| && Literal(s[ptr..]) && Char(s, ptr) != QUOTE
    requires ptr2 == |done| && ptr2 + Counted(s[ptr..]) < out.Length
    requires out[..ptr2] == done && ParseChars(s[from..]) == Prepend(done, ParseChars(s[ptr..]))
    modifies out
    ensures ptr < end <= |s| && Literal(s[end..]) && end2 == |now| && end2 + Counted(s[end..]) <= ptr2 + Counted(s[ptr..])
    ensures out[..end2] == now && ParseChars(s[from..]) == Prepend(now, ParseChars(s[end..]))
  {
    hide Literal, Counted, ParseChars, OneChar;
    LiteralHere(s, ptr);
    var ok, text, next := NextChar(s, ptr, from, done);
    RoomFor(s, ptr, next, text);
    Fill(out, ptr2, text);
    end, end2, now := next, ptr2 + |text|, done + text;
  }

  lemma {:induction false} LiteralHere(s: bytes, ptr: nat)
    requires ptr <= |s| && Literal(s[ptr..]) && Char(s, ptr) != QUOTE
    ensures ptr < |s| && s[ptr] != QUOTE && OneChar(s[ptr..]).Some?
  {
    assert s[ptr..] != [];
    Here(s, ptr, 0);
    OneCharFits(s[ptr..]);
  }

  lemma {:induction false} RoomFor(s: bytes, ptr: nat, next: nat, text: bytes)
    requires ptr < next <= |s| && s[ptr] != QUOTE && Literal(s[ptr..]) && OneChar(s[ptr..]) == Some(Escape(text, next - ptr))
    ensures Literal(s[next..]) && |text| + Counted(s[next..]) <= Counted(s[ptr..])
  {
    Here(s, ptr, 0);
    Tail(s, ptr, next);
    OneCharFits(s[ptr..]);
    hide Literal, Counted, OneChar;
  }

  lemma {:induction false} PrependNothing(p: Parsed<bytes>)
    ensures Prepend([], p) == p
  {
    if p.Done? {
      assert [] + p.value == p.value;
    }
  }

  lemma {:induction false} CharsEnd(s: bytes, ptr: nat, out: bytes)
    requires ptr <= |s| && (ptr < |s| ==> s[ptr] == QUOTE)
    ensures Prepend(out, ParseChars(s[ptr..])) == Done(out, if ptr < |s| then s[ptr + 1..] else s[ptr..])
  {
    assert out + [] == out;
    if ptr < |s| {
      Here(s, ptr, 1);
      Here(s, ptr, 0);
    }
  }

  // ---------------------------------------------------------------- numbers

  /** Digits from a position on, added to a number that is already there. */
  method DigitsAt(s: bytes, at: nat, n0: int, ghost before: bytes) returns (n: int, e: nat)
    requires at <= |s| && (forall i :: 0 <= i < |before| ==> IsDigit(before[i], 10)) && n0 == Digits.Number(before, 10)
    ensures at <= e <= |s| && e == at + Run(s[at..], 10)
    ensures forall i :: 0 <= i < e - at ==> IsDigit((s[at..e])[i], 10)
    ensures n == Digits.Number(before + s[at..e], 10)
  {
    n, e := n0, at;
    assert before + s[at..at] == before;
    while e < |s| && 48 <= s[e] <= 57
      invariant at <= e <= |s| && (forall i :: at <= i < e ==> IsDigit(s[i], 10))
      invariant n == Digits.Number(before + s[at..e], 10)
    {
      OneMoreDigit(before, s, at, e);
      n := n * 10 + (s[e] as int - 48);
      e := e + 1;
    }
    assert e < |s| ==> s[at..][e - at] == s[e];
    RunUpTo(s[at..], e - at, 10);
  }

  lemma {:induction false} MoreDigits(ds: bytes, c: byte)
    requires (forall i :: 0 <= i < |ds| ==> IsDigit(ds[i], 10)) && IsDigit(c, 10)
    ensures Digits.Number(ds + [c], 10) == Digits.Number(ds, 10) * 10 + (c as int - 48)
  {
    assert (ds + [c])[..|ds|] == ds;
  }

  lemma {:induction false} OneMoreDigit(before: bytes, s: bytes, at: nat, e: nat)
    requires at <= e < |s| && (forall i :: 0 <= i < |before| ==> IsDigit(before[i], 10)) && forall i :: at <= i <= e ==> IsDigit(s[i], 10)
    ensures Digits.Number(before + s[at..e + 1], 10) == Digits.Number(before + s[at..e], 10) * 10 + (s[e] as int - 48)
  {
    assert s[at..e + 1] == s[at..e] + [s[e]];
    assert before + (s[at..e] + [s[e]]) == (before + s[at..e]) + [s[e]];
    MoreDigits(before + s[at..e], s[e]);
  }

  /** Digits before the point. */
  method WholeAt(s: bytes, at: nat) returns (n: int, e: nat)
    requires at <= |s|
    ensures at <= e <= |s| && s[at..e] == WholeDigits(s[at..]) && n == Digits.Number(s[at..e], 10)
  {
    n, e := 0, at;
    assert s[at..at] == [];
    NumberNone(10);
    if 49 <= Char(s, at) <= 57 {
      n, e := DigitsAt(s, at, 0, []);
      assert [] + s[at..e] == s[at..e] == s[at..][..e - at];
    }
  }

  /** Digits after the point. */
  method FractionAt(s: bytes, at: nat, n0: int, ghost whole: bytes) returns (n: int, scale: nat, e: nat)
    requires at <= |s| && (forall i :: 0 <= i < |whole| ==> IsDigit(whole[i], 10)) && n0 == Digits.Number(whole, 10)
    ensures at <= e <= |s| && scale == |FractionDigits(s[at..])|
    ensures n == Digits.Number(whole + FractionDigits(s[at..]), 10)
    ensures e == if scale == 0 then at else at + 1 + scale
  {
    n, scale, e := n0, 0, at;
    ghost var f := FractionDigits(s[at..]);
    if Char(s, at) == 46 && 48 <= Char(s, at + 1) <= 57 {
      Here(s, at, 1);
      Here(s, at + 1, 0);
      n, e := DigitsAt(s, at + 1, n0, whole);
      scale := e - (at + 1);
      assert s[at + 1..][..scale] == s[at + 1..e];
    } else {
      NoFraction(s, at);
      assert whole + [] == whole;
    }
  }

  lemma {:induction false} NoFraction(s: bytes, at: nat)
    requires at <= |s| && !(Char(s, at) == 46 && 48 <= Char(s, at + 1) <= 57)
    ensures FractionDigits(s[at..]) == []
  {
    if at < |s| {
      Here(s, at, 1);
      if at + 1 < |s| {
        Here(s, at + 1, 0);
      }
    }
  }

  method ExponentAt(s: bytes, at: nat) returns (power: int, e: nat)
    requires at <= |s|
    ensures at <= e <= |s| && ParseExponent(s[at..]) == (power, s[e..])
  {
    power, e := 0, at;
    Look(s, at, 101);
    Look(s, at, 69);
    hide Digits.Number, Run, At, Char;
    if Char(s, at) == 101 || Char(s, at) == 69 {
      Look(s, at + 1, MINUS);
      Look(s, at + 1, 43);
      e := at + 1;
      var negative := Char(s, e) == MINUS;
      if negative || Char(s, e) == 43 {
        Tail(s, at, at + 2);
        e := e + 1;
      }
      power, e := PowerAt(s, e);
      if negative {
        power := -power;
      }
    }
  }

  method PowerAt(s: bytes, at: nat) returns (n: int, e: nat)
    requires at <= |s|
    ensures at <= e <= |s| && e == at + Run(s[at..], 10) && n == Digits.Number(s[at..][..Run(s[at..], 10)], 10) && s[e..] == s[at..][Run(s[at..], 10)..]
  {
    hide Digits.Number, Run;
    NumberNone(10);
    n, e := DigitsAt(s, at, 0, []);
    Tail(s, at, e);
    Cut(s, at, e);
  }

  lemma {:induction false} Cut(s: bytes, at: nat, e: nat)
    requires at <= e <= |s|
    ensures [] + s[at..e] == s[at..e] == s[at..][..e - at]
  {
  }

  /** `parse_number` */
  method ParseNumberAt(s: bytes, at: nat) returns (r: Step<Json>)
    requires at <= |s|
    ensures r.Ok? && Agrees(r, ParseNumber(s[at..]), s)
  {
    hide After, WholeDigits, FractionDigits, ParseExponent, Digits.Number, At, Char;
    var negative := Char(s, at) == MINUS;
    Look(s, at, MINUS);
    var signed := DropAt(s, at, MINUS);
    var w := DropAt(s, signed, 48);
    var n, q := WholeAt(s, w);
    Tail(s, w, q);
    assert |s[w..q]| == q - w;
    var m, scale, f := FractionAt(s, q, n, s[w..q]);
    Tail(s, q, f);
    var power, e := ExponentAt(s, f);
    r := Ok(Number(if negative then -m else m, power - scale), e);
    assert scale == 0 ==> FractionDigits(s[q..]) == [];
  }

  method DropAt(s: bytes, at: nat, c: byte) returns (e: nat)
    requires at <= |s| && c != 0
    ensures at <= e <= |s| && s[e..] == After(c, s[at..])
  {
    Look(s, at, c);
    e := if Char(s, at) == c then at + 1 else at;
  }

  // ---------------------------------------------------------------- values

  /** `parse_value` */
  method ParseValueAt(s: bytes, at: nat) returns (r: Step<Json>)
    requires at <= |s|
    ensures Agrees(r, ParseValue(s[at..]), s)
    decreases |s| - at, 1
  {
    ghost var t := s[at..];
    if StartsWith(s[at..], NULL_TEXT) {
      Here(s, at, 4);
      return Ok(Null, at + 4);
    }
    if StartsWith(s[at..], FALSE_TEXT) {
      Here(s, at, 5);
      return Ok(False, at + 5);
    }
    if StartsWith(s[at..], TRUE_TEXT) {
      Here(s, at, 4);
      return Ok(True, at + 4);
    }
    var c := Char(s, at);
    if c == QUOTE {
      var str, len := ParseStringAt(s, at);
      return if str.Bad? then Bad else Ok(String(str.value), str.end);
    }
    if c == MINUS || 48 <= c <= 57 {
      r := ParseNumberAt(s, at);
      return;
    }
    if c == OPEN_BRACKET {
      r := ParseArrayAt(s, at);
      return;
    }
    if c == OPEN_BRACE {
      r := ParseObjectAt(s, at);
      return;
    }
    r := Bad;
  }

  /** The chain of the values read so far, continued by the rest. */
  ghost function Chain(vs: seq<Json>, tail: Items): Items {
    if vs == [] then tail else Item(vs[0], Chain(vs[1..], tail))
  }

  lemma {:induction false} ChainSnoc(vs: seq<Json>, v: Json, tail: Items)
    ensures Chain(vs + [v], tail) == Chain(vs, Item(v, tail))
  {
    if vs != [] {
      assert (vs + [v])[1..] == vs[1..] + [v];
      ChainSnoc(vs[1..], v, tail);
    } else {
      assert (vs + [v])[1..] == [];
    }
  }

  method Link(vs: seq<Json>) returns (items: Items)
    ensures items == Chain(vs, NoItem)
  {
    items := NoItem;
    var i := |vs|;
    assert vs[..i] == vs;
    while i > 0
      invariant 0 <= i <= |vs| && Chain(vs[..i], items) == Chain(vs, NoItem)
    {
      i := i - 1;
      assert vs[..i + 1] == vs[..i] + [vs[i]];
      ChainSnoc(vs[..i], vs[i], items);
      items := Item(vs[i], items);
    }
  }

  ghost function Linked(vs: seq<Json>, p: Parsed<Items>): Parsed<Items> {
    if p.Fail? then Fail else Done(Chain(vs, p.value), p.rest)
  }

  /** `parse_array` */
  method ParseArrayAt(s: bytes, at: nat) returns (r: Step<Json>)
    requires at < |s| && s[at] == OPEN_BRACKET
    ensures Agrees(r, ParseValue(s[at..]), s)
    decreases |s| - at, 0
  {
    Here(s, at, 1);
    var value := SkipAt(s, at + 1);
    ghost var first := value;
    BracketStep(s, at, value);
    if Char(s, value) == CLOSE_BRACKET {
      Here(s, value, 1);
      return Ok(Array(NoItem), value + 1);
    }
    var vs: seq<Json> := [];
    LinkedNothing(ParseItems(s[first..]));
    var more := true;
    while more
      invariant at < first <= value <= |s|
      invariant more ==> ParseItems(s[first..]) == Linked(vs, ParseItems(s[value..]))
      invariant !more ==> ParseItems(s[first..]) == Done(Chain(vs, NoItem), s[value..])
      decreases more, |s| - value
    {
      var ok, v, next, last := ElementAt(s, at, value, vs, first);
      if !ok {
        return Bad;
      }
      vs, value, more := vs + [v], next, !last;
    }
    var items := Link(vs);
    r := Ok(Array(items), value);
  }

  lemma {:induction false} LinkedNothing(p: Parsed<Items>)
    ensures Linked([], p) == p
  {
  }

  lemma {:induction false} BracketStep(s: bytes, at: nat, value: nat)
    requires at < |s| && s[at] == OPEN_BRACKET && value <= |s| && s[value..] == Skip(s[at + 1..])
    ensures ParseValue(s[at..]) ==
            if Char(s, value) == CLOSE_BRACKET then Done(Array(NoItem), s[value..][1..])
            else var p := ParseItems(s[value..]); if p.Fail? then Fail else Done(Array(p.value), p.rest)
  {
    Here(s, at, 1);
    Here(s, at, 0);
    NotAWord(s[at..]);
    hide ParseItems, StartsWith;
  }

  lemma {:induction false} NotAWord(s: bytes)
    requires s != [] && s[0] in {OPEN_BRACKET, OPEN_BRACE}
    ensures !StartsWith(s, NULL_TEXT) && !StartsWith(s, FALSE_TEXT) && !StartsWith(s, TRUE_TEXT)
  {
    StartsWithIndex(s, NULL_TEXT);
    StartsWithIndex(s, FALSE_TEXT);
    StartsWithIndex(s, TRUE_TEXT);
  }

  /** One element and the comma or bracket after it. */
  method ElementAt(s: bytes, ghost at: nat, value: nat, ghost vs: seq<Json>, ghost first: nat)
    returns (ok: bool, v: Json, next: nat, last: bool)
    requires at < first <= value <= |s| && ParseItems(s[first..]) == Linked(vs, ParseItems(s[value..]))
    ensures !ok ==> ParseItems(s[first..]).Fail?
    ensures ok ==> value < next <= |s|
    ensures ok && !last ==> ParseItems(s[first..]) == Linked(vs + [v], ParseItems(s[next..]))
    ensures ok && last ==> ParseItems(s[first..]) == Done(Chain(vs + [v], NoItem), s[next..])
    decreases |s| - value, 2
  {
    hide ParseItems, ParseValue, Skip, Chain, At, Char;
    ok, v, next, last := false, Null, value, false;
    ItemsStep(s[value..]);
    var from := SkipAt(s, value);
    var p := ParseValueAt(s, from);
    if p.Bad? {
      return;
    }
    v := p.value;
    ghost var left := |s[p.end..]|;
    var t := SkipAt(s, p.end);
    Look(s, t, COMMA);
    Look(s, t, CLOSE_BRACKET);
    next := t + 1;
    if Char(s, t) == COMMA {
      ok := true;
      LinkedSnoc(vs, v, ParseItems(s[next..]));
    } else if Char(s, t) == CLOSE_BRACKET {
      ok, last := true, true;
      ChainSnoc(vs, v, NoItem);
    }
  }

  lemma {:induction false} LinkedSnoc(vs: seq<Json>, v: Json, p: Parsed<Items>)
    ensures Linked(vs + [v], p) == Linked(vs, if p.Fail? then Fail else Done(Item(v, p.value), p.rest))
  {
    if p.Done? {
      ChainSnoc(vs, v, p.value);
    }
  }

  lemma {:induction false} ItemsStep(s: bytes)
    ensures var v := ParseValue(Skip(s));
            && (v.Done? ==> |v.rest| < |s|)
            && ParseItems(s) ==
               if v.Fail? then Fail
               else
                 var t := Skip(v.rest);
                 if At(t, COMMA) then
                   var more := ParseItems(t[1..]);
                   if more.Fail? then Fail else Done(Item(v.value, more.value), more.rest)
                 else if At(t, CLOSE_BRACKET) then Done(Item(v.value, NoItem), t[1..])
                 else Fail
  {
  }

  // ---------------------------------------------------------------- objects

  ghost function MemberChain(ms: seq<(bytes, Json)>, tail: Members): Members {
    if ms == [] then tail else Member(ms[0].0, ms[0].1, MemberChain(ms[1..], tail))
  }

  lemma {:induction false} MemberChainSnoc(ms: seq<(bytes, Json)>, m: (bytes, Json), tail: Members)
    ensures MemberChain(ms + [m], tail) == MemberChain(ms, Member(m.0, m.1, tail))
  {
    if ms != [] {
      assert (ms + [m])[1..] == ms[1..] + [m];
      MemberChainSnoc(ms[1..], m, tail);
    } else {
      assert (ms + [m])[1..] == [];
    }
  }

  method LinkMembers(ms: seq<(bytes, Json)>) returns (members: Members)
    ensures members == MemberChain(ms, NoMember)
  {
    members := NoMember;
    var i := |ms|;
    assert ms[..i] == ms;
    while i > 0
      invariant 0 <= i <= |ms| && MemberChain(ms[..i], members) == MemberChain(ms, NoMember)
    {
      i := i - 1;
      assert ms[..i + 1] == ms[..i] + [ms[i]];
      MemberChainSnoc(ms[..i], ms[i], members);
      members := Member(ms[i].0, ms[i].1, members);
    }
  }

  ghost function LinkedMembers(ms: seq<(bytes, Json)>, p: Parsed<Members>): Parsed<Members> {
    if p.Fail? then Fail else Done(MemberChain(ms, p.value), p.rest)
  }

  lemma {:induction false} LinkedNoMembers(p: Parsed<Members>)
    ensures LinkedMembers([], p) == p
  {
  }

  /** `parse_object` */
  method ParseObjectAt(s: bytes, at: nat) returns (r: Step<Json>)
    requires at < |s| && s[at] == OPEN_BRACE
    ensures Agrees(r, ParseValue(s[at..]), s)
    decreases |s| - at, 0
  {
    Here(s, at, 1);
    var value := SkipAt(s, at + 1);
    ghost var first := value;
    BraceStep(s, at, value);
    if Char(s, value) == CLOSE_BRACE {
      Here(s, value, 1);
      return Ok(Object(NoMember), value + 1);
    }
    var ms: seq<(bytes, Json)> := [];
    LinkedNoMembers(ParseMembers(s[first..]));
    var more := true;
    while more
      invariant at < first <= value <= |s|
      invariant more ==> ParseMembers(s[first..]) == LinkedMembers(ms, ParseMembers(s[value..]))
      invariant !more ==> ParseMembers(s[first..]) == Done(MemberChain(ms, NoMember), s[value..])
      decreases more, |s| - value
    {
      var ok, m, next, last := MemberAt(s, at, value, ms, first);
      if !ok {
        return Bad;
      }
      ms, value, more := ms + [m], next, !last;
    }
    var members := LinkMembers(ms);
    r := Ok(Object(members), value);
  }

  lemma {:induction false} BraceStep(s: bytes, at: nat, value: nat)
    requires at < |s| && s[at] == OPEN_BRACE && value <= |s| && s[value..] == Skip(s[at + 1..])
    ensures ParseValue(s[at..]) ==
            if Char(s, value) == CLOSE_BRACE then Done(Object(NoMember), s[value..][1..])
            else var p := ParseMembers(s[value..]); if p.Fail? then Fail else Done(Object(p.value), p.rest)
  {
    Here(s, at, 1);
    Here(s, at, 0);
    NotAWord(s[at..]);
    hide ParseMembers, StartsWith;
  }

  /** One name, its colon, its value, and the comma or brace after it. */
  method MemberAt(s: bytes, ghost at: nat, value: nat, ghost ms: seq<(bytes, Json)>, ghost first: nat)
    returns (ok: bool, m: (bytes, Json), next: nat, last: bool)
    requires at < first <= value <= |s| && ParseMembers(s[first..]) == LinkedMembers(ms, ParseMembers(s[value..]))
    ensures !ok ==> ParseMembers(s[first..]).Fail?
    ensures ok ==> value < next <= |s|
    ensures ok && !last ==> ParseMembers(s[first..]) == LinkedMembers(ms + [m], ParseMembers(s[next..]))
    ensures ok && last ==> ParseMembers(s[first..]) == Done(MemberChain(ms + [m], NoMember), s[next..])
    decreases |s| - value, 2
  {
    hide ParseMembers, ParseValue, ParseString, Skip, MemberChain, At, Char;
    ok, m, next, last := false, ([], Null), value, false;
    MembersStep(s[value..]);
    var from := SkipAt(s, value);
    var name, len := ParseStringAt(s, from);
    if name.Bad? {
      return;
    }
    assert |s[name.end..]| < |s[value..]|;
    var colon := SkipAt(s, name.end);
    Look(s, colon, COLON);
    if Char(s, colon) != COLON {
      return;
    }
    var start := SkipAt(s, colon + 1);
    var p := ParseValueAt(s, start);
    if p.Bad? {
      return;
    }
    m := (name.value, p.value);
    var t := SkipAt(s, p.end);
    ok, next, last := MemberEnd(s, value, t, m, ms);
  }

  method MemberEnd(s: bytes, ghost value: nat, t: nat, ghost m: (bytes, Json), ghost ms: seq<(bytes, Json)>)
    returns (ok: bool, next: nat, last: bool)
    requires value < t <= |s|
    requires ParseMembers(s[value..]) ==
             if At(s[t..], COMMA) then
               var more := ParseMembers(s[t..][1..]);
               if more.Fail? then Fail else Done(Member(m.0, m.1, more.value), more.rest)
             else if At(s[t..], CLOSE_BRACE) then Done(Member(m.0, m.1, NoMember), s[t..][1..])
             else Fail
    ensures !ok ==> ParseMembers(s[value..]).Fail?
    ensures ok ==> value < next <= |s|
    ensures ok && !last ==> LinkedMembers(ms, ParseMembers(s[value..])) == LinkedMembers(ms + [m], ParseMembers(s[next..]))
    ensures ok && last ==> LinkedMembers(ms, ParseMembers(s[value..])) == Done(MemberChain(ms + [m], NoMember), s[next..])
  {
    hide ParseMembers, MemberChain, At, Char;
    Look(s, t, COMMA);
    Look(s, t, CLOSE_BRACE);
    ok, next, last := false, t, false;
    if Char(s, t) == COMMA {
      ok, next := true, t + 1;
      if ParseMembers(s[next..]).Done? {
        MemberChainSnoc(ms, m, ParseMembers(s[next..]).value);
      }
    } else if Char(s, t) == CLOSE_BRACE {
      ok, next, last := true, t + 1, true;
      MemberChainSnoc(ms, m, NoMember);
    }
  }

  lemma {:induction false} MembersStep(s: bytes)
    ensures var name := ParseString(Skip(s));
            && (name.Done? ==> |name.rest| < |s|)
            && ParseMembers(s) ==
               if name.Fail? || !At(Skip(name.rest), COLON) then Fail
               else
                 var v := ParseValue(Skip(Skip(name.rest)[1..]));
                 if v.Fail? then Fail
                 else
                   var t := Skip(v.rest);
                   if At(t, COMMA) then
                     var more := ParseMembers(t[1..]);
                     if more.Fail? then Fail else Done(Member(name.value, v.value, more.value), more.rest)
                   else if At(t, CLOSE_BRACE) then Done(Member(name.value, v.value, NoMember), t[1..])
                   else Fail
  {
  }
}
