/**
  Every text of the JSON grammar (sections 2 to 7 of RFC 8259), whatever its white space and however its
  strings and numbers are spelled, is read as the value it stands for.
  */
module JsonGrammar {
  import opened Bytes
  import opened Sequences
  import opened Utf8Bytes
  import D = Digits
  import U = Utf
  import opened Json
  import R = JsonRoundTrip

  // ---------------------------------------------------------------- texts

  /** A character of a string, and how it is written. */
  datatype Char = Char(cp: nat, spelling: bytes)

  datatype Exponent = NoExponent | Exponent(letter: byte, sign: bytes, digits: bytes)

  /** A text with all its white space; `gap` follows an opening bracket or brace. */
  datatype Text =
    | Word(word: Json)
    | Numeral(negative: bool, whole: bytes, fraction: bytes, exponent: Exponent)
    | Quoted(chars: seq<Char>)
    | List(gap: bytes, elements: Elements)
    | Record(gap: bytes, fields: Fields)

  datatype Elements = NoElement | Element(before: bytes, value: Text, after: bytes, next: Elements)

  datatype Fields = NoField | Field(before: bytes, name: seq<Char>, colon: bytes, start: bytes, value: Text, after: bytes, next: Fields)

  function FractionPart(fraction: bytes): bytes {
    if fraction == [] then [] else [46] + fraction
  }

  function ExponentPart(e: Exponent): bytes {
    if e.NoExponent? then [] else [e.letter] + (e.sign + e.digits)
  }

  /** The text, and then `rest`. */
  function Write(t: Text, rest: bytes): (r: bytes)
    decreases t, 0
  {
    match t
    case Word(w) => (match w case True => [116, 114, 117, 101] case False => [102, 97, 108, 115, 101] case _ => [110, 117, 108, 108]) + rest
    case Numeral(negative, whole, fraction, e) =>
      (if negative then [45] else []) + (whole + (FractionPart(fraction) + (ExponentPart(e) + rest)))
    case Quoted(chars) => [34] + WriteChars(chars, [34] + rest)
    case List(gap, elements) => [91] + (gap + WriteElements(elements, [93] + rest))
    case Record(gap, fields) => [123] + (gap + WriteFields(fields, [125] + rest))
  }

  function WriteChars(chars: seq<Char>, rest: bytes): (r: bytes) {
    if chars == [] then rest else chars[0].spelling + WriteChars(chars[1..], rest)
  }

  function WriteElements(es: Elements, rest: bytes): (r: bytes) {
    match es
    case NoElement => rest
    case Element(before, v, after, next) =>
      before + Write(v, after + (if next.Element? then [44] + WriteElements(next, rest) else rest))
  }

  function WriteFields(fs: Fields, rest: bytes): (r: bytes) {
    match fs
    case NoField => rest
    case Field(before, name, colon, start, v, after, next) =>
      before + ([34] + WriteChars(name, [34] + (colon + ([58] + (start
      + Write(v, after + (if next.Field? then [44] + WriteFields(next, rest) else rest)))))))
  }

  // ---------------------------------------------------------------- the grammar

  /** The byte is the hexadecimal digit `v`, in either case. */
  predicate HexIs(c: byte, v: int) {
    if v < 10 then c == 48 + v else c == 65 + v - 10 || c == 97 + v - 10
  }

  /** A backslash, a `u` and four hexadecimal digits for a 16-bit unit. */
  predicate UnitEscape(s: bytes, u: nat) {
    |s| == 6 && s[0] == 92 && s[1] == 117
    && HexIs(s[2], u / 4096) && HexIs(s[3], u / 256 % 16) && HexIs(s[4], u / 16 % 16) && HexIs(s[5], u % 16)
  }

  /** The letters that stand for a character after a backslash. */
  predicate Short(l: byte, cp: nat) {
    || (l == 34 && cp == 34) || (l == 92 && cp == 92) || (l == 47 && cp == 47) || (l == 98 && cp == 8)
    || (l == 102 && cp == 12) || (l == 110 && cp == 10) || (l == 114 && cp == 13) || (l == 116 && cp == 9)
  }

  /** As it is, after a backslash, or by its units in UTF-16. */
  predicate Spells(c: Char) {
    && 0 < c.cp && (c.cp < 0xD800 || 0xE000 <= c.cp < 0x110000)
    && (|| (c.spelling == Encoded(c.cp) && c.cp != 34 && c.cp != 92)
        || (|c.spelling| == 2 && c.spelling[0] == 92 && Short(c.spelling[1], c.cp))
        || (c.cp < 0x10000 && UnitEscape(c.spelling, c.cp))
        || (c.cp >= 0x10000 && |c.spelling| == 12
            && UnitEscape(c.spelling[..6], 0xD800 + (c.cp - 0x10000) / 0x400) && UnitEscape(c.spelling[6..], 0xDC00 + (c.cp - 0x10000) % 0x400)))
  }

  ghost predicate AllSpelled(chars: seq<Char>) {
    forall i :: 0 <= i < |chars| ==> Spells(chars[i])
  }

  ghost predicate DigitsOnly(d: bytes) {
    forall i :: 0 <= i < |d| ==> 48 <= d[i] <= 57
  }

  ghost predicate LawfulExponent(e: Exponent) {
    e.Exponent? ==> (e.letter == 69 || e.letter == 101) && e.sign in {[], [43], [45]} && e.digits != [] && DigitsOnly(e.digits)
  }

  ghost predicate Lawful(t: Text) {
    match t
    case Word(w) => w.Null? || w.False? || w.True?
    case Numeral(_, whole, fraction, e) =>
      whole != [] && DigitsOnly(whole) && (whole[0] == 48 ==> whole == [48]) && DigitsOnly(fraction) && LawfulExponent(e)
    case Quoted(chars) => AllSpelled(chars)
    case List(gap, elements) => R.Blanks(gap) && LawfulElements(elements)
    case Record(gap, fields) => R.Blanks(gap) && LawfulFields(fields)
  }

  ghost predicate LawfulElements(es: Elements) {
    es.Element? ==> R.Blanks(es.before) && Lawful(es.value) && R.Blanks(es.after) && LawfulElements(es.next)
  }

  ghost predicate LawfulFields(fs: Fields) {
    fs.Field? ==>
      && R.Blanks(fs.before) && AllSpelled(fs.name) && R.Blanks(fs.colon) && R.Blanks(fs.start)
      && Lawful(fs.value) && R.Blanks(fs.after) && LawfulFields(fs.next)
  }

  // ---------------------------------------------------------------- what a text stands for

  function Points(chars: seq<Char>): (r: seq<nat>) {
    if chars == [] then [] else [chars[0].cp] + Points(chars[1..])
  }

  /** A string stands for its characters, in UTF-8. */
  function Chars(chars: seq<Char>): (r: bytes) {
    U.Utf8Of(Points(chars))
  }

  function ExponentValue(e: Exponent): int
    requires LawfulExponent(e)
  {
    if e.NoExponent? then 0
    else
      var v: int := D.Number(e.digits, 10);
      if e.sign == [45] then -v else v
  }

  function Meaning(t: Text): (j: Json)
    requires Lawful(t)
  {
    match t
    case Word(w) => w
    case Numeral(negative, whole, fraction, e) =>
      var m: int := D.Number(whole + fraction, 10);
      Number(if negative then -m else m, ExponentValue(e) - |fraction|)
    case Quoted(chars) => String(Chars(chars))
    case List(_, elements) => Array(MeaningElements(elements))
    case Record(_, fields) => Object(MeaningFields(fields))
  }

  function MeaningElements(es: Elements): (r: Items)
    requires LawfulElements(es)
  {
    if es.NoElement? then NoItem else Item(Meaning(es.value), MeaningElements(es.next))
  }

  function MeaningFields(fs: Fields): (r: Members)
    requires LawfulFields(fs)
  {
    if fs.NoField? then NoMember else Member(Chars(fs.name), Meaning(fs.value), MeaningFields(fs.next))
  }

  // ---------------------------------------------------------------- strings

  lemma {:induction false} HexValue(c: byte, v: int)
    requires 0 <= v < 16 && HexIs(c, v)
    ensures D.IsDigit(c, 16) && D.DigitValue(c) == v
  {
  }

  lemma {:induction false} UnitRead(s: bytes, u: nat, rest: bytes)
    requires UnitEscape(s, u) && u < 0x10000
    ensures Hex4((s + rest)[2..]) == u
  {
    var h := (s + rest)[2..];
    assert h[0] == s[2] && h[1] == s[3] && h[2] == s[4] && h[3] == s[5];
    HexValue(s[2], u / 4096);
    HexValue(s[3], u / 256 % 16);
    HexValue(s[4], u / 16 % 16);
    HexValue(s[5], u % 16);
    hide HexIs;
    FourHex(u);
  }

  lemma {:induction false} FourHex(u: nat)
    ensures u == ((u / 4096 * 16 + u / 256 % 16) * 16 + u / 16 % 16) * 16 + u % 16
  {
    assert u / 256 == u / 16 / 16 && u / 4096 == u / 16 / 16 / 16;
  }

  lemma {:induction false} ByUnit(s: bytes, cp: nat, rest: bytes)
    requires UnitEscape(s, cp) && 0 < cp < 0x10000 && (cp < 0xD800 || 0xE000 <= cp)
    ensures ParseChars(s + rest) == Prepend(Encoded(cp), ParseChars(rest))
  {
    UnitRead(s, cp, rest);
    hide Hex4, Encoded;
    assert (s + rest)[0] == 92 && (s + rest)[1] == 117 && (s + rest)[6..] == rest;
    assert OneChar(s + rest) == Some(Escape(Encoded(cp), 6));
  }

  lemma {:induction false} PairEscape(t: bytes, high: nat, low: nat)
    requires |t| >= 12 && t[0] == 92 && t[1] == 117 && t[6] == 92 && t[7] == 117
    requires 0xD800 <= high < 0xDC00 && 0xDC00 <= low < 0xE000 && Hex4(t[2..]) == high && Hex4(t[8..]) == low
    ensures OneChar(t) == Some(Escape(Encoded(0x10000 + (high - 0xD800) * 0x400 + (low - 0xDC00)), 12))
  {
    hide Hex4, Encoded;
    assert high % 0x400 == high - 0xD800 && low % 0x400 == low - 0xDC00;
  }

  lemma {:induction false} TwoUnits(s: bytes, high: nat, low: nat, rest: bytes)
    requires |s| == 12 && UnitEscape(s[..6], high) && UnitEscape(s[6..], low) && high < 0x10000 && low < 0x10000
    ensures var t := s + rest;
            t[0] == 92 && t[1] == 117 && t[6] == 92 && t[7] == 117 && t[12..] == rest && Hex4(t[2..]) == high && Hex4(t[8..]) == low
  {
    var t := s + rest;
    UnitRead(s[..6], high, s[6..] + rest);
    UnitRead(s[6..], low, rest);
    assert s[..6][0] == s[0] && s[..6][1] == s[1] && s[6..][0] == s[6] && s[6..][1] == s[7];
    hide Hex4, HexIs;
    assert s[..6] + (s[6..] + rest) == t && t[8..] == (s[6..] + rest)[2..];
  }

  lemma {:induction false} ByPair(s: bytes, cp: nat, rest: bytes)
    requires 0x10000 <= cp < 0x110000 && |s| == 12
    requires UnitEscape(s[..6], 0xD800 + (cp - 0x10000) / 0x400) && UnitEscape(s[6..], 0xDC00 + (cp - 0x10000) % 0x400)
    ensures ParseChars(s + rest) == Prepend(Encoded(cp), ParseChars(rest))
  {
    hide Hex4, Encoded, UnitEscape, OneChar;
    var high, low := 0xD800 + (cp - 0x10000) / 0x400, 0xDC00 + (cp - 0x10000) % 0x400;
    TwoUnits(s, high, low, rest);
    PairEscape(s + rest, high, low);
    assert 0x10000 + (high - 0xD800) * 0x400 + (low - 0xDC00) == cp;
  }

  lemma {:induction false} ByLetter(s: bytes, cp: nat, rest: bytes)
    requires |s| == 2 && s[0] == 92 && Short(s[1], cp)
    ensures ParseChars(s + rest) == Prepend(Encoded(cp), ParseChars(rest))
  {
    assert (s + rest)[0] == 92 && (s + rest)[1] == s[1] && (s + rest)[2..] == rest;
    assert OneChar(s + rest) == Some(Escape([cp], 2));
  }

  lemma {:induction false} PrependTwice(a: bytes, b: bytes, p: Parsed<bytes>)
    ensures Prepend(a, Prepend(b, p)) == Prepend(a + b, p)
  {
    if p.Done? {
      Assoc(a, b, p.value);
    }
  }

  lemma {:induction false} AsItIs(b: bytes, rest: bytes)
    requires forall i :: 0 <= i < |b| ==> b[i] != 34 && b[i] != 92
    ensures ParseChars(b + rest) == Prepend(b, ParseChars(rest))
  {
    if b == [] {
      assert b + rest == rest;
      NothingPrepended(ParseChars(rest));
    } else {
      var s := b + rest;
      assert s[0] == b[0] && s[1..] == b[1..] + rest && b == [b[0]] + b[1..];
      AsItIs(b[1..], rest);
      PrependTwice([b[0]], b[1..], ParseChars(rest));
    }
  }

  lemma {:induction false} NothingPrepended(p: Parsed<bytes>)
    ensures Prepend([], p) == p
  {
    if p.Done? {
      assert [] + p.value == p.value;
    }
  }

  lemma {:induction false} EncodedPlain(cp: nat)
    requires cp != 34 && cp != 92
    ensures forall i :: 0 <= i < |Encoded(cp)| ==> Encoded(cp)[i] != 34 && Encoded(cp)[i] != 92
  {
  }

  /** However a character is spelled, it is read as its UTF-8 form. */
  lemma {:induction false} CharRead(c: Char, rest: bytes)
    requires Spells(c)
    ensures ParseChars(c.spelling + rest) == Prepend(Encoded(c.cp), ParseChars(rest))
  {
    if |c.spelling| == 2 && c.spelling[0] == 92 && Short(c.spelling[1], c.cp) {
      ByLetter(c.spelling, c.cp, rest);
    } else if c.cp < 0x10000 && UnitEscape(c.spelling, c.cp) {
      ByUnit(c.spelling, c.cp, rest);
    } else if c.spelling == Encoded(c.cp) && c.cp != 34 && c.cp != 92 {
      EncodedPlain(c.cp);
      AsItIs(c.spelling, rest);
    } else {
      ByPair(c.spelling, c.cp, rest);
    }
  }

  // ---------------------------------------------------------------- escapes that stand for no character

  lemma {:induction false} Dropped(t: bytes, n: nat)
    requires t != [] && t[0] == 92 && n <= |t| && OneChar(t) == Some(Escape([], n))
    ensures ParseChars(t) == ParseChars(t[n..])
  {
    NothingPrepended(ParseChars(t[n..]));
    hide OneChar;
  }

  /** A zero, a second half on its own, and a first half that no other escape follows are passed over. */
  lemma {:induction false} HalfDropped(s: bytes, u: nat, rest: bytes)
    requires UnitEscape(s, u) && u < 0x10000
    requires u == 0 || 0xDC00 <= u < 0xE000 || (0xD800 <= u < 0xDC00 && !(|rest| >= 6 && rest[0] == 92 && rest[1] == 117))
    ensures ParseChars(s + rest) == ParseChars(rest)
  {
    var t := s + rest;
    UnitRead(s, u, rest);
    hide Hex4;
    assert t[0] == 92 && t[1] == 117 && t[6..] == rest && (|t| > 7 ==> t[6] == rest[0] && t[7] == rest[1]);
    assert OneChar(t) == Some(Escape([], 6));
    Dropped(t, 6);
  }

  /** A first half and an escape that is no second half are passed over together. */
  lemma {:induction false} BadPairDropped(s: bytes, high: nat, low: nat, rest: bytes)
    requires |s| == 12 && UnitEscape(s[..6], high) && UnitEscape(s[6..], low)
    requires 0xD800 <= high < 0xDC00 && low < 0x10000 && !(0xDC00 <= low < 0xE000)
    ensures ParseChars(s + rest) == ParseChars(rest)
  {
    var t := s + rest;
    TwoUnits(s, high, low, rest);
    hide Hex4, UnitEscape;
    assert OneChar(t) == Some(Escape([], 12));
    Dropped(t, 12);
  }

  /** So is an escape with a byte among its four that is no hexadecimal digit. */
  lemma {:induction false} NoHexDropped(s: bytes, i: nat, rest: bytes)
    requires |s| == 6 && s[0] == 92 && s[1] == 117 && 2 <= i < 6
    requires !(48 <= s[i] <= 57) && !(65 <= s[i] <= 70) && !(97 <= s[i] <= 102)
    ensures ParseChars(s + rest) == ParseChars(rest)
  {
    var t := s + rest;
    assert t[2..][0] == s[2] && t[2..][1] == s[3] && t[2..][2] == s[4] && t[2..][3] == s[5] && t[6..] == rest;
    assert Hex4(t[2..]) == 0;
    hide Hex4;
    assert OneChar(t) == Some(Escape([], 6));
    Dropped(t, 6);
  }

  lemma {:induction false} CharsRead(chars: seq<Char>, rest: bytes)
    requires AllSpelled(chars)
    ensures ParseChars(WriteChars(chars, [34] + rest)) == Done(Chars(chars), rest)
  {
    if chars == [] {
      assert ([34] + rest)[0] == 34 && ([34] + rest)[1..] == rest;
    } else {
      assert Spells(chars[0]);
      CharsRead(chars[1..], rest);
      CharRead(chars[0], WriteChars(chars[1..], [34] + rest));
      assert Points(chars)[1..] == Points(chars[1..]);
      hide ParseChars, Spells, Encoded;
    }
  }

  /** A string is read as its characters, however each of them is spelled. */
  lemma {:induction false} StringRead(chars: seq<Char>, rest: bytes)
    requires AllSpelled(chars)
    ensures ParseString([34] + WriteChars(chars, [34] + rest)) == Done(Chars(chars), rest)
  {
    var inner := WriteChars(chars, [34] + rest);
    CharsRead(chars, rest);
    assert ([34] + inner)[0] == 34 && ([34] + inner)[1..] == inner;
    hide ParseChars, WriteChars, Chars;
  }

  // ---------------------------------------------------------------- numbers

  lemma {:induction false} DigitsRead(d: bytes, t: bytes)
    requires DigitsOnly(d) && (t != [] ==> !(48 <= t[0] <= 57))
    ensures D.Run(d + t, 10) == |d| && (d + t)[..|d|] == d && (d + t)[|d|..] == t
  {
    assert forall i :: 0 <= i < |d| ==> (d + t)[i] == d[i];
    assert t != [] ==> (d + t)[|d|] == t[0];
    D.RunUpTo(d + t, |d|, 10);
  }

  lemma {:induction false} ExponentRead(e: Exponent, rest: bytes)
    requires LawfulExponent(e) && R.EndsNumber(rest)
    ensures ParseExponent(ExponentPart(e) + rest) == (ExponentValue(e), rest)
  {
    if e.NoExponent? {
      assert [] + rest == rest;
    } else {
      var t := e.digits + rest;
      DigitsRead(e.digits, rest);
      ExponentSign(e, t);
      assert ExponentPart(e) + rest == [e.letter] + (e.sign + t) by { Assoc([e.letter], e.sign + e.digits, rest); Assoc(e.sign, e.digits, rest); }
      hide D.Run, D.Number, ExponentPart;
    }
  }

  lemma {:induction false} ExponentSign(e: Exponent, t: bytes)
    requires e.Exponent? && LawfulExponent(e) && t != [] && 48 <= t[0] <= 57
    ensures var s := [e.letter] + (e.sign + t);
            && s[0] == e.letter && (At(s[1..], MINUS) <==> e.sign == [45]) && (At(s[1..], 43) <==> e.sign == [43])
            && (if e.sign == [] then s[1..] == t else s[2..] == t)
  {
    var s := [e.letter] + (e.sign + t);
    assert s[1..] == e.sign + t;
    assert e.sign == [] ==> e.sign + t == t;
  }

  /** What follows the digits of a numeral is no digit. */
  lemma {:induction false} NoDigitAfter(fraction: bytes, e: Exponent, rest: bytes)
    requires LawfulExponent(e) && R.EndsNumber(rest)
    ensures var t := ExponentPart(e) + rest; (t != [] ==> !(48 <= t[0] <= 57)) && !At(t, 46)
    ensures var t := FractionPart(fraction) + (ExponentPart(e) + rest); t != [] ==> !(48 <= t[0] <= 57)
  {
    var t := ExponentPart(e) + rest;
    assert e.NoExponent? ==> t == rest;
    assert FractionPart(fraction) == [] ==> FractionPart(fraction) + t == t;
  }

  lemma {:induction false} FractionRead(fraction: bytes, t: bytes)
    requires DigitsOnly(fraction) && (t != [] ==> !(48 <= t[0] <= 57)) && !At(t, 46)
    ensures var s := FractionPart(fraction) + t;
            FractionDigits(s) == fraction && (if fraction == [] then s == t else s[1 + |fraction|..] == t)
  {
    if fraction == [] {
      assert [] + t == t;
    } else {
      var u := fraction + t;
      Assoc([46], fraction, t);
      DigitsRead(fraction, t);
      AfterPoint(u, |fraction|);
      hide D.Run;
    }
  }

  lemma {:induction false} AfterPoint(u: bytes, n: nat)
    requires n <= |u|
    ensures var s := [46] + u; s[0] == 46 && s[1..] == u && s[1 + n..] == u[n..]
  {
  }

  lemma {:induction false} WholeRead(whole: bytes, t: bytes)
    requires whole != [] && DigitsOnly(whole) && (whole[0] == 48 ==> whole == [48]) && (t != [] ==> !(48 <= t[0] <= 57))
    ensures var s := After(48, whole + t);
            && WholeDigits(s) == (if whole == [48] then [] else whole) && s[|WholeDigits(s)|..] == t
  {
    var s := whole + t;
    assert s[0] == whole[0];
    if whole == [48] {
      assert s[1..] == t;
      assert t[0..] == t;
    } else {
      DigitsRead(whole, t);
    }
  }

  lemma {:induction false} LeadingZero(d: bytes)
    requires DigitsOnly(d)
    ensures D.Number([48] + d, 10) == D.Number(d, 10)
  {
    var s := [48] + d;
    if d == [] {
      assert s[..0] == [];
    } else {
      LeadingZero(d[..|d| - 1]);
      assert s[..|s| - 1] == [48] + d[..|d| - 1];
    }
  }

  /** How a number is put together from its parts. */
  lemma {:induction false} NumberBy(s: bytes, t1: bytes, whole: bytes, t2: bytes, fraction: bytes, t3: bytes, power: int, rest: bytes)
    requires After(MINUS, s) == t1 && WholeDigits(After(48, t1)) == whole && After(48, t1)[|whole|..] == t2
    requires FractionDigits(t2) == fraction && (if fraction == [] then t2 == t3 else t2[1 + |fraction|..] == t3)
    requires ParseExponent(t3) == (power, rest) && DigitsOnly(whole + fraction)
    ensures var m: int := D.Number(whole + fraction, 10);
            ParseNumber(s) == Done(Number(if At(s, MINUS) then -m else m, power - |fraction|), rest)
  {
    hide After, WholeDigits, FractionDigits, ParseExponent, D.Number;
  }

  /** A numeral is read as the number its digits, its point and its exponent give. */
  lemma {:induction false} NumeralRead(t: Text, rest: bytes)
    requires t.Numeral? && Lawful(t) && R.EndsNumber(rest)
    ensures ParseNumber(Write(t, rest)) == Done(Meaning(t), rest)
  {
    hide After, WholeDigits, FractionDigits, ParseExponent, FractionPart, ExponentPart, D.Number, R.EndsNumber, ExponentValue, ParseNumber, Write, DigitsOnly,
      LawfulExponent;
    WriteNumeral(t, rest);
    var t3 := ExponentPart(t.exponent) + rest;
    var t2 := FractionPart(t.fraction) + t3;
    var t1 := t.whole + t2;
    var whole := if t.whole == [48] then [] else t.whole;
    FirstDigit(t.whole, t.fraction, t2);
    SignRead(t.negative, t1);
    NoDigitAfter(t.fraction, t.exponent, rest);
    WholeRead(t.whole, t2);
    FractionRead(t.fraction, t3);
    ExponentRead(t.exponent, rest);
    MantissaOf(t.whole, t.fraction);
    NumberBy(Write(t, rest), t1, whole, t2, t.fraction, t3, ExponentValue(t.exponent), rest);
  }

  lemma {:induction false} FirstDigit(whole: bytes, fraction: bytes, t: bytes)
    requires whole != [] && DigitsOnly(whole) && DigitsOnly(fraction)
    ensures (whole + t)[0] != 45 && DigitsOnly((if whole == [48] then [] else whole) + fraction)
  {
  }

  lemma {:induction false} WriteNumeral(t: Text, rest: bytes)
    requires t.Numeral?
    ensures Write(t, rest) == (if t.negative then [45] else []) + (t.whole + (FractionPart(t.fraction) + (ExponentPart(t.exponent) + rest)))
  {
  }

  lemma {:induction false} SignRead(negative: bool, t: bytes)
    requires t != [] && t[0] != 45
    ensures var s := (if negative then [45] else []) + t; After(MINUS, s) == t && (At(s, MINUS) <==> negative)
  {
    var s := (if negative then [45] else []) + t;
    if negative {
      assert s[0] == 45 && s[1..] == t;
    } else {
      assert s == t;
    }
  }

  lemma {:induction false} MantissaOf(whole: bytes, fraction: bytes)
    requires DigitsOnly(whole) && DigitsOnly(fraction)
    ensures D.Number((if whole == [48] then [] else whole) + fraction, 10) == D.Number(whole + fraction, 10)
  {
    if whole == [48] {
      LeadingZero(fraction);
      assert [] + fraction == fraction;
    }
  }

  // ---------------------------------------------------------------- the value of a number

  function Pow10(n: nat): (r: real)
    ensures r > 0.0
  {
    if n == 0 then 1.0 else 10.0 * Pow10(n - 1)
  }

  /** Ten to any power. */
  function Tens(e: int): (r: real)
    ensures r > 0.0
  {
    if e >= 0 then Pow10(e) else 1.0 / Pow10(-e)
  }

  /** What the parser's pair of mantissa and exponent stands for. */
  function Value(mantissa: int, exponent: int): real {
    mantissa as real * Tens(exponent)
  }

  lemma {:induction false} TensStep(e: int)
    ensures Tens(e + 1) == 10.0 * Tens(e)
  {
    if e < -1 {
      var p := Pow10(-e - 1);
      assert Pow10(-e) == 10.0 * p;
      assert 1.0 / p == 10.0 * (1.0 / (10.0 * p));
    } else if e == -1 {
      assert Pow10(1) == 10.0 * Pow10(0);
    }
  }

  lemma {:induction false} Swap(x: real, p: real)
    ensures (10.0 * x) * p == x * (10.0 * p)
  {
  }

  lemma {:induction false} PowStep(n: nat)
    ensures Pow10(0) == 1.0 && Pow10(n + 1) == 10.0 * Pow10(n)
  {
  }

  lemma {:induction false} TensSplit(e: int, n: nat)
    ensures Tens(e) == Tens(e - n) * Pow10(n)
  {
    hide Tens, Pow10;
    if n == 0 {
      PowStep(0);
    } else {
      TensSplit(e, n - 1);
      TensStep(e - n);
      PowStep(n - 1);
      assert e - n + 1 == e - (n - 1);
      Swap(Tens(e - n), Pow10(n - 1));
    }
  }

  lemma {:induction false} NumberSnoc(a: bytes, b: bytes)
    requires DigitsOnly(a) && DigitsOnly(b) && b != []
    ensures D.Number(a + b, 10) == 10 * D.Number(a + b[..|b| - 1], 10) + D.DigitValue(b[|b| - 1])
  {
    assert (a + b)[|a + b| - 1] == b[|b| - 1] && (a + b)[..|a + b| - 1] == a + b[..|b| - 1];
  }

  /** A number with `k` zeros after it. */
  function Shifted(n: nat, k: nat): nat {
    if k == 0 then n else 10 * Shifted(n, k - 1)
  }

  lemma {:induction false} ShiftedValue(n: nat, k: nat)
    ensures Shifted(n, k) as real == n as real * Pow10(k)
  {
    if k > 0 {
      ShiftedValue(n, k - 1);
      var x, p := n as real, Pow10(k - 1);
      assert x * (10.0 * p) == 10.0 * (x * p);
    }
  }

  lemma {:induction false} NumberConcat(a: bytes, b: bytes)
    requires DigitsOnly(a) && DigitsOnly(b)
    ensures D.Number(a + b, 10) == Shifted(D.Number(a, 10), |b|) + D.Number(b, 10)
  {
    hide D.Number, D.DigitValue;
    if b == [] {
      assert a + b == a;
      D.NumberNone(10);
    } else {
      var c := b[..|b| - 1];
      assert [] + b == b && [] + c == c;
      NumberConcat(a, c);
      NumberSnoc(a, b);
      NumberSnoc([], b);
    }
  }

  /** The number read is whole part plus fraction, by its places, times ten to the exponent. */
  lemma {:induction false} NumeralValue(t: Text)
    requires t.Numeral? && Lawful(t)
    ensures var whole, fraction := D.Number(t.whole, 10) as real, D.Number(t.fraction, 10) as real;
            var m := (whole + fraction / Pow10(|t.fraction|)) * Tens(ExponentValue(t.exponent));
            Value(Meaning(t).mantissa, Meaning(t).exponent) == if t.negative then -m else m
  {
    hide D.Number, Tens, Pow10, ExponentValue;
    var n, e := |t.fraction|, ExponentValue(t.exponent);
    var w, f, p, x := D.Number(t.whole, 10) as real, D.Number(t.fraction, 10) as real, Pow10(n), Tens(e - n);
    NumberConcat(t.whole, t.fraction);
    ShiftedValue(D.Number(t.whole, 10), n);
    hide Shifted;
    TensSplit(e, n);
    var m: int := D.Number(t.whole + t.fraction, 10);
    assert Meaning(t) == Number(if t.negative then -m else m, e - n);
    hide Meaning, Lawful;
    Places(w, f, p, x);
    assert (-m) as real == -(w * p + f);
  }

  lemma {:induction false} Places(w: real, f: real, p: real, x: real)
    requires p > 0.0
    ensures (w * p + f) * x == (w + f / p) * (x * p)
    ensures -(w * p + f) * x == -((w + f / p) * (x * p))
  {
    var q := f / p;
    assert q * p == f;
    assert (w + q) * (x * p) == ((w + q) * p) * x;
    assert (w + q) * p == w * p + f;
  }

  // ---------------------------------------------------------------- values

  lemma {:induction false} WordRead(w: Json, rest: bytes)
    requires w.Null? || w.False? || w.True?
    ensures ParseValue(Write(Word(w), rest)) == Done(w, rest)
  {
    R.LiteralBack(w, rest);
  }

  /** What a text starts with: nothing that would be skipped, and no closing bracket. */
  lemma {:induction false} Starts(t: Text, rest: bytes)
    requires Lawful(t)
    ensures var s := Write(t, rest); s != [] && R.Opens(s[0]) && Skip(s) == s
    ensures t.Numeral? ==> At(Write(t, rest), MINUS) || AtDigit(Write(t, rest))
  {
    var s := Write(t, rest);
    match t
    case Numeral(negative, whole, fraction, e) =>
      assert s[0] == if negative then 45 else whole[0];
    case _ =>
  }

  lemma {:induction false} GapAndNumber(after: bytes, t: bytes)
    requires R.Blanks(after) && t != [] && t[0] in {44, 93, 125}
    ensures R.EndsNumber(after + t)
  {
    assert (after + t)[0] == if after != [] then after[0] else t[0];
  }

  /** Every text of the grammar is read as what it stands for, whatever follows it (which must not continue a number). */
  lemma {:induction false} TextRead(t: Text, rest: bytes)
    requires Lawful(t) && (t.Numeral? ==> R.EndsNumber(rest))
    ensures ParseValue(Write(t, rest)) == Done(Meaning(t), rest)
    decreases t, 1
  {
    match t {
      case Word(w) => WordRead(w, rest);
      case Numeral(_, _, _, _) => NumeralValueRead(t, rest);
      case Quoted(chars) => QuotedRead(chars, rest);
      case List(gap, elements) => ListRead(gap, elements, rest);
      case Record(gap, fields) => RecordRead(gap, fields, rest);
    }
  }

  lemma {:induction false} NumeralValueRead(t: Text, rest: bytes)
    requires t.Numeral? && Lawful(t) && R.EndsNumber(rest)
    ensures ParseValue(Write(t, rest)) == Done(Meaning(t), rest)
  {
    hide Write, ParseNumber, Meaning, Lawful, D.StartsWith;
    Starts(t, rest);
    NumeralRead(t, rest);
    R.ByFirstByte(Write(t, rest));
  }

  lemma {:induction false} QuotedRead(chars: seq<Char>, rest: bytes)
    requires AllSpelled(chars)
    ensures ParseValue(Write(Quoted(chars), rest)) == Done(String(Chars(chars)), rest)
  {
    var s := [34] + WriteChars(chars, [34] + rest);
    StringRead(chars, rest);
    assert s[0] == 34;
    R.ByFirstByte(s);
    hide ParseString, WriteChars, Chars, D.StartsWith;
  }

  lemma {:induction false} ListRead(gap: bytes, elements: Elements, rest: bytes)
    requires R.Blanks(gap) && LawfulElements(elements)
    ensures ParseValue(Write(List(gap, elements), rest)) == Done(Array(MeaningElements(elements)), rest)
    decreases elements, 3
  {
    hide ParseValue, ParseItems, Skip, R.Blanks;
    var end := [93] + rest;
    var inner := WriteElements(elements, end);
    R.BracketBack([91] + (gap + inner), gap + inner);
    R.SkipBlanks(gap, inner);
    if elements.NoElement? {
      assert end[0] == 93 && end[1..] == rest;
      R.SkipStays(end);
    } else {
      ElementsRead(elements, rest);
      ElementsStart(elements, end);
      ItemsSkipped(inner);
      hide WriteElements;
    }
  }

  lemma {:induction false} ItemsSkipped(s: bytes)
    ensures ParseItems(Skip(s)) == ParseItems(s)
  {
    R.SkipTwice(s);
    hide ParseValue;
  }

  lemma {:induction false} ElementsStart(es: Elements, rest: bytes)
    requires es.Element? && LawfulElements(es)
    ensures var s := Skip(WriteElements(es, rest)); s != [] && R.Opens(s[0])
  {
    var t := es.after + (if es.next.Element? then [44] + WriteElements(es.next, rest) else rest);
    Starts(es.value, t);
    R.SkipBlanks(es.before, Write(es.value, t));
  }

  lemma {:induction false} ElementsRead(es: Elements, rest: bytes)
    requires es.Element? && LawfulElements(es)
    ensures ParseItems(WriteElements(es, [93] + rest)) == Done(MeaningElements(es), rest)
    decreases es, 2
  {
    var end := [93] + rest;
    var t := if es.next.Element? then [44] + WriteElements(es.next, end) else end;
    assert t[0] == (if es.next.Element? then 44 else 93) && t[1..] == if es.next.Element? then WriteElements(es.next, end) else rest;
    GapAndNumber(es.after, t);
    Starts(es.value, es.after + t);
    TextRead(es.value, es.after + t);
    R.SkipBlanks(es.after, t);
    R.SkipStays(t);
    hide ParseValue, Write, Skip;
    R.ItemsSkip(es.before, Write(es.value, es.after + t));
    if es.next.Element? {
      ElementsRead(es.next, rest);
    }
  }

  lemma {:induction false} RecordRead(gap: bytes, fields: Fields, rest: bytes)
    requires R.Blanks(gap) && LawfulFields(fields)
    ensures ParseValue(Write(Record(gap, fields), rest)) == Done(Object(MeaningFields(fields)), rest)
    decreases fields, 3
  {
    hide ParseValue, ParseMembers, Skip, R.Blanks;
    var end := [125] + rest;
    var inner := WriteFields(fields, end);
    R.BraceBack([123] + (gap + inner), gap + inner);
    R.SkipBlanks(gap, inner);
    if fields.NoField? {
      assert end[0] == 125 && end[1..] == rest;
      R.SkipStays(end);
    } else {
      FieldsRead(fields, rest);
      FieldsStart(fields, end);
      R.MembersSkipped(inner);
      hide WriteFields;
    }
  }

  lemma {:induction false} FieldsStart(fs: Fields, rest: bytes)
    requires fs.Field? && LawfulFields(fs)
    ensures var s := Skip(WriteFields(fs, rest)); s != [] && s[0] == 34
  {
    var v := Write(fs.value, fs.after + (if fs.next.Field? then [44] + WriteFields(fs.next, rest) else rest));
    var t := [34] + WriteChars(fs.name, [34] + (fs.colon + ([58] + (fs.start + v))));
    hide Write, WriteChars;
    assert t[0] == 34;
    R.SkipStays(t);
    R.SkipBlanks(fs.before, t);
  }

  lemma {:induction false} FieldsRead(fs: Fields, rest: bytes)
    requires fs.Field? && LawfulFields(fs)
    ensures ParseMembers(WriteFields(fs, [125] + rest)) == Done(MeaningFields(fs), rest)
    decreases fs, 2
  {
    var end := [125] + rest;
    var t := if fs.next.Field? then [44] + WriteFields(fs.next, end) else end;
    assert t[0] == (if fs.next.Field? then 44 else 125) && t[1..] == if fs.next.Field? then WriteFields(fs.next, end) else rest;
    GapAndNumber(fs.after, t);
    Starts(fs.value, fs.after + t);
    TextRead(fs.value, fs.after + t);
    R.SkipBlanks(fs.after, t);
    R.SkipStays(t);
    if fs.next.Field? {
      FieldsRead(fs.next, rest);
    }
    hide ParseValue, Write, Skip, WriteChars, ParseString, Chars, R.Blanks;
    FieldRead(fs, fs.after + t);
  }

  /** The name, the colon and the value of one field, up to what follows the value. */
  lemma {:induction false} FieldRead(fs: Fields, after: bytes)
    requires fs.Field? && LawfulFields(fs) && ParseValue(Write(fs.value, after)) == Done(Meaning(fs.value), after)
    ensures ParseMembers(fs.before + ([34] + WriteChars(fs.name, [34] + (fs.colon + ([58] + (fs.start + Write(fs.value, after))))))) ==
            var t := Skip(after);
            if At(t, COMMA) then
              var more := ParseMembers(t[1..]);
              if more.Fail? then Fail else Done(Member(Chars(fs.name), Meaning(fs.value), more.value), more.rest)
            else if At(t, CLOSE_BRACE) then Done(Member(Chars(fs.name), Meaning(fs.value), NoMember), t[1..])
            else Fail
  {
    var v := Write(fs.value, after);
    var c := [58] + (fs.start + v);
    var s := [34] + WriteChars(fs.name, [34] + (fs.colon + c));
    Starts(fs.value, after);
    hide Write, WriteChars, ParseValue, Chars, Meaning, Lawful;
    StringRead(fs.name, fs.colon + c);
    assert s[0] == 34;
    R.SkipStays(s);
    R.SkipBlanks(fs.colon, c);
    assert c[0] == 58 && c[1..] == fs.start + v;
    R.SkipStays(c);
    R.SkipBlanks(fs.start, v);
    hide ParseString, Skip;
    R.MembersSkip(fs.before, s);
  }

  /** A whole document, with white space before it. */
  lemma {:induction false} DocumentRead(lead: bytes, t: Text, rest: bytes)
    requires R.Blanks(lead) && Lawful(t) && (t.Numeral? ==> R.EndsNumber(rest))
    ensures R.Parse(lead + Write(t, rest)) == Done(Meaning(t), rest)
  {
    hide Write, ParseValue, Meaning;
    Starts(t, rest);
    R.SkipBlanks(lead, Write(t, rest));
    TextRead(t, rest);
  }
}
