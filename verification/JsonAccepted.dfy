/** The parser accepts nothing else: brackets, braces, commas and colons stand exactly where the grammar has them. */
module JsonAccepted {
  import opened Bytes
  import opened Sequences
  import D = Digits
  import opened Json
  import R = JsonRoundTrip

  /** A text taken apart; the bytes of words, strings and numbers are kept as they stand. */
  datatype Tree =
    | Leaf(value: Json, raw: bytes)
    | List(gap: bytes, elements: Elements)
    | Record(gap: bytes, fields: Fields)

  datatype Elements = NoElement | Element(before: bytes, tree: Tree, after: bytes, next: Elements)

  datatype Fields = NoField | Field(before: bytes, name: bytes, raw: bytes, colon: bytes, start: bytes, tree: Tree, after: bytes, next: Fields)

  /** The text, and then `rest`. */
  function Write(t: Tree, rest: bytes): (r: bytes)
    decreases t, 0
  {
    match t
    case Leaf(_, raw) => raw + rest
    case List(gap, elements) => [91] + (gap + WriteElements(elements, [93] + rest))
    case Record(gap, fields) => [123] + (gap + WriteFields(fields, [125] + rest))
  }

  function WriteElements(es: Elements, rest: bytes): (r: bytes) {
    match es
    case NoElement => rest
    case Element(before, t, after, next) =>
      before + Write(t, after + (if next.Element? then [44] + WriteElements(next, rest) else rest))
  }

  function WriteFields(fs: Fields, rest: bytes): (r: bytes) {
    match fs
    case NoField => rest
    case Field(before, _, raw, colon, start, t, after, next) =>
      before + (raw + (colon + ([58] + (start + Write(t, after + (if next.Field? then [44] + WriteFields(next, rest) else rest))))))
  }

  /** White space only in the gaps, and leaves that start like what they stand for. */
  ghost predicate Shaped(t: Tree) {
    match t
    case Leaf(v, raw) =>
      || (v.Null? && raw == [110, 117, 108, 108]) || (v.False? && raw == [102, 97, 108, 115, 101]) || (v.True? && raw == [116, 114, 117, 101])
      || (v.String? && raw != [] && raw[0] == 34)
      || (v.Number? && raw != [] && (raw[0] == 45 || 48 <= raw[0] <= 57))
    case List(gap, elements) => R.Blanks(gap) && ShapedElements(elements)
    case Record(gap, fields) => R.Blanks(gap) && ShapedFields(fields)
  }

  ghost predicate ShapedElements(es: Elements) {
    es.Element? ==> R.Blanks(es.before) && Shaped(es.tree) && R.Blanks(es.after) && ShapedElements(es.next)
  }

  ghost predicate ShapedFields(fs: Fields) {
    fs.Field? ==>
      && R.Blanks(fs.before) && fs.raw != [] && fs.raw[0] == 34 && R.Blanks(fs.colon) && R.Blanks(fs.start)
      && Shaped(fs.tree) && R.Blanks(fs.after) && ShapedFields(fs.next)
  }

  function ValueOf(t: Tree): (j: Json) {
    match t
    case Leaf(v, _) => v
    case List(_, elements) => Array(ValuesOf(elements))
    case Record(_, fields) => Object(MembersOf(fields))
  }

  function ValuesOf(es: Elements): (r: Items) {
    if es.NoElement? then NoItem else Item(ValueOf(es.tree), ValuesOf(es.next))
  }

  function MembersOf(fs: Fields): (r: Members) {
    if fs.NoField? then NoMember else Member(fs.name, ValueOf(fs.tree), MembersOf(fs.next))
  }

  // ---------------------------------------------------------------- what was read is a prefix

  ghost predicate Suffix(rest: bytes, s: bytes) {
    |rest| <= |s| && s[|s| - |rest|..] == rest
  }

  lemma {:induction false} SuffixOf(s: bytes, n: nat, rest: bytes)
    requires n <= |s| && Suffix(rest, s[n..])
    ensures Suffix(rest, s)
  {
  }

  lemma {:induction false} CharsSuffix(s: bytes)
    requires ParseChars(s).Done?
    ensures Suffix(ParseChars(s).rest, s)
    decreases |s|
  {
    if s != [] && s[0] == QUOTE {
      assert Suffix(s[1..], s);
    } else if s != [] {
      var n := OneChar(s).value.length;
      hide OneChar;
      CharsSuffix(s[n..]);
      SuffixOf(s, n, ParseChars(s).rest);
    }
  }

  lemma {:induction false} StringSuffix(s: bytes)
    requires ParseString(s).Done?
    ensures s != [] && s[0] == 34 && |ParseString(s).rest| < |s| && Suffix(ParseString(s).rest, s)
  {
    CharsSuffix(s[1..]);
    SuffixOf(s, 1, ParseString(s).rest);
  }

  lemma {:induction false} ExponentSuffix(s: bytes)
    ensures Suffix(ParseExponent(s).1, s)
  {
  }

  lemma {:induction false} NumberSuffix(s: bytes)
    ensures Suffix(ParseNumber(s).rest, s) && ParseNumber(s).value.Number?
  {
    hide ParseExponent, WholeDigits, FractionDigits, D.Number;
    var s0 := After(MINUS, s);
    var s1 := After(48, s0);
    var whole := WholeDigits(s1);
    var s2 := s1[|whole|..];
    var fraction := FractionDigits(s2);
    var n := if fraction == [] then 0 else 1 + |fraction|;
    var rest := ParseNumber(s).rest;
    ExponentSuffix(s2[n..]);
    assert s2[0..] == s2;
    SuffixOf(s2, n, rest);
    SuffixOf(s1, |whole|, rest);
    assert s0[0..] == s0 && s[0..] == s;
    SuffixOf(s0, if At(s0, 48) then 1 else 0, rest);
    SuffixOf(s, if At(s, MINUS) then 1 else 0, rest);
  }

  lemma {:induction false} SkipSplits(s: bytes) returns (gap: bytes)
    ensures R.Blanks(gap) && s == gap + Skip(s)
  {
    if s != [] && 0 < s[0] <= 32 {
      gap := SkipSplits(s[1..]);
      gap := [s[0]] + gap;
      assert s == [s[0]] + s[1..];
    } else {
      gap := [];
    }
  }

  lemma {:induction false} Starting(t: bytes, c: byte)
    requires At(t, c)
    ensures t == [c] + t[1..]
  {
  }

  // ---------------------------------------------------------------- taking a text apart

  lemma {:induction false} WordAccepted(s: bytes, v: Json, name: bytes) returns (t: Tree)
    requires D.StartsWith(s, name) && ((v.Null? && name == NULL_TEXT) || (v.False? && name == FALSE_TEXT) || (v.True? && name == TRUE_TEXT))
    ensures Shaped(t) && Write(t, s[|name|..]) == s && ValueOf(t) == v
  {
    t := Leaf(v, name);
    assert name + s[|name|..] == s;
  }

  lemma {:induction false} PlainAccepted(s: bytes) returns (t: Tree)
    requires ParseValue(s).Done? && !At(s, OPEN_BRACKET) && !At(s, OPEN_BRACE)
    requires !D.StartsWith(s, NULL_TEXT) && !D.StartsWith(s, FALSE_TEXT) && !D.StartsWith(s, TRUE_TEXT)
    ensures Shaped(t) && Write(t, ParseValue(s).rest) == s && ValueOf(t) == ParseValue(s).value
  {
    hide ParseString, ParseNumber, D.StartsWith;
    var p := ParseValue(s);
    if At(s, QUOTE) {
      StringSuffix(s);
    } else {
      NumberSuffix(s);
      NumberAdvances(s);
    }
    var raw := s[..|s| - |p.rest|];
    t := Leaf(p.value, raw);
    assert raw + p.rest == s;
    assert raw[0] == s[0];
  }

  lemma {:induction false} LeafAccepted(s: bytes) returns (t: Tree)
    requires ParseValue(s).Done? && !At(s, OPEN_BRACKET) && !At(s, OPEN_BRACE)
    ensures Shaped(t) && Write(t, ParseValue(s).rest) == s && ValueOf(t) == ParseValue(s).value
  {
    if D.StartsWith(s, NULL_TEXT) {
      t := WordAccepted(s, Null, NULL_TEXT);
    } else if D.StartsWith(s, FALSE_TEXT) {
      t := WordAccepted(s, False, FALSE_TEXT);
    } else if D.StartsWith(s, TRUE_TEXT) {
      t := WordAccepted(s, True, TRUE_TEXT);
    } else {
      t := PlainAccepted(s);
    }
    hide D.StartsWith, Shaped, Write;
  }

  /** Every text that is accepted has the shape of the grammar, and its value is the one read. */
  lemma {:induction false} Accepted(s: bytes) returns (t: Tree)
    requires ParseValue(s).Done?
    ensures Shaped(t) && Write(t, ParseValue(s).rest) == s && ValueOf(t) == ParseValue(s).value
    decreases |s|, 1
  {
    if At(s, OPEN_BRACKET) {
      t := ListAccepted(s);
    } else if At(s, OPEN_BRACE) {
      t := RecordAccepted(s);
    } else {
      t := LeafAccepted(s);
    }
  }

  lemma {:induction false} ListAccepted(s: bytes) returns (t: Tree)
    requires ParseValue(s).Done? && At(s, OPEN_BRACKET)
    ensures Shaped(t) && Write(t, ParseValue(s).rest) == s && ValueOf(t) == ParseValue(s).value
    decreases |s|, 0
  {
    Starting(s, OPEN_BRACKET);
    R.BracketBack(s, s[1..]);
    var gap := SkipSplits(s[1..]);
    var u := Skip(s[1..]);
    if At(u, CLOSE_BRACKET) {
      t := List(gap, NoElement);
      Starting(u, CLOSE_BRACKET);
    } else {
      hide ParseValue, Skip;
      var es := ElementsAccepted(u);
      t := List(gap, es);
    }
  }

  lemma {:induction false} ElementsAccepted(s: bytes) returns (es: Elements)
    requires ParseItems(s).Done?
    ensures es.Element? && ShapedElements(es) && WriteElements(es, [93] + ParseItems(s).rest) == s && ValuesOf(es) == ParseItems(s).value
    decreases |s|, 2
  {
    var before := SkipSplits(s);
    var v := ParseValue(Skip(s));
    var t := Accepted(Skip(s));
    var after := SkipSplits(v.rest);
    var u := Skip(v.rest);
    hide ParseValue, Skip;
    if At(u, COMMA) {
      Starting(u, COMMA);
      var next := ElementsAccepted(u[1..]);
      es := Element(before, t, after, next);
    } else {
      Starting(u, CLOSE_BRACKET);
      es := Element(before, t, after, NoElement);
    }
  }

  lemma {:induction false} RecordAccepted(s: bytes) returns (t: Tree)
    requires ParseValue(s).Done? && At(s, OPEN_BRACE)
    ensures Shaped(t) && Write(t, ParseValue(s).rest) == s && ValueOf(t) == ParseValue(s).value
    decreases |s|, 0
  {
    Starting(s, OPEN_BRACE);
    R.BraceBack(s, s[1..]);
    var gap := SkipSplits(s[1..]);
    var u := Skip(s[1..]);
    if At(u, CLOSE_BRACE) {
      t := Record(gap, NoField);
      Starting(u, CLOSE_BRACE);
    } else {
      hide ParseValue, Skip;
      var fs := FieldsAccepted(u);
      t := Record(gap, fs);
    }
  }

  /** What a list of members was read from. */
  lemma {:induction false} MembersParts(s: bytes)
    requires ParseMembers(s).Done?
    ensures ParseString(Skip(s)).Done? && |ParseString(Skip(s)).rest| < |Skip(s)| <= |s|
    ensures var c := Skip(ParseString(Skip(s)).rest); At(c, COLON) && |c| < |s| && ParseValue(Skip(c[1..])).Done?
    ensures var name := ParseString(Skip(s));
            var v := ParseValue(Skip(Skip(name.rest)[1..]));
            var u := Skip(v.rest);
            && |Skip(Skip(name.rest)[1..])| < |s| && |u| < |s|
            && if At(u, COMMA) then
                 ParseMembers(u[1..]).Done? && ParseMembers(s) == Done(Member(name.value, v.value, ParseMembers(u[1..]).value), ParseMembers(u[1..]).rest)
               else At(u, CLOSE_BRACE) && ParseMembers(s) == Done(Member(name.value, v.value, NoMember), u[1..])
  {
    hide ParseString, ParseValue;
  }

  lemma {:induction false} NameSplits(q: bytes) returns (raw: bytes)
    requires ParseString(q).Done?
    ensures raw != [] && raw[0] == 34 && raw + ParseString(q).rest == q
  {
    StringSuffix(q);
    hide ParseString;
    raw := q[..|q| - |ParseString(q).rest|];
  }

  lemma {:induction false} FieldsAccepted(s: bytes) returns (fs: Fields)
    requires ParseMembers(s).Done?
    ensures fs.Field? && ShapedFields(fs) && WriteFields(fs, [125] + ParseMembers(s).rest) == s && MembersOf(fs) == ParseMembers(s).value
    decreases |s|, 2
  {
    hide ParseValue, Skip, ParseString, ParseMembers, R.Blanks;
    MembersParts(s);
    var before := SkipSplits(s);
    var name := ParseString(Skip(s));
    var raw := NameSplits(Skip(s));
    var colon := SkipSplits(name.rest);
    var c := Skip(name.rest);
    Starting(c, COLON);
    var start := SkipSplits(c[1..]);
    var v := ParseValue(Skip(c[1..]));
    var t := Accepted(Skip(c[1..]));
    var after := SkipSplits(v.rest);
    var u := Skip(v.rest);
    if At(u, COMMA) {
      Starting(u, COMMA);
      var next := FieldsAccepted(u[1..]);
      fs := Field(before, name.value, raw, colon, start, t, after, next);
    } else {
      Starting(u, CLOSE_BRACE);
      fs := Field(before, name.value, raw, colon, start, t, after, NoField);
    }
  }
}
