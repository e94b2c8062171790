/** Parsing printed text gives the printed tree back, at any depth, formatted or not. */
module JsonRoundTrip {
  import opened Bytes
  import opened Sequences
  import opened Digits
  import opened Utf8Bytes
  import opened Json

  // ---------------------------------------------------------------- strings

  lemma {:induction false} ControlBack(c: byte, t: bytes)
    requires 0 < c < 32
    ensures var s := [BACKSLASH, LETTER_U, 48, 48, HexDigit(c / 16 % 16), HexDigit(c % 16)] + t;
            UnicodeEscape(s) == Escape([c], 6) && s[6..] == t
  {
    var e := [BACKSLASH, LETTER_U, 48, 48, HexDigit(c / 16 % 16), HexDigit(c % 16)];
    var h := (e + t)[2..];
    assert h[0] == 48 && h[1] == 48 && h[2] == HexDigit(c / 16 % 16) && h[3] == HexDigit(c % 16);
    HexBack(c / 16 % 16);
    HexBack(c % 16);
    assert Hex4(h) == c;
    hide Hex4, HexDigit;
    assert Encoded(c) == [c];
  }

  lemma {:induction false} OneCharBack(c: byte, t: bytes)
    requires c != 0
    ensures ParseChars(PrintByte(c) + t) == Prepend([c], ParseChars(t))
  {
    var s := PrintByte(c) + t;
    if c > 31 && c != QUOTE && c != BACKSLASH {
      assert s[0] == c && s[1..] == t;
    } else if ShortEscape(c) != 0 {
      assert s[0] == BACKSLASH && s[1] == ShortEscape(c) && s[2..] == t;
    } else {
      ControlBack(c, t);
      hide UnicodeEscape, HexDigit;
      assert s[0] == BACKSLASH && s[1] == LETTER_U && |s| >= 6;
    }
  }

  lemma {:induction false} CharsBack(s: bytes, rest: bytes)
    requires 0 !in s
    ensures ParseChars(PrintBytes(s) + ([QUOTE] + rest)) == Done(s, rest)
  {
    if s == [] {
      assert [] + ([QUOTE] + rest) == [QUOTE] + rest && ([QUOTE] + rest)[1..] == rest;
    } else {
      assert s[0] in s;
      CharsBack(s[1..], rest);
      hide ParseChars, PrintByte;
      OneCharBack(s[0], PrintBytes(s[1..]) + ([QUOTE] + rest));
      Assoc(PrintByte(s[0]), PrintBytes(s[1..]), [QUOTE] + rest);
      assert [s[0]] + s[1..] == s;
    }
  }

  lemma {:induction false} StringBack(s: bytes, rest: bytes)
    requires 0 !in s
    ensures ParseString(PrintString(s) + rest) == Done(s, rest)
  {
    hide ParseChars, PrintBytes;
    CharsBack(s, rest);
    QuotedTail(PrintBytes(s), rest);
  }

  lemma {:induction false} QuotedTail(text: bytes, rest: bytes)
    ensures var t := [QUOTE] + text + [QUOTE] + rest;
            t[0] == QUOTE && t[1..] == text + ([QUOTE] + rest)
  {
  }

  // ---------------------------------------------------------------- numbers

  /** Text that cannot continue a number. */
  predicate EndsNumber(s: bytes) {
    !AtDigit(s) && !At(s, 46) && !At(s, 101) && !At(s, 69)
  }

  lemma {:induction false} NaturalBack(n: nat, rest: bytes)
    requires EndsNumber(rest)
    ensures var s1 := After(48, Decimal(n) + rest);
            && WholeDigits(s1) == (if n == 0 then [] else Decimal(n)) && s1[|WholeDigits(s1)|..] == rest
            && Digits.Number(WholeDigits(s1), 10) == n
  {
    var s := Decimal(n) + rest;
    DecimalLead(n);
    assert s[0] == Decimal(n)[0];
    if n == 0 {
      assert s[1..] == rest;
      NumberNone(10);
    } else {
      DecimalRun(n, rest);
      Digits.DecimalReads(n);
    }
  }

  lemma {:induction false} NumberBack(n: int, rest: bytes)
    requires EndsNumber(rest)
    ensures ParseNumber(PrintNumber(n) + rest) == Done(Number(n, 0), rest)
  {
    var m := if n < 0 then -n else n;
    var s := PrintNumber(n) + rest;
    SignBack(n, rest);
    NaturalBack(m, rest);
    NoMore(rest);
    hide Run, Decimal, After, WholeDigits, FractionDigits, ParseExponent, PrintNumber, EndsNumber;
    var s1 := After(48, Decimal(m) + rest);
    assert WholeDigits(s1) + [] == WholeDigits(s1);
  }

  lemma {:induction false} SignBack(n: int, rest: bytes)
    ensures var s := PrintNumber(n) + rest;
            After(MINUS, s) == Decimal(if n < 0 then -n else n) + rest && (At(s, MINUS) <==> n < 0)
  {
    var s := PrintNumber(n) + rest;
    assert s[0] == PrintNumber(n)[0];
    if n < 0 {
      assert s[1..] == Decimal(-n) + rest;
    }
  }

  lemma {:induction false} NoMore(rest: bytes)
    requires EndsNumber(rest)
    ensures FractionDigits(rest) == [] && ParseExponent(rest) == (0, rest)
  {
  }

  // ---------------------------------------------------------------- white space

  ghost predicate Blanks(w: bytes) {
    forall i :: 0 <= i < |w| ==> 0 < w[i] <= 32
  }

  lemma {:induction false} SkipBlanks(w: bytes, s: bytes)
    requires Blanks(w)
    ensures Skip(w + s) == Skip(s)
  {
    if w == [] {
      assert w + s == s;
    } else {
      assert (w + s)[1..] == w[1..] + s;
      SkipBlanks(w[1..], s);
    }
  }

  lemma {:induction false} TabsBlank(n: int)
    ensures Blanks(Tabs(n))
  {
    if n > 0 {
      TabsBlank(n - 1);
    }
  }

  lemma {:induction false} ItemsSkip(w: bytes, s: bytes)
    requires Blanks(w)
    ensures ParseItems(w + s) == ParseItems(s)
  {
    SkipBlanks(w, s);
    hide ParseValue;
  }

  lemma {:induction false} MembersSkip(w: bytes, s: bytes)
    requires Blanks(w)
    ensures ParseMembers(w + s) == ParseMembers(s)
  {
    SkipBlanks(w, s);
    hide ParseValue, ParseString;
  }

  /** What a printed value starts with: nothing that would be skipped, and no closing bracket. */
  predicate Opens(c: byte) {
    c in {110, 102, 116, QUOTE, MINUS, OPEN_BRACKET, OPEN_BRACE} || 48 <= c <= 57
  }

  lemma {:induction false} PrintStarts(j: Json, depth: nat, fmt: bool)
    ensures Print(j, depth, fmt) != [] && Opens(Print(j, depth, fmt)[0])
  {
    hide PrintItems, PrintMembers, PrintBytes, Tabs, Decimal;
    match j
    case Number(n, _) => assert n >= 0 ==> 48 <= PrintNumber(n)[0] <= 57;
    case Array(items) => assert Print(j, depth, fmt)[0] == OPEN_BRACKET;
    case Object(members) => assert Print(j, depth, fmt)[0] == OPEN_BRACE;
    case _ =>
  }

  lemma {:induction false} NotSkipped(p: bytes, t: bytes)
    requires p != [] && Opens(p[0])
    ensures Skip(p + t) == p + t && (p + t)[0] == p[0]
  {
  }

  // ---------------------------------------------------------------- values

  lemma {:induction false} LiteralBack(j: Json, rest: bytes)
    requires j.Null? || j.False? || j.True?
    ensures ParseValue(Print(j, 0, false) + rest) == Done(j, rest)
  {
    var text := Print(j, 0, false);
    var s := text + rest;
    assert s[..|text|] == text && s[|text|..] == rest;
    assert s[0] == text[0];
    FirstByte(s, NULL_TEXT);
    FirstByte(s, FALSE_TEXT);
  }

  lemma {:induction false} FirstByte(s: bytes, name: bytes)
    requires s != [] && name != []
    ensures StartsWith(s, name) ==> s[0] == name[0]
  {
    StartsWithIndex(s, name);
  }

  /** A text that starts with none of the three words is parsed by its first byte. */
  lemma {:induction false} ByFirstByte(s: bytes)
    requires s != [] && s[0] !in {110, 102, 116}
    ensures !StartsWith(s, NULL_TEXT) && !StartsWith(s, FALSE_TEXT) && !StartsWith(s, TRUE_TEXT)
  {
    FirstByte(s, NULL_TEXT);
    FirstByte(s, FALSE_TEXT);
    FirstByte(s, TRUE_TEXT);
  }

  lemma {:induction false} StringValueBack(text: bytes, rest: bytes)
    requires 0 !in text
    ensures ParseValue(PrintString(text) + rest) == Done(String(text), rest)
  {
    var s := PrintString(text) + rest;
    assert s[0] == QUOTE;
    ByFirstByte(s);
    StringBack(text, rest);
    hide ParseString, PrintString, StartsWith;
  }

  lemma {:induction false} NumberValueBack(n: int, rest: bytes)
    requires EndsNumber(rest)
    ensures ParseValue(PrintNumber(n) + rest) == Done(Number(n, 0), rest)
  {
    var s := PrintNumber(n) + rest;
    assert s[0] == PrintNumber(n)[0];
    assert At(s, MINUS) || AtDigit(s);
    ByFirstByte(s);
    NumberBack(n, rest);
    hide ParseNumber, PrintNumber, StartsWith;
  }

  /** Printing and then parsing, whatever text follows (it must not continue a number). */
  lemma {:induction false} ValueBack(j: Json, depth: nat, fmt: bool, rest: bytes)
    requires Printable(j) && (j.Number? ==> EndsNumber(rest))
    ensures ParseValue(Print(j, depth, fmt) + rest) == Done(j, rest)
    decreases j, 2
  {
    match j
    case String(text) => StringValueBack(text, rest);
    case Number(n, e) => NumberValueBack(n, rest);
    case Array(items) => ArrayBack(items, depth, fmt, rest);
    case Object(members) => ObjectBack(members, depth, fmt, rest);
    case _ => LiteralBack(j, rest);
  }

  lemma {:induction false} ArrayBack(items: Items, depth: nat, fmt: bool, rest: bytes)
    requires PrintableItems(items)
    ensures ParseValue(Print(Array(items), depth, fmt) + rest) == Done(Array(items), rest)
    decreases items, 3
  {
    hide ParseValue, ParseItems, PrintItems, Print, Skip;
    var end := [CLOSE_BRACKET] + rest;
    var p := PrintItems(items, depth + 1, fmt);
    var s := [OPEN_BRACKET] + (p + end);
    BracketGroup(items, depth, fmt, rest);
    BracketBack(s, p + end);
    if items.NoItem? {
      NoItems(depth + 1, fmt);
      assert p + end == end && At(end, CLOSE_BRACKET) && end[1..] == rest;
      SkipStays(end);
    } else {
      ItemsBack(items, depth + 1, fmt, rest);
      ItemsStart(items, depth + 1, fmt);
      NotSkipped(p, end);
      assert (p + end)[0] == p[0];
    }
  }

  lemma {:induction false} NoItems(depth: nat, fmt: bool)
    ensures PrintItems(NoItem, depth, fmt) == []
  {
  }

  lemma {:induction false} BracketGroup(items: Items, depth: nat, fmt: bool, rest: bytes)
    ensures Print(Array(items), depth, fmt) + rest == [OPEN_BRACKET] + (PrintItems(items, depth + 1, fmt) + ([CLOSE_BRACKET] + rest))
  {
    var p := PrintItems(items, depth + 1, fmt);
    assert Print(Array(items), depth, fmt) == [OPEN_BRACKET] + p + [CLOSE_BRACKET];
    hide *;
    Assoc([OPEN_BRACKET] + p, [CLOSE_BRACKET], rest);
    Assoc([OPEN_BRACKET], p, [CLOSE_BRACKET] + rest);
  }

  /** How an array is parsed, after its bracket. */
  lemma {:induction false} BracketBack(s: bytes, inner: bytes)
    requires s == [OPEN_BRACKET] + inner
    ensures ParseValue(s) ==
            var t := Skip(inner);
            if At(t, CLOSE_BRACKET) then Done(Array(NoItem), t[1..])
            else
              var p := ParseItems(t);
              if p.Fail? then Fail else Done(Array(p.value), p.rest)
  {
    assert s[0] == OPEN_BRACKET && s[1..] == inner;
    ByFirstByte(s);
    hide ParseItems, StartsWith, Skip;
  }

  lemma {:induction false} ItemsStart(items: Items, depth: nat, fmt: bool)
    requires items.Item?
    ensures PrintItems(items, depth, fmt) != [] && Opens(PrintItems(items, depth, fmt)[0])
  {
    PrintStarts(items.value, depth, fmt);
  }

  lemma {:induction false} ItemsBack(items: Items, depth: nat, fmt: bool, rest: bytes)
    requires items.Item? && PrintableItems(items)
    ensures ParseItems(PrintItems(items, depth, fmt) + ([CLOSE_BRACKET] + rest)) == Done(items, rest)
    decreases items, 2
  {
    var tail := [CLOSE_BRACKET] + rest;
    assert At(tail, CLOSE_BRACKET) && tail[1..] == rest;
    SkipStays(tail);
    if items.next.NoItem? {
      OneItemBack(items, depth, fmt, tail);
      hide *;
      PrintOneItem(items, depth, fmt);
    } else {
      var w, q := If(fmt, [SPACE]), PrintItems(items.next, depth, fmt);
      var more := [COMMA] + (w + (q + tail));
      assert At(more, COMMA) && more[1..] == w + (q + tail) && Blanks(w);
      SkipStays(more);
      OneItemBack(items, depth, fmt, more);
      ItemsBack(items.next, depth, fmt, rest);
      hide *;
      ItemsSkip(w, q + tail);
      ItemsGroup(items, depth, fmt, tail);
    }
  }

  lemma {:induction false} SkipStays(s: bytes)
    requires s != [] && s[0] > 32
    ensures Skip(s) == s
  {
  }

  lemma {:induction false} PrintOneItem(items: Items, depth: nat, fmt: bool)
    requires items.Item? && items.next.NoItem?
    ensures PrintItems(items, depth, fmt) == Print(items.value, depth, fmt)
  {
  }

  lemma {:induction false} ItemsGroup(items: Items, depth: nat, fmt: bool, t: bytes)
    requires items.Item? && items.next.Item?
    ensures PrintItems(items, depth, fmt) + t
         == Print(items.value, depth, fmt) + ([COMMA] + (If(fmt, [SPACE]) + (PrintItems(items.next, depth, fmt) + t)))
  {
    var p, w, q := Print(items.value, depth, fmt), If(fmt, [SPACE]), PrintItems(items.next, depth, fmt);
    assert PrintItems(items, depth, fmt) == p + [COMMA] + w + q;
    hide *;
    Group4(p, [COMMA], w, q, t);
  }

  lemma {:induction false} Group4(a: bytes, b: bytes, c: bytes, d: bytes, t: bytes)
    ensures (a + b + c + d) + t == a + (b + (c + (d + t)))
  {
  }

  /** One element, up to what follows it. */
  lemma {:induction false} OneItemBack(items: Items, depth: nat, fmt: bool, after: bytes)
    requires items.Item? && PrintableItems(items) && EndsNumber(after)
    ensures ParseItems(Print(items.value, depth, fmt) + after) ==
            var t := Skip(after);
            if At(t, COMMA) then
              var more := ParseItems(t[1..]);
              if more.Fail? then Fail else Done(Item(items.value, more.value), more.rest)
            else if At(t, CLOSE_BRACKET) then Done(Item(items.value, NoItem), t[1..])
            else Fail
    decreases items, 1
  {
    var v := items.value;
    PrintStarts(v, depth, fmt);
    NotSkipped(Print(v, depth, fmt), after);
    ValueBack(v, depth, fmt, after);
    hide ParseValue, Print, Skip;
  }

  lemma {:induction false} ObjectBack(members: Members, depth: nat, fmt: bool, rest: bytes)
    requires PrintableMembers(members)
    ensures ParseValue(Print(Object(members), depth, fmt) + rest) == Done(Object(members), rest)
    decreases members, 3
  {
    hide ParseValue, ParseMembers, PrintMembers, Print, Skip, Blanks, Tabs;
    var end := [CLOSE_BRACE] + rest;
    assert At(end, CLOSE_BRACE) && end[1..] == rest;
    SkipStays(end);
    if members.NoMember? {
      var w := EmptyObjectText(depth, fmt, rest);
      SkipBlanks(w, end);
      BraceBack([OPEN_BRACE] + (w + end), w + end);
    } else {
      var w, p, u := If(fmt, [NEWLINE]), PrintMembers(members, depth + 1, fmt), If(fmt, Tabs(depth));
      BlankPieces(depth, fmt);
      var inner := p + (u + end);
      ObjectGroup(members, depth, fmt, rest);
      MembersBack(members, depth + 1, fmt, u, rest);
      MembersStart(members, depth + 1, fmt, u + end);
      SkipBlanks(w, inner);
      MembersSkipped(inner);
      BraceBack([OPEN_BRACE] + (w + inner), w + inner);
    }
  }

  lemma {:induction false} BlankPieces(depth: nat, fmt: bool)
    ensures Blanks(If(fmt, [NEWLINE])) && Blanks(If(fmt, Tabs(depth)))
  {
    TabsBlank(depth);
  }

  lemma {:induction false} EmptyObjectText(depth: nat, fmt: bool, rest: bytes) returns (w: bytes)
    ensures Blanks(w) && Print(Object(NoMember), depth, fmt) + rest == [OPEN_BRACE] + (w + ([CLOSE_BRACE] + rest))
  {
    w := If(fmt, [NEWLINE] + Tabs(depth - 1));
    TabsBlank(depth - 1);
    assert Print(Object(NoMember), depth, fmt) == [OPEN_BRACE] + w + [CLOSE_BRACE];
    hide Print, Tabs;
    Assoc([OPEN_BRACE] + w, [CLOSE_BRACE], rest);
    Assoc([OPEN_BRACE], w, [CLOSE_BRACE] + rest);
  }

  lemma {:induction false} ObjectGroup(members: Members, depth: nat, fmt: bool, rest: bytes)
    requires members.Member?
    ensures Print(Object(members), depth, fmt) + rest
         == [OPEN_BRACE] + (If(fmt, [NEWLINE]) + (PrintMembers(members, depth + 1, fmt) + (If(fmt, Tabs(depth)) + ([CLOSE_BRACE] + rest))))
  {
    var w, p, u := If(fmt, [NEWLINE]), PrintMembers(members, depth + 1, fmt), If(fmt, Tabs(depth));
    assert Print(Object(members), depth, fmt) == [OPEN_BRACE] + w + p + u + [CLOSE_BRACE];
    hide *;
    Group4([OPEN_BRACE], w, p, u, [CLOSE_BRACE]);
    Group4([OPEN_BRACE], w, p, u, [CLOSE_BRACE] + rest);
    Assoc([OPEN_BRACE] + w + p + u, [CLOSE_BRACE], rest);
  }

  /** How an object is parsed, after its brace. */
  lemma {:induction false} BraceBack(s: bytes, inner: bytes)
    requires s == [OPEN_BRACE] + inner
    ensures ParseValue(s) ==
            var t := Skip(inner);
            if At(t, CLOSE_BRACE) then Done(Object(NoMember), t[1..])
            else
              var p := ParseMembers(t);
              if p.Fail? then Fail else Done(Object(p.value), p.rest)
  {
    assert s[0] == OPEN_BRACE && s[1..] == inner;
    ByFirstByte(s);
    hide ParseMembers, StartsWith, Skip;
  }

  lemma {:induction false} MembersSkipped(s: bytes)
    ensures ParseMembers(Skip(s)) == ParseMembers(s)
  {
    SkipTwice(s);
    hide ParseValue, ParseString;
  }

  lemma {:induction false} SkipTwice(s: bytes)
    ensures Skip(Skip(s)) == Skip(s)
  {
    if s != [] && 0 < s[0] <= 32 {
      SkipTwice(s[1..]);
    }
  }

  lemma {:induction false} MembersStart(members: Members, depth: nat, fmt: bool, t: bytes)
    requires members.Member?
    ensures var s := Skip(PrintMembers(members, depth, fmt) + t); s != [] && s[0] == QUOTE
  {
    var w, n := If(fmt, Tabs(depth)), PrintString(members.name);
    TabsBlank(depth);
    assert Blanks(w) && n[0] == QUOTE;
    MembersGroup(members, depth, fmt, t);
    hide PrintMembers, Print, PrintString, Tabs;
    var u := [COLON] + (If(fmt, [TAB]) + (Print(members.value, depth, fmt)
            + (If(members.next.Member?, [COMMA]) + (If(fmt, [NEWLINE]) + (PrintMembers(members.next, depth, fmt) + t)))));
    SkipBlanks(w, n + u);
    NotSkipped(n, u);
  }

  lemma {:induction false} MembersBack(members: Members, depth: nat, fmt: bool, u: bytes, rest: bytes)
    requires members.Member? && PrintableMembers(members) && Blanks(u)
    ensures ParseMembers(PrintMembers(members, depth, fmt) + (u + ([CLOSE_BRACE] + rest))) == Done(members, rest)
    decreases members, 2
  {
    var n, v, next := PrintString(members.name), members.value, members.next;
    var w0, w1, w2 := If(fmt, Tabs(depth)), If(fmt, [TAB]), If(fmt, [NEWLINE]);
    var end := [CLOSE_BRACE] + rest;
    assert At(end, CLOSE_BRACE) && end[1..] == rest;
    SkipStays(end);
    var q := PrintMembers(next, depth, fmt);
    var after := If(next.Member?, [COMMA]) + (w2 + (q + (u + end)));
    TabsBlank(depth);
    assert Blanks(w0) && Blanks(w2);
    if next.Member? {
      MembersBack(next, depth, fmt, u, rest);
      assert At(after, COMMA) && after[1..] == w2 + (q + (u + end));
      SkipStays(after);
      OneMemberBack(members, depth, fmt, after);
      hide *;
      MembersSkip(w2, q + (u + end));
    } else {
      NoMembers(depth, fmt);
      LastAfter(w2, u, end);
      assert after == w2 + (u + end);
      OneMemberBack(members, depth, fmt, after);
      hide *;
      SkipBlanks(w2, u + end);
      SkipBlanks(u, end);
    }
    MembersSkip(w0, n + ([COLON] + (w1 + (Print(v, depth, fmt) + after))));
    MembersGroup(members, depth, fmt, u + end);
  }

  lemma {:induction false} LastAfter(w: bytes, u: bytes, end: bytes)
    requires Blanks(w) && Blanks(u) && At(end, CLOSE_BRACE)
    ensures EndsNumber(w + (u + end))
  {
    var s := w + (u + end);
    assert s[0] == if w != [] then w[0] else if u != [] then u[0] else end[0];
  }

  lemma {:induction false} NoMembers(depth: nat, fmt: bool)
    ensures PrintMembers(NoMember, depth, fmt) == []
  {
  }

  lemma {:induction false} MembersGroup(members: Members, depth: nat, fmt: bool, t: bytes)
    requires members.Member?
    ensures PrintMembers(members, depth, fmt) + t
         == If(fmt, Tabs(depth)) + (PrintString(members.name) + ([COLON] + (If(fmt, [TAB]) + (Print(members.value, depth, fmt)
            + (If(members.next.Member?, [COMMA]) + (If(fmt, [NEWLINE]) + (PrintMembers(members.next, depth, fmt) + t)))))))
  {
    var a, b, c, d := If(fmt, Tabs(depth)), PrintString(members.name), [COLON], If(fmt, [TAB]);
    var e, f, g := Print(members.value, depth, fmt), If(members.next.Member?, [COMMA]), If(fmt, [NEWLINE]);
    var h := PrintMembers(members.next, depth, fmt);
    assert PrintMembers(members, depth, fmt) == a + b + c + d + e + f + g + h;
    hide *;
    Group4(a + b + c + d + e, f, g, h, t);
    Group4(a, b, c, d, e);
    Assoc(a + b + c + d, e, f + (g + (h + t)));
    Group4(a, b, c, d, e + (f + (g + (h + t))));
  }

  /** The name, the colon and the value of one member, up to what follows the value. */
  lemma {:induction false} OneMemberBack(members: Members, depth: nat, fmt: bool, after: bytes)
    requires members.Member? && PrintableMembers(members) && EndsNumber(after)
    ensures var s := PrintString(members.name) + ([COLON] + (If(fmt, [TAB]) + (Print(members.value, depth, fmt) + after)));
            ParseMembers(s) ==
            var t := Skip(after);
            if At(t, COMMA) then
              var more := ParseMembers(t[1..]);
              if more.Fail? then Fail else Done(Member(members.name, members.value, more.value), more.rest)
            else if At(t, CLOSE_BRACE) then Done(Member(members.name, members.value, NoMember), t[1..])
            else Fail
    decreases members, 1
  {
    var n, v := PrintString(members.name), members.value;
    var p, w := Print(v, depth, fmt), If(fmt, [TAB]);
    var value := p + after;
    var colon := [COLON] + (w + value);
    assert n[0] == QUOTE;
    NotSkipped(n, colon);
    StringBack(members.name, colon);
    assert Skip(colon) == colon && colon[1..] == w + value;
    SkipBlanks(w, value);
    PrintStarts(v, depth, fmt);
    NotSkipped(p, after);
    ValueBack(v, depth, fmt, after);
    hide ParseString, ParseValue, Print, PrintString, Skip, PrintMembers;
  }

  // ---------------------------------------------------------------- whole texts

  /** `cJSON_Parse`: leading white space is skipped, what follows the value is ignored. */
  function Parse(s: bytes): (r: Parsed<Json>) {
    ParseValue(Skip(s))
  }

  /** Parsing what was printed gives the same tree; so formatting never changes meaning. */
  lemma {:induction false} PrintThenParse(j: Json, depth: nat, fmt: bool)
    requires Printable(j)
    ensures Parse(Print(j, depth, fmt)) == Done(j, [])
  {
    var p := Print(j, depth, fmt);
    PrintStarts(j, depth, fmt);
    NotSkipped(p, []);
    assert p + [] == p;
    ValueBack(j, depth, fmt, []);
  }

  lemma {:induction false} FormattingKeepsMeaning(j: Json, k: Json, depth: nat, fmt: bool, depth': nat, fmt': bool)
    requires Printable(j) && Printable(k)
    ensures Print(j, depth, fmt) == Print(k, depth, fmt) ==> j == k
    ensures Parse(Print(j, depth, fmt)) == Parse(Print(j, depth', fmt'))
  {
    PrintThenParse(j, depth, fmt);
    PrintThenParse(k, depth, fmt);
    PrintThenParse(j, depth', fmt');
  }
}
