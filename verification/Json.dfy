/**
  JSON text and trees (RFC 8259, sections 2 to 7) as cJSON reads and writes them. A text is the bytes up to
  its terminating zero; children of an array or object form a chain, as the parser links them.
  */
module Json {
  import opened Bytes
  import opened Digits
  import opened Utf8Bytes

  datatype Json =
    | Null | False | True
    | Number(mantissa: int, exponent: int) // mantissa times ten to the exponent
    | String(text: bytes)
    | Array(items: Items)
    | Object(members: Members)

  datatype Items = NoItem | Item(value: Json, next: Items)

  datatype Members = NoMember | Member(name: bytes, value: Json, next: Members)

  const QUOTE: byte := 34
  const BACKSLASH: byte := 92
  const COMMA: byte := 44
  const COLON: byte := 58
  const OPEN_BRACKET: byte := 91
  const CLOSE_BRACKET: byte := 93
  const OPEN_BRACE: byte := 123
  const CLOSE_BRACE: byte := 125
  const MINUS: byte := 45
  const NEWLINE: byte := 10
  const TAB: byte := 9
  const SPACE: byte := 32
  const LETTER_U: byte := 117

  const NULL_TEXT: bytes := [110, 117, 108, 108]
  const FALSE_TEXT: bytes := [102, 97, 108, 115, 101]
  const TRUE_TEXT: bytes := [116, 114, 117, 101]

  // ---------------------------------------------------------------- strings

  /** The letter after the backslash for the control characters that have one, 0 for the others. */
  function ShortEscape(c: byte): (l: byte)
  {
    if c == 8 then 98 else if c == 12 then 102 else if c == 10 then 110 else if c == 13 then 114 else if c == 9 then 116
    else if c == QUOTE || c == BACKSLASH then c
    else 0
  }

  function PrintByte(c: byte): (r: bytes) {
    if c > 31 && c != QUOTE && c != BACKSLASH then [c]
    else if ShortEscape(c) != 0 then [BACKSLASH, ShortEscape(c)]
    else [BACKSLASH, LETTER_U, 48, 48, HexDigit(c / 16 % 16), HexDigit(c % 16)]
  }

  function PrintBytes(s: bytes): (r: bytes) {
    if s == [] then [] else PrintByte(s[0]) + PrintBytes(s[1..])
  }

  /** `print_string_ptr` */
  function PrintString(s: bytes): (r: bytes) {
    [QUOTE] + PrintBytes(s) + [QUOTE]
  }

  /** `parse_hex4`: 0 when one of the four is not a hexadecimal digit. */
  function Hex4(s: bytes): (v: nat)
    requires |s| >= 4
    ensures v < 0x10000
  {
    if IsDigit(s[0], 16) && IsDigit(s[1], 16) && IsDigit(s[2], 16) && IsDigit(s[3], 16)
    then ((DigitValue(s[0]) * 16 + DigitValue(s[1])) * 16 + DigitValue(s[2])) * 16 + DigitValue(s[3])
    else 0
  }

  /** What the letter after a backslash stands for; any other byte for itself. */
  function Unescaped(c: byte): (r: byte) {
    if c == 98 then 8 else if c == 102 then 12 else if c == 110 then 10 else if c == 114 then 13 else if c == 116 then 9 else c
  }

  datatype Escape = Escape(text: bytes, length: nat)

  /**
    The escape `\u` and what it stands for, from its backslash on; surrogate pairs are joined, and halves of
    them on their own, like zero, give nothing.
    */
  function UnicodeEscape(s: bytes): (r: Escape)
    requires |s| >= 6
    ensures 6 <= r.length <= |s|
  {
    var uc := Hex4(s[2..]);
    if 0xDC00 <= uc <= 0xDFFF || uc == 0 then Escape([], 6)
    else if 0xD800 <= uc <= 0xDBFF then
      if |s| < 12 || s[6] != BACKSLASH || s[7] != LETTER_U then Escape([], 6)
      else
        var uc2 := Hex4(s[8..]);
        if uc2 < 0xDC00 || uc2 > 0xDFFF then Escape([], 12)
        else Escape(Encoded(0x10000 + uc % 0x400 * 0x400 + uc2 % 0x400), 12)
    else Escape(Encoded(uc), 6)
  }

  /** One character of a string, as it stands or escaped; none for an escape that the text cuts off. */
  function OneChar(s: bytes): (r: Option<Escape>)
    requires s != []
    ensures r.Some? ==> 0 < r.value.length <= |s|
  {
    if s[0] != BACKSLASH then Some(Escape([s[0]], 1))
    else if |s| < 2 then None
    else if s[1] != LETTER_U then Some(Escape([Unescaped(s[1])], 2))
    else if |s| < 6 then None
    else Some(UnicodeEscape(s))
  }

  /** The body of a string, after the opening quote. A missing closing quote is accepted; a cut-off escape is not. */
  function ParseChars(s: bytes): (r: Parsed<bytes>)
    ensures r.Done? ==> |r.rest| <= |s|
    decreases |s|
  {
    if s == [] then Done([], [])
    else if s[0] == QUOTE then Done([], s[1..])
    else
      match OneChar(s)
      case None => Fail
      case Some(e) => Prepend(e.text, ParseChars(s[e.length..]))
  }

  function Prepend(text: bytes, p: Parsed<bytes>): Parsed<bytes> {
    if p.Fail? then Fail else Done(text + p.value, p.rest)
  }

  /** `parse_string` */
  function ParseString(s: bytes): (r: Parsed<bytes>)
    ensures r.Done? ==> |r.rest| < |s|
  {
    if s == [] || s[0] != QUOTE then Fail else ParseChars(s[1..])
  }

  // ---------------------------------------------------------------- numbers

  function PrintNumber(n: int): (r: bytes) {
    if n < 0 then [MINUS] + Decimal(-n) else Decimal(n)
  }

  predicate At(s: bytes, c: byte) {
    s != [] && s[0] == c
  }

  predicate AtDigit(s: bytes) {
    s != [] && 48 <= s[0] <= 57
  }

  /** The digits before the point; a leading zero has been read already. */
  function WholeDigits(s: bytes): (d: bytes)
    ensures |d| <= |s| && forall i :: 0 <= i < |d| ==> IsDigit(d[i], 10)
  {
    if AtDigit(s) && s[0] != 48 then s[..Run(s, 10)] else []
  }

  /** The digits after the point, none when no digit follows it. */
  function FractionDigits(s: bytes): (d: bytes)
    ensures |d| <= |s| && (forall i :: 0 <= i < |d| ==> IsDigit(d[i], 10)) && (d != [] ==> |d| < |s|)
  {
    if At(s, 46) then s[1..][..Run(s[1..], 10)] else []
  }

  function After(c: byte, s: bytes): bytes {
    if At(s, c) then s[1..] else s
  }

  /** `parse_number`, exactly: no rounding of the value. */
  function ParseNumber(s: bytes): (r: Parsed<Json>)
    ensures r.Done? && |r.rest| <= |s|
  {
    var s1 := After(48, After(MINUS, s));
    var whole := WholeDigits(s1);
    var s2 := s1[|whole|..];
    var fraction := FractionDigits(s2);
    var s3 := if fraction == [] then s2 else s2[1 + |fraction|..];
    var mantissa: int := Digits.Number(whole + fraction, 10);
    var (power, rest) := ParseExponent(s3);
    Done(Number(if At(s, MINUS) then -mantissa else mantissa, power - |fraction|), rest)
  }

  function ParseExponent(s: bytes): (r: (int, bytes))
    ensures |r.1| <= |s|
  {
    if !At(s, 101) && !At(s, 69) then (0, s)
    else
      var negative := At(s[1..], MINUS);
      var t := if negative || At(s[1..], 43) then s[2..] else s[1..];
      var n := Run(t, 10);
      var v: int := Digits.Number(t[..n], 10);
      (if negative then -v else v, t[n..])
  }

  // ---------------------------------------------------------------- values

  function Skip(s: bytes): (r: bytes)
    ensures |r| <= |s|
  {
    if s != [] && 0 < s[0] <= 32 then Skip(s[1..]) else s
  }

  /** `parse_value` */
  function ParseValue(s: bytes): (r: Parsed<Json>)
    ensures r.Done? ==> |r.rest| < |s|
    decreases |s|, 1
  {
    if StartsWith(s, NULL_TEXT) then Done(Null, s[4..])
    else if StartsWith(s, FALSE_TEXT) then Done(False, s[5..])
    else if StartsWith(s, TRUE_TEXT) then Done(True, s[4..])
    else if At(s, QUOTE) then
      var p := ParseString(s);
      if p.Fail? then Fail else Done(String(p.value), p.rest)
    else if At(s, MINUS) || AtDigit(s) then
      NumberAdvances(s);
      ParseNumber(s)
    else if At(s, OPEN_BRACKET) then
      var t := Skip(s[1..]);
      if At(t, CLOSE_BRACKET) then Done(Array(NoItem), t[1..])
      else
        var p := ParseItems(t);
        if p.Fail? then Fail else Done(Array(p.value), p.rest)
    else if At(s, OPEN_BRACE) then
      var t := Skip(s[1..]);
      if At(t, CLOSE_BRACE) then Done(Object(NoMember), t[1..])
      else
        var p := ParseMembers(t);
        if p.Fail? then Fail else Done(Object(p.value), p.rest)
    else Fail
  }

  /** The elements of an array and its closing bracket. */
  function ParseItems(s: bytes): (r: Parsed<Items>)
    ensures r.Done? ==> |r.rest| < |s|
    decreases |s|, 2
  {
    var v := ParseValue(Skip(s));
    if v.Fail? then Fail
    else
      var t := Skip(v.rest);
      if At(t, COMMA) then
        var more := ParseItems(t[1..]);
        if more.Fail? then Fail else Done(Item(v.value, more.value), more.rest)
      else if At(t, CLOSE_BRACKET) then Done(Item(v.value, NoItem), t[1..])
      else Fail
  }

  /** The members of an object and its closing brace. */
  function ParseMembers(s: bytes): (r: Parsed<Members>)
    ensures r.Done? ==> |r.rest| < |s|
    decreases |s|, 2
  {
    var name := ParseString(Skip(s));
    if name.Fail? then Fail
    else
      var c := Skip(name.rest);
      if !At(c, COLON) then Fail
      else
        var v := ParseValue(Skip(c[1..]));
        if v.Fail? then Fail
        else
          var t := Skip(v.rest);
          if At(t, COMMA) then
            var more := ParseMembers(t[1..]);
            if more.Fail? then Fail else Done(Member(name.value, v.value, more.value), more.rest)
          else if At(t, CLOSE_BRACE) then Done(Member(name.value, v.value, NoMember), t[1..])
          else Fail
  }

  lemma {:induction false} NumberAdvances(s: bytes)
    requires At(s, MINUS) || AtDigit(s)
    ensures |ParseNumber(s).rest| < |s|
  {
    if AtDigit(s) && s[0] != 48 {
      assert Run(s, 10) > 0;
    }
  }

  // ---------------------------------------------------------------- printing

  function Tabs(n: int): (r: bytes)
    ensures |r| == if n > 0 then n else 0
  {
    if n <= 0 then [] else [TAB] + Tabs(n - 1)
  }

  function If(c: bool, s: bytes): bytes {
    if c then s else []
  }

  /** Trees that `print_value` writes without floating point: int-range numbers, strings without zeros. */
  predicate Printable(j: Json) {
    match j
    case Number(n, e) => e == 0 && -0x8000_0000 <= n < 0x8000_0000
    case String(s) => 0 !in s
    case Array(items) => PrintableItems(items)
    case Object(members) => PrintableMembers(members)
    case _ => true
  }

  predicate PrintableItems(items: Items) {
    items.Item? ==> Printable(items.value) && PrintableItems(items.next)
  }

  predicate PrintableMembers(members: Members) {
    members.Member? ==> 0 !in members.name && Printable(members.value) && PrintableMembers(members.next)
  }

  /** `print_value` */
  function Print(j: Json, depth: nat, fmt: bool): (r: bytes)
    decreases j, 1
  {
    match j
    case Null => NULL_TEXT
    case False => FALSE_TEXT
    case True => TRUE_TEXT
    case Number(n, _) => PrintNumber(n)
    case String(s) => PrintString(s)
    case Array(items) => [OPEN_BRACKET] + PrintItems(items, depth + 1, fmt) + [CLOSE_BRACKET]
    case Object(NoMember) => [OPEN_BRACE] + If(fmt, [NEWLINE] + Tabs(depth - 1)) + [CLOSE_BRACE]
    case Object(members) =>
      [OPEN_BRACE] + If(fmt, [NEWLINE]) + PrintMembers(members, depth + 1, fmt) + If(fmt, Tabs(depth)) + [CLOSE_BRACE]
  }

  function PrintItems(items: Items, depth: nat, fmt: bool): (r: bytes) {
    match items
    case NoItem => []
    case Item(v, NoItem) => Print(v, depth, fmt)
    case Item(v, next) => Print(v, depth, fmt) + [COMMA] + If(fmt, [SPACE]) + PrintItems(next, depth, fmt)
  }

  function PrintMembers(members: Members, depth: nat, fmt: bool): (r: bytes) {
    match members
    case NoMember => []
    case Member(name, v, next) =>
      If(fmt, Tabs(depth)) + PrintString(name) + [COLON] + If(fmt, [TAB]) + Print(v, depth, fmt)
      + If(next.Member?, [COMMA]) + If(fmt, [NEWLINE]) + PrintMembers(next, depth, fmt)
  }
}
