/** The printers of cJSON: a first pass measures, a second writes into a buffer of that size. */
module CJsonPrint {
  import opened Bytes
  import opened Sequences
  import opened Digits
  import opened Json

  /** Appends without the zero. */
  method Append(a: array<byte>, at: nat, data: bytes, ghost before: bytes) returns (end: nat)
    requires at + |data| <= a.Length && a[..at] == before
    modifies a
    ensures end == at + |data| && a[..end] == before + data
  {
    Fill(a, at, data);
    end := at + |data|;
  }

  /** `strcpy` at `at`: the zero is written too. */
  method Strcpy(a: array<byte>, at: nat, data: bytes, ghost before: bytes) returns (end: nat)
    requires at + |data| < a.Length && a[..at] == before
    modifies a
    ensures end == at + |data| && a[..end] == before + data
  {
    Fill(a, at, data + [0]);
    end := at + |data|;
    assert a[..end] == a[..end + 1][..end];
  }

  method Finish(a: array<byte>, at: nat, last: byte, ghost before: bytes)
    requires at + 2 <= a.Length && a[..at] == before
    modifies a
    ensures Holds(a, before + [last])
  {
    Fill(a, at, [last, 0]);
    assert before + [last, 0] == before + [last] + [0];
  }

  // ---------------------------------------------------------------- strings

  /** What the first pass counts for a byte. */
  function MeasureByte(c: byte): (n: nat) {
    1 + (if c in {QUOTE, BACKSLASH, 8, 12, 10, 13, 9} then 1 else if c < 32 then 5 else 0)
  }

  function Measure(s: bytes): (n: nat) {
    if s == [] then 0 else MeasureByte(s[0]) + Measure(s[1..])
  }

  /** The count is exact. */
  lemma {:induction false} MeasureExact(s: bytes)
    ensures Measure(s) == |PrintBytes(s)|
  {
    if s != [] {
      MeasureExact(s[1..]);
      assert MeasureByte(s[0]) == |PrintByte(s[0])|;
    }
  }

  method MeasureString(s: bytes) returns (len: nat)
    ensures len == |PrintBytes(s)|
  {
    len := 0;
    for i := 0 to |s|
      invariant len + Measure(s[i..]) == Measure(s)
    {
      var token := s[i];
      assert s[i..][0] == token && s[i..][1..] == s[i + 1..];
      len := len + 1;
      if token in {QUOTE, BACKSLASH, 8, 12, 10, 13, 9} {
        len := len + 1;
      } else if token < 32 {
        len := len + 5;
      }
    }
    MeasureExact(s);
  }

  lemma {:induction false} PrintBytesStep(s: bytes, i: nat)
    requires i < |s|
    ensures PrintBytes(s[i..]) == PrintByte(s[i]) + PrintBytes(s[i + 1..])
  {
    assert s[i..][0] == s[i] && s[i..][1..] == s[i + 1..];
  }

  /** One byte of the second pass. */
  method WriteByte(a: array<byte>, at: nat, c: byte, ghost before: bytes) returns (end: nat)
    requires at + |PrintByte(c)| <= a.Length && a[..at] == before
    modifies a
    ensures end == at + |PrintByte(c)| && a[..end] == before + PrintByte(c)
  {
    if c > 31 && c != QUOTE && c != BACKSLASH {
      end := Append(a, at, [c], before);
    } else {
      end := Append(a, at, [BACKSLASH], before);
      if ShortEscape(c) != 0 {
        end := Append(a, end, [ShortEscape(c)], before + [BACKSLASH]);
        assert before + [BACKSLASH] + [ShortEscape(c)] == before + PrintByte(c);
      } else {
        var hex := [LETTER_U, 48, 48, HexDigit(c / 16 % 16), HexDigit(c % 16)];
        end := Append(a, end, hex, before + [BACKSLASH]);
        assert before + [BACKSLASH] + hex == before + PrintByte(c);
      }
    }
  }

  /** `print_string_ptr`: the buffer is exactly as long as needed. */
  method PrintStringPtr(s: bytes) returns (out: array<byte>)
    ensures fresh(out) && Holds(out, PrintString(s)) && out.Length == |PrintString(s)| + 1
  {
    var len := MeasureString(s);
    out := new byte[len + 3];
    var at := Append(out, 0, [QUOTE], []);
    ghost var done: bytes := [QUOTE];
    var i := 0;
    assert s[0..] == s;
    while i < |s|
      invariant i <= |s| && at == |done| && at + |PrintBytes(s[i..])| + 2 == out.Length
      invariant out[..at] == done && done + PrintBytes(s[i..]) == [QUOTE] + PrintBytes(s)
    {
      PrintBytesStep(s, i);
      at := WriteByte(out, at, s[i], done);
      Assoc(done, PrintByte(s[i]), PrintBytes(s[i + 1..]));
      done := done + PrintByte(s[i]);
      i := i + 1;
    }
    assert s[|s|..] == [] && PrintBytes(s[|s|..]) == [];
    assert done == [QUOTE] + PrintBytes(s);
    Finish(out, at, QUOTE, done);
  }

  // ---------------------------------------------------------------- arrays

  function One(fmt: bool): nat {
    if fmt then 1 else 0
  }

  /** The texts of the elements. */
  ghost function Entries(items: Items, depth: nat, fmt: bool): seq<bytes> {
    match items
    case NoItem => []
    case Item(v, next) => [Print(v, depth, fmt)] + Entries(next, depth, fmt)
  }

  /** The texts with separators between them. */
  ghost function Join(es: seq<bytes>, fmt: bool): bytes {
    if es == [] then [] else if |es| == 1 then es[0] else es[0] + [COMMA] + If(fmt, [SPACE]) + Join(es[1..], fmt)
  }

  lemma {:induction false} JoinEntries(items: Items, depth: nat, fmt: bool)
    ensures Join(Entries(items, depth, fmt), fmt) == PrintItems(items, depth, fmt)
  {
    if items.Item? {
      JoinEntries(items.next, depth, fmt);
      assert Entries(items, depth, fmt)[1..] == Entries(items.next, depth, fmt);
      assert items.next.Item? <==> Entries(items.next, depth, fmt) != [];
    }
  }

  ghost function ArrayNeeds(es: seq<bytes>, fmt: bool): nat {
    if es == [] then 0 else |es[0]| + 2 + One(fmt) + ArrayNeeds(es[1..], fmt)
  }

  /** The first pass over an array covers the second. */
  lemma {:induction false} ArrayCovered(es: seq<bytes>, fmt: bool)
    ensures |Join(es, fmt)| <= ArrayNeeds(es, fmt)
  {
    if es != [] {
      ArrayCovered(es[1..], fmt);
    }
  }

  /** One element and its separator in the second pass. */
  method WriteEntry(out: array<byte>, at: nat, entry: bytes, last: bool, fmt: bool, ghost before: bytes) returns (end: nat)
    requires at + |entry| + (if last then 0 else 1 + One(fmt)) < out.Length && out[..at] == before
    modifies out
    ensures end == at + |entry| + (if last then 0 else 1 + One(fmt))
    ensures out[..end] == before + entry + (if last then [] else [COMMA] + If(fmt, [SPACE]))
  {
    end := Strcpy(out, at, entry, before);
    if !last {
      var sep := if fmt then [COMMA, SPACE] else [COMMA];
      assert sep == [COMMA] + If(fmt, [SPACE]);
      end := Append(out, end, sep, before + entry);
    }
  }

  lemma {:induction false} JoinStep(es: seq<bytes>, i: nat, fmt: bool)
    requires i < |es|
    ensures Join(es[i..], fmt) == es[i] + (if i == |es| - 1 then [] else [COMMA] + If(fmt, [SPACE])) + Join(es[i + 1..], fmt)
  {
    var t := es[i..];
    assert t[0] == es[i] && t[1..] == es[i + 1..];
    if i == |es| - 1 {
      assert es[i + 1..] == [];
      assert es[i] + [] + [] == es[i];
    } else {
      assert es[i] + ([COMMA] + If(fmt, [SPACE])) == es[i] + [COMMA] + If(fmt, [SPACE]);
    }
  }

  /** The second pass over an array. */
  method WriteEntries(out: array<byte>, es: seq<bytes>, fmt: bool) returns (at: nat)
    requires 1 + |Join(es, fmt)| + 2 <= out.Length
    modifies out
    ensures at == 1 + |Join(es, fmt)| && out[..at] == [OPEN_BRACKET] + Join(es, fmt)
  {
    at := Append(out, 0, [OPEN_BRACKET], []);
    ghost var done: bytes := [OPEN_BRACKET];
    assert es[0..] == es;
    for i := 0 to |es|
      invariant at == |done| && at + |Join(es[i..], fmt)| == 1 + |Join(es, fmt)|
      invariant out[..at] == done && done + Join(es[i..], fmt) == [OPEN_BRACKET] + Join(es, fmt)
    {
      JoinStep(es, i, fmt);
      ghost var piece := es[i] + (if i == |es| - 1 then [] else [COMMA] + If(fmt, [SPACE]));
      at := WriteEntry(out, at, es[i], i == |es| - 1, fmt, done);
      Assoc(done, piece, Join(es[i + 1..], fmt));
      Assoc(done, es[i], if i == |es| - 1 then [] else [COMMA] + If(fmt, [SPACE]));
      done := done + piece;
    }
    assert es[|es|..] == [] && done + [] == done;
  }

  // ---------------------------------------------------------------- objects

  /** The texts of the names and values. */
  ghost function Pairs(members: Members, depth: nat, fmt: bool): seq<(bytes, bytes)> {
    match members
    case NoMember => []
    case Member(name, v, next) => [(PrintString(name), Print(v, depth, fmt))] + Pairs(next, depth, fmt)
  }

  ghost function MemberText(e: (bytes, bytes), last: bool, depth: nat, fmt: bool): bytes {
    If(fmt, Tabs(depth)) + e.0 + [COLON] + If(fmt, [TAB]) + e.1 + If(!last, [COMMA]) + If(fmt, [NEWLINE])
  }

  ghost function JoinPairs(es: seq<(bytes, bytes)>, depth: nat, fmt: bool): bytes {
    if es == [] then [] else MemberText(es[0], |es| == 1, depth, fmt) + JoinPairs(es[1..], depth, fmt)
  }

  lemma {:induction false} JoinAllPairs(members: Members, depth: nat, fmt: bool)
    ensures JoinPairs(Pairs(members, depth, fmt), depth, fmt) == PrintMembers(members, depth, fmt)
  {
    if members.Member? {
      JoinAllPairs(members.next, depth, fmt);
      assert Pairs(members, depth, fmt)[1..] == Pairs(members.next, depth, fmt);
      assert members.next.Member? <==> Pairs(members.next, depth, fmt) != [];
    }
  }

  ghost function ObjectNeeds(es: seq<(bytes, bytes)>, depth: nat, fmt: bool): nat {
    if es == [] then 0 else |es[0].0| + |es[0].1| + 2 + (if fmt then 2 + depth else 0) + ObjectNeeds(es[1..], depth, fmt)
  }

  /** The first pass over an object covers the second. */
  lemma {:induction false} ObjectCovered(es: seq<(bytes, bytes)>, depth: nat, fmt: bool)
    ensures |JoinPairs(es, depth, fmt)| <= ObjectNeeds(es, depth, fmt)
  {
    if es != [] {
      ObjectCovered(es[1..], depth, fmt);
    }
  }

  method WriteTabs(out: array<byte>, at: nat, n: int, ghost before: bytes) returns (end: nat)
    requires at + |Tabs(n)| <= out.Length && out[..at] == before
    modifies out
    ensures end == at + |Tabs(n)| && out[..end] == before + Tabs(n)
  {
    end := at;
    var j := 0;
    assert Tabs(0) == [];
    while j < n
      invariant 0 <= j && (j <= n || j == 0) && end == at + j
      invariant out[..end] == before + Tabs(j)
    {
      end := Append(out, end, [TAB], before + Tabs(j));
      TabsSnoc(j);
      Assoc(before, Tabs(j), [TAB]);
      j := j + 1;
    }
  }

  lemma {:induction false} TabsSnoc(n: nat)
    ensures Tabs(n + 1) == Tabs(n) + [TAB]
  {
    if n > 0 {
      TabsSnoc(n - 1);
    }
  }

  /** One member in the second pass. */
  method WriteMember(out: array<byte>, at: nat, e: (bytes, bytes), last: bool, depth: nat, fmt: bool, ghost before: bytes) returns (end: nat)
    requires at + |MemberText(e, last, depth, fmt)| < out.Length && out[..at] == before
    modifies out
    ensures end == at + |MemberText(e, last, depth, fmt)| && out[..end] == before + MemberText(e, last, depth, fmt)
  {
    ghost var b0 := before + If(fmt, Tabs(depth));
    end := at;
    if fmt {
      end := WriteTabs(out, at, depth, before);
    }
    end := Strcpy(out, end, e.0, b0);
    var colon := if fmt then [COLON, TAB] else [COLON];
    end := Append(out, end, colon, b0 + e.0);
    end := Strcpy(out, end, e.1, b0 + e.0 + colon);
    var stop := (if last then [] else [COMMA]) + (if fmt then [NEWLINE] else []);
    end := Append(out, end, stop, b0 + e.0 + colon + e.1);
    MemberPieces(before, e, last, depth, fmt, colon, stop);
  }

  lemma {:induction false} MemberPieces(before: bytes, e: (bytes, bytes), last: bool, depth: nat, fmt: bool, colon: bytes, stop: bytes)
    requires colon == (if fmt then [COLON, TAB] else [COLON]) && stop == (if last then [] else [COMMA]) + (if fmt then [NEWLINE] else [])
    ensures before + If(fmt, Tabs(depth)) + e.0 + colon + e.1 + stop == before + MemberText(e, last, depth, fmt)
  {
    var tabs := If(fmt, Tabs(depth));
    assert colon == [COLON] + If(fmt, [TAB]) && stop == If(!last, [COMMA]) + If(fmt, [NEWLINE]);
    Assoc(tabs + e.0, [COLON], If(fmt, [TAB]));
    Assoc(tabs + e.0 + colon + e.1, If(!last, [COMMA]), If(fmt, [NEWLINE]));
    assert MemberText(e, last, depth, fmt) == tabs + e.0 + colon + e.1 + stop;
    hide *;
    Assoc(before, tabs + e.0 + colon + e.1, stop);
    Assoc(before, tabs + e.0 + colon, e.1);
    Assoc(before, tabs + e.0, colon);
    Assoc(before, tabs, e.0);
  }

  lemma {:induction false} JoinPairsStep(es: seq<(bytes, bytes)>, i: nat, depth: nat, fmt: bool)
    requires i < |es|
    ensures JoinPairs(es[i..], depth, fmt) == MemberText(es[i], i == |es| - 1, depth, fmt) + JoinPairs(es[i + 1..], depth, fmt)
  {
    var t := es[i..];
    assert t[0] == es[i] && t[1..] == es[i + 1..];
  }

  /** The second pass over an object, up to its closing brace. */
  method WritePairs(out: array<byte>, es: seq<(bytes, bytes)>, depth: nat, fmt: bool) returns (at: nat)
    requires 1 + One(fmt) + |JoinPairs(es, depth, fmt)| + 2 <= out.Length
    modifies out
    ensures at == 1 + One(fmt) + |JoinPairs(es, depth, fmt)|
    ensures out[..at] == [OPEN_BRACE] + If(fmt, [NEWLINE]) + JoinPairs(es, depth, fmt)
  {
    var open := if fmt then [OPEN_BRACE, NEWLINE] else [OPEN_BRACE];
    assert open == [OPEN_BRACE] + If(fmt, [NEWLINE]);
    at := Append(out, 0, open, []);
    ghost var done := open;
    assert es[0..] == es;
    for i := 0 to |es|
      invariant at == |done| && at + |JoinPairs(es[i..], depth, fmt)| == |open| + |JoinPairs(es, depth, fmt)|
      invariant out[..at] == done && done + JoinPairs(es[i..], depth, fmt) == open + JoinPairs(es, depth, fmt)
    {
      JoinPairsStep(es, i, depth, fmt);
      ghost var piece := MemberText(es[i], i == |es| - 1, depth, fmt);
      at := WriteMember(out, at, es[i], i == |es| - 1, depth, fmt, done);
      Assoc(done, piece, JoinPairs(es[i + 1..], depth, fmt));
      done := done + piece;
    }
    assert es[|es|..] == [] && done + [] == done;
  }

  // ---------------------------------------------------------------- values

  ghost function Pow10(k: nat): nat {
    if k == 0 then 1 else 10 * Pow10(k - 1)
  }

  lemma {:induction false} DecimalShort(n: nat, k: nat)
    requires k >= 1 && n < Pow10(k)
    ensures |Decimal(n)| <= k
  {
    if n >= 10 {
      assert k > 1;
      DecimalShort(n / 10, k - 1);
    }
  }

  /** What an int prints as fits the 21 bytes set aside for it. */
  lemma {:induction false} IntFits(n: int)
    requires -0x8000_0000 <= n < 0x8000_0000
    ensures |PrintNumber(n)| <= 11
  {
    assert Pow10(4) == 10000;
    assert Pow10(8) == 10000 * 10000;
    assert Pow10(10) == 10000000000;
    DecimalShort(if n < 0 then -n else n, 10);
  }

  /** `strlen`, and the bytes it delimits. */
  method Text(a: array<byte>, ghost text: bytes) returns (s: bytes)
    requires Holds(a, text) && 0 !in text
    ensures s == text
  {
    var n := 0;
    assert forall k :: 0 <= k <= |text| ==> a[k] == (text + [0])[k] by {
      assert forall k :: 0 <= k <= |text| ==> a[..|text| + 1][k] == a[k];
    }
    while a[n] != 0
      invariant n <= |text|
      decreases |text| - n
    {
      n := n + 1;
    }
    s := a[..n];
    assert a[..|text| + 1][..n] == s;
  }

  /** A new buffer with a text that is known beforehand. */
  method Strdup(text: bytes, size: nat) returns (out: array<byte>)
    requires |text| < size
    ensures fresh(out) && out.Length == size && Holds(out, text)
  {
    out := new byte[size];
    Fill(out, 0, text + [0]);
    assert out[..|text| + 1] == text + [0];
  }

  /** `print_value` */
  method PrintValue(j: Json, depth: nat, fmt: bool) returns (out: array<byte>)
    requires Printable(j)
    ensures fresh(out) && Holds(out, Print(j, depth, fmt))
    decreases j, 2
  {
    match j
    case Null => out := Strdup(NULL_TEXT, 5);
    case False => out := Strdup(FALSE_TEXT, 6);
    case True => out := Strdup(TRUE_TEXT, 5);
    case Number(n, _) =>
      IntFits(n);
      out := Strdup(PrintNumber(n), 21);
    case String(s) => out := PrintStringPtr(s);
    case Array(items) => out := PrintArray(items, depth, fmt);
    case Object(members) => out := PrintObject(members, depth, fmt);
  }

  /** `print_array` */
  method PrintArray(items: Items, depth: nat, fmt: bool) returns (out: array<byte>)
    requires PrintableItems(items)
    ensures fresh(out) && Holds(out, Print(Array(items), depth, fmt))
    ensures out.Length == if items.NoItem? then 3 else 5 + ArrayNeeds(Entries(items, depth + 1, fmt), fmt)
    decreases items, 3
  {
    ghost var text := [OPEN_BRACKET] + PrintItems(items, depth + 1, fmt) + [CLOSE_BRACKET];
    if items.NoItem? {
      out := Strdup([OPEN_BRACKET, CLOSE_BRACKET], 3);
      assert text == [OPEN_BRACKET, CLOSE_BRACKET];
      return;
    }
    var es, len := CollectEntries(items, depth + 1, fmt);
    ArrayCovered(es, fmt);
    JoinEntries(items, depth + 1, fmt);
    hide *;
    out := new byte[len];
    var at := WriteEntries(out, es, fmt);
    Finish(out, at, CLOSE_BRACKET, [OPEN_BRACKET] + Join(es, fmt));
    PrintedArray(items, depth, fmt);
  }

  lemma {:induction false} PrintedArray(items: Items, depth: nat, fmt: bool)
    ensures Print(Array(items), depth, fmt) == [OPEN_BRACKET] + PrintItems(items, depth + 1, fmt) + [CLOSE_BRACKET]
  {
  }

  /** The first pass over an array: the texts of its elements, and the length of the buffer. */
  method CollectEntries(items: Items, depth: nat, fmt: bool) returns (es: seq<bytes>, len: nat)
    requires PrintableItems(items)
    ensures es == Entries(items, depth, fmt) && len == 5 + ArrayNeeds(es, fmt)
    decreases items, 2
  {
    es, len := [], 5;
    var child := items;
    while child.Item?
      invariant child == items || child < items
      invariant PrintableItems(child)
      invariant es + Entries(child, depth, fmt) == Entries(items, depth, fmt)
      invariant len + ArrayNeeds(Entries(child, depth, fmt), fmt) == 5 + ArrayNeeds(Entries(items, depth, fmt), fmt)
      decreases child
    {
      var text := PrintedText(child.value, depth, fmt);
      EntriesStep(child, depth, fmt, es);
      es := es + [text];
      len := len + |text| + 2 + One(fmt);
      child := child.next;
    }
  }

  lemma {:induction false} EntriesStep(items: Items, depth: nat, fmt: bool, es: seq<bytes>)
    requires items.Item?
    ensures var text := Print(items.value, depth, fmt);
            && es + Entries(items, depth, fmt) == (es + [text]) + Entries(items.next, depth, fmt)
            && ArrayNeeds(Entries(items, depth, fmt), fmt) == |text| + 2 + One(fmt) + ArrayNeeds(Entries(items.next, depth, fmt), fmt)
  {
    assert Entries(items, depth, fmt)[1..] == Entries(items.next, depth, fmt);
  }

  /** The printed text of a child. */
  method PrintedText(j: Json, depth: nat, fmt: bool) returns (text: bytes)
    requires Printable(j)
    ensures text == Print(j, depth, fmt)
    decreases j, 3
  {
    var ret := PrintValue(j, depth, fmt);
    NoZeros(j, depth, fmt);
    text := Text(ret, Print(j, depth, fmt));
  }

  /** `print_object` */
  method PrintObject(members: Members, depth: nat, fmt: bool) returns (out: array<byte>)
    requires PrintableMembers(members)
    ensures fresh(out) && Holds(out, Print(Object(members), depth, fmt))
    ensures out.Length == if members.NoMember? then (if fmt then depth + 4 else 3)
                          else 7 + (if fmt then depth + 1 else 0) + ObjectNeeds(Pairs(members, depth + 1, fmt), depth + 1, fmt)
    decreases members, 3
  {
    if members.NoMember? {
      out := EmptyObject(depth, fmt);
      return;
    }
    var es, len := CollectPairs(members, depth + 1, fmt);
    ObjectCovered(es, depth + 1, fmt);
    JoinAllPairs(members, depth + 1, fmt);
    PrintedObject(members, depth, fmt);
    hide JoinPairs, ObjectNeeds, Pairs, PrintMembers, Print;
    out := new byte[len];
    var at := WritePairs(out, es, depth + 1, fmt);
    ghost var done := [OPEN_BRACE] + If(fmt, [NEWLINE]) + JoinPairs(es, depth + 1, fmt);
    if fmt {
      at := WriteTabs(out, at, depth, done);
    } else {
      assert done + [] == done;
    }
    Finish(out, at, CLOSE_BRACE, done + If(fmt, Tabs(depth)));
  }

  lemma {:induction false} PrintedObject(members: Members, depth: nat, fmt: bool)
    requires members.Member?
    ensures Print(Object(members), depth, fmt)
         == [OPEN_BRACE] + If(fmt, [NEWLINE]) + PrintMembers(members, depth + 1, fmt) + If(fmt, Tabs(depth)) + [CLOSE_BRACE]
  {
  }

  method EmptyObject(depth: nat, fmt: bool) returns (out: array<byte>)
    ensures fresh(out) && Holds(out, Print(Object(NoMember), depth, fmt)) && out.Length == if fmt then depth + 4 else 3
  {
    out := new byte[if fmt then depth + 4 else 3];
    var open := if fmt then [OPEN_BRACE, NEWLINE] else [OPEN_BRACE];
    var at := Append(out, 0, open, []);
    ghost var done := open;
    if fmt {
      at := WriteTabs(out, at, depth - 1, open);
      done := open + Tabs(depth - 1);
    }
    hide Tabs;
    Finish(out, at, CLOSE_BRACE, done);
    NoMemberText(depth, fmt, done);
  }

  lemma {:induction false} NoMemberText(depth: nat, fmt: bool, done: bytes)
    requires done == if fmt then [OPEN_BRACE, NEWLINE] + Tabs(depth - 1) else [OPEN_BRACE]
    ensures done + [CLOSE_BRACE] == Print(Object(NoMember), depth, fmt)
  {
    hide Tabs;
    if fmt {
      Assoc([OPEN_BRACE], [NEWLINE], Tabs(depth - 1));
    }
  }

  /** The first pass over an object: the texts of its names and values, and the length of the buffer. */
  method CollectPairs(members: Members, depth: nat, fmt: bool) returns (es: seq<(bytes, bytes)>, len: nat)
    requires PrintableMembers(members)
    ensures es == Pairs(members, depth, fmt) && len == 7 + (if fmt then depth else 0) + ObjectNeeds(es, depth, fmt)
    decreases members, 2
  {
    es, len := [], 7 + (if fmt then depth else 0);
    ghost var first := len;
    var child := members;
    while child.Member?
      invariant child == members || child < members
      invariant PrintableMembers(child)
      invariant es + Pairs(child, depth, fmt) == Pairs(members, depth, fmt)
      invariant len + ObjectNeeds(Pairs(child, depth, fmt), depth, fmt) == first + ObjectNeeds(Pairs(members, depth, fmt), depth, fmt)
      decreases child
    {
      var name := PrintedName(child.name);
      var text := PrintedText(child.value, depth, fmt);
      PairsStep(child, depth, fmt, es);
      es := es + [(name, text)];
      len := len + |text| + |name| + 2 + (if fmt then 2 + depth else 0);
      child := child.next;
    }
  }

  lemma {:induction false} PairsStep(members: Members, depth: nat, fmt: bool, es: seq<(bytes, bytes)>)
    requires members.Member?
    ensures var e := (PrintString(members.name), Print(members.value, depth, fmt));
            && es + Pairs(members, depth, fmt) == (es + [e]) + Pairs(members.next, depth, fmt)
            && ObjectNeeds(Pairs(members, depth, fmt), depth, fmt)
               == |e.0| + |e.1| + 2 + (if fmt then 2 + depth else 0) + ObjectNeeds(Pairs(members.next, depth, fmt), depth, fmt)
  {
    assert Pairs(members, depth, fmt)[1..] == Pairs(members.next, depth, fmt);
  }

  method PrintedName(s: bytes) returns (text: bytes)
    requires 0 !in s
    ensures text == PrintString(s)
  {
    var str := PrintStringPtr(s);
    StringNoZeros(s);
    text := Text(str, PrintString(s));
  }

  // ---------------------------------------------------------------- printed text has no zeros

  lemma {:induction false} BytesNoZeros(s: bytes)
    requires 0 !in s
    ensures 0 !in PrintBytes(s)
  {
    if s != [] {
      assert s[0] in s;
      BytesNoZeros(s[1..]);
      assert 0 !in PrintByte(s[0]);
    }
  }

  lemma {:induction false} StringNoZeros(s: bytes)
    requires 0 !in s
    ensures 0 !in PrintString(s)
  {
    BytesNoZeros(s);
  }

  lemma {:induction false} TabsNoZeros(n: int)
    ensures 0 !in Tabs(n)
  {
    if n > 0 {
      TabsNoZeros(n - 1);
    }
  }

  lemma {:induction false} NoZeros(j: Json, depth: nat, fmt: bool)
    requires Printable(j)
    ensures 0 !in Print(j, depth, fmt)
    decreases j, 1
  {
    match j
    case Number(n, _) =>
    case String(s) => StringNoZeros(s);
    case Array(items) => ItemsNoZeros(items, depth + 1, fmt);
    case Object(members) =>
      MembersNoZeros(members, depth + 1, fmt);
      TabsNoZeros(depth - 1);
      TabsNoZeros(depth);
    case _ =>
  }

  lemma {:induction false} ItemsNoZeros(items: Items, depth: nat, fmt: bool)
    requires PrintableItems(items)
    ensures 0 !in PrintItems(items, depth, fmt)
    decreases items, 1
  {
    if items.Item? {
      NoZeros(items.value, depth, fmt);
      ItemsNoZeros(items.next, depth, fmt);
    }
  }

  lemma {:induction false} MembersNoZeros(members: Members, depth: nat, fmt: bool)
    requires PrintableMembers(members)
    ensures 0 !in PrintMembers(members, depth, fmt)
    decreases members, 1
  {
    if members.Member? {
      StringNoZeros(members.name);
      NoZeros(members.value, depth, fmt);
      MembersNoZeros(members.next, depth, fmt);
      TabsNoZeros(depth);
    }
  }
}
