/** How formatted JSON text is laid out: one level deeper is one tab more on every line. */
module JsonLayout {
  import opened Bytes
  import opened Sequences
  import D = Digits
  import opened Json

  /** Every line but the first one tab further in. */
  function Indent(s: bytes): (r: bytes) {
    if s == [] then [] else (if s[0] == 10 then [10, 9] else [s[0]]) + Indent(s[1..])
  }

  lemma {:induction false} IndentConcat(a: bytes, b: bytes)
    ensures Indent(a + b) == Indent(a) + Indent(b)
  {
    if a == [] {
      assert a + b == b;
    } else {
      assert (a + b)[1..] == a[1..] + b;
      IndentConcat(a[1..], b);
    }
  }

  lemma {:induction false} OneLine(s: bytes)
    requires 10 !in s
    ensures Indent(s) == s
  {
    if s != [] {
      assert s[0] in s;
      OneLine(s[1..]);
      assert [s[0]] + s[1..] == s;
    }
  }

  lemma {:induction false} StringOnOneLine(s: bytes)
    ensures 10 !in PrintString(s)
  {
    BytesOnOneLine(s);
  }

  lemma {:induction false} BytesOnOneLine(s: bytes)
    ensures 10 !in PrintBytes(s)
  {
    if s != [] {
      BytesOnOneLine(s[1..]);
      ByteOnOneLine(s[0]);
      hide PrintByte;
    }
  }

  lemma {:induction false} ByteOnOneLine(c: byte)
    ensures 10 !in PrintByte(c)
  {
  }

  lemma {:induction false} TabsOnOneLine(n: int)
    ensures 10 !in Tabs(n) && (n >= 0 ==> [9] + Tabs(n) == Tabs(n + 1) == Tabs(n) + [9])
  {
    if n > 0 {
      TabsOnOneLine(n - 1);
      assert [9] + (Tabs(n - 1) + [9]) == ([9] + Tabs(n - 1)) + [9];
    } else {
      assert Tabs(0) == [] && Tabs(1) == [9] + Tabs(0);
    }
  }

  /** Printing one level deeper puts one tab more on every line but the first, except for an empty object at the top. */
  lemma {:induction false} DeeperIsIndented(j: Json, depth: nat)
    ensures Print(j, depth + 1, true) == Indent(Print(j, depth, true)) <==> !(depth == 0 && j == Object(NoMember))
    decreases j, 1
  {
    match j
    case Null => OneLine(NULL_TEXT);
    case False => OneLine(FALSE_TEXT);
    case True => OneLine(TRUE_TEXT);
    case Number(n, _) => OneLine(PrintNumber(n));
    case String(s) =>
      StringOnOneLine(s);
      OneLine(PrintString(s));
    case Array(items) =>
      ItemsIndented(items, depth + 1);
      OneLine([91]);
      OneLine([93]);
      IndentConcat([91] + PrintItems(items, depth + 1, true), [93]);
      IndentConcat([91], PrintItems(items, depth + 1, true));
      hide PrintItems, Indent;
    case Object(members) =>
      if members.NoMember? {
        EmptyIndented(depth);
      } else {
        ObjectIndented(members, depth);
      }
  }

  lemma {:induction false} ItemsIndented(items: Items, depth: nat)
    requires depth > 0
    ensures PrintItems(items, depth + 1, true) == Indent(PrintItems(items, depth, true))
    decreases items, 0
  {
    if items.Item? {
      DeeperIsIndented(items.value, depth);
      ItemsIndented(items.next, depth);
      if items.next.Item? {
        var p, q := Print(items.value, depth, true), PrintItems(items.next, depth, true);
        assert If(true, [SPACE]) == [32];
        OneLine([44]);
        OneLine([32]);
        hide Print, Indent;
        IndentConcat(p + [44] + [32], q);
        IndentConcat(p + [44], [32]);
        IndentConcat(p, [44]);
      }
    }
  }

  lemma {:induction false} EmptyIndented(depth: nat)
    ensures Print(Object(NoMember), depth + 1, true) == Indent(Print(Object(NoMember), depth, true)) <==> depth > 0
  {
    var t := Tabs(depth - 1);
    TabsOnOneLine(depth - 1);
    OneLine(t);
    assert Print(Object(NoMember), depth, true) == [123] + ([10] + t) + [125];
    assert Print(Object(NoMember), depth + 1, true) == [123] + ([10] + Tabs(depth)) + [125];
    Singles();
    hide Indent, Print, Tabs;
    IndentConcat([123] + ([10] + t), [125]);
    IndentConcat([123], [10] + t);
    IndentConcat([10], t);
    EmptyLines(t, Tabs(depth));
    if depth == 0 {
      assert |Tabs(depth)| == 0;
    }
  }

  lemma {:induction false} EmptyLines(t: bytes, u: bytes)
    ensures [123] + ([10, 9] + t) + [125] == [123] + ([10] + u) + [125] <==> [9] + t == u
  {
    var a, b := [123] + ([10, 9] + t) + [125], [123] + ([10] + u) + [125];
    assert a[2..|a| - 1] == [9] + t && b[2..|b| - 1] == u;
    assert [10, 9] + t == [10] + ([9] + t);
  }

  lemma {:induction false} Singles()
    ensures Indent([123]) == [123] && Indent([125]) == [125] && Indent([10]) == [10, 9]
  {
    assert Indent([]) == [];
  }

  lemma {:induction false} ObjectIndented(members: Members, depth: nat)
    requires members.Member?
    ensures Print(Object(members), depth + 1, true) == Indent(Print(Object(members), depth, true))
    decreases members, 1
  {
    MembersIndented(members, depth + 1);
    var x, y, t := PrintMembers(members, depth + 1, true), PrintMembers(members, depth + 2, true), Tabs(depth);
    TabsOnOneLine(depth);
    OneLine(t);
    Singles();
    assert Print(Object(members), depth, true) == [123] + [10] + x + t + [125];
    assert Print(Object(members), depth + 1, true) == [123] + [10] + y + Tabs(depth + 1) + [125];
    hide Indent, Print, PrintMembers, Tabs;
    IndentConcat([123] + [10] + x + t, [125]);
    IndentConcat([123] + [10] + x, t);
    IndentConcat([123] + [10], x);
    IndentConcat([123], [10]);
    BraceRegroup(Indent(x), y, t);
  }

  lemma {:induction false} BraceRegroup(ix: bytes, y: bytes, t: bytes)
    requires [9] + ix == y + [9]
    ensures [123] + [10, 9] + ix + t + [125] == [123] + [10] + y + ([9] + t) + [125]
    ensures [123] + [10] == [123, 10]
  {
    var a := [123] + [10];
    assert [123] + [10, 9] == a + [9];
    assert a + [9] + ix == a + ([9] + ix);
    assert a + (y + [9]) + t == a + y + ([9] + t);
  }

  /** The tab that the line feed before a member gains is the one it passes on to the next line. */
  lemma {:induction false} MembersIndented(members: Members, depth: nat)
    requires depth > 0
    ensures [9] + Indent(PrintMembers(members, depth, true)) == PrintMembers(members, depth + 1, true) + [9]
    decreases members, 0
  {
    if members.Member? {
      DeeperIsIndented(members.value, depth);
      MembersIndented(members.next, depth);
      var n, v, c := PrintString(members.name), Print(members.value, depth, true), If(members.next.Member?, [COMMA]);
      var q := PrintMembers(members.next, depth, true);
      TabsOnOneLine(depth);
      StringOnOneLine(members.name);
      var head := Tabs(depth) + n + [58] + [9];
      OneLine(head);
      OneLine(c);
      Singles();
      assert PrintMembers(members, depth, true) == head + v + c + [10] + q;
      var u, r := Print(members.value, depth + 1, true), PrintMembers(members.next, depth + 1, true);
      assert PrintMembers(members, depth + 1, true) == Tabs(depth + 1) + n + [58] + [9] + u + c + [10] + r;
      hide Indent, Print, PrintMembers, Tabs, PrintString;
      IndentConcat(head + v + c + [10], q);
      IndentConcat(head + v + c, [10]);
      IndentConcat(head + v, c);
      IndentConcat(head, v);
      MemberRegroup(Tabs(depth), n, u, c, Indent(q), r);
    } else {
      assert Indent([]) == [];
    }
  }

  lemma {:induction false} MemberRegroup(t: bytes, n: bytes, u: bytes, c: bytes, iq: bytes, r: bytes)
    requires [9] + iq == r + [9]
    ensures [9] + ((t + n + [58] + [9]) + u + c + [10, 9] + iq) == ([9] + t) + n + [58] + [9] + u + c + [10] + r + [9]
  {
    var a := t + n + [58] + [9] + u + c;
    assert a + [10, 9] + iq == a + [10] + ([9] + iq);
    assert a + [10] + (r + [9]) == a + [10] + r + [9];
  }

  // ---------------------------------------------------------------- text without formatting

  /** Whether a string or a name somewhere in the tree holds a space. */
  predicate HasSpace(j: Json) {
    match j
    case String(s) => 32 in s
    case Array(items) => ItemsHaveSpace(items)
    case Object(members) => MembersHaveSpace(members)
    case _ => false
  }

  predicate ItemsHaveSpace(items: Items) {
    items.Item? && (HasSpace(items.value) || ItemsHaveSpace(items.next))
  }

  predicate MembersHaveSpace(members: Members) {
    members.Member? && (32 in members.name || HasSpace(members.value) || MembersHaveSpace(members.next))
  }

  lemma {:induction false} StringBytes(s: bytes, c: byte)
    requires c in PrintString(s)
    ensures c > 32 || (c == 32 && 32 in s)
  {
    if c in PrintBytes(s) {
      BytesPrinted(s, c);
    }
  }

  lemma {:induction false} BytesPrinted(s: bytes, c: byte)
    requires c in PrintBytes(s)
    ensures c > 32 || (c == 32 && 32 in s)
  {
    if c in PrintByte(s[0]) {
      assert s[0] in s;
    } else {
      BytesPrinted(s[1..], c);
    }
  }

  /** Without formatting nothing is written between the tokens: the only white space is spaces inside strings. */
  lemma {:induction false} NothingBetween(j: Json, depth: nat, c: byte)
    requires c in Print(j, depth, false)
    ensures c > 32 || (c == 32 && HasSpace(j))
    decreases j, 1
  {
    match j
    case String(s) => StringBytes(s, c);
    case Array(items) =>
      if c in PrintItems(items, depth + 1, false) {
        NothingBetweenItems(items, depth + 1, c);
      }
    case Object(members) =>
      if members.Member? && c in PrintMembers(members, depth + 1, false) {
        NothingBetweenMembers(members, depth + 1, c);
      }
    case _ =>
  }

  lemma {:induction false} NothingBetweenItems(items: Items, depth: nat, c: byte)
    requires c in PrintItems(items, depth, false)
    ensures c > 32 || (c == 32 && ItemsHaveSpace(items))
    decreases items, 0
  {
    if c in Print(items.value, depth, false) {
      NothingBetween(items.value, depth, c);
    } else if c in PrintItems(items.next, depth, false) {
      NothingBetweenItems(items.next, depth, c);
    }
  }

  lemma {:induction false} NothingBetweenMembers(members: Members, depth: nat, c: byte)
    requires c in PrintMembers(members, depth, false)
    ensures c > 32 || (c == 32 && MembersHaveSpace(members))
    decreases members, 0
  {
    if c in PrintString(members.name) {
      StringBytes(members.name, c);
    } else if c in Print(members.value, depth, false) {
      NothingBetween(members.value, depth, c);
    } else if c in PrintMembers(members.next, depth, false) {
      NothingBetweenMembers(members.next, depth, c);
    }
  }

  // ---------------------------------------------------------------- a text in full

  const SAMPLE := Object(Member([97], Array(Item(Number(1, 0), Item(Number(2, 0), NoItem))), NoMember))

  /** One object, written both ways. */
  lemma {:induction false} SampleLayout()
    ensures Print(SAMPLE, 0, true) == [123, 10, 9, 34, 97, 34, 58, 9, 91, 49, 44, 32, 50, 93, 10, 125]
    ensures Print(SAMPLE, 0, false) == [123, 34, 97, 34, 58, 91, 49, 44, 50, 93, 125]
  {
    hide Print;
    SampleParts(true);
    SampleParts(false);
  }

  lemma {:induction false} SampleParts(fmt: bool)
    ensures Print(SAMPLE, 0, fmt) ==
            [123] + If(fmt, [10]) + (If(fmt, [9]) + [34, 97, 34] + [58] + If(fmt, [9]) + ([91] + ([49, 44] + If(fmt, [32]) + [50]) + [93]) + If(fmt, [10])) + [125]
  {
    var two := Item(Number(2, 0), NoItem);
    var items := Item(Number(1, 0), two);
    var all := Member([97], Array(items), NoMember);
    assert Tabs(0) == [] && Tabs(1) == [9] + Tabs(0) == [9];
    assert PrintString([97]) == [34, 97, 34] by { OneLetter(97); }
    hide PrintString, Tabs;
    assert PrintItems(two, 2, fmt) == [50];
    assert PrintItems(items, 2, fmt) == [49] + [44] + If(fmt, [32]) + [50];
    assert Print(Array(items), 1, fmt) == [91] + PrintItems(items, 2, fmt) + [93];
    assert PrintMembers(NoMember, 1, fmt) == [];
    assert PrintMembers(all, 1, fmt) == If(fmt, [9]) + [34, 97, 34] + [58] + If(fmt, [9]) + Print(Array(items), 1, fmt) + [] + If(fmt, [10]) + [];
    assert Print(Object(all), 0, fmt) == [123] + If(fmt, [10]) + PrintMembers(all, 1, fmt) + If(fmt, []) + [125];
    assert [49] + [44] == [49, 44] && If(fmt, []) == [];
  }

  lemma {:induction false} OneLetter(c: byte)
    requires 93 <= c < 128
    ensures PrintString([c]) == [34, c, 34]
  {
    assert PrintBytes([]) == [];
    assert PrintBytes([c]) == [c] + [];
  }
}
