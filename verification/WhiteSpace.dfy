/** What parsing makes of line ends and white space, told from whole texts (sections 2.11 and 3.3.3 of XML 1.0). */
module WhiteSpace {
  import opened Bytes
  import opened Sequences
  import opened References
  import opened Strconv

  // ---------------------------------------------------------------- stretches without white space at the seam

  /** How many bytes the first character takes up, and what it gives, where white space is not concerned. */
  function First(escapes: bool, s: bytes): (r: Reference)
    requires s != []
    ensures 0 < r.length <= |s|
  {
    if escapes && RefAt(s).Some? then RefFits(s); RefAt(s).value else Reference([s[0]], 1)
  }

  lemma {:induction false} ConvertFirst(m: Mode, s: bytes)
    requires s != [] && !Altered(m, s[0])
    ensures var r := First(m.escapes, s); Convert(m, s) == r.text + Convert(m, s[r.length..])
  {
    hide RefAt, Altered;
  }

  lemma {:induction false} FirstBefore(escapes: bool, a: bytes, b: bytes)
    requires a != [] && (b == [] || WhiteByte(b[0]))
    ensures First(escapes, a + b) == First(escapes, a) && (a + b)[First(escapes, a).length..] == a[First(escapes, a).length..] + b
  {
    hide RefAt;
    RefBeforeWhite(a, b);
    assert (a + b)[0] == a[0];
    var r := First(escapes, a);
    assert First(escapes, a + b) == r;
    hide First;
    TailOf(a, b, r.length);
  }

  lemma {:induction false} TailOf(a: bytes, b: bytes, n: nat)
    requires n <= |a|
    ensures (a + b)[n..] == a[n..] + b
  {
  }

  /** A stretch is converted on its own when white space follows it and it does not end in half a line end. */
  lemma {:induction false} ConvertBefore(m: Mode, a: bytes, b: bytes)
    requires !m.white.Wnorm? && CR !in a && (b == [] || WhiteByte(b[0]))
    ensures Convert(m, a + b) == Convert(m, a) + Convert(m, b)
    decreases |a|
  {
    var s := a + b;
    if a == [] {
      assert s == b;
    } else if Altered(m, a[0]) {
      assert s[0] == a[0] && s[0] in a && s[1..] == a[1..] + b;
      ConvertBefore(m, a[1..], b);
    } else {
      assert s[0] == a[0];
      hide Convert, Altered, First;
      var r := First(m.escapes, a);
      FirstBefore(m.escapes, a, b);
      ConvertFirst(m, s);
      ConvertFirst(m, a);
      ConvertBefore(m, a[r.length..], b);
      Assoc(r.text, Convert(m, a[r.length..]), Convert(m, b));
    }
  }

  /** A mode that alters none of the bytes leaves only references to replace. */
  lemma {:induction false} OnlyReferences(m: Mode, s: bytes)
    requires forall i :: 0 <= i < |s| ==> !Altered(m, s[i])
    ensures Convert(m, s) == Convert(Mode(m.escapes, Keep), s)
    decreases |s|
  {
    if s != [] {
      hide RefAt, Altered;
      assert !Altered(Mode(m.escapes, Keep), s[0]) by { KeepsAll(m.escapes, s[0]); }
      if m.escapes && RefAt(s).Some? {
        RefFits(s);
        OnlyReferences(m, s[RefAt(s).value.length..]);
      } else {
        OnlyReferences(m, s[1..]);
      }
    }
  }

  lemma {:induction false} KeepsAll(escapes: bool, c: byte)
    ensures !Altered(Mode(escapes, Keep), c)
  {
  }

  /** Where references are left alone too, nothing changes. */
  lemma {:induction false} NothingChanges(s: bytes)
    ensures Convert(Mode(false, Keep), s) == s
  {
    if s != [] {
      NothingChanges(s[1..]);
      assert [s[0]] + s[1..] == s;
    }
  }

  // ---------------------------------------------------------------- line ends

  /** The three ways to end a line. */
  datatype Ending = Pair | Return | Feed

  function EndBytes(e: Ending): bytes {
    match e
    case Pair => [13, 10]
    case Return => [13]
    case Feed => [10]
  }

  datatype Line = Line(text: bytes, end: Ending)

  /** Lines with their ends, and what follows the last end. */
  function Text(lines: seq<Line>, last: bytes): bytes {
    if lines == [] then last else lines[0].text + (EndBytes(lines[0].end) + Text(lines[1..], last))
  }

  ghost predicate NoEnds(s: bytes) {
    forall i :: 0 <= i < |s| ==> s[i] != 13 && s[i] != 10
  }

  /** The lines are told apart right: no line end inside, and no pair taken for two. */
  ghost predicate Proper(lines: seq<Line>, last: bytes) {
    && NoEnds(last)
    && (forall i :: 0 <= i < |lines| ==> NoEnds(lines[i].text))
    && (forall i :: 0 <= i < |lines| - 1 ==> !(lines[i].end.Return? && lines[i + 1].text == [] && lines[i + 1].end.Feed?))
  }

  /** Every line converted on its own, with the same byte after each. */
  function Unified(m: Mode, lines: seq<Line>, last: bytes, end: byte): bytes {
    if lines == [] then Convert(m, last) else Convert(m, lines[0].text) + ([end] + Unified(m, lines[1..], last, end))
  }

  lemma {:induction false} ProperRest(lines: seq<Line>, last: bytes)
    requires lines != [] && Proper(lines, last)
    ensures Proper(lines[1..], last)
    ensures lines[0].end.Return? ==> Text(lines[1..], last) == [] || Text(lines[1..], last)[0] != 10
  {
    var rest := lines[1..];
    assert forall i :: 0 <= i < |rest| ==> rest[i] == lines[i + 1];
    forall i | 0 <= i < |rest| - 1 ensures !(rest[i].end.Return? && rest[i + 1].text == [] && rest[i + 1].end.Feed?) {
      assert rest[i] == lines[i + 1] && rest[i + 1] == lines[i + 1 + 1];
    }
    if rest != [] && rest[0].text != [] {
      assert rest[0].text[0] != 10;
    }
  }

  lemma {:induction false} OneEnd(m: Mode, e: Ending, rest: bytes)
    requires (m.white.Eol? || m.white.Wconv?) && (e.Return? ==> rest == [] || rest[0] != 10)
    ensures Convert(m, EndBytes(e) + rest) == [if m.white.Eol? then 10 else 32] + Convert(m, rest)
  {
    var s := EndBytes(e) + rest;
    if e.Feed? && m.white.Eol? {
      PlainReads(m, LF, rest);
    } else {
      match e {
        case Pair => assert s[0] == CR && s[1] == LF && s[2..] == rest;
        case Return => assert s[0] == CR && s[1..] == rest && (rest != [] ==> s[1] == rest[0]);
        case Feed => assert s[0] == LF && s[1..] == rest;
      }
      assert AfterWhite(m, s) == rest;
    }
  }

  /**
    However its lines end, a text is converted line by line, and a line feed, or with white space conversion a
    space, stands for every line end: one for a carriage return and line feed together, one for each alone.
    */
  lemma {:induction false} LineEnds(m: Mode, lines: seq<Line>, last: bytes)
    requires (m.white.Eol? || m.white.Wconv?) && Proper(lines, last)
    ensures Convert(m, Text(lines, last)) == Unified(m, lines, last, if m.white.Eol? then 10 else 32)
  {
    if lines != [] {
      var line, rest := lines[0], Text(lines[1..], last);
      ProperRest(lines, last);
      LineEnds(m, lines[1..], last);
      assert NoEnds(line.text);
      hide Convert, Text, Proper;
      OneEnd(m, line.end, rest);
      ConvertBefore(m, line.text, EndBytes(line.end) + rest);
      assert Text(lines, last) == line.text + (EndBytes(line.end) + rest) by { TextStep(lines, last); }
    }
  }

  lemma {:induction false} TextStep(lines: seq<Line>, last: bytes)
    requires lines != []
    ensures Text(lines, last) == lines[0].text + (EndBytes(lines[0].end) + Text(lines[1..], last))
  {
  }

  /** What line-end handling does inside a line: nothing but references; white space conversion turns tabs to spaces. */
  lemma {:induction false} InsideLines(escapes: bool, s: bytes)
    requires NoEnds(s)
    ensures Convert(Mode(escapes, Eol), s) == Convert(Mode(escapes, Keep), s)
    ensures Convert(Mode(false, Eol), s) == s
    ensures |Convert(Mode(false, Wconv), s)| == |s|
    ensures forall i :: 0 <= i < |s| ==> Convert(Mode(false, Wconv), s)[i] == if s[i] == 9 then 32 else s[i]
  {
    OnlyReferences(Mode(escapes, Eol), s);
    OnlyReferences(Mode(false, Eol), s);
    NothingChanges(s);
    TabsToSpaces(s);
  }

  lemma {:induction false} TabsToSpaces(s: bytes)
    requires NoEnds(s)
    ensures |Convert(Mode(false, Wconv), s)| == |s|
    ensures forall i :: 0 <= i < |s| ==> Convert(Mode(false, Wconv), s)[i] == if s[i] == 9 then 32 else s[i]
  {
    if s != [] {
      assert s[0] != 13;
      assert forall i :: 0 <= i < |s[1..]| ==> s[1..][i] == s[i + 1];
      TabsToSpaces(s[1..]);
    }
  }

  /** Every text has such lines. */
  lemma {:induction false} HasLines(s: bytes) returns (lines: seq<Line>, last: bytes)
    ensures Proper(lines, last) && Text(lines, last) == s
    decreases |s|
  {
    if s == [] {
      lines, last := [], [];
    } else if s[0] == 13 && |s| > 1 && s[1] == 10 {
      lines, last := HasLines(s[2..]);
      MoreLines([], Pair, lines, last);
      lines := [Line([], Pair)] + lines;
      assert [] + ([13, 10] + s[2..]) == s;
    } else if s[0] == 13 || s[0] == 10 {
      lines, last := HasLines(s[1..]);
      var e := if s[0] == 13 then Return else Feed;
      StartsSo(lines, last);
      MoreLines([], e, lines, last);
      lines := [Line([], e)] + lines;
      assert [] + ([s[0]] + s[1..]) == s;
    } else {
      lines, last := HasLines(s[1..]);
      if lines == [] {
        last := [s[0]] + last;
      } else {
        lines := LongerLine(s[0], lines, last);
      }
      assert [s[0]] + s[1..] == s;
    }
  }

  lemma {:induction false} StartsSo(lines: seq<Line>, last: bytes)
    ensures lines != [] && lines[0].text == [] && lines[0].end.Feed? ==> Text(lines, last) != [] && Text(lines, last)[0] == 10
  {
  }

  lemma {:induction false} MoreLines(text: bytes, e: Ending, lines: seq<Line>, last: bytes)
    requires Proper(lines, last) && NoEnds(text) && !(e.Return? && lines != [] && lines[0].text == [] && lines[0].end.Feed?)
    ensures Proper([Line(text, e)] + lines, last)
    ensures Text([Line(text, e)] + lines, last) == text + (EndBytes(e) + Text(lines, last))
  {
    var all := [Line(text, e)] + lines;
    assert all[1..] == lines;
    forall i | 0 <= i < |all| - 1 ensures !(all[i].end.Return? && all[i + 1].text == [] && all[i + 1].end.Feed?) {
      assert all[i + 1] == lines[i] && (i > 0 ==> all[i] == lines[i - 1]);
    }
  }

  lemma {:induction false} LongerLine(c: byte, lines: seq<Line>, last: bytes) returns (r: seq<Line>)
    requires lines != [] && Proper(lines, last) && c != 13 && c != 10
    ensures r != [] && Proper(r, last) && Text(r, last) == [c] + Text(lines, last)
  {
    var line := lines[0];
    ProperRest(lines, last);
    TextStep(lines, last);
    assert NoEnds([c] + line.text);
    hide Text, Proper;
    if line.end.Return? {
      StartsSo(lines[1..], last);
    }
    MoreLines([c] + line.text, line.end, lines[1..], last);
    r := [Line([c] + line.text, line.end)] + lines[1..];
    Assoc([c], line.text, EndBytes(line.end) + Text(lines[1..], last));
  }

  // ---------------------------------------------------------------- words

  /** A word and the white space after it. */
  datatype Word = Word(text: bytes, gap: bytes)

  ghost predicate AllWhite(s: bytes) {
    forall i :: 0 <= i < |s| ==> WhiteByte(s[i])
  }

  ghost predicate NoWhite(s: bytes) {
    forall i :: 0 <= i < |s| ==> !WhiteByte(s[i])
  }

  /** Words are not empty, and only the last may stand without white space after it. */
  ghost predicate Words(ws: seq<Word>) {
    forall i :: 0 <= i < |ws| ==>
      ws[i].text != [] && NoWhite(ws[i].text) && AllWhite(ws[i].gap) && (i < |ws| - 1 ==> ws[i].gap != [])
  }

  function Spaced(ws: seq<Word>): bytes {
    if ws == [] then [] else ws[0].text + (ws[0].gap + Spaced(ws[1..]))
  }

  /** The words, references in them replaced, with one space between any two. */
  function OneSpace(escapes: bool, ws: seq<Word>): bytes {
    if ws == [] then []
    else Convert(Mode(escapes, Keep), ws[0].text) + (if |ws| == 1 then [] else [32] + OneSpace(escapes, ws[1..]))
  }

  lemma {:induction false} SkipsWhite(w: bytes, s: bytes)
    requires AllWhite(w) && (s == [] || !WhiteByte(s[0]))
    ensures SkipSpaces(w + s) == s
  {
    if w == [] {
      assert w + s == s;
    } else {
      assert (w + s)[1..] == w[1..] + s;
      SkipsWhite(w[1..], s);
    }
  }

  lemma {:induction false} WordsRest(ws: seq<Word>)
    requires ws != [] && Words(ws)
    ensures Words(ws[1..]) && (Spaced(ws[1..]) == [] || !WhiteByte(Spaced(ws[1..])[0]))
  {
    var rest := ws[1..];
    assert forall i :: 0 <= i < |rest| ==> rest[i] == ws[i + 1];
  }

  lemma {:induction false} WordBefore(escapes: bool, a: bytes, b: bytes)
    requires NoWhite(a) && (b == [] || WhiteByte(b[0]))
    ensures Convert(Mode(escapes, Wnorm), a + b) == Convert(Mode(escapes, Keep), a) + Convert(Mode(escapes, Wnorm), b)
    decreases |a|
  {
    var m, keep := Mode(escapes, Wnorm), Mode(escapes, Keep);
    if a == [] {
      assert a + b == b;
    } else {
      assert (a + b)[0] == a[0] && !Altered(m, a[0]) && !Altered(keep, a[0]);
      hide Convert, Altered, First;
      var r := First(escapes, a);
      FirstBefore(escapes, a, b);
      ConvertFirst(m, a + b);
      ConvertFirst(keep, a);
      WordBefore(escapes, a[r.length..], b);
      Assoc(r.text, Convert(keep, a[r.length..]), Convert(m, b));
    }
  }

  lemma {:induction false} OneGap(escapes: bool, gap: bytes, rest: bytes)
    requires gap != [] && AllWhite(gap) && (rest == [] || !WhiteByte(rest[0]))
    ensures Convert(Mode(escapes, Wnorm), gap + rest) == [32] + Convert(Mode(escapes, Wnorm), rest)
  {
    var s := gap + rest;
    assert s[0] == gap[0] && s[1..] == gap[1..] + rest;
    SkipsWhite(gap[1..], rest);
  }

  /** White space normalisation before the trim: one space for every gap, one more if the text ends in white space. */
  lemma {:induction false} Collapsed(escapes: bool, ws: seq<Word>)
    requires Words(ws)
    ensures Convert(Mode(escapes, Wnorm), Spaced(ws))
         == OneSpace(escapes, ws) + (if ws != [] && ws[|ws| - 1].gap != [] then [32] else [])
  {
    var m := Mode(escapes, Wnorm);
    if ws != [] {
      var w, rest := ws[0], Spaced(ws[1..]);
      WordsRest(ws);
      Collapsed(escapes, ws[1..]);
      assert NoWhite(w.text) && AllWhite(w.gap);
      if w.gap == [] {
        assert ws[1..] == [] && [] + rest == rest == [];
      } else {
        OneGap(escapes, w.gap, rest);
      }
      WordBefore(escapes, w.text, w.gap + rest);
      var end := if ws[|ws| - 1].gap != [] then [32] else [];
      if |ws| > 1 {
        assert ws[1..][|ws| - 2] == ws[|ws| - 1];
        Assoc(Convert(Mode(escapes, Keep), w.text), [32] + OneSpace(escapes, ws[1..]), end);
        Assoc([32], OneSpace(escapes, ws[1..]), end);
      } else {
        assert w.text + w.gap + [] == w.text + w.gap;
      }
    }
  }

  lemma {:induction false} TrimOne(s: bytes)
    ensures TrimRight(s + [32]) == TrimRight(s)
  {
    assert (s + [32])[..|s|] == s;
  }

  /** Normalised, a text is its words with one space between any two, and white space that references left at the end is cut. */
  lemma {:induction false} NormalisedWords(escapes: bool, lead: bytes, ws: seq<Word>)
    requires AllWhite(lead) && Words(ws)
    ensures Normalise(escapes, lead + Spaced(ws)) == TrimRight(OneSpace(escapes, ws))
    ensures !escapes ==> Normalise(escapes, lead + Spaced(ws)) == OneSpace(escapes, ws)
  {
    assert Spaced(ws) == [] || !WhiteByte(Spaced(ws)[0]) by {
      if ws != [] {
        assert ws[0].text != [] && NoWhite(ws[0].text);
      }
    }
    SkipsWhite(lead, Spaced(ws));
    Collapsed(escapes, ws);
    hide Convert, TrimRight, Spaced;
    if ws != [] && ws[|ws| - 1].gap != [] {
      TrimOne(OneSpace(escapes, ws));
    } else {
      assert OneSpace(escapes, ws) + [] == OneSpace(escapes, ws);
    }
    if !escapes {
      EndsInWord(ws);
    }
  }

  lemma {:induction false} EndsInWord(ws: seq<Word>)
    requires Words(ws)
    ensures TrimRight(OneSpace(false, ws)) == OneSpace(false, ws)
    ensures ws != [] ==> OneSpace(false, ws) != [] && !WhiteByte(OneSpace(false, ws)[|OneSpace(false, ws)| - 1])
  {
    if ws != [] {
      WordsRest(ws);
      EndsInWord(ws[1..]);
      NothingChanges(ws[0].text);
      assert NoWhite(ws[0].text) && ws[0].text != [];
      hide Convert;
    }
  }

  /** Every text is words and white space. */
  lemma {:induction false} HasWords(s: bytes) returns (lead: bytes, ws: seq<Word>)
    ensures AllWhite(lead) && Words(ws) && lead + Spaced(ws) == s
    decreases |s|
  {
    if s == [] {
      lead, ws := [], [];
    } else {
      lead, ws := HasWords(s[1..]);
      assert s == [s[0]] + s[1..];
      if WhiteByte(s[0]) {
        Assoc([s[0]], lead, Spaced(ws));
        lead := [s[0]] + lead;
      } else {
        ws := LongerWord(s[0], lead, ws);
        lead := [];
        EmptyFirst(Spaced(ws));
      }
    }
  }

  lemma {:induction false} LongerWord(c: byte, lead: bytes, ws: seq<Word>) returns (r: seq<Word>)
    requires !WhiteByte(c) && AllWhite(lead) && Words(ws)
    ensures Words(r) && Spaced(r) == [c] + (lead + Spaced(ws))
  {
    if lead == [] && ws != [] {
      WordsRest(ws);
      r := [Word([c] + ws[0].text, ws[0].gap)] + ws[1..];
      assert r[1..] == ws[1..];
      assert NoWhite([c] + ws[0].text);
      Assoc([c], ws[0].text, ws[0].gap + Spaced(ws[1..]));
      EmptyFirst(Spaced(ws));
      FirstWord(Word([c] + ws[0].text, ws[0].gap), ws[1..]);
    } else {
      r := [Word([c], lead)] + ws;
      assert r[1..] == ws;
      assert NoWhite([c]);
      FirstWord(Word([c], lead), ws);
    }
  }

  lemma {:induction false} FirstWord(w: Word, ws: seq<Word>)
    requires w.text != [] && NoWhite(w.text) && AllWhite(w.gap) && (ws != [] ==> w.gap != []) && Words(ws)
    ensures Words([w] + ws)
  {
    var all := [w] + ws;
    assert forall i :: 0 < i < |all| ==> all[i] == ws[i - 1];
  }
}
