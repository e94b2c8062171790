/** The loops that convert character data and attribute values in place, each against its conversion function. */
module TextParsing {
  import opened Bytes
  import opened Sequences
  import opened Strconv
  import opened GapBuffer

  /**
    The state of a conversion: bytes from the cursor on are untouched, and what has been produced followed by
    what the rest will give is the whole result.
    */
  ghost predicate At(g: Gap, a: array<byte>, orig: bytes, start: nat, s: nat, p: nat, rest: bytes, whole: bytes)
    reads g, a
  {
    && start <= s <= p < a.Length == |orig|
    && g.Fits(start, s)
    && Outside(a[..], orig, start, s)
    && g.Text(a[..], start, s) + rest == whole
  }

  /** `++s` */
  lemma {:induction false} Advance(g: Gap, a: array<byte>, orig: bytes, start: nat, s: nat, e: nat, p: nat, rest: bytes, whole: bytes)
    requires s <= e <= p < |orig| && At(g, a, orig, start, s, p, orig[s..e] + rest, whole)
    ensures At(g, a, orig, start, e, p, rest, whole)
  {
    var buf := a[..];
    var t := g.Text(buf, start, s);
    TextGrows(g, buf, start, s, e);
    OutsideMore(buf, orig, start, s, e);
    hide Gap.Text, Outside;
    Assoc(t, orig[s..e], rest);
  }

  /** `*s++ = c` */
  method Put(a: array<byte>, g: Gap, s: nat, c: byte, ghost orig: bytes, ghost start: nat, ghost p: nat, ghost rest: bytes, ghost whole: bytes)
    returns (r: nat)
    requires s < p && At(g, a, orig, start, s, p, [c] + rest, whole)
    modifies a
    ensures r == s + 1 && At(g, a, orig, start, r, p, rest, whole)
  {
    ghost var before := a[..];
    r := s + 1;
    WrittenFacts(before, s, [c], start);
    OutsideMore(before, orig, start, s, r);
    a[s] := c;
    ghost var after := a[..];
    assert after == Written(before, s, [c]);
    hide Outside, Written, Gap.Text;
    OutsideTransitive(after, before, orig, start, r);
    TextSame(g, before, after, start, s);
    TextGrows(g, after, start, s, r);
    Assoc(g.Text(before, start, s), [c], rest);
  }

  /** Where white space at `s` that counts as one ends. */
  ghost function WhiteEnd(m: Mode, orig: bytes, s: nat, p: nat): (e: nat)
    requires s < p <= |orig|
    ensures s < e <= p
  {
    p - |AfterWhite(m, orig[s..p])|
  }

  lemma {:induction false} Tail(orig: bytes, s: nat, k: nat, p: nat)
    requires s <= k <= p <= |orig|
    ensures orig[s..p][k - s..] == orig[k..p] && orig[s..p][..k - s] == orig[s..k] && orig[s..p] == orig[s..k] + orig[k..p]
  {
  }

  // ---------------------------------------------------------------- steps of the conversion

  lemma {:induction false} ConvertPlain(m: Mode, orig: bytes, s: nat, p: nat)
    requires s < p <= |orig| && !Altered(m, orig[s]) && (m.escapes && orig[s] == AMP ==> RefAt(orig[s..p]).None?)
    ensures Convert(m, orig[s..p]) == orig[s..s + 1] + Convert(m, orig[s + 1..p])
  {
    var t := orig[s..p];
    Tail(orig, s, s + 1, p);
    if RefAt(t).Some? {
      RefFits(t);
    }
    assert [t[0]] == orig[s..s + 1];
  }

  lemma {:induction false} ConvertInert(m: Mode, orig: bytes, s: nat, k: nat, p: nat)
    requires s <= k <= p <= |orig| && forall i :: s <= i < k ==> Inert(orig[i])
    ensures Convert(m, orig[s..p]) == orig[s..k] + Convert(m, orig[k..p])
    decreases k - s
  {
    if s < k {
      ConvertPlain(m, orig, s, p);
      ConvertInert(m, orig, s + 1, k, p);
      hide Convert;
      Tail(orig, s, s + 1, k);
      Assoc(orig[s..s + 1], orig[s + 1..k], Convert(m, orig[k..p]));
    } else {
      assert orig[s..k] == [];
    }
  }

  lemma {:induction false} ConvertWhite(m: Mode, orig: bytes, s: nat, p: nat)
    requires s < p <= |orig| && Altered(m, orig[s])
    ensures Convert(m, orig[s..p]) == [if m.white.Eol? then LF else SPACE] + Convert(m, orig[WhiteEnd(m, orig, s, p)..p])
  {
    var t := orig[s..p];
    SkipSpacesSuffix(t[1..]);
    Tail(orig, s, s + 1, p);
    var e := WhiteEnd(m, orig, s, p);
    assert AfterWhite(m, t) == t[e - s..];
    Tail(orig, s, e, p);
  }

  lemma {:induction false} SkipSpacesSuffix(s: bytes)
    ensures SkipSpaces(s) == s[|s| - |SkipSpaces(s)|..]
  {
    if s != [] && IsSpace(s[0]) {
      SkipSpacesSuffix(s[1..]);
    }
  }

  /** The scan over spaces ends where `SkipSpaces` does. */
  lemma {:induction false} SkipSpacesUpTo(s: bytes, n: nat)
    requires n <= |s| && (forall i :: 0 <= i < n ==> IsSpace(s[i])) && (n < |s| ==> !IsSpace(s[n]))
    ensures SkipSpaces(s) == s[n..]
  {
    if n > 0 {
      assert IsSpace(s[0]);
      SkipSpacesUpTo(s[1..], n - 1);
    }
  }

  lemma {:induction false} ConvertRef(m: Mode, orig: bytes, s: nat, p: nat)
    requires s < p <= |orig| && m.escapes && orig[s] == AMP && RefAt(orig[s..p]).Some?
    ensures var ref := RefAt(orig[s..p]).value;
            s + ref.length <= p && Convert(m, orig[s..p]) == ref.text + Convert(m, orig[s + ref.length..p])
  {
    RefFits(orig[s..p]);
    hide RefAt;
    Tail(orig, s, s + RefAt(orig[s..p]).value.length, p);
  }

  lemma {:induction false} ConvertNoRef(m: Mode, orig: bytes, s: nat, r: nat, p: nat)
    requires s < r <= p <= |orig| && orig[s] == AMP && RefAt(orig[s..p]).None? && forall k :: s < k < r ==> Inert(orig[k])
    ensures Convert(m, orig[s..p]) == orig[s..r] + Convert(m, orig[r..p])
  {
    ConvertPlain(m, orig, s, p);
    ConvertInert(m, orig, s + 1, r, p);
    hide Convert, RefAt;
    Tail(orig, s, s + 1, r);
    Assoc(orig[s..s + 1], orig[s + 1..r], Convert(m, orig[r..p]));
  }

  /** Whatever happened to a reference, the conversion goes on from where it was left. */
  lemma {:induction false} ConvertRead(m: Mode, orig: bytes, s: nat, r: nat, p: nat, after: bytes, was: bytes, now: bytes)
    requires s < r <= p <= |orig| == |after| && m.escapes && orig[s] == AMP
    requires Read(RefAt(orig[s..p]), orig, after, was, now, s, r)
    ensures was + Convert(m, orig[s..p]) == now + Convert(m, orig[r..p])
  {
    hide Convert, RefAt;
    if RefAt(orig[s..p]).Some? {
      ConvertRef(m, orig, s, p);
      Assoc(was, RefAt(orig[s..p]).value.text, Convert(m, orig[r..p]));
    } else {
      ConvertNoRef(m, orig, s, r, p);
      Assoc(was, orig[s..r], Convert(m, orig[r..p]));
    }
  }

  // ---------------------------------------------------------------- steps on the buffer

  /** A conversion in mode `m` with the cursor at `s`; `whole` is what it will have produced at `p`. */
  ghost predicate Doing(m: Mode, g: Gap, a: array<byte>, orig: bytes, start: nat, s: nat, p: nat, whole: bytes)
    reads g, a
  {
    && start <= s <= p < |orig| && Stop(orig[p]) && (forall k :: start <= k < p ==> orig[k] != 0)
    && At(g, a, orig, start, s, p, Convert(m, orig[s..p]), whole)
  }

  lemma {:induction false} Begin(m: Mode, g: Gap, a: array<byte>, start: nat, p: nat, terminator: byte)
    requires TextUpTo(a[..], start, p, terminator) && Stop(terminator) && !g.open && g.size == 0
    ensures start <= p < a.Length && Doing(m, g, a, a[..], start, start, p, Convert(m, a[..][start..p]))
  {
    hide Convert;
    assert g.Text(a[..], start, start) == [];
  }

  /** `++s` over a byte that the mode leaves alone. */
  lemma {:induction false} Step(m: Mode, g: Gap, a: array<byte>, orig: bytes, start: nat, s: nat, p: nat, whole: bytes)
    requires Doing(m, g, a, orig, start, s, p, whole) && s < p && !Altered(m, orig[s]) && !(m.escapes && orig[s] == AMP)
    ensures Doing(m, g, a, orig, start, s + 1, p, whole)
  {
    hide Convert, At;
    ConvertPlain(m, orig, s, p);
    Advance(g, a, orig, start, s, s + 1, p, Convert(m, orig[s + 1..p]), whole);
  }

  lemma {:induction false} Here(m: Mode, g: Gap, a: array<byte>, orig: bytes, start: nat, s: nat, p: nat, whole: bytes)
    requires Doing(m, g, a, orig, start, s, p, whole)
    ensures start <= s <= p < a.Length == |orig| && a[s] == orig[s] && Stop(orig[p])
    ensures s < p ==> a[s] != 0
  {
    hide Convert;
  }

  /** The classes of bytes at which a scan stops. */
  datatype CharType = ParsePcdata | ParseAttr | ParseAttrWs | ParseAttrSpace

  predicate IsType(c: byte, t: CharType) {
    c == 0 || c == AMP || c == CR ||
    match t
    case ParsePcdata => c == LT
    case ParseAttr => c == QUOTE || c == APOS
    case ParseAttrWs => c == QUOTE || c == APOS || c == TAB || c == LF
    case ParseAttrSpace => c == QUOTE || c == APOS || IsSpace(c)
  }

  /** `while (!PUGI__IS_CHARTYPE(*s, t)) ++s` */
  method Scan(a: array<byte>, from: nat, t: CharType, ghost m: Mode, ghost g: Gap, ghost orig: bytes, ghost start: nat, ghost p: nat,
              ghost whole: bytes, ghost terminator: byte)
    returns (s: nat)
    requires from <= p < a.Length && Doing(m, g, a, orig, start, from, p, whole)
    requires start <= from && TextUpTo(orig, start, p, terminator)
    requires (m.white.Wconv? ==> t.ParseAttrWs?) && (m.white.Wnorm? ==> t.ParseAttrSpace?) && IsType(terminator, t)
    ensures from <= s <= p < |orig| && Doing(m, g, a, orig, start, s, p, whole) && IsType(a[s], t) && a[s] == orig[s]
    ensures a[s] == 0 || a[s] == terminator <==> s == p
  {
    hide Convert, Doing;
    s := from;
    Here(m, g, a, orig, start, s, p, whole);
    while !IsType(a[s], t)
      invariant from <= s <= p && Doing(m, g, a, orig, start, s, p, whole) && a[s] == orig[s] && (s < p ==> a[s] != 0)
      decreases p - s
    {
      Step(m, g, a, orig, start, s, p, whole);
      s := s + 1;
      Here(m, g, a, orig, start, s, p, whole);
    }
  }

  /** A carriage return, alone or before a line feed, becomes `c`. */
  method LineEnd(a: array<byte>, g: Gap, s: nat, c: byte, ghost m: Mode, ghost orig: bytes, ghost start: nat, ghost p: nat, ghost whole: bytes)
    returns (r: nat)
    requires Doing(m, g, a, orig, start, s, p, whole) && s < p && orig[s] == CR && (m.white.Eol? || m.white.Wconv?)
    requires c == if m.white.Eol? then LF else SPACE
    modifies a, g
    ensures s < r <= p && Doing(m, g, a, orig, start, r, p, whole)
  {
    hide Convert, At;
    ConvertWhite(m, orig, s, p);
    ghost var e := WhiteEnd(m, orig, s, p);
    assert e == if s + 1 < p && orig[s + 1] == LF then s + 2 else s + 1;
    r := Put(a, g, s, c, orig, start, p, Convert(m, orig[e..p]), whole);
    AtSees(g, a, orig, start, r, p, Convert(m, orig[e..p]), whole);
    if a[r] == LF {
      r := Skip(a, g, r, r + 1, orig, start, p, Convert(m, orig[e..p]), whole);
    }
  }

  /** A tab or a line feed becomes a space. */
  method Blank(a: array<byte>, g: Gap, s: nat, ghost m: Mode, ghost orig: bytes, ghost start: nat, ghost p: nat, ghost whole: bytes)
    returns (r: nat)
    requires Doing(m, g, a, orig, start, s, p, whole) && s < p && m.white.Wconv? && (orig[s] == TAB || orig[s] == LF)
    modifies a
    ensures r == s + 1 && Doing(m, g, a, orig, start, r, p, whole)
  {
    hide Convert, At;
    ConvertWhite(m, orig, s, p);
    assert WhiteEnd(m, orig, s, p) == s + 1;
    r := Put(a, g, s, SPACE, orig, start, p, Convert(m, orig[s + 1..p]), whole);
  }

  lemma {:induction false} AtSees(g: Gap, a: array<byte>, orig: bytes, start: nat, s: nat, p: nat, rest: bytes, whole: bytes)
    requires At(g, a, orig, start, s, p, rest, whole)
    ensures forall k :: s <= k < |orig| ==> a[k] == orig[k]
    ensures p < a.Length == |orig|
  {
  }

  /** `g.push(s, e - s)` */
  method Skip(a: array<byte>, g: Gap, s: nat, e: nat, ghost orig: bytes, ghost start: nat, ghost p: nat, ghost rest: bytes, ghost whole: bytes)
    returns (r: nat)
    requires s <= e <= p && At(g, a, orig, start, s, p, rest, whole)
    modifies a, g
    ensures r == e && At(g, a, orig, start, r, p, rest, whole)
  {
    r := g.Push(a, s, e - s, start);
  }

  /** The end of a run of white space. */
  method SpacesEnd(a: array<byte>, s: nat, ghost p: nat) returns (e: nat)
    requires s <= p < a.Length && Stop(a[p])
    ensures s <= e <= p && SkipSpaces(a[..][s..p]) == a[..][e..p]
  {
    e := s;
    while IsSpace(a[e])
      invariant s <= e <= p && forall k :: s <= k < e ==> IsSpace(a[k])
      decreases p - e
    {
      e := e + 1;
    }
    ghost var t := a[..][s..p];
    assert e < p ==> t[e - s] == a[e];
    SkipSpacesUpTo(t, e - s);
    Tail(a[..], s, e, p);
  }

  /** A run of white space becomes one space. */
  method SpaceRun(a: array<byte>, g: Gap, s: nat, ghost m: Mode, ghost orig: bytes, ghost start: nat, ghost p: nat, ghost whole: bytes)
    returns (r: nat)
    requires Doing(m, g, a, orig, start, s, p, whole) && s < p && m.white.Wnorm? && IsSpace(orig[s])
    modifies a, g
    ensures s < r <= p && Doing(m, g, a, orig, start, r, p, whole)
  {
    hide Convert, At, SkipSpaces;
    ConvertWhite(m, orig, s, p);
    ghost var e := WhiteEnd(m, orig, s, p);
    ghost var rest := Convert(m, orig[e..p]);
    r := Put(a, g, s, SPACE, orig, start, p, rest, whole);
    AtSees(g, a, orig, start, r, p, rest, whole);
    var end := SpacesEnd(a, r, p);
    Tail(orig, s, r, p);
    assert a[..][r..p] == orig[r..p] && a[..][end..p] == orig[end..p];
    assert |orig[end..p]| == p - end;
    assert end == e;
    if IsSpace(a[r]) {
      r := Skip(a, g, r, end, orig, start, p, rest, whole);
    } else {
      NoSpaces(orig[r..p]);
    }
  }

  lemma {:induction false} NoSpaces(s: bytes)
    requires s != [] ==> !IsSpace(s[0])
    ensures SkipSpaces(s) == s
  {
  }

  /** `s = strconv_escape(s, g)` */
  method Reference(a: array<byte>, g: Gap, s: nat, ghost m: Mode, ghost orig: bytes, ghost start: nat, ghost p: nat, ghost whole: bytes) returns (r: nat)
    requires Doing(m, g, a, orig, start, s, p, whole) && s < p && orig[s] == AMP && m.escapes
    modifies a, g
    ensures s < r <= p && Doing(m, g, a, orig, start, r, p, whole)
  {
    hide Convert, RefAt, Read;
    ghost var before, was := a[..], g.Text(a[..], start, s);
    assert before[s..p] == orig[s..p] == a[s..p];
    r := EscapeAt(a, s, g, start, p);
    assert before[r..p] == orig[r..p];
    ConvertRead(m, before, s, r, p, a[..], was, g.Text(a[..], start, r));
  }

  /** `*g.flush(s) = 0` */
  method Finish(a: array<byte>, g: Gap, s: nat, ghost m: Mode, ghost orig: bytes, ghost start: nat, ghost whole: bytes) returns (e: nat)
    requires Doing(m, g, a, orig, start, s, s, whole)
    modifies a
    ensures e == start + |whole| && Converted(a[..], orig, start, s, whole)
  {
    hide Convert;
    ghost var was := a[..];
    ConvertNothing(m, orig, s);
    assert g.Text(a[..], start, s) == whole;
    e := g.Flush(a, s, start);
    ghost var mid := a[..];
    assert mid[start..e] == whole;
    a[e] := 0;
    assert a[..] == mid[e := 0];
    hide Outside, Gap.Text, Converted;
    OutsideTransitive(mid, was, orig, start, s);
    Terminated(mid, orig, start, e, s, whole);
  }

  lemma {:induction false} Terminated(buf: bytes, orig: bytes, start: nat, e: nat, p: nat, whole: bytes)
    requires start <= e <= p < |buf| && Outside(buf, orig, start, p) && buf[start..e] == whole
    ensures e == start + |whole| && Converted(buf[e := 0], orig, start, p, whole)
  {
    assert |buf[start..e]| == e - start;
    assert buf[p..][1..] == buf[p + 1..] && orig[p..][1..] == orig[p + 1..];
  }

  lemma {:induction false} ConvertNothing(m: Mode, orig: bytes, p: nat)
    requires p <= |orig|
    ensures Convert(m, orig[p..p]) == []
  {
  }

  lemma {:induction false} LeftAlone(m: Mode, g: Gap, a: array<byte>, orig: bytes, start: nat, s: nat, p: nat, whole: bytes)
    requires Doing(m, g, a, orig, start, s, p, whole)
    ensures Untouched(a[..], orig, start, p)
  {
    hide Convert;
  }

  /** A text that starts at `start` and ends before its terminator or a zero at `p`. */
  ghost predicate TextUpTo(buf: bytes, start: nat, p: nat, terminator: byte) {
    && start <= p < |buf|
    && (buf[p] == terminator || buf[p] == 0)
    && (forall k :: start <= k < p ==> buf[k] != terminator && buf[k] != 0)
  }

  /** What a conversion leaves behind when its text had a terminator: the result and a zero; the rest is untouched. */
  ghost predicate Converted(buf: bytes, orig: bytes, start: nat, p: nat, whole: bytes) {
    && |buf| == |orig| && start + |whole| <= p < |buf|
    && buf[start..start + |whole|] == whole && buf[start + |whole|] == 0
    && Outside(buf, orig, start, p + 1)
  }

  ghost predicate Untouched(buf: bytes, orig: bytes, start: nat, p: nat) {
    start <= p < |buf| && Outside(buf, orig, start, p)
  }

  // ---------------------------------------------------------------- the parsers

  /** A text with its terminator is converted, one without is not finished. */
  ghost predicate Outcome(buf: bytes, orig: bytes, start: nat, p: nat, terminator: byte, whole: bytes) {
    p < |orig| && if orig[p] == terminator then Converted(buf, orig, start, p, whole) else Untouched(buf, orig, start, p)
  }

  /** `strconv_pcdata_impl<eol, escape>::parse` */
  method Pcdata(a: array<byte>, start: nat, eol: bool, escapes: bool, ghost p: nat) returns (r: nat)
    requires TextUpTo(a[..], start, p, LT)
    modifies a
    ensures if old(a[p]) == LT
            then r == p + 1 && Converted(a[..], old(a[..]), start, p, Convert(Mode(escapes, if eol then Eol else Keep), old(a[..])[start..p]))
            else r == p && Untouched(a[..], old(a[..]), start, p)
  {
    ghost var orig := a[..];
    var g := new Gap();
    ghost var whole := Convert(Mode(escapes, if eol then Eol else Keep), orig[start..p]);
    var s := start;
    Begin(Mode(escapes, if eol then Eol else Keep), g, a, start, p, LT);
    r := 0;
    var done := false;
    while !done
      invariant fresh(g) && start <= s <= p < a.Length
      invariant if done then Outcome(a[..], orig, start, p, LT, whole) && r == (if orig[p] == LT then p + 1 else p) else Doing(Mode(escapes, if eol then Eol else Keep), g, a, orig, start, s, p, whole)
      decreases if done then 0 else p - s + 1
    {
      s, done, r := PcdataOnce(a, g, s, eol, escapes, orig, start, p, whole);
    }
  }

  method PcdataOnce(a: array<byte>, g: Gap, from: nat, eol: bool, escapes: bool, ghost orig: bytes, ghost start: nat, ghost p: nat, ghost whole: bytes)
    returns (s: nat, done: bool, r: nat)
    requires TextUpTo(orig, start, p, LT) && Doing(Mode(escapes, if eol then Eol else Keep), g, a, orig, start, from, p, whole)
    modifies a, g
    ensures from <= s <= p < |orig|
    ensures if done then Outcome(a[..], orig, start, p, LT, whole) && r == (if orig[p] == LT then p + 1 else p)
            else from < s && Doing(Mode(escapes, if eol then Eol else Keep), g, a, orig, start, s, p, whole)
  {
    hide Convert, Doing, TextUpTo, Converted, Untouched, RefAt, TrimRight;
    ghost var m := Mode(escapes, if eol then Eol else Keep);
    s, done, r := from, false, 0;
    Here(m, g, a, orig, start, s, p, whole);
    s := Scan(a, s, ParsePcdata, m, g, orig, start, p, whole, LT);
    if a[s] == LT {
      var e := Finish(a, g, s, m, orig, start, whole);
      done, r := true, s + 1;
    } else if eol && a[s] == CR {
      s := LineEnd(a, g, s, LF, m, orig, start, p, whole);
    } else if escapes && a[s] == AMP {
      s := Reference(a, g, s, m, orig, start, p, whole);
    } else if a[s] == 0 {
      LeftAlone(m, g, a, orig, start, s, p, whole);
      done, r := true, s;
    } else {
      Step(m, g, a, orig, start, s, p, whole);
      s := s + 1;
    }
  }

  /** `strconv_attribute_impl<escape>::parse_wconv` */
  method ParseWconv(a: array<byte>, start: nat, quote: byte, escapes: bool, ghost p: nat) returns (r: Option<nat>)
    requires (quote == QUOTE || quote == APOS) && TextUpTo(a[..], start, p, quote)
    modifies a
    ensures if old(a[p]) == quote
            then r == Some(p + 1) && Converted(a[..], old(a[..]), start, p, Convert(Mode(escapes, Wconv), old(a[..])[start..p]))
            else r == None && Untouched(a[..], old(a[..]), start, p)
  {
    ghost var orig := a[..];
    var g := new Gap();
    ghost var whole := Convert(Mode(escapes, Wconv), orig[start..p]);
    var s := start;
    Begin(Mode(escapes, Wconv), g, a, start, p, quote);
    r := None;
    var done := false;
    while !done
      invariant fresh(g) && start <= s <= p < a.Length
      invariant if done then Outcome(a[..], orig, start, p, quote, whole) && r == (if orig[p] == quote then Some(p + 1) else None) else Doing(Mode(escapes, Wconv), g, a, orig, start, s, p, whole)
      decreases if done then 0 else p - s + 1
    {
      s, done, r := ParseWconvOnce(a, g, s, quote, escapes, orig, start, p, whole);
    }
  }

  method ParseWconvOnce(a: array<byte>, g: Gap, from: nat, quote: byte, escapes: bool, ghost orig: bytes, ghost start: nat, ghost p: nat, ghost whole: bytes)
    returns (s: nat, done: bool, r: Option<nat>)
    requires (quote == QUOTE || quote == APOS) && TextUpTo(orig, start, p, quote) && Doing(Mode(escapes, Wconv), g, a, orig, start, from, p, whole)
    modifies a, g
    ensures from <= s <= p < |orig|
    ensures if done then Outcome(a[..], orig, start, p, quote, whole) && r == (if orig[p] == quote then Some(p + 1) else None)
            else from < s && Doing(Mode(escapes, Wconv), g, a, orig, start, s, p, whole)
  {
    hide Convert, Doing, TextUpTo, Converted, Untouched, RefAt, TrimRight;
    ghost var m := Mode(escapes, Wconv);
    s, done, r := from, false, None;
    Here(m, g, a, orig, start, s, p, whole);
    s := Scan(a, s, ParseAttrWs, m, g, orig, start, p, whole, quote);
    if a[s] == quote {
      var e := Finish(a, g, s, m, orig, start, whole);
      done, r := true, Some(s + 1);
    } else if IsSpace(a[s]) {
      if a[s] == CR {
        s := LineEnd(a, g, s, SPACE, m, orig, start, p, whole);
      } else {
        s := Blank(a, g, s, m, orig, start, p, whole);
      }
    } else if escapes && a[s] == AMP {
      s := Reference(a, g, s, m, orig, start, p, whole);
    } else if a[s] == 0 {
      LeftAlone(m, g, a, orig, start, s, p, whole);
      done, r := true, None;
    } else {
      Step(m, g, a, orig, start, s, p, whole);
      s := s + 1;
    }
  }

  /** `strconv_attribute_impl<escape>::parse_eol` */
  method ParseEol(a: array<byte>, start: nat, quote: byte, escapes: bool, ghost p: nat) returns (r: Option<nat>)
    requires (quote == QUOTE || quote == APOS) && TextUpTo(a[..], start, p, quote)
    modifies a
    ensures if old(a[p]) == quote
            then r == Some(p + 1) && Converted(a[..], old(a[..]), start, p, Convert(Mode(escapes, Eol), old(a[..])[start..p]))
            else r == None && Untouched(a[..], old(a[..]), start, p)
  {
    ghost var orig := a[..];
    var g := new Gap();
    ghost var whole := Convert(Mode(escapes, Eol), orig[start..p]);
    var s := start;
    Begin(Mode(escapes, Eol), g, a, start, p, quote);
    r := None;
    var done := false;
    while !done
      invariant fresh(g) && start <= s <= p < a.Length
      invariant if done then Outcome(a[..], orig, start, p, quote, whole) && r == (if orig[p] == quote then Some(p + 1) else None) else Doing(Mode(escapes, Eol), g, a, orig, start, s, p, whole)
      decreases if done then 0 else p - s + 1
    {
      s, done, r := ParseEolOnce(a, g, s, quote, escapes, orig, start, p, whole);
    }
  }

  method ParseEolOnce(a: array<byte>, g: Gap, from: nat, quote: byte, escapes: bool, ghost orig: bytes, ghost start: nat, ghost p: nat, ghost whole: bytes)
    returns (s: nat, done: bool, r: Option<nat>)
    requires (quote == QUOTE || quote == APOS) && TextUpTo(orig, start, p, quote) && Doing(Mode(escapes, Eol), g, a, orig, start, from, p, whole)
    modifies a, g
    ensures from <= s <= p < |orig|
    ensures if done then Outcome(a[..], orig, start, p, quote, whole) && r == (if orig[p] == quote then Some(p + 1) else None)
            else from < s && Doing(Mode(escapes, Eol), g, a, orig, start, s, p, whole)
  {
    hide Convert, Doing, TextUpTo, Converted, Untouched, RefAt, TrimRight;
    ghost var m := Mode(escapes, Eol);
    s, done, r := from, false, None;
    Here(m, g, a, orig, start, s, p, whole);
    s := Scan(a, s, ParseAttr, m, g, orig, start, p, whole, quote);
    if a[s] == quote {
      var e := Finish(a, g, s, m, orig, start, whole);
      done, r := true, Some(s + 1);
    } else if a[s] == CR {
      s := LineEnd(a, g, s, LF, m, orig, start, p, whole);
    } else if escapes && a[s] == AMP {
      s := Reference(a, g, s, m, orig, start, p, whole);
    } else if a[s] == 0 {
      LeftAlone(m, g, a, orig, start, s, p, whole);
      done, r := true, None;
    } else {
      Step(m, g, a, orig, start, s, p, whole);
      s := s + 1;
    }
  }

  /** `strconv_attribute_impl<escape>::parse_simple` */
  method ParseSimple(a: array<byte>, start: nat, quote: byte, escapes: bool, ghost p: nat) returns (r: Option<nat>)
    requires (quote == QUOTE || quote == APOS) && TextUpTo(a[..], start, p, quote)
    modifies a
    ensures if old(a[p]) == quote
            then r == Some(p + 1) && Converted(a[..], old(a[..]), start, p, Convert(Mode(escapes, Keep), old(a[..])[start..p]))
            else r == None && Untouched(a[..], old(a[..]), start, p)
  {
    ghost var orig := a[..];
    var g := new Gap();
    ghost var whole := Convert(Mode(escapes, Keep), orig[start..p]);
    var s := start;
    Begin(Mode(escapes, Keep), g, a, start, p, quote);
    r := None;
    var done := false;
    while !done
      invariant fresh(g) && start <= s <= p < a.Length
      invariant if done then Outcome(a[..], orig, start, p, quote, whole) && r == (if orig[p] == quote then Some(p + 1) else None) else Doing(Mode(escapes, Keep), g, a, orig, start, s, p, whole)
      decreases if done then 0 else p - s + 1
    {
      s, done, r := ParseSimpleOnce(a, g, s, quote, escapes, orig, start, p, whole);
    }
  }

  method ParseSimpleOnce(a: array<byte>, g: Gap, from: nat, quote: byte, escapes: bool, ghost orig: bytes, ghost start: nat, ghost p: nat, ghost whole: bytes)
    returns (s: nat, done: bool, r: Option<nat>)
    requires (quote == QUOTE || quote == APOS) && TextUpTo(orig, start, p, quote) && Doing(Mode(escapes, Keep), g, a, orig, start, from, p, whole)
    modifies a, g
    ensures from <= s <= p < |orig|
    ensures if done then Outcome(a[..], orig, start, p, quote, whole) && r == (if orig[p] == quote then Some(p + 1) else None)
            else from < s && Doing(Mode(escapes, Keep), g, a, orig, start, s, p, whole)
  {
    hide Convert, Doing, TextUpTo, Converted, Untouched, RefAt, TrimRight;
    ghost var m := Mode(escapes, Keep);
    s, done, r := from, false, None;
    Here(m, g, a, orig, start, s, p, whole);
    s := Scan(a, s, ParseAttr, m, g, orig, start, p, whole, quote);
    if a[s] == quote {
      var e := Finish(a, g, s, m, orig, start, whole);
      done, r := true, Some(s + 1);
    } else if escapes && a[s] == AMP {
      s := Reference(a, g, s, m, orig, start, p, whole);
    } else if a[s] == 0 {
      LeftAlone(m, g, a, orig, start, s, p, whole);
      done, r := true, None;
    } else {
      Step(m, g, a, orig, start, s, p, whole);
      s := s + 1;
    }
  }

  /** White space right after the quote is skipped. */
  method SkipLeading(a: array<byte>, g: Gap, start: nat, ghost m: Mode, ghost p: nat, ghost quote: byte) returns (s: nat)
    requires TextUpTo(a[..], start, p, quote) && (quote == QUOTE || quote == APOS) && !g.open && g.size == 0
    modifies a, g
    ensures start <= s <= p < a.Length && Doing(m, g, a, old(a[..]), start, s, p, Convert(m, SkipSpaces(old(a[..])[start..p])))
  {
    hide Convert, SkipSpaces;
    s := start;
    ghost var orig := a[..];
    assert g.Text(orig, start, start) == [];
    var end := SpacesEnd(a, start, p);
    if IsSpace(a[start]) {
      s := g.Push(a, start, end - start, start);
    } else {
      NoSpaces(orig[start..p]);
    }
  }

  /** `do *str-- = 0; while (space(*str))` from the end of the flushed text; the opening quote stops it. */
  method Trim(a: array<byte>, g: Gap, s: nat, ghost m: Mode, ghost orig: bytes, ghost start: nat, ghost whole: bytes)
    requires Doing(m, g, a, orig, start, s, s, whole) && start > 0 && !IsSpace(orig[start - 1])
    modifies a
    ensures Converted(a[..], orig, start, s, TrimRight(whole))
  {
    hide Convert, Doing, At;
    var e := Finish(a, g, s, m, orig, start, whole);
    TrimLoop(a, e, orig, start, s, whole);
  }

  method TrimLoop(a: array<byte>, end: nat, ghost orig: bytes, ghost start: nat, ghost p: nat, ghost whole: bytes)
    requires Converted(a[..], orig, start, p, whole) && end == start + |whole| && start > 0 && !IsSpace(orig[start - 1])
    modifies a
    ensures Converted(a[..], orig, start, p, TrimRight(whole))
  {
    var e := end;
    ghost var t := whole;
    assert a[start - 1] == orig[start - 1];
    while IsSpace(a[e - 1])
      invariant start <= e <= end && a[start - 1] == orig[start - 1] && e == start + |t|
      invariant TrimRight(t) == TrimRight(whole) && Converted(a[..], orig, start, p, t)
      decreases e
    {
      assert a[e - 1] == a[..][start..e][|t| - 1] == t[|t| - 1];
      e := e - 1;
      Shorter(a[..], orig, start, p, t);
      ghost var next := a[..][e := 0];
      a[e] := 0;
      assert a[..] == next;
      t := t[..|t| - 1];
    }
    if t != [] {
      assert a[e - 1] == a[..][start..e][|t| - 1] == t[|t| - 1];
    }
  }

  lemma {:induction false} Shorter(buf: bytes, orig: bytes, start: nat, p: nat, t: bytes)
    requires Converted(buf, orig, start, p, t) && t != []
    ensures Converted(buf[start + |t| - 1 := 0], orig, start, p, t[..|t| - 1])
  {
    var n := |t| - 1;
    assert buf[start..start + |t|][..n] == buf[start..start + n];
    assert buf[start + n := 0][start..start + n] == buf[start..start + n];
  }

  /** `strconv_attribute_impl<escape>::parse_wnorm`: the value starts right after its opening quote. */
  method ParseWnorm(a: array<byte>, start: nat, quote: byte, escapes: bool, ghost p: nat) returns (r: Option<nat>)
    requires (quote == QUOTE || quote == APOS) && TextUpTo(a[..], start, p, quote) && start > 0 && a[start - 1] == quote
    modifies a
    ensures if old(a[p]) == quote
            then r == Some(p + 1) && Converted(a[..], old(a[..]), start, p, Normalise(escapes, old(a[..])[start..p]))
            else r == None && Untouched(a[..], old(a[..]), start, p)
  {
    ghost var orig := a[..];
    var g := new Gap();
    ghost var whole := Convert(Mode(escapes, Wnorm), SkipSpaces(orig[start..p]));
    var s := SkipLeading(a, g, start, Mode(escapes, Wnorm), p, quote);
    r := None;
    var done := false;
    while !done
      invariant fresh(g) && start <= s <= p < a.Length
      invariant if done then Outcome(a[..], orig, start, p, quote, TrimRight(whole)) && r == (if orig[p] == quote then Some(p + 1) else None) else Doing(Mode(escapes, Wnorm), g, a, orig, start, s, p, whole)
      decreases if done then 0 else p - s + 1
    {
      s, done, r := ParseWnormOnce(a, g, s, quote, escapes, orig, start, p, whole);
    }
  }

  method ParseWnormOnce(a: array<byte>, g: Gap, from: nat, quote: byte, escapes: bool, ghost orig: bytes, ghost start: nat, ghost p: nat, ghost whole: bytes)
    returns (s: nat, done: bool, r: Option<nat>)
    requires (quote == QUOTE || quote == APOS) && TextUpTo(orig, start, p, quote) && Doing(Mode(escapes, Wnorm), g, a, orig, start, from, p, whole) && start > 0 && orig[start - 1] == quote
    modifies a, g
    ensures from <= s <= p < |orig|
    ensures if done then Outcome(a[..], orig, start, p, quote, TrimRight(whole)) && r == (if orig[p] == quote then Some(p + 1) else None)
            else from < s && Doing(Mode(escapes, Wnorm), g, a, orig, start, s, p, whole)
  {
    hide Convert, Doing, TextUpTo, Converted, Untouched, RefAt, TrimRight;
    ghost var m := Mode(escapes, Wnorm);
    s, done, r := from, false, None;
    Here(m, g, a, orig, start, s, p, whole);
    s := Scan(a, s, ParseAttrSpace, m, g, orig, start, p, whole, quote);
    if a[s] == quote {
      Trim(a, g, s, m, orig, start, whole);
      done, r := true, Some(s + 1);
    } else if IsSpace(a[s]) {
      s := SpaceRun(a, g, s, m, orig, start, p, whole);
    } else if escapes && a[s] == AMP {
      s := Reference(a, g, s, m, orig, start, p, whole);
    } else if a[s] == 0 {
      LeftAlone(m, g, a, orig, start, s, p, whole);
      done, r := true, None;
    } else {
      Step(m, g, a, orig, start, s, p, whole);
      s := s + 1;
    }
  }
}
