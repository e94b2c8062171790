/**
  Conversion of parsed text in place: one cursor reads, and a single open gap separates what has been
  produced from what has not been read yet.
  */
module GapBuffer {
  import opened Bytes
  import opened Utf8Bytes
  import opened Digits
  import opened Strconv

  /** Nothing differs before `start` or from `s` on. */
  ghost predicate Outside(buf: bytes, was: bytes, start: nat, s: nat) {
    |buf| == |was| && (start <= s <= |was| ==> buf[..start] == was[..start] && buf[s..] == was[s..])
  }

  lemma {:induction false} OutsideSame(buf: bytes, start: nat, s: nat)
    ensures Outside(buf, buf, start, s)
  {
  }

  lemma {:induction false} OutsideTransitive(x: bytes, y: bytes, z: bytes, start: nat, s: nat)
    requires Outside(x, y, start, s) && Outside(y, z, start, s)
    ensures Outside(x, z, start, s)
  {
  }

  lemma {:induction false} OutsideMore(buf: bytes, orig: bytes, start: nat, s: nat, e: nat)
    requires start <= s <= e <= |buf| && Outside(buf, orig, start, s)
    ensures Outside(buf, orig, start, e) && buf[s..e] == orig[s..e]
  {
    assert buf[s..][e - s..] == buf[e..] && orig[s..][e - s..] == orig[e..];
    assert buf[s..][..e - s] == buf[s..e] && orig[s..][..e - s] == orig[s..e];
  }

  /** `text` written at `s`. */
  function Written(buf: bytes, s: nat, text: bytes): bytes
    requires s + |text| <= |buf|
  {
    buf[..s] + text + buf[s + |text|..]
  }

  lemma {:induction false} WrittenFacts(buf: bytes, s: nat, text: bytes, start: nat)
    requires start <= s && s + |text| <= |buf|
    ensures var w := Written(buf, s, text);
            && |w| == |buf| && Outside(w, buf, start, s + |text|) && w[..s] == buf[..s] && w[s..s + |text|] == text
  {
    var w := Written(buf, s, text);
    assert w[..s][..start] == w[..start];
  }

  function Moved(buf: bytes, to: nat, from: nat, n: nat): bytes
    requires to <= from && from + n <= |buf|
  {
    buf[..to] + buf[from..from + n] + buf[to + n..]
  }

  /** `memmove` to a lower address. */
  method MoveDown(a: array<byte>, to: nat, from: nat, n: nat)
    requires to <= from && from + n <= a.Length
    modifies a
    ensures a[..] == Moved(old(a[..]), to, from, n)
  {
    for i := 0 to n
      invariant forall k :: to <= k < to + i ==> a[k] == old(a[k - to + from])
      invariant forall k :: 0 <= k < to || to + i <= k < a.Length ==> a[k] == old(a[k])
    {
      a[to + i] := a[from + i];
    }
    ghost var was := old(a[..]);
    forall k | 0 <= k < a.Length ensures a[k] == Moved(was, to, from, n)[k] {
      assert to <= k < to + n ==> Moved(was, to, from, n)[k] == was[k - to + from];
    }
  }

  class Gap {
    var open: bool
    var end: nat
    var size: nat

    constructor ()
      ensures !open && size == 0
    {
      open, end, size := false, 0, 0;
    }

    /** The gap lies between the start of the text and the cursor. */
    ghost predicate Fits(start: nat, s: nat)
      reads this
    {
      start <= s && if open then start + size <= end <= s else size == 0
    }

    /** What has been produced when the cursor stands at `s`. */
    ghost function Text(buf: bytes, start: nat, s: nat): bytes
      requires Fits(start, s) && s <= |buf|
      reads this
    {
      if open then buf[start..end - size] + buf[end..s] else buf[start..s]
    }

    /** Opens a gap of `count` bytes at the cursor, closing the earlier one. */
    method Push(a: array<byte>, s: nat, count: nat, ghost start: nat) returns (r: nat)
      requires Fits(start, s) && s + count <= a.Length
      modifies this, a
      ensures r == s + count && Fits(start, r)
      ensures Text(a[..], start, r) == old(Text(a[..], start, s))
      ensures Outside(a[..], old(a[..]), start, s)
    {
      Close(a, s, start);
      ghost var after, mid := a[..], s - size;
      r := s + count;
      open, end, size := true, r, size + count;
      assert end - size == mid;
      assert Text(after, start, r) == after[start..mid];
    }

    /** Moves what follows the gap down to join what precedes it. */
    method Close(a: array<byte>, s: nat, ghost start: nat)
      requires Fits(start, s) && s <= a.Length
      modifies a
      ensures size <= s - start && a[..][start..s - size] == old(Text(a[..], start, s))
      ensures Outside(a[..], old(a[..]), start, s)
    {
      hide Moved, Outside;
      ghost var buf := a[..];
      if open {
        Closed(buf, start, end, size, s);
        MoveDown(a, end - size, end, s - end);
      } else {
        OutsideSame(buf, start, s);
      }
    }

    /** Closes the gap; the text then ends at `r`. */
    method Flush(a: array<byte>, s: nat, ghost start: nat) returns (r: nat)
      requires Fits(start, s) && s <= a.Length
      modifies a
      ensures start <= r <= s && a[start..r] == old(Text(a[..], start, s))
      ensures Outside(a[..], old(a[..]), start, s)
    {
      Close(a, s, start);
      r := if open then s - size else s;
      assert a[start..r] == a[..][start..r];
    }
  }

  /** Moving down what follows a gap joins it to what precedes it. */
  lemma {:induction false} Closed(buf: bytes, start: nat, end: nat, size: nat, s: nat)
    requires start + size <= end <= s <= |buf|
    ensures var after := Moved(buf, end - size, end, s - end);
            && |after| == |buf|
            && after[start..s - size] == buf[start..end - size] + buf[end..s]
            && Outside(after, buf, start, s)
  {
  }

  // ---------------------------------------------------------------- references

  /** A byte that can end a text, and occurs in no reference. */
  predicate Stop(c: byte) {
    c == 0 || c == LT || c == QUOTE || c == APOS
  }

  /** Letters, digits and the number sign: what a reference that is given up may have walked over. */
  predicate Inert(c: byte) {
    c == HASH || 48 <= c <= 57 || 65 <= c <= 90 || 97 <= c <= 122
  }

  /** Advances as long as the bytes from `s` are those of `name`; they are known to be up to `from`. */
  method Expect(a: array<byte>, s: nat, from: nat, name: bytes, ghost p: nat) returns (ok: bool, at: nat)
    requires s <= from < p < a.Length && from - s < |name| - 1
    requires Stop(a[p]) && (forall i :: 0 <= i < |name| ==> !Stop(name[i]))
    requires forall k :: s <= k <= from ==> a[k] == name[k - s]
    ensures ok <==> StartsWith(a[s..p], name)
    ensures if ok then at == s + |name| - 1 < p else from < at <= p && at - s < |name| && forall k :: s <= k < at ==> a[k] == name[k - s]
  {
    ok, at := true, from;
    while ok && at - s + 1 < |name|
      invariant from <= at <= p && at - s < |name| && (ok ==> at < p) && (!ok ==> from < at)
      invariant forall k :: s <= k < at ==> a[k] == name[k - s]
      invariant ok <==> a[at] == name[at - s]
      decreases ok, |name| - (at - s)
    {
      at := at + 1;
      ok := a[at] == name[at - s];
    }
    assert forall k :: s <= k < p ==> a[s..p][k - s] == a[k];
    StartsWithIndex(a[s..p], name);
    assert !ok && at < p ==> a[s..p][at - s] != name[at - s];
    assert ok ==> forall i :: 0 <= i < |name| ==> a[s..p][i] == a[s + i];
  }

  /** Writes `text` over what was read from `s` to `r`, and opens a gap over the remainder. */
  method Replace(a: array<byte>, s: nat, text: bytes, r: nat, g: Gap, ghost start: nat)
    requires g.Fits(start, s) && s + |text| <= r <= a.Length
    modifies a, g
    ensures g.Fits(start, r) && g.Text(a[..], start, r) == old(g.Text(a[..], start, s)) + text
    ensures Outside(a[..], old(a[..]), start, r)
  {
    hide Outside, Written, Gap.Text;
    ghost var before := a[..];
    var e := s + |text|;
    WrittenFacts(before, s, text, start);
    Write(a, s, text);
    ghost var mid := a[..];
    TextSame(g, before, mid, start, s);
    TextGrows(g, mid, start, s, e);
    var r' := g.Push(a, e, r - e, start);
    OutsideTransitive(a[..], mid, before, start, e);
    OutsideMore(a[..], before, start, e, r);
  }

  method Write(a: array<byte>, s: nat, text: bytes)
    requires s + |text| <= a.Length
    modifies a
    ensures a[..] == Written(old(a[..]), s, text)
  {
    for i := 0 to |text|
      invariant a[..] == Written(old(a[..]), s, text[..i])
    {
      a[s + i] := text[i];
    }
    assert text[..|text|] == text;
  }

  lemma {:induction false} TextSame(g: Gap, before: bytes, after: bytes, start: nat, s: nat)
    requires g.Fits(start, s) && s <= |before| == |after| && after[..s] == before[..s]
    ensures g.Text(after, start, s) == g.Text(before, start, s)
  {
    forall i, j | 0 <= i <= j <= s ensures after[i..j] == before[i..j] {
      assert after[..s][i..j] == after[i..j] && before[..s][i..j] == before[i..j];
    }
  }

  lemma {:induction false} TextGrows(g: Gap, buf: bytes, start: nat, s: nat, e: nat)
    requires g.Fits(start, s) && s <= e <= |buf|
    ensures g.Fits(start, e) && g.Text(buf, start, e) == g.Text(buf, start, s) + buf[s..e]
  {
    if g.open {
      assert buf[g.end..e] == buf[g.end..s] + buf[s..e];
    } else {
      assert buf[start..e] == buf[start..s] + buf[s..e];
    }
  }

  /** What the second byte decides about a reference. */
  lemma {:induction false} RefBySecond(s: bytes)
    requires s != [] && s[0] == AMP
    ensures |s| == 1 ==> RefAt(s).None?
    ensures |s| > 1 && s[1] == 97 ==> RefAt(s) == if StartsWith(s, AMP_REF) then Some(Reference([AMP], 5))
                                                  else if StartsWith(s, APOS_REF) then Some(Reference([APOS], 6)) else None
    ensures |s| > 1 && s[1] == 103 ==> RefAt(s) == if StartsWith(s, GT_REF) then Some(Reference([GT], 4)) else None
    ensures |s| > 1 && s[1] == 108 ==> RefAt(s) == if StartsWith(s, LT_REF) then Some(Reference([LT], 4)) else None
    ensures |s| > 1 && s[1] == 113 ==> RefAt(s) == if StartsWith(s, QUOT_REF) then Some(Reference([QUOTE], 6)) else None
    ensures |s| > 1 && s[1] !in {97, 103, 108, 113, HASH} ==> RefAt(s).None?
    ensures |s| > 1 && s[1] == HASH ==> RefAt(s) == if |s| > 2 && s[2] == LETTER_X then Numeric(s, 3, 16) else Numeric(s, 2, 10)
  {
    hide Numeric;
    StartsWithIndex(s, AMP_REF);
    StartsWithIndex(s, APOS_REF);
    StartsWithIndex(s, GT_REF);
    StartsWithIndex(s, LT_REF);
    StartsWithIndex(s, QUOT_REF);
    StartsWithIndex(s, [AMP, HASH, LETTER_X]);
    StartsWithIndex(s, [AMP, HASH]);
  }

  /** The outcome of reading a reference at `s`: converted, or left as it is with the cursor past some inert bytes. */
  ghost predicate Read(ref: Option<Reference>, before: bytes, after: bytes, was: bytes, now: bytes, s: nat, r: nat)
    requires s < r <= |before| == |after|
  {
    match ref
    case Some(found) => r == s + found.length && now == was + found.text
    case None => after == before && now == was + before[s..r] && forall k :: s < k < r ==> Inert(before[k])
  }

  /** The named references; `from` is the last byte the caller has matched. */
  method Named(a: array<byte>, s: nat, from: nat, name: bytes, c: byte, g: Gap, ghost start: nat, ghost p: nat) returns (r: nat)
    requires g.Fits(start, s) && s < from < p < a.Length && from - s < |name| - 1 && Stop(a[p])
    requires forall k :: s <= k <= from ==> a[k] == name[k - s]
    requires forall i :: 0 < i < |name| - 1 ==> Inert(name[i])
    requires name[0] == AMP && name[|name| - 1] == SEMICOLON
    requires RefAt(a[s..p]) == if StartsWith(a[s..p], name) then Some(Reference([c], |name|)) else None
    modifies a, g
    ensures s < r <= p && g.Fits(start, r)
    ensures Read(RefAt(old(a[s..p])), old(a[..]), a[..], old(g.Text(a[..], start, s)), g.Text(a[..], start, r), s, r)
    ensures Outside(a[..], old(a[..]), start, r)
  {
    hide RefAt, StartsWith;
    var ok, at := Expect(a, s, from, name, p);
    r := at;
    if ok {
      r := at + 1;
      Replace(a, s, [c], r, g, start);
    } else {
      TextGrows(g, a[..], start, s, r);
    }
  }

  lemma {:induction false} ModStep(base: int, x: nat, d: nat)
    requires base == 10 || base == 16
    ensures (base * (x % WORD) + d) % WORD == (base * x + d) % WORD
  {
    var q, r := x / WORD, x % WORD;
    assert base * x + d == WORD * (base * q) + (base * r + d);
    ModPlus(base * q, base * r + d);
  }

  lemma {:induction false} ModPlus(k: nat, y: nat)
    ensures (WORD * k + y) % WORD == y % WORD
  {
    if k > 0 {
      ModPlus(k - 1, y);
      assert WORD * k + y == WORD * (k - 1) + y + WORD;
    }
  }

  /** One more digit. */
  lemma {:induction false} NumberSnoc(t: bytes, n: nat, base: int)
    requires n < |t| && (base == 10 || base == 16) && forall i :: 0 <= i <= n ==> IsDigit(t[i], base)
    ensures Number(t[..n + 1], base) == base * Number(t[..n], base) + DigitValue(t[n])
    ensures Number(t[..n + 1], base) % WORD == (base * (Number(t[..n], base) % WORD) + DigitValue(t[n])) % WORD
  {
    assert t[..n + 1][..n] == t[..n];
    ModStep(base, Number(t[..n], base), DigitValue(t[n]));
  }

  /** Digits up to a semicolon, at least one, into a 32-bit number. */
  method ReadNumber(a: array<byte>, from: nat, base: int, ghost p: nat) returns (ok: bool, at: nat, ucsc: nat)
    requires from <= p < a.Length && Stop(a[p]) && (base == 10 || base == 16)
    ensures at == from + Run(a[from..p], base) <= p
    ensures ok <==> from < at < p && a[at] == SEMICOLON
    ensures ok ==> ucsc == Number(a[from..p][..at - from], base) % WORD
  {
    hide Run, Number;
    at, ucsc := from, 0;
    ghost var t := a[from..p];
    assert t[..0] == [] && Number([], base) == 0 by { NumberNone(base); }
    while IsDigit(a[at], base)
      invariant from <= at <= p && forall i :: 0 <= i < at - from ==> IsDigit(t[i], base)
      invariant ucsc == Number(t[..at - from], base) % WORD
      decreases p - at
    {
      assert a[at] == t[at - from];
      NumberSnoc(t, at - from, base);
      ucsc := (base * ucsc + DigitValue(a[at])) % WORD;
      at := at + 1;
    }
    assert at < p ==> t[at - from] == a[at];
    RunUpTo(t, at - from, base);
    ok := from < at && a[at] == SEMICOLON;
  }

  /** The references by number. */
  method ByNumber(a: array<byte>, s: nat, from: nat, base: int, g: Gap, ghost start: nat, ghost p: nat) returns (r: nat)
    requires g.Fits(start, s) && s + 2 <= from <= s + 3 && from <= p < a.Length && Stop(a[p]) && (base == 10 || base == 16)
    requires forall k :: s < k < from ==> Inert(a[k])
    modifies a, g
    ensures s < r <= p && g.Fits(start, r)
    ensures Read(Numeric(old(a[s..p]), from - s, base), old(a[..]), a[..], old(g.Text(a[..], start, s)), g.Text(a[..], start, r), s, r)
    ensures Outside(a[..], old(a[..]), start, r)
  {
    hide Numeric, Number, Run, Encoded;
    ghost var rest := a[s..p];
    assert rest[from - s..] == a[from..p];
    var ok, at, ucsc := ReadNumber(a, from, base, p);
    NumericIs(rest, from - s, base, at - s);
    ghost var ref := Numeric(rest, from - s, base);
    assert at < p ==> rest[at - s] == a[at];
    r := at;
    if ok {
      assert ref == Some(Reference(Encoded(ucsc), at + 1 - s));
      r := at + 1;
      Replace(a, s, Encoded(ucsc), r, g, start);
    } else {
      assert ref.None?;
      forall k | s < k < at ensures Inert(a[k]) {
        assert from <= k ==> a[k] == rest[from - s..][k - from];
      }
      TextGrows(g, a[..], start, s, r);
    }
  }

  lemma {:induction false} NumericIs(rest: bytes, from: nat, base: int, at: nat)
    requires from <= |rest| && base > 0 && at == from + Run(rest[from..], base)
    ensures Numeric(rest, from, base) ==
            if from < at < |rest| && rest[at] == SEMICOLON
            then Some(Reference(Encoded(Number(rest[from..][..at - from], base) % WORD), at + 1)) else None
    ensures forall i :: 0 <= i < at - from ==> IsDigit(rest[from..][i], base)
  {
  }

  /** `strconv_escape` */
  method EscapeAt(a: array<byte>, s: nat, g: Gap, ghost start: nat, ghost p: nat) returns (r: nat)
    requires g.Fits(start, s) && s < p < a.Length && a[s] == AMP && Stop(a[p])
    modifies a, g
    ensures s < r <= p && g.Fits(start, r)
    ensures Read(RefAt(old(a[s..p])), old(a[..]), a[..], old(g.Text(a[..], start, s)), g.Text(a[..], start, r), s, r)
    ensures Outside(a[..], old(a[..]), start, r)
  {
    hide RefAt, StartsWith, Numeric;
    ghost var rest := a[s..p];
    RefBySecond(rest);
    assert rest[0] == a[s] && (|rest| > 1 ==> rest[1] == a[s + 1]) && (|rest| > 2 ==> rest[2] == a[s + 2]);
    var c := a[s + 1];
    if c == HASH {
      if a[s + 2] == LETTER_X {
        r := ByNumber(a, s, s + 3, 16, g, start, p);
      } else {
        r := ByNumber(a, s, s + 2, 10, g, start, p);
      }
      return;
    } else if c == 97 {
      if a[s + 2] == 109 {
        NotBoth(rest, AMP_REF, APOS_REF);
        r := Named(a, s, s + 2, AMP_REF, AMP, g, start, p);
        return;
      } else if a[s + 2] == 112 {
        NotBoth(rest, APOS_REF, AMP_REF);
        r := Named(a, s, s + 2, APOS_REF, APOS, g, start, p);
        return;
      }
      r := s + 2;
      NeitherA(rest);
    } else if c == 103 {
      r := Named(a, s, s + 1, GT_REF, GT, g, start, p);
      return;
    } else if c == 108 {
      r := Named(a, s, s + 1, LT_REF, LT, g, start, p);
      return;
    } else if c == 113 {
      r := Named(a, s, s + 1, QUOT_REF, QUOTE, g, start, p);
      return;
    } else {
      r := s + 1;
    }
    TextGrows(g, a[..], start, s, r);
  }

  lemma {:induction false} NotBoth(s: bytes, name: bytes, other: bytes)
    requires |s| > 2 && |name| > 2 && |other| > 2 && s[2] == name[2] && name[2] != other[2]
    ensures !StartsWith(s, other)
  {
    StartsWithIndex(s, other);
  }

  lemma {:induction false} NeitherA(s: bytes)
    requires |s| > 2 ==> s[2] != 109 && s[2] != 112
    ensures !StartsWith(s, AMP_REF) && !StartsWith(s, APOS_REF)
  {
    StartsWithIndex(s, AMP_REF);
    StartsWithIndex(s, APOS_REF);
  }
}
