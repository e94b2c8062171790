/** Which references parsing knows, and what each stands for (sections 4.1 and 4.6 of XML 1.0). */
module References {
  import opened Bytes
  import opened Digits
  import opened Utf8Bytes
  import S = Strconv

  ghost predicate AllDigits(d: bytes, base: int) {
    d != [] && forall i :: 0 <= i < |d| ==> IsDigit(d[i], base)
  }

  /** The five named references, and characters by number in decimal and hexadecimal, kept in 32 bits. */
  ghost predicate Means(ref: bytes, text: bytes) {
    || (ref == [38, 97, 109, 112, 59] && text == [38])
    || (ref == [38, 97, 112, 111, 115, 59] && text == [39])
    || (ref == [38, 103, 116, 59] && text == [62])
    || (ref == [38, 108, 116, 59] && text == [60])
    || (ref == [38, 113, 117, 111, 116, 59] && text == [34])
    || ByNumber([38, 35], 10, ref, text)
    || ByNumber([38, 35, 120], 16, ref, text)
  }

  ghost predicate ByNumber(head: bytes, base: int, ref: bytes, text: bytes)
    requires base > 0
  {
    exists d: bytes :: AllDigits(d, base) && ref == head + (d + [59]) && text == Encoded(Number(d, base) % 0x1_0000_0000)
  }

  // ---------------------------------------------------------------- only those

  /** Where a reference is read, the bytes read are one of those. */
  lemma {:induction false} RefSound(s: bytes)
    requires S.RefAt(s).Some?
    ensures var r := S.RefAt(s).value; 0 < r.length <= |s| && Means(s[..r.length], r.text)
  {
    S.RefFits(s);
    if S.RefAt(s) == S.Numeric(s, 3, 16) && StartsWith(s, [38, 35, 120]) {
      NumericSound(s, [38, 35, 120], 16);
    } else if S.RefAt(s) == S.Numeric(s, 2, 10) && StartsWith(s, [38, 35]) {
      NumericSound(s, [38, 35], 10);
    } else {
      hide S.Numeric, ByNumber, Encoded;
    }
  }

  lemma {:induction false} NumericSound(s: bytes, head: bytes, base: int)
    requires base > 0 && StartsWith(s, head) && S.Numeric(s, |head|, base).Some?
    ensures var r := S.Numeric(s, |head|, base).value; r.length <= |s| && ByNumber(head, base, s[..r.length], r.text)
  {
    hide Encoded, Number;
    var t := s[|head|..];
    var n := Run(t, base);
    var d := t[..n];
    assert s[..|head| + n + 1] == head + (d + [59]);
    assert AllDigits(d, base);
  }

  // ---------------------------------------------------------------- all of those

  /** Each of those is read, whatever follows it. */
  lemma {:induction false} RefComplete(ref: bytes, text: bytes, rest: bytes)
    requires Means(ref, text)
    ensures S.RefAt(ref + rest) == Some(S.Reference(text, |ref|))
  {
    if ByNumber([38, 35], 10, ref, text) {
      NumericComplete([38, 35], 10, ref, text, rest);
      DecimalHead(ref, rest);
    } else if ByNumber([38, 35, 120], 16, ref, text) {
      NumericComplete([38, 35, 120], 16, ref, text, rest);
      HexHead(ref, rest);
    } else {
      hide ByNumber;
      NamedComplete(ref, rest);
    }
  }

  lemma {:induction false} NumericComplete(head: bytes, base: int, ref: bytes, text: bytes, rest: bytes)
    requires (base == 10 || base == 16) && ByNumber(head, base, ref, text)
    ensures |head| < |ref| && ref[..|head|] == head && IsDigit(ref[|head|], base)
    ensures S.Numeric(ref + rest, |head|, base) == Some(S.Reference(text, |ref|))
  {
    var d: bytes :| AllDigits(d, base) && ref == head + (d + [59]) && text == Encoded(Number(d, base) % 0x1_0000_0000);
    hide Encoded, Number;
    Pieces(head, d, rest);
    var t := d + ([59] + rest);
    assert forall i :: 0 <= i < |d| ==> t[i] == d[i];
    RunUpTo(t, |d|, base);
    assert t[..|d|] == d;
  }

  lemma {:induction false} Pieces(head: bytes, d: bytes, rest: bytes)
    requires d != []
    ensures var ref := head + (d + [59]);
            && (ref + rest)[|head|..] == d + ([59] + rest) && (ref + rest)[|head| + |d|] == 59
            && ref[..|head|] == head && ref[|head|] == d[0]
  {
    var ref := head + (d + [59]);
    assert ref + rest == head + (d + ([59] + rest));
  }

  lemma {:induction false} DecimalHead(ref: bytes, rest: bytes)
    requires |ref| > 2 && ref[..2] == [38, 35] && IsDigit(ref[2], 10)
    ensures S.RefAt(ref + rest) == S.Numeric(ref + rest, 2, 10)
  {
    assert ref[0] == ref[..2][0] && ref[1] == ref[..2][1];
    S.DecimalRef(ref + rest);
  }

  lemma {:induction false} HexHead(ref: bytes, rest: bytes)
    requires |ref| > 3 && ref[..3] == [38, 35, 120]
    ensures S.RefAt(ref + rest) == S.Numeric(ref + rest, 3, 16)
  {
    var s := ref + rest;
    assert s[..3] == ref[..3] && s[1] == s[..3][1];
    hide S.Numeric;
    S.SecondByte(s);
  }

  lemma {:induction false} NamedComplete(ref: bytes, rest: bytes)
    requires ref in {[38, 97, 109, 112, 59], [38, 97, 112, 111, 115, 59], [38, 103, 116, 59], [38, 108, 116, 59], [38, 113, 117, 111, 116, 59]}
    ensures S.RefAt(ref + rest) == Some(S.Reference([if ref[1] == 103 then 62 else if ref[1] == 108 then 60 else if ref[1] == 113 then 34
                                                     else if ref[2] == 109 then 38 else 39], |ref|))
  {
    var s := ref + rest;
    assert s[..|ref|] == ref && s[1] == ref[1] && s[2] == ref[2];
    hide S.Numeric;
    S.SecondByte(s);
    assert StartsWith(s, S.AMP_REF) ==> s[2] == s[..5][2];
  }

  /** So a string starts with a reference exactly if it starts with one of those, and the two agree on what it means. */
  lemma {:induction false} RefExactly(s: bytes, n: nat, text: bytes)
    requires n <= |s|
    ensures S.RefAt(s) == Some(S.Reference(text, n)) <==> Means(s[..n], text)
  {
    hide Means;
    if S.RefAt(s) == Some(S.Reference(text, n)) {
      RefSound(s);
    }
    if Means(s[..n], text) {
      RefComplete(s[..n], text, s[n..]);
      assert s[..n] + s[n..] == s;
    }
  }

  /** Every character can be written by its number in decimal. */
  lemma {:induction false} CharacterByNumber(cp: nat, rest: bytes)
    requires cp < 0x110000
    ensures S.RefAt([38, 35] + (Decimal(cp) + [59]) + rest) == Some(S.Reference(Encoded(cp), |Decimal(cp)| + 3))
  {
    hide Encoded;
    var d := Decimal(cp);
    DecimalReads(cp);
    assert AllDigits(d, 10);
    assert ByNumber([38, 35], 10, [38, 35] + (d + [59]), Encoded(cp));
    RefComplete([38, 35] + (d + [59]), Encoded(cp), rest);
  }

  /** The digits of hexadecimal references in either case of letters. */
  lemma {:induction false} HexDigits(v: int)
    requires 0 <= v < 16
    ensures var lower, upper := [48, 49, 50, 51, 52, 53, 54, 55, 56, 57, 97, 98, 99, 100, 101, 102], [48, 49, 50, 51, 52, 53, 54, 55, 56, 57, 65, 66, 67, 68, 69, 70];
            && IsDigit(lower[v], 16) && IsDigit(upper[v], 16) && DigitValue(lower[v]) == v && DigitValue(upper[v]) == v
  {
  }

  // ---------------------------------------------------------------- references do not reach over white space

  predicate WhiteByte(c: byte) {
    c == 9 || c == 10 || c == 13 || c == 32
  }

  lemma {:induction false} NoWhiteInside(ref: bytes, text: bytes, i: nat)
    requires Means(ref, text) && i < |ref|
    ensures !WhiteByte(ref[i])
  {
    if ByNumber([38, 35], 10, ref, text) {
      NoWhiteInNumber([38, 35], 10, ref, text, i);
    } else if ByNumber([38, 35, 120], 16, ref, text) {
      NoWhiteInNumber([38, 35, 120], 16, ref, text, i);
    }
  }

  lemma {:induction false} NoWhiteInNumber(head: bytes, base: int, ref: bytes, text: bytes, i: nat)
    requires base > 0 && ByNumber(head, base, ref, text) && i < |ref| && forall k :: 0 <= k < |head| ==> !WhiteByte(head[k])
    ensures !WhiteByte(ref[i])
  {
    var d: bytes :| AllDigits(d, base) && ref == head + (d + [59]) && text == Encoded(Number(d, base) % 0x1_0000_0000);
    hide Number, Encoded;
    assert ref[i] == if i < |head| then head[i] else if i < |head| + |d| then d[i - |head|] else 59;
  }

  /** What follows from the next white space on makes no difference. */
  lemma {:induction false} RefBeforeWhite(a: bytes, b: bytes)
    requires b == [] || WhiteByte(b[0])
    ensures S.RefAt(a + b) == S.RefAt(a)
  {
    hide Means, S.RefAt;
    var s := a + b;
    if S.RefAt(a).Some? {
      var r := S.RefAt(a).value;
      RefSound(a);
      RefComplete(a[..r.length], r.text, a[r.length..] + b);
      assert a[..r.length] + (a[r.length..] + b) == s;
    } else if S.RefAt(s).Some? {
      var r := S.RefAt(s).value;
      RefSound(s);
      if r.length > |a| {
        NoWhiteInside(s[..r.length], r.text, |a|);
      } else {
        RefComplete(s[..r.length], r.text, a[r.length..]);
        assert s[..r.length] + a[r.length..] == a;
      }
    }
  }
}
