/** Writing character data and attribute values so that parsing gives them back. */
module TextOutput {
  import opened Bytes
  import opened Sequences
  import opened Strconv
  import opened Utf
  import opened BufferedWriter

  lemma {:induction false} EscapeConcat(a: bytes, b: bytes, attribute: bool)
    ensures Escape(a + b, attribute) == Escape(a, attribute) + Escape(b, attribute)
  {
    hide EscapeByte;
    if a == [] {
      assert a + b == b;
    } else {
      assert (a + b)[1..] == a[1..] + b;
      EscapeConcat(a[1..], b, attribute);
      Assoc(EscapeByte(a[0], attribute), Escape(a[1..], attribute), Escape(b, attribute));
    }
  }

  lemma {:induction false} EscapePlain(s: bytes, attribute: bool)
    requires forall i :: 0 <= i < |s| ==> !Special(s[i], attribute)
    ensures Escape(s, attribute) == s
  {
    if s != [] {
      EscapePlain(s[1..], attribute);
      assert s == [s[0]] + s[1..];
    }
  }

  /** Text before a special byte and the byte itself: both are written whole, and what follows is whole again. */
  lemma {:induction false} CutAtSpecial(text: bytes, i: nat, j: nat, attribute: bool)
    requires i <= j <= |text| && WellFormed(text[i..]) && (j < |text| ==> Special(text[j], attribute))
    ensures WellFormed(text[i..j]) && WellFormed(text[j..]) && (j < |text| ==> WellFormed(text[j + 1..]))
  {
    var t := text[i..];
    assert j < |text| ==> t[j - i] == text[j] < 0x80;
    CutAtLead(t, j - i);
    assert t[..j - i] == text[i..j] && t[j - i..] == text[j..];
    if j < |text| {
      assert text[j..][0] == text[j] && text[j..][1..] == text[j + 1..];
    }
  }

  lemma {:induction false} EscapedWellFormed(c: byte, attribute: bool)
    requires Special(c, attribute)
    ensures 4 <= |EscapeByte(c, attribute)| <= 6 && WellFormed(EscapeByte(c, attribute))
  {
    hide WellFormed;
    AsciiWellFormed(EscapeByte(c, attribute));
  }

  lemma {:induction false} AsciiWellFormed(s: bytes)
    requires forall i :: 0 <= i < |s| ==> s[i] < 0x80
    ensures WellFormed(s)
  {
    if s != [] {
      AsciiWellFormed(s[1..]);
    }
  }

  method NextSpecial(text: bytes, from: nat, attribute: bool) returns (j: nat)
    requires from <= |text|
    ensures from <= j <= |text| && (forall k :: from <= k < j ==> !Special(text[k], attribute)) && (j < |text| ==> Special(text[j], attribute))
  {
    j := from;
    while j < |text| && !Special(text[j], attribute)
      invariant from <= j <= |text| && forall k :: from <= k < j ==> !Special(text[k], attribute)
    {
      j := j + 1;
    }
  }

  /** The reference a special byte is written as. */
  method ReferenceTo(c: byte, attribute: bool) returns (r: bytes)
    requires Special(c, attribute)
    ensures r == EscapeByte(c, attribute)
  {
    if c == AMP {
      r := AMP_REF;
    } else if c == LT {
      r := LT_REF;
    } else if c == GT {
      r := GT_REF;
    } else if c == QUOTE {
      r := QUOT_REF;
    } else {
      r := [AMP, HASH, c / 10 + ZERO, c % 10 + ZERO, SEMICOLON];
    }
  }

  /** A run of usual bytes and the special one after it. */
  method OutputNext(writer: XmlBufferedWriter, text: bytes, i: nat, attribute: bool, address: nat, ghost was: bytes) returns (r: nat)
    requires writer.Valid() && i < |text| && writer.Written() == was + Escape(text[..i], attribute)
    modifies writer, writer.buffer
    ensures writer.Valid() && i < r <= |text| && writer.Written() == was + Escape(text[..r], attribute)
    ensures old(writer.clean) && WellFormed(text[i..]) ==> writer.clean && WellFormed(text[r..])
  {
    hide WellFormed, Transcode, Escape, EscapeByte, Special, Flatten, Pieces, AllWellFormed;
    var j := NextSpecial(text, i, attribute);
    if WellFormed(text[i..]) {
      CutAtSpecial(text, i, j, attribute);
    }
    assert text[..i] + text[i..j] == text[..j];
    EscapeConcat(text[..i], text[i..j], attribute);
    EscapePlain(text[i..j], attribute);
    Assoc(was, Escape(text[..i], attribute), text[i..j]);
    writer.Write(text[i..j], address);
    r := j;
    if j < |text| {
      var ref := ReferenceTo(text[j], attribute);
      EscapedWellFormed(text[j], attribute);
      OneMoreByte(text, j, attribute);
      Assoc(was, Escape(text[..j], attribute), ref);
      writer.WriteChars(ref, address);
      r := j + 1;
    }
  }

  lemma {:induction false} OneMoreByte(text: bytes, j: nat, attribute: bool)
    requires j < |text|
    ensures Escape(text[..j + 1], attribute) == Escape(text[..j], attribute) + EscapeByte(text[j], attribute)
  {
    assert text[..j + 1] == text[..j] + [text[j]];
    EscapeConcat(text[..j], [text[j]], attribute);
    assert Escape([], attribute) == [];
    assert Escape([text[j]], attribute) == EscapeByte(text[j], attribute);
  }

  /** `text_output_escaped` */
  method TextOutputEscaped(writer: XmlBufferedWriter, text: bytes, attribute: bool, address: nat)
    requires writer.Valid() && 0 !in text // a zero would end the string
    modifies writer, writer.buffer
    ensures writer.Valid() && writer.Written() == old(writer.Written()) + Escape(text, attribute)
    ensures old(writer.clean) && WellFormed(text) ==> writer.clean
  {
    ghost var was := writer.Written();
    var i := 0;
    assert text[0..] == text && was + Escape(text[..0], attribute) == was;
    while i < |text|
      invariant i <= |text| && writer.Valid() && writer.Written() == was + Escape(text[..i], attribute)
      invariant old(writer.clean) && WellFormed(text) ==> writer.clean && WellFormed(text[i..])
    {
      i := OutputNext(writer, text, i, attribute, address, was);
    }
    assert text[..|text|] == text;
  }
}
