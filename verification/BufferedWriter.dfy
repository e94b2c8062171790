/** The writer that collects output in a buffer and converts it, in chunks, to the encoding asked for. */
module BufferedWriter {
  import opened Bytes
  import opened Sequences
  import opened Utf

  const CAPACITY: nat := 2048 // 10240 / (sizeof(char) + 4)

  // ---------------------------------------------------------------- conversion of a block

  lemma {:induction false} DecodeStep(s: bytes, i: nat)
    requires i < |s|
    ensures var t := s[i..];
            Decode(t) == if UnitLen(t) > 0 then [PointOf(t)] + Decode(s[i + UnitLen(t)..]) else Decode(s[i + 1..])
  {
    assert s[i..][UnitLen(s[i..])..] == s[i + UnitLen(s[i..])..] && s[i..][1..] == s[i + 1..];
  }

  /** The state of a conversion: what has been written and what the rest will give are the whole. */
  ghost predicate Converting(e: Encoding, data: bytes, i: nat, units: seq<nat>)
    requires !e.Utf8?
  {
    i <= |data| && units + UnitsOf(e, Decode(data[i..])) == UnitsOf(e, Decode(data))
  }

  /** One character more, or one unreadable byte. */
  lemma {:induction false} ConvertOne(e: Encoding, data: bytes, i: nat, units: seq<nat>)
    requires !e.Utf8? && Converting(e, data, i, units) && i < |data|
    ensures var t := data[i..];
            if UnitLen(t) > 0 then Converting(e, data, i + UnitLen(t), units + Units(e, PointOf(t))) else Converting(e, data, i + 1, units)
  {
    hide UnitsOf, Decode, UnitLen, Units, PointOf;
    var t := data[i..];
    DecodeStep(data, i);
    if UnitLen(t) > 0 {
      var rest := Decode(data[i + UnitLen(t)..]);
      UnitsStep(e, PointOf(t), rest);
      assert (units + Units(e, PointOf(t))) + UnitsOf(e, rest) == units + (Units(e, PointOf(t)) + UnitsOf(e, rest));
    }
  }

  lemma {:induction false} UnitsStep(e: Encoding, p: Point, rest: seq<Point>)
    requires !e.Utf8?
    ensures UnitsOf(e, [p] + rest) == Units(e, p) + UnitsOf(e, rest)
  {
    hide Units;
    assert ([p] + rest)[1..] == rest;
  }

  /** Single bytes below 0x80 are characters. */
  lemma {:induction false} ConvertAscii(e: Encoding, data: bytes, i: nat, units: seq<nat>)
    requires !e.Utf8? && Converting(e, data, i, units) && i < |data| && data[i] < 0x80
    ensures Converting(e, data, i + 1, units + Units(e, Low(data[i])))
  {
    assert data[i..][0] == data[i];
    assert UnitLen(data[i..]) == 1 && PointOf(data[i..]) == Low(data[i]);
    hide Converting, UnitLen, PointOf, Units;
    ConvertOne(e, data, i, units);
  }

  /** Four bytes follow, none with its high bit set. */
  predicate FourLow(data: bytes, i: nat) {
    i + 4 <= |data| && data[i] < 0x80 && data[i + 1] < 0x80 && data[i + 2] < 0x80 && data[i + 3] < 0x80
  }

  /** The units of single bytes. */
  ghost function Lows(e: Encoding, data: bytes, from: nat, i: nat): seq<nat>
    requires !e.Utf8? && from <= i <= |data|
    decreases i
  {
    if i == from then [] else Lows(e, data, from, i - 1) + Units(e, Low(data[i - 1]))
  }

  /** Blocks of four bytes below 0x80, taken together. */
  method AsciiBlocks(e: Encoding, data: bytes, from: nat, before: seq<nat>) returns (units: seq<nat>, i: nat)
    requires !e.Utf8? && from <= |data|
    ensures from <= i <= |data| && (forall k :: from <= k < i ==> data[k] < 0x80)
    ensures units == before + Lows(e, data, from, i)
  {
    units, i := before, from;
    while FourLow(data, i)
      invariant from <= i <= |data| && (forall k :: from <= k < i ==> data[k] < 0x80)
      invariant units == before + Lows(e, data, from, i)
      decreases |data| - i
    {
      units := FourAscii(e, data, from, i, units, before);
      i := i + 4;
    }
  }

  method FourAscii(e: Encoding, data: bytes, ghost from: nat, i: nat, units: seq<nat>, ghost before: seq<nat>) returns (r: seq<nat>)
    requires !e.Utf8? && from <= i && FourLow(data, i) && units == before + Lows(e, data, from, i)
    ensures r == before + Lows(e, data, from, i + 4)
  {
    r := units + Units(e, Low(data[i]));
    r := r + Units(e, Low(data[i + 1]));
    r := r + Units(e, Low(data[i + 2]));
    r := r + Units(e, Low(data[i + 3]));
    LowsSnoc(e, data, from, i, units, before);
    LowsSnoc(e, data, from, i + 1, before + Lows(e, data, from, i + 1), before);
    LowsSnoc(e, data, from, i + 2, before + Lows(e, data, from, i + 2), before);
    LowsSnoc(e, data, from, i + 3, before + Lows(e, data, from, i + 3), before);
    hide Lows, Units;
  }

  lemma {:induction false} LowsSnoc(e: Encoding, data: bytes, from: nat, i: nat, units: seq<nat>, before: seq<nat>)
    requires !e.Utf8? && from <= i < |data| && units == before + Lows(e, data, from, i)
    ensures units + Units(e, Low(data[i])) == before + Lows(e, data, from, i + 1)
  {
    hide Units;
  }

  lemma {:induction false} ConvertLows(e: Encoding, data: bytes, from: nat, i: nat, before: seq<nat>)
    requires !e.Utf8? && from <= i <= |data| && Converting(e, data, from, before) && forall k :: from <= k < i ==> data[k] < 0x80
    ensures Converting(e, data, i, before + Lows(e, data, from, i))
    decreases i
  {
    hide Converting, Units;
    if i == from {
      assert before + [] == before;
    } else {
      ConvertLows(e, data, from, i - 1, before);
      LowsSnoc(e, data, from, i - 1, before + Lows(e, data, from, i - 1), before);
      ConvertAscii(e, data, i - 1, before + Lows(e, data, from, i - 1));
    }
  }

  /** A lead byte from 0x80 on: a complete sequence, or one byte to skip. */
  method LongForm(e: Encoding, data: bytes, from: nat, before: seq<nat>) returns (units: seq<nat>, i: nat)
    requires !e.Utf8? && Converting(e, data, from, before) && from < |data| && data[from] >= 0x80
    ensures from < i && Converting(e, data, i, units)
  {
    hide Converting, Units, UnitLen, PointOf;
    ConvertOne(e, data, from, before);
    LongAt(data, from);
    var lead, size := data[from], |data| - from;
    if 0xC0 <= lead < 0xE0 && size >= 2 && Continues(data[from + 1]) {
      units := before + Units(e, Low((lead as int - 0xC0) * 0x40 + (data[from + 1] as int - 0x80)));
      i := from + 2;
    } else if 0xE0 <= lead < 0xF0 && size >= 3 && Continues(data[from + 1]) && Continues(data[from + 2]) {
      units := before + Units(e, Low((lead as int - 0xE0) * 0x1000 + (data[from + 1] as int - 0x80) * 0x40 + (data[from + 2] as int - 0x80)));
      i := from + 3;
    } else if 0xF0 <= lead < 0xF8 && size >= 4 && Continues(data[from + 1]) && Continues(data[from + 2]) && Continues(data[from + 3]) {
      units := before + Units(e, High((lead as int - 0xF0) * 0x40000 + (data[from + 1] as int - 0x80) * 0x1000
                                      + (data[from + 2] as int - 0x80) * 0x40 + (data[from + 3] as int - 0x80)));
      i := from + 4;
    } else {
      units, i := before, from + 1;
    }
  }

  /** The sequence at a position, read byte by byte. */
  lemma {:induction false} LongAt(data: bytes, i: nat)
    requires i < |data| && data[i] >= 0x80
    ensures var lead, size, t := data[i], |data| - i, data[i..];
            if 0xC0 <= lead < 0xE0 && size >= 2 && Continues(data[i + 1]) then
              UnitLen(t) == 2 && PointOf(t) == Low((lead as int - 0xC0) * 0x40 + (data[i + 1] as int - 0x80))
            else if 0xE0 <= lead < 0xF0 && size >= 3 && Continues(data[i + 1]) && Continues(data[i + 2]) then
              UnitLen(t) == 3
              && PointOf(t) == Low((lead as int - 0xE0) * 0x1000 + (data[i + 1] as int - 0x80) * 0x40 + (data[i + 2] as int - 0x80))
            else if 0xF0 <= lead < 0xF8 && size >= 4 && Continues(data[i + 1]) && Continues(data[i + 2]) && Continues(data[i + 3]) then
              UnitLen(t) == 4
              && PointOf(t) == High((lead as int - 0xF0) * 0x40000 + (data[i + 1] as int - 0x80) * 0x1000
                                    + (data[i + 2] as int - 0x80) * 0x40 + (data[i + 3] as int - 0x80))
            else UnitLen(t) == 0
  {
    var t, size := data[i..], |data| - i;
    assert t[0] == data[i] && (size > 1 ==> t[1] == data[i + 1]) && (size > 2 ==> t[2] == data[i + 2]) && (size > 3 ==> t[3] == data[i + 3]);
  }

  /** `decode_utf8_block`; `address` is where the data lies, which decides when blocks of four are tried. */
  method DecodeUtf8Block(e: Encoding, data: bytes, address: nat) returns (units: seq<nat>)
    requires !e.Utf8?
    ensures units == UnitsOf(e, Decode(data)) && |units| <= |data|
  {
    units := [];
    var i := 0;
    StartConverting(e, data);
    while i < |data|
      invariant Converting(e, data, i, units)
    {
      if data[i] < 0x80 {
        ConvertAscii(e, data, i, units);
        units := units + Units(e, Low(data[i]));
        i := i + 1;
        if (address + i) % 4 == 0 {
          ghost var from, before := i, units;
          units, i := AsciiBlocks(e, data, i, units);
          ConvertLows(e, data, from, i, before);
        }
      } else {
        units, i := LongForm(e, data, i, units);
      }
    }
    EndConverting(e, data, units);
    UnitsFit(e, data);
  }

  lemma {:induction false} StartConverting(e: Encoding, data: bytes)
    requires !e.Utf8?
    ensures Converting(e, data, 0, [])
  {
    assert data[0..] == data;
  }

  lemma {:induction false} EndConverting(e: Encoding, data: bytes, units: seq<nat>)
    requires !e.Utf8? && Converting(e, data, |data|, units)
    ensures units == UnitsOf(e, Decode(data))
  {
    assert data[|data|..] == [];
  }

  /** `convert_buffer`: native units first, swapped in place when the machine's byte order is not the one wanted. */
  method ConvertBuffer(e: Encoding, data: bytes, address: nat, machineBig: bool) returns (result: bytes)
    requires !e.Utf8?
    ensures result == Transcode(e, data) && |result| <= 4 * |data|
  {
    var units := DecodeUtf8Block(e, data, address);
    var width := Width(e);
    if width > 1 && machineBig != BigEndian(e) {
      units := SwapAll(units, width, machineBig);
      result := StoredAll(units, width, machineBig);
    } else {
      result := StoredAll(units, width, machineBig);
      if width == 1 {
        OneByteOrder(units, machineBig, BigEndian(e));
      }
    }
    TranscodeFits(e, data);
  }

  method SwapAll(units: seq<nat>, width: nat, machineBig: bool) returns (r: seq<nat>)
    requires width == 2 || width == 4
    ensures StoredAll(r, width, machineBig) == StoredAll(units, width, !machineBig)
  {
    r := units;
    for i := 0 to |units|
      invariant |r| == |units| && (forall k :: 0 <= k < i ==> r[k] == Swapped(units[k], width)) && forall k :: i <= k < |units| ==> r[k] == units[k]
    {
      r := r[i := Swapped(r[i], width)];
    }
    SwappedStore(units, r, width, machineBig);
  }

  lemma {:induction false} SwappedStore(units: seq<nat>, r: seq<nat>, width: nat, machineBig: bool)
    requires (width == 2 || width == 4) && |r| == |units| && forall k :: 0 <= k < |units| ==> r[k] == Swapped(units[k], width)
    ensures StoredAll(r, width, machineBig) == StoredAll(units, width, !machineBig)
  {
    if units != [] {
      hide Swapped, Stored;
      SwapStores(units[0], width, machineBig, !machineBig);
      SwappedStore(units[1..], r[1..], width, machineBig);
    }
  }

  lemma {:induction false} OneByteOrder(units: seq<nat>, a: bool, b: bool)
    ensures StoredAll(units, 1, a) == StoredAll(units, 1, b)
  {
    if units != [] {
      OneByteOrder(units[1..], a, b);
      assert Stored(units[0] / 0x100, 0, a) == [] == Stored(units[0] / 0x100, 0, b);
    }
  }

  // ---------------------------------------------------------------- chunks

  /** `get_valid_length`: up to the last byte that starts a character, so that no character is cut. */
  method GetValidLength(data: bytes, length: nat) returns (n: nat)
    requires 4 < length <= |data|
    ensures 0 < n <= length && (forall k :: n < k < length ==> Continues(data[k]))
    ensures if n < length then length - 4 <= n && !Continues(data[n]) else forall k :: length - 4 <= k < length ==> Continues(data[k])
    ensures WellFormed(data) ==> WellFormed(data[..n]) && WellFormed(data[n..])
  {
    var i := 1;
    while i <= 4 && Continues(data[length - i])
      invariant 1 <= i <= 5 && forall k :: length - i < k < length ==> Continues(data[k])
    {
      i := i + 1;
    }
    n := if i <= 4 then length - i else length;
    ValidCut(data, length, n);
  }

  lemma {:induction false} ValidCut(data: bytes, length: nat, n: nat)
    requires 4 < length <= |data| && length - 4 <= n <= length
    requires forall k :: n < k < length ==> Continues(data[k])
    requires if n < length then !Continues(data[n]) else forall k :: length - 4 <= k < length ==> Continues(data[k])
    ensures WellFormed(data) ==> WellFormed(data[..n]) && WellFormed(data[n..])
  {
    if WellFormed(data) {
      LeadWithinFour(data, length - 4);
      CutAtLead(data, n);
    }
  }

  // ---------------------------------------------------------------- the writer

  class XmlBufferedWriter {
    const encoding: Encoding
    const machineBig: bool
    const buffer: array<byte>
    var bufsize: nat
    /** What the underlying writer has been given. */
    var out: bytes
    /** The pieces of text, in UTF-8, that have been converted one by one. */
    ghost var chunks: seq<bytes>
    /** Whether every text written so far was well formed. */
    ghost var clean: bool

    ghost predicate Valid()
      reads this, buffer
    {
      && buffer.Length == CAPACITY && bufsize <= CAPACITY
      && out == Pieces(encoding, chunks)
      && (clean ==> AllWellFormed(chunks) && WellFormed(buffer[..bufsize]))
    }

    /** All the text written so far. */
    ghost function Written(): bytes
      requires bufsize <= buffer.Length
      reads this, buffer
    {
      Flatten(chunks) + buffer[..bufsize]
    }

    constructor (encoding: Encoding, machineBig: bool)
      ensures Valid() && Written() == [] && clean && this.encoding == encoding && fresh(buffer)
    {
      this.encoding, this.machineBig := encoding, machineBig;
      buffer := new byte[CAPACITY];
      bufsize, out, chunks, clean := 0, [], [], true;
      new;
      assert buffer[..bufsize] == [];
    }

    /** `flush(data, size)`: one chunk is converted, which never needs more than the scratch buffer. */
    method FlushChunk(data: bytes, address: nat)
      requires |data| <= CAPACITY
      modifies this`out, this`chunks
      ensures chunks == old(chunks) + [data] && out == old(out) + Transcode(encoding, data)
    {
      hide Transcode;
      if |data| > 0 {
        if encoding.Utf8? {
          Utf8Plain(data);
          out := out + data;
        } else {
          var result := ConvertBuffer(encoding, data, address, machineBig);
          assert |result| <= 4 * CAPACITY;
          out := out + result;
        }
      } else {
        TranscodeNothing(encoding, data);
      }
      chunks := chunks + [data];
    }

    /** `flush()`: afterwards everything written has been handed on; well-formed text, converted as a whole. */
    method Flush(address: nat)
      requires Valid()
      modifies this
      ensures Valid() && bufsize == 0 && Written() == old(Written()) && clean == old(clean)
      ensures clean || encoding.Utf8? ==> out == Transcode(encoding, Written())
    {
      hide WellFormed, Transcode, Pieces, AllWellFormed, Flatten;
      ghost var data := buffer[..bufsize];
      OnePieceMore(encoding, chunks, data);
      FlushChunk(buffer[..bufsize], address);
      bufsize := 0;
      assert buffer[..bufsize] == [] && Flatten(chunks) + [] == Flatten(chunks);
      NothingWellFormed();
      if clean || encoding.Utf8? {
        PiecesWhole(encoding, chunks);
      }
    }

    /** `memcpy` behind what the buffer holds. */
    method CopyIn(data: bytes)
      requires Valid() && bufsize + |data| <= CAPACITY && (clean ==> WellFormed(data))
      modifies this`bufsize, buffer
      ensures Valid() && Written() == old(Written()) + data
    {
      hide WellFormed, Transcode, Pieces, AllWellFormed, Flatten;
      ghost var was := buffer[..bufsize];
      if clean {
        Joined(was, data);
      }
      Assoc(Flatten(chunks), was, data);
      Fill(buffer, bufsize, data);
      bufsize := bufsize + |data|;
    }

    /** Chunks of a long text go out directly, up to a tail that fits the buffer. */
    method FlushLong(data: bytes, address: nat) returns (rest: bytes)
      requires Valid() && bufsize == 0 && (clean ==> WellFormed(data))
      modifies this`out, this`chunks
      ensures Valid() && |rest| <= CAPACITY && (clean ==> WellFormed(rest)) && Flatten(chunks) + rest == Flatten(old(chunks)) + data
    {
      rest := data;
      while |rest| > CAPACITY
        invariant Valid() && (clean ==> WellFormed(rest)) && Flatten(chunks) + rest == Flatten(old(chunks)) + data
        decreases |rest|
      {
        rest := FlushPart(rest, address);
      }
    }

    method FlushPart(data: bytes, address: nat) returns (rest: bytes)
      requires Valid() && |data| > CAPACITY && (clean ==> WellFormed(data))
      modifies this`out, this`chunks
      ensures Valid() && |rest| < |data| && (clean ==> WellFormed(rest)) && Flatten(chunks) + rest == Flatten(old(chunks)) + data
    {
      hide WellFormed, Transcode, Pieces, AllWellFormed, Flatten;
      var n := GetValidLength(data, CAPACITY);
      OnePieceMore(encoding, chunks, data[..n]);
      ghost var was := Flatten(chunks);
      FlushChunk(data[..n], address);
      rest := data[n..];
      assert data == data[..n] + rest;
      Assoc(was, data[..n], rest);
    }

    /** `write(data, length)` */
    method Write(data: bytes, address: nat)
      requires Valid()
      modifies this, buffer
      ensures Valid() && Written() == old(Written()) + data && clean == (old(clean) && WellFormed(data))
    {
      hide WellFormed, Transcode, Pieces, AllWellFormed, Flatten;
      clean := clean && WellFormed(data);
      var tail := data;
      if bufsize + |data| > CAPACITY {
        Flush(address);
        if |data| > CAPACITY {
          if encoding.Utf8? {
            WriteDirectly(data);
            return;
          }
          assert Written() == Flatten(chunks) + [] == Flatten(chunks);
          tail := FlushLong(data, address);
          assert Written() == Flatten(chunks) + [] == Flatten(chunks);
        }
      }
      CopyIn(tail);
    }

    /** A long text that needs no conversion goes out as it is. */
    method WriteDirectly(data: bytes)
      requires Valid() && bufsize == 0 && encoding.Utf8? && (clean ==> WellFormed(data))
      modifies this`out, this`chunks
      ensures Valid() && Written() == old(Written()) + data
    {
      hide WellFormed, Transcode, Pieces, AllWellFormed, Flatten;
      Utf8Plain(data);
      OnePieceMore(encoding, chunks, data);
      assert Written() == Flatten(chunks) + [] == Flatten(chunks);
      out := out + data;
      chunks := chunks + [data];
      assert Written() == Flatten(chunks) + [] == Flatten(chunks);
    }

    /** `write(d0, …)` for up to six characters. */
    method WriteChars(ds: bytes, address: nat)
      requires Valid() && 1 <= |ds| <= 6
      modifies this, buffer
      ensures Valid() && Written() == old(Written()) + ds && clean == (old(clean) && WellFormed(ds))
    {
      hide WellFormed, Transcode, Pieces, AllWellFormed, Flatten;
      clean := clean && WellFormed(ds);
      if bufsize + |ds| > CAPACITY {
        Flush(address);
      }
      CopyIn(ds);
    }

    /**
      Any number of writes, then the destructor's flush. The output is the conversion of pieces of the whole text,
      and if all of it was well formed, or is not to be converted, the whole text converted at once.
      */
    method WriteAll(texts: seq<bytes>, addresses: seq<nat>)
      requires Valid() && |addresses| > |texts|
      modifies this, buffer
      ensures Valid() && out == Pieces(encoding, chunks) && Flatten(chunks) == old(Written()) + Flatten(texts)
      ensures (old(clean) && AllWellFormed(texts)) || encoding.Utf8? ==> out == Transcode(encoding, old(Written()) + Flatten(texts))
    {
      ghost var was := Written();
      assert was + Flatten(texts[..0]) == was;
      for i := 0 to |texts|
        invariant Valid() && Written() == was + Flatten(texts[..i])
        invariant old(clean) && AllWellFormed(texts) ==> clean
      {
        WriteNext(texts, i, addresses[i], was);
      }
      assert texts[..|texts|] == texts;
      Flush(addresses[|texts|]);
      assert buffer[..bufsize] == [] && Flatten(chunks) + [] == Flatten(chunks);
    }

    method WriteNext(texts: seq<bytes>, i: nat, address: nat, ghost was: bytes)
      requires Valid() && i < |texts| && Written() == was + Flatten(texts[..i])
      modifies this, buffer
      ensures Valid() && Written() == was + Flatten(texts[..i + 1]) && clean == (old(clean) && WellFormed(texts[i]))
    {
      hide WellFormed, Pieces, AllWellFormed;
      FlattenSnoc(texts, i);
      hide Flatten;
      Write(texts[i], address);
      Assoc(was, Flatten(texts[..i]), texts[i]);
    }
  }

  ghost predicate AllWellFormed(texts: seq<bytes>) {
    forall i :: 0 <= i < |texts| ==> WellFormed(texts[i])
  }

  ghost function Flatten(texts: seq<bytes>): bytes {
    if texts == [] then [] else Flatten(texts[..|texts| - 1]) + texts[|texts| - 1]
  }

  /** The texts converted one by one. */
  ghost function Pieces(e: Encoding, texts: seq<bytes>): bytes {
    if texts == [] then [] else Pieces(e, texts[..|texts| - 1]) + Transcode(e, texts[|texts| - 1])
  }

  lemma {:induction false} OnePieceMore(e: Encoding, texts: seq<bytes>, data: bytes)
    ensures Pieces(e, texts + [data]) == Pieces(e, texts) + Transcode(e, data)
    ensures Flatten(texts + [data]) == Flatten(texts) + data
    ensures AllWellFormed(texts + [data]) <==> AllWellFormed(texts) && WellFormed(data)
  {
    hide Transcode, WellFormed;
    var all := texts + [data];
    assert all[..|texts|] == texts && all[|texts|] == data;
    assert forall i :: 0 <= i < |texts| ==> all[i] == texts[i];
  }

  /** Well-formed pieces converted one by one are the whole converted at once. */
  lemma {:induction false} PiecesWhole(e: Encoding, texts: seq<bytes>)
    requires AllWellFormed(texts) || e.Utf8?
    ensures Pieces(e, texts) == Transcode(e, Flatten(texts)) && (AllWellFormed(texts) ==> WellFormed(Flatten(texts)))
  {
    hide Transcode, WellFormed;
    if texts == [] {
      TranscodeNothing(e, []);
      NothingWellFormed();
    } else {
      var init, last := texts[..|texts| - 1], texts[|texts| - 1];
      PiecesWhole(e, init);
      if e.Utf8? {
        Utf8Plain(Flatten(init));
        Utf8Plain(last);
        Utf8Plain(Flatten(texts));
      } else {
        TranscodeConcat(e, Flatten(init), last);
      }
      if AllWellFormed(texts) {
        Joined(Flatten(init), last);
      }
    }
  }

  lemma {:induction false} FlattenSnoc(texts: seq<bytes>, i: nat)
    requires i < |texts|
    ensures Flatten(texts[..i + 1]) == Flatten(texts[..i]) + texts[i]
  {
    assert texts[..i + 1][..i] == texts[..i];
  }

  lemma {:induction false} Joined(a: bytes, b: bytes)
    requires WellFormed(a) && WellFormed(b)
    ensures WellFormed(a + b)
  {
    DecodeConcat(a, b);
  }

  lemma {:induction false} TranscodeNothing(e: Encoding, data: bytes)
    requires |data| == 0
    ensures Transcode(e, data) == []
    ensures forall s: bytes :: s + [] == s
  {
  }

  lemma {:induction false} NothingWellFormed()
    ensures WellFormed([])
  {
  }

  lemma {:induction false} Utf8Plain(s: bytes)
    ensures Transcode(Utf8, s) == s
  {
  }
}
