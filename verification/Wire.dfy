/**
  The text format of the messages: numbers on lines of their own, and strings as their size followed by
  their bytes, whatever those are. Readers skip white space before numbers, and one line feed before bytes.
  */
module Wire {
  import opened Bytes
  import opened Sequences
  import opened Digits
  import opened Requirements

  const LF: byte := 10

  predicate IsSpace(c: byte) {
    9 <= c <= 13 || c == 32
  }

  ghost predicate Spaces(w: bytes) {
    forall i :: 0 <= i < |w| ==> IsSpace(w[i])
  }

  function SkipSpaces(s: bytes): (r: bytes)
    ensures |r| <= |s|
  {
    if s != [] && IsSpace(s[0]) then SkipSpaces(s[1..]) else s
  }

  // ---------------------------------------------------------------- numbers

  const INT_MAX := 0x7FFF_FFFF
  const SIZE_MAX := 0xFFFF_FFFF_FFFF_FFFF

  function PrintInt(n: int): (r: bytes)
    ensures r != []
  {
    if n < 0 then [45] + Decimal(-n) else Decimal(n)
  }

  /** `buffer >> n` for an integer between the given bounds. */
  function ReadInt(s: bytes, low: int, high: int): (r: Parsed<int>)
    ensures r.Done? ==> |r.rest| < |s| && low <= r.value <= high
  {
    var t := SkipSpaces(s);
    var negative := t != [] && t[0] == 45;
    var d := if t != [] && (t[0] == 45 || t[0] == 43) then t[1..] else t;
    var n := Run(d, 10);
    var m: int := Number(d[..n], 10);
    var v: int := if negative then -m else m;
    if n == 0 || v < low || v > high then Fail else Done(v, d[n..])
  }

  function ReadEnum(s: bytes): (r: Parsed<int>)
    ensures r.Done? ==> |r.rest| < |s|
  {
    ReadInt(s, -INT_MAX - 1, INT_MAX)
  }

  function ReadSize(s: bytes): (r: Parsed<int>)
    ensures r.Done? ==> |r.rest| < |s| && r.value >= 0
  {
    ReadInt(s, 0, SIZE_MAX)
  }

  /** A size that is read into an int. */
  function ReadIntSize(s: bytes): (r: Parsed<int>)
    ensures r.Done? ==> |r.rest| < |s| && r.value >= 0
  {
    ReadInt(s, 0, INT_MAX)
  }

  function Line(n: int): (r: bytes) {
    PrintInt(n) + [LF]
  }

  // ---------------------------------------------------------------- strings

  /** `extractString` and its kin: one line feed is dropped, then exactly `size` bytes are taken. */
  function Extract(s: bytes, size: nat): (r: Parsed<bytes>)
    ensures r.Done? ==> |r.rest| <= |s|
  {
    var t := if s != [] && s[0] == LF then s[1..] else s;
    if |t| < size then Fail else Done(t[..size], t[size..])
  }

  /** The size, and the bytes by `writeString`. */
  function Sized(s: bytes): (r: bytes) {
    Line(|s|) + (s + [LF])
  }

  function Take(size: Parsed<int>): (r: Parsed<bytes>)
    requires size.Done? ==> size.value >= 0
    ensures r.Done? ==> size.Done? && |r.rest| <= |size.rest|
  {
    if size.Fail? then Fail else Extract(size.rest, size.value)
  }

  function ReadSized(s: bytes): (r: Parsed<bytes>)
    ensures r.Done? ==> |r.rest| < |s|
  {
    Take(ReadSize(s))
  }

  function ReadSizedInt(s: bytes): (r: Parsed<bytes>)
    ensures r.Done? ==> |r.rest| < |s|
  {
    Take(ReadIntSize(s))
  }

  // ---------------------------------------------------------------- numbers and strings come back

  lemma {:induction false} SkipsSpaces(w: bytes, s: bytes)
    requires Spaces(w)
    ensures SkipSpaces(w + s) == SkipSpaces(s)
  {
    if w == [] {
      assert w + s == s;
    } else {
      assert (w + s)[1..] == w[1..] + s;
      SkipsSpaces(w[1..], s);
    }
  }

  /** Leading white space does not matter to a number. */
  lemma {:induction false} IntAfterSpaces(w: bytes, s: bytes, low: int, high: int)
    requires Spaces(w)
    ensures ReadInt(w + s, low, high) == ReadInt(s, low, high)
  {
    SkipsSpaces(w, s);
  }

  lemma {:induction false} IntStart(n: int, rest: bytes)
    ensures var s := PrintInt(n) + rest;
            && SkipSpaces(s) == s && (s[0] == 45 <==> n < 0) && s[0] != 43
            && (if n < 0 then s[1..] == Decimal(-n) + rest else s == Decimal(n) + rest)
  {
    hide Decimal;
    var s := PrintInt(n) + rest;
    if n < 0 {
      Assoc([45], Decimal(-n), rest);
      ConsFacts(45, Decimal(-n) + rest);
    } else {
      assert s[0] == Decimal(n)[0];
      NotSpace(s);
    }
  }

  lemma {:induction false} ConsFacts(c: byte, t: bytes)
    ensures ([c] + t)[0] == c && ([c] + t)[1..] == t && (!IsSpace(c) ==> SkipSpaces([c] + t) == [c] + t)
  {
  }

  lemma {:induction false} NotSpace(s: bytes)
    requires s != [] && !IsSpace(s[0])
    ensures SkipSpaces(s) == s
  {
  }

  lemma {:induction false} IntBack(n: int, rest: bytes, low: int, high: int)
    requires low <= n <= high && (rest != [] ==> !IsDigit(rest[0], 10))
    ensures ReadInt(PrintInt(n) + rest, low, high) == Done(n, rest)
  {
    hide Decimal, Run, Number, PrintInt, SkipSpaces;
    var m := if n < 0 then -n else n;
    IntStart(n, rest);
    DecimalRun(m, rest);
    DecimalReads(m);
  }

  /**
    Whatever its sign and however many zeros it starts with, a number after any white space is read as what its
    digits say, or not at all when it is out of bounds.
    */
  lemma {:induction false} IntSpelled(w: bytes, sign: bytes, d: bytes, rest: bytes, low: int, high: int)
    requires forall i :: 0 <= i < |w| ==> w[i] in {9, 10, 11, 12, 13, 32}
    requires sign in {[], [43], [45]} && d != [] && (forall i :: 0 <= i < |d| ==> 48 <= d[i] <= 57)
    requires rest != [] ==> !(48 <= rest[0] <= 57)
    ensures var m: int := Number(d, 10);
            var v := if sign == [45] then -m else m;
            ReadInt(w + (sign + (d + rest)), low, high) == if low <= v <= high then Done(v, rest) else Fail
  {
    hide Number, Run, SkipSpaces, ReadInt;
    var t := d + rest;
    DigitRun(d, rest);
    SignedStart(sign, t);
    IntAfterSpaces(w, sign + t, low, high);
    IntFrom(sign, d, rest, low, high);
  }

  lemma {:induction false} DigitRun(d: bytes, rest: bytes)
    requires d != [] && (forall i :: 0 <= i < |d| ==> 48 <= d[i] <= 57) && (rest != [] ==> !(48 <= rest[0] <= 57))
    ensures var t := d + rest; t[0] == d[0] && Run(t, 10) == |d| && t[..|d|] == d && t[|d|..] == rest
  {
    var t := d + rest;
    assert rest != [] ==> t[|d|] == rest[0];
    assert forall i :: 0 <= i < |d| ==> t[i] == d[i];
    RunUpTo(t, |d|, 10);
  }

  lemma {:induction false} SignedStart(sign: bytes, t: bytes)
    requires sign in {[], [43], [45]} && t != [] && 48 <= t[0] <= 57
    ensures var s := sign + t;
            && SkipSpaces(s) == s && (s[0] == 45 <==> sign == [45]) && (s[0] == 43 <==> sign == [43])
            && (if sign == [] then s == t else s[1..] == t)
  {
    var s := sign + t;
    assert sign == [] ==> s == t;
    assert sign != [] ==> s[0] == sign[0] && s[1..] == t;
    NotSpace(s);
  }

  lemma {:induction false} IntFrom(sign: bytes, d: bytes, rest: bytes, low: int, high: int)
    requires sign in {[], [43], [45]} && d != [] && (forall i :: 0 <= i < |d| ==> 48 <= d[i] <= 57)
    requires var t := d + rest; Run(t, 10) == |d| && t[..|d|] == d && t[|d|..] == rest
    requires var t, s := d + rest, sign + (d + rest);
             && SkipSpaces(s) == s && (s[0] == 45 <==> sign == [45]) && (s[0] == 43 <==> sign == [43])
             && (if sign == [] then s == t else s[1..] == t)
    ensures var m: int := Number(d, 10);
            var v := if sign == [45] then -m else m;
            ReadInt(sign + (d + rest), low, high) == if low <= v <= high then Done(v, rest) else Fail
  {
    hide Number, Run, SkipSpaces;
  }

  /** A number on a line, after any white space. */
  lemma {:induction false} LineBack(w: bytes, n: int, rest: bytes, low: int, high: int)
    requires Spaces(w) && low <= n <= high
    ensures ReadInt(w + (Line(n) + rest), low, high) == Done(n, [LF] + rest)
  {
    Assoc(PrintInt(n), [LF], rest);
    IntBack(n, [LF] + rest, low, high);
    IntAfterSpaces(w, Line(n) + rest, low, high);
    hide ReadInt, PrintInt;
  }

  lemma {:induction false} ExtractBack(s: bytes, rest: bytes)
    ensures Extract([LF] + (s + rest), |s|) == Done(s, rest)
  {
    var t := [LF] + (s + rest);
    assert t[1..] == s + rest && (s + rest)[..|s|] == s && (s + rest)[|s|..] == rest;
  }

  lemma {:induction false} SizedGroup(s: bytes, rest: bytes)
    ensures Sized(s) + rest == Line(|s|) + (s + ([LF] + rest))
  {
    Assoc(Line(|s|), s + [LF], rest);
    Assoc(s, [LF], rest);
  }

  /** A string comes back whatever bytes it holds and whatever follows it; one line feed is left. */
  lemma {:induction false} SizedBack(w: bytes, s: bytes, rest: bytes)
    requires Spaces(w) && |s| <= SIZE_MAX
    ensures ReadSized(w + (Sized(s) + rest)) == Done(s, [LF] + rest)
    ensures |s| <= INT_MAX ==> ReadSizedInt(w + (Sized(s) + rest)) == Done(s, [LF] + rest)
  {
    SizedGroup(s, rest);
    var tail := s + ([LF] + rest);
    LineBack(w, |s|, tail, 0, SIZE_MAX);
    if |s| <= INT_MAX {
      LineBack(w, |s|, tail, 0, INT_MAX);
    }
    ExtractBack(s, [LF] + rest);
    hide ReadInt, Extract, Line, Sized;
  }

  lemma {:induction false} OneLineFeed()
    ensures Spaces([LF]) && Spaces([LF, LF]) && Spaces([])
  {
  }

  lemma {:induction false} TwoLineFeeds(t: bytes)
    ensures [LF] + ([LF] + t) == [LF, LF] + t
  {
  }

  // ---------------------------------------------------------------- mesh types

  function WriteMesh(m: MeshIOType): (r: bytes) {
    Sized(m.input) + Sized(m.output)
  }

  function ReadMesh(s: bytes): (r: Parsed<MeshIOType>)
    ensures r.Done? ==> |r.rest| < |s|
  {
    var a := ReadSized(s);
    if a.Fail? then Fail
    else
      var b := ReadSized(a.rest);
      if b.Fail? then Fail else Done(MeshIOType(a.value, b.value), b.rest)
  }

  ghost predicate MeshFits(m: MeshIOType) {
    |m.input| <= SIZE_MAX && |m.output| <= SIZE_MAX
  }

  lemma {:induction false} MeshBack(w: bytes, m: MeshIOType, rest: bytes)
    requires Spaces(w) && MeshFits(m)
    ensures ReadMesh(w + (WriteMesh(m) + rest)) == Done(m, [LF] + rest)
  {
    Assoc(Sized(m.input), Sized(m.output), rest);
    SizedBack(w, m.input, Sized(m.output) + rest);
    OneLineFeed();
    SizedBack([LF], m.output, rest);
    hide ReadSized, Sized;
  }

  // ---------------------------------------------------------------- requirements

  /** The source, the format and the mesh type. */
  function WriteHead(k: Key): (s: bytes) {
    Line(k.source) + (Line(k.format) + WriteMesh(k.mesh))
  }

  /** The worker's name, the tag and the payload. */
  function WriteTail(r: JobRequirements): (s: bytes) {
    Sized(r.key.workerName) + (Sized(r.key.tag) + Sized(r.payload))
  }

  /** `JobRequirements::serialize` */
  function WriteReqs(r: JobRequirements): (s: bytes) {
    WriteHead(r.key) + ([LF] + WriteTail(r))
  }

  function ReadHead(s: bytes): (r: Parsed<(int, int, MeshIOType)>)
    ensures r.Done? ==> |r.rest| < |s|
  {
    var source := ReadEnum(s);
    if source.Fail? then Fail else
    var format := ReadEnum(source.rest);
    if format.Fail? then Fail else
    var mesh := ReadMesh(format.rest);
    if mesh.Fail? then Fail else Done((source.value, format.value, mesh.value), mesh.rest)
  }

  function ReadTail(s: bytes): (r: Parsed<(bytes, bytes, bytes)>)
    ensures r.Done? ==> |r.rest| < |s|
  {
    var name := ReadSizedInt(s);
    if name.Fail? then Fail else
    var tag := ReadSizedInt(name.rest);
    if tag.Fail? then Fail else
    var payload := ReadSizedInt(tag.rest);
    if payload.Fail? then Fail else Done((name.value, tag.value, payload.value), payload.rest)
  }

  /** `JobRequirements::JobRequirements(std::istream&)` */
  function ReadReqs(s: bytes): (r: Parsed<JobRequirements>)
    ensures r.Done? ==> |r.rest| < |s|
  {
    var h := ReadHead(s);
    if h.Fail? then Fail else
    var t := ReadTail(h.rest);
    if t.Fail? then Fail
    else Done(JobRequirements(Key(h.value.2, h.value.0, h.value.1, t.value.0, t.value.1), t.value.2), t.rest)
  }

  ghost predicate IsInt(n: int) {
    -INT_MAX - 1 <= n <= INT_MAX
  }

  /** Sizes and enumerators within int. */
  ghost predicate ReqsFit(r: JobRequirements) {
    && IsInt(r.key.source) && IsInt(r.key.format) && MeshFits(r.key.mesh)
    && |r.key.workerName| <= INT_MAX && |r.key.tag| <= INT_MAX && |r.payload| <= INT_MAX
  }

  lemma {:induction false} EnumBack(w: bytes, n: int, rest: bytes)
    requires Spaces(w) && IsInt(n)
    ensures ReadEnum(w + (Line(n) + rest)) == Done(n, [LF] + rest)
  {
    LineBack(w, n, rest, -INT_MAX - 1, INT_MAX);
  }

  lemma {:induction false} HeadBack(w: bytes, k: Key, rest: bytes)
    requires Spaces(w) && IsInt(k.source) && IsInt(k.format) && MeshFits(k.mesh)
    ensures ReadHead(w + (WriteHead(k) + rest)) == Done((k.source, k.format, k.mesh), [LF] + rest)
  {
    var a, b, c := Line(k.source), Line(k.format), WriteMesh(k.mesh);
    Assoc(a, b + c, rest);
    Assoc(b, c, rest);
    OneLineFeed();
    EnumBack(w, k.source, b + (c + rest));
    EnumBack([LF], k.format, c + rest);
    MeshBack([LF], k.mesh, rest);
    hide ReadEnum, ReadMesh, Line, WriteMesh, Spaces;
  }

  lemma {:induction false} TailBack(w: bytes, r: JobRequirements, rest: bytes)
    requires Spaces(w) && |r.key.workerName| <= INT_MAX && |r.key.tag| <= INT_MAX && |r.payload| <= INT_MAX
    ensures ReadTail(w + (WriteTail(r) + rest)) == Done((r.key.workerName, r.key.tag, r.payload), [LF] + rest)
  {
    var a, b, c := Sized(r.key.workerName), Sized(r.key.tag), Sized(r.payload);
    Assoc(a, b + c, rest);
    Assoc(b, c, rest);
    OneLineFeed();
    SizedBack(w, r.key.workerName, b + (c + rest));
    SizedBack([LF], r.key.tag, c + rest);
    SizedBack([LF], r.payload, rest);
    hide ReadSizedInt, ReadSized, Sized, Spaces;
  }

  /** Requirements come back whatever bytes their strings hold, and only a line feed is left of them. */
  lemma {:induction false} ReqsBack(w: bytes, r: JobRequirements, rest: bytes)
    requires Spaces(w) && ReqsFit(r)
    ensures ReadReqs(w + (WriteReqs(r) + rest)) == Done(r, [LF] + rest)
  {
    var t := WriteTail(r) + rest;
    Assoc(WriteHead(r.key), [LF] + WriteTail(r), rest);
    Assoc([LF], WriteTail(r), rest);
    HeadBack(w, r.key, [LF] + t);
    TwoLineFeeds(t);
    OneLineFeed();
    TailBack([LF, LF], r, rest);
    hide ReadHead, ReadTail, WriteHead, WriteTail, Spaces;
  }
}
