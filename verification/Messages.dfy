/** The messages that clients, server and workers exchange, in the text format. */
module Messages {
  import opened Bytes
  import opened Sequences
  import opened Digits
  import opened Requirements
  import opened Wire
  import A = ActiveJobs

  // ---------------------------------------------------------------- sets of requirements

  function WriteEach(s: seq<JobRequirements>): (r: bytes) {
    if s == [] then [] else WriteReqs(s[0]) + ([LF] + WriteEach(s[1..]))
  }

  /** `JobRequirementsSet::serialize` */
  function WriteSet(s: seq<JobRequirements>): (r: bytes) {
    Line(|s|) + WriteEach(s)
  }

  function ReadEach(n: nat, s: bytes, acc: seq<JobRequirements>): (r: Parsed<seq<JobRequirements>>) {
    if n == 0 then Done(acc, s)
    else
      var one := ReadReqs(s);
      if one.Fail? then Fail else ReadEach(n - 1, one.rest, Insert(acc, one.value))
  }

  /** `JobRequirementsSet::JobRequirementsSet(std::istream&)` */
  function ReadSet(s: bytes): (r: Parsed<seq<JobRequirements>>) {
    var n := ReadSize(s);
    if n.Fail? then Fail else ReadEach(n.value, n.rest, [])
  }

  /** Inserting an element greater than all others appends it. */
  lemma {:induction false} InsertLast(s: seq<JobRequirements>, r: JobRequirements)
    requires IsSet(s + [r])
    ensures Insert(s, r) == s + [r]
  {
    if s != [] {
      var all := s + [r];
      assert all[0] == s[0] && all[|s|] == r;
      KeyTrichotomy(s[0].key, r.key);
      assert s[1..] + [r] == all[1..];
      assert IsSet(s[1..] + [r]) by {
        forall i, j | 0 <= i < j < |all[1..]| ensures ReqLess(all[1..][i], all[1..][j]) {
          assert ReqLess(all[i + 1], all[j + 1]);
        }
      }
      InsertLast(s[1..], r);
    }
  }

  /** The next element of a set goes behind those already read. */
  lemma {:induction false} GrowSet(acc: seq<JobRequirements>, s: seq<JobRequirements>)
    requires s != [] && IsSet(acc + s)
    ensures Insert(acc, s[0]) == acc + [s[0]] && (acc + [s[0]]) + s[1..] == acc + s
  {
    var all := acc + s;
    assert (acc + [s[0]]) + s[1..] == all;
    assert IsSet(acc + [s[0]]) by {
      assert all[..|acc| + 1] == acc + [s[0]];
    }
    InsertLast(acc, s[0]);
  }

  lemma {:induction false} OneReqs(w: bytes, s: seq<JobRequirements>, rest: bytes)
    requires Spaces(w) && s != [] && ReqsFit(s[0])
    ensures ReadReqs(w + (WriteEach(s) + rest)) == Done(s[0], [LF, LF] + (WriteEach(s[1..]) + rest))
  {
    var more := WriteEach(s[1..]) + rest;
    Assoc(WriteReqs(s[0]), [LF] + WriteEach(s[1..]), rest);
    Assoc([LF], WriteEach(s[1..]), rest);
    ReqsBack(w, s[0], [LF] + more);
    TwoLineFeeds(more);
    hide ReadReqs, WriteReqs, Spaces;
  }

  lemma {:induction false} EachStep(n: nat, t: bytes, acc: seq<JobRequirements>, v: JobRequirements, u: bytes)
    requires n > 0 && ReadReqs(t) == Done(v, u)
    ensures ReadEach(n, t, acc) == ReadEach(n - 1, u, Insert(acc, v))
  {
    hide ReadReqs, Insert;
  }

  lemma {:induction false} EachBack(w: bytes, acc: seq<JobRequirements>, s: seq<JobRequirements>, rest: bytes) returns (v: bytes)
    requires Spaces(w) && IsSet(acc + s) && forall i :: 0 <= i < |s| ==> ReqsFit(s[i])
    ensures Spaces(v) && ReadEach(|s|, w + (WriteEach(s) + rest), acc) == Done(acc + s, v + rest)
    decreases |s|
  {
    hide ReadReqs, WriteReqs, Spaces, IsSet, ReqsFit, Insert, ReadEach, WriteEach;
    if s == [] {
      v := w;
      NoneLeft(w, acc, rest);
    } else {
      GrowSet(acc, s);
      OneReqs(w, s, rest);
      EachStep(|s|, w + (WriteEach(s) + rest), acc, s[0], [LF, LF] + (WriteEach(s[1..]) + rest));
      OneLineFeed();
      v := EachBack([LF, LF], acc + [s[0]], s[1..], rest);
    }
  }

  lemma {:induction false} NoneLeft(w: bytes, acc: seq<JobRequirements>, rest: bytes)
    ensures ReadEach(0, w + (WriteEach([]) + rest), acc) == Done(acc, w + rest) && acc + [] == acc
  {
    assert [] + rest == rest;
  }

  /** A set of requirements comes back, with only white space before what follows it. */
  lemma {:induction false} SetBack(w: bytes, s: seq<JobRequirements>, rest: bytes) returns (v: bytes)
    requires Spaces(w) && IsSet(s) && |s| <= SIZE_MAX && forall i :: 0 <= i < |s| ==> ReqsFit(s[i])
    ensures Spaces(v) && ReadSet(w + (WriteSet(s) + rest)) == Done(s, v + rest)
  {
    var each := WriteEach(s) + rest;
    Assoc(Line(|s|), WriteEach(s), rest);
    LineBack(w, |s|, each, 0, SIZE_MAX);
    OneLineFeed();
    hide ReadInt, Line, ReadEach, WriteEach, Spaces;
    EmptyFirst(s);
    v := EachBack([LF], [], s, rest);
  }

  // ---------------------------------------------------------------- contents and submissions

  datatype JobContent = JobContent(source: int, format: int, tag: bytes, data: bytes)

  /** `JobContent::serialize` */
  function WriteContent(c: JobContent): (r: bytes) {
    Line(c.source) + (Line(c.format) + (Sized(c.tag) + Sized(c.data)))
  }

  /** `JobContent::JobContent(std::istream&)` */
  function ReadContent(s: bytes): (r: Parsed<JobContent>)
    ensures r.Done? ==> |r.rest| < |s|
  {
    var source := ReadEnum(s);
    if source.Fail? then Fail else
    var format := ReadEnum(source.rest);
    if format.Fail? then Fail else
    var tag := ReadSized(format.rest);
    if tag.Fail? then Fail else
    var data := ReadSized(tag.rest);
    if data.Fail? then Fail else Done(JobContent(source.value, format.value, tag.value, data.value), data.rest)
  }

  ghost predicate ContentFits(c: JobContent) {
    IsInt(c.source) && IsInt(c.format) && |c.tag| <= SIZE_MAX && |c.data| <= SIZE_MAX
  }

  lemma {:induction false} ContentBack(w: bytes, c: JobContent, rest: bytes)
    requires Spaces(w) && ContentFits(c)
    ensures ReadContent(w + (WriteContent(c) + rest)) == Done(c, [LF] + rest)
  {
    var p, q := Sized(c.tag), Sized(c.data);
    var a, b := Line(c.source), Line(c.format);
    Assoc(a, b + (p + q), rest);
    Assoc(b, p + q, rest);
    Assoc(p, q, rest);
    OneLineFeed();
    EnumBack(w, c.source, b + (p + (q + rest)));
    EnumBack([LF], c.format, p + (q + rest));
    SizedBack([LF], c.tag, q + rest);
    SizedBack([LF], c.data, rest);
    hide ReadEnum, ReadSized, ReadSizedInt, Line, Sized, Spaces;
  }

  /** A `std::map` from keys to contents as the sequence its iterators run through. */
  type Contents = seq<(bytes, JobContent)>

  ghost predicate IsMap(m: Contents) {
    forall i, j :: 0 <= i < j < |m| ==> Less(m[i].0, m[j].0)
  }

  /** `Content[key] = value` */
  function Put(m: Contents, key: bytes, value: JobContent): (r: Contents) {
    if m == [] || Less(key, m[0].0) then [(key, value)] + m
    else if Less(m[0].0, key) then [m[0]] + Put(m[1..], key, value)
    else [(key, value)] + m[1..]
  }

  /** The value under a key, if there is one. */
  function ValueOf(m: Contents, key: bytes): (r: Option<JobContent>) {
    if m == [] then None else if m[0].0 == key then Some(m[0].1) else ValueOf(m[1..], key)
  }

  /** Assigning puts the value under its key, in place of one that was there, and leaves all others. */
  lemma {:induction false} PutMeans(m: Contents, key: bytes, value: JobContent, other: bytes)
    requires IsMap(m)
    ensures IsMap(Put(m, key, value))
    ensures ValueOf(Put(m, key, value), other) == if other == key then Some(value) else ValueOf(m, other)
    ensures forall e :: e in Put(m, key, value) ==> e in m || e == (key, value)
  {
    if m != [] {
      LessTrichotomy(key, m[0].0);
      var rest := m[1..];
      assert forall i :: 0 <= i < |rest| ==> rest[i] == m[i + 1];
      assert forall i :: 0 <= i < |rest| ==> Less(m[0].0, rest[i].0);
      if Less(m[0].0, key) {
        PutMeans(rest, key, value, other);
        forall e | e in Put(rest, key, value) ensures Less(m[0].0, e.0) {
        }
        MapCons(m[0], Put(rest, key, value));
      } else if Less(key, m[0].0) {
        forall e | e in m ensures Less(key, e.0) {
          if e != m[0] { LessTransitive(key, m[0].0, e.0); }
        }
        MapCons((key, value), m);
      } else {
        MapCons((key, value), rest);
      }
    }
  }

  lemma {:induction false} MapCons(e: (bytes, JobContent), m: Contents)
    requires IsMap(m) && forall x :: x in m ==> Less(e.0, x.0)
    ensures IsMap([e] + m)
  {
  }

  lemma {:induction false} PutLast(m: Contents, key: bytes, value: JobContent)
    requires IsMap(m + [(key, value)])
    ensures Put(m, key, value) == m + [(key, value)]
  {
    if m != [] {
      var all := m + [(key, value)];
      assert all[0] == m[0] && all[|m|] == (key, value);
      LessTrichotomy(m[0].0, key);
      assert m[1..] + [(key, value)] == all[1..];
      assert IsMap(m[1..] + [(key, value)]) by {
        forall i, j | 0 <= i < j < |all[1..]| ensures Less(all[1..][i].0, all[1..][j].0) {
          assert Less(all[i + 1].0, all[j + 1].0);
        }
      }
      PutLast(m[1..], key, value);
    }
  }

  function WriteEntries(m: Contents): (r: bytes) {
    if m == [] then [] else Sized(m[0].0) + (WriteContent(m[0].1) + ([LF] + WriteEntries(m[1..])))
  }

  function ReadEntry(s: bytes): (r: Parsed<(bytes, JobContent)>)
    ensures r.Done? ==> |r.rest| < |s|
  {
    var key := ReadSized(s);
    if key.Fail? then Fail else
    var value := ReadContent(key.rest);
    if value.Fail? then Fail else Done((key.value, value.value), value.rest)
  }

  function ReadEntries(n: nat, s: bytes, acc: Contents): (r: Parsed<Contents>) {
    if n == 0 then Done(acc, s)
    else
      var one := ReadEntry(s);
      if one.Fail? then Fail else ReadEntries(n - 1, one.rest, Put(acc, one.value.0, one.value.1))
  }

  ghost predicate EntryFits(e: (bytes, JobContent)) {
    |e.0| <= SIZE_MAX && ContentFits(e.1)
  }

  lemma {:induction false} EntryBack(w: bytes, e: (bytes, JobContent), rest: bytes)
    requires Spaces(w) && EntryFits(e)
    ensures ReadEntry(w + (Sized(e.0) + (WriteContent(e.1) + rest))) == Done(e, [LF] + rest)
  {
    OneLineFeed();
    SizedBack(w, e.0, WriteContent(e.1) + rest);
    ContentBack([LF], e.1, rest);
    hide ReadSized, ReadSizedInt, ReadContent, Sized, WriteContent, Spaces;
  }

  /** The next key of a map goes behind those already read. */
  lemma {:induction false} GrowMap(acc: Contents, m: Contents)
    requires m != [] && IsMap(acc + m)
    ensures Put(acc, m[0].0, m[0].1) == acc + [m[0]] && (acc + [m[0]]) + m[1..] == acc + m
  {
    var all := acc + m;
    assert (acc + [m[0]]) + m[1..] == all;
    assert IsMap(acc + [m[0]]) by {
      assert all[..|acc| + 1] == acc + [m[0]];
    }
    PutLast(acc, m[0].0, m[0].1);
  }

  lemma {:induction false} OneEntry(w: bytes, m: Contents, rest: bytes)
    requires Spaces(w) && m != [] && EntryFits(m[0])
    ensures ReadEntry(w + (WriteEntries(m) + rest)) == Done(m[0], [LF, LF] + (WriteEntries(m[1..]) + rest))
  {
    var more := WriteEntries(m[1..]) + rest;
    EntriesGroup(m, rest);
    EntryBack(w, m[0], [LF] + more);
    TwoLineFeeds(more);
    hide ReadEntry, WriteEntries, Sized, WriteContent, Spaces;
  }

  lemma {:induction false} EntriesStep(n: nat, t: bytes, acc: Contents, e: (bytes, JobContent), u: bytes)
    requires n > 0 && ReadEntry(t) == Done(e, u)
    ensures ReadEntries(n, t, acc) == ReadEntries(n - 1, u, Put(acc, e.0, e.1))
  {
    hide ReadEntry, Put;
  }

  lemma {:induction false} EntriesBack(w: bytes, acc: Contents, m: Contents, rest: bytes) returns (v: bytes)
    requires Spaces(w) && IsMap(acc + m) && forall i :: 0 <= i < |m| ==> EntryFits(m[i])
    ensures Spaces(v) && ReadEntries(|m|, w + (WriteEntries(m) + rest), acc) == Done(acc + m, v + rest)
    decreases |m|
  {
    hide ReadEntry, Spaces, IsMap, EntryFits, Put, ReadEntries, WriteEntries;
    if m == [] {
      v := w;
      NoEntriesLeft(w, acc, rest);
    } else {
      GrowMap(acc, m);
      OneEntry(w, m, rest);
      EntriesStep(|m|, w + (WriteEntries(m) + rest), acc, m[0], [LF, LF] + (WriteEntries(m[1..]) + rest));
      OneLineFeed();
      v := EntriesBack([LF, LF], acc + [m[0]], m[1..], rest);
    }
  }

  lemma {:induction false} NoEntriesLeft(w: bytes, acc: Contents, rest: bytes)
    ensures ReadEntries(0, w + (WriteEntries([]) + rest), acc) == Done(acc, w + rest) && acc + [] == acc
  {
    assert [] + rest == rest;
  }

  lemma {:induction false} EntriesGroup(m: Contents, rest: bytes)
    requires m != []
    ensures WriteEntries(m) + rest == Sized(m[0].0) + (WriteContent(m[0].1) + ([LF] + (WriteEntries(m[1..]) + rest)))
  {
    var a, b, c := Sized(m[0].0), WriteContent(m[0].1), WriteEntries(m[1..]);
    Assoc(a, b + ([LF] + c), rest);
    Assoc(b, [LF] + c, rest);
    Assoc([LF], c, rest);
  }

  datatype JobSubmission = JobSubmission(mesh: MeshIOType, reqs: JobRequirements, content: Contents)

  /** `JobSubmission::serialize` */
  function WriteSubmission(s: JobSubmission): (r: bytes) {
    WriteMesh(s.mesh) + ([LF] + (WriteReqs(s.reqs) + ([LF] + (Line(|s.content|) + WriteEntries(s.content)))))
  }

  /** `JobSubmission::JobSubmission(std::istream&)` */
  function ReadSubmission(s: bytes): (r: Parsed<JobSubmission>) {
    var mesh := ReadMesh(s);
    if mesh.Fail? then Fail else
    var reqs := ReadReqs(mesh.rest);
    if reqs.Fail? then Fail else
    var n := ReadSize(reqs.rest);
    if n.Fail? then Fail else
    var content := ReadEntries(n.value, n.rest, []);
    if content.Fail? then Fail else Done(JobSubmission(mesh.value, reqs.value, content.value), content.rest)
  }

  ghost predicate SubmissionFits(s: JobSubmission) {
    && MeshFits(s.mesh) && ReqsFit(s.reqs) && IsMap(s.content) && |s.content| <= SIZE_MAX
    && forall i :: 0 <= i < |s.content| ==> EntryFits(s.content[i])
  }

  /** A submission comes back with all its contents, whatever bytes are in its keys, names, tags and payloads. */
  lemma {:induction false} SubmissionBack(w: bytes, s: JobSubmission, rest: bytes) returns (v: bytes)
    requires Spaces(w) && SubmissionFits(s)
    ensures Spaces(v) && ReadSubmission(w + (WriteSubmission(s) + rest)) == Done(s, v + rest)
  {
    hide ReadMesh, ReadReqs, ReadInt, ReadEntries, WriteMesh, WriteReqs, WriteEntries, Line, Spaces, WriteSubmission;
    var a, b, n, e := WriteMesh(s.mesh), WriteReqs(s.reqs), Line(|s.content|), WriteEntries(s.content);
    var t3 := e + rest;
    var t2 := n + t3;
    var t1 := b + ([LF] + t2);
    SubmissionGroup(s, rest);
    OneLineFeed();
    MeshBack(w, s.mesh, [LF] + t1);
    TwoLineFeeds(t1);
    ReqsBack([LF, LF], s.reqs, [LF] + t2);
    TwoLineFeeds(t2);
    LineBack([LF, LF], |s.content|, t3, 0, SIZE_MAX);
    EmptyFirst(s.content);
    v := EntriesBack([LF], [], s.content, rest);
  }

  lemma {:induction false} SubmissionGroup(s: JobSubmission, rest: bytes)
    ensures WriteSubmission(s) + rest
         == WriteMesh(s.mesh) + ([LF] + (WriteReqs(s.reqs) + ([LF] + (Line(|s.content|) + (WriteEntries(s.content) + rest)))))
  {
    var a, b, n, e := WriteMesh(s.mesh), WriteReqs(s.reqs), Line(|s.content|), WriteEntries(s.content);
    Assoc(n, e, rest);
    Assoc([LF], n + e, rest);
    Assoc(b, [LF] + (n + e), rest);
    Assoc([LF], b + ([LF] + (n + e)), rest);
    Assoc(a, [LF] + (b + ([LF] + (n + e))), rest);
  }

  // ---------------------------------------------------------------- uuids

  /** A uuid is sixteen bytes. */
  type Uuid = u: bytes | |u| == 16 witness [0, 0, 0, 0, 0, 0, 0, 0, 0, 0, 0, 0, 0, 0, 0, 0]

  const DASH: byte := 45

  predicate DashAfter(i: int) {
    i == 3 || i == 5 || i == 7 || i == 9
  }

  function PrintByteAt(u: Uuid, i: nat): (r: bytes)
    requires i < 16
  {
    [HexDigit(u[i] / 16), HexDigit(u[i] % 16)] + (if DashAfter(i) then [DASH] else [])
  }

  function PrintFrom(u: Uuid, i: nat): (r: bytes)
    requires i <= 16
    decreases 16 - i
  {
    if i == 16 then [] else PrintByteAt(u, i) + PrintFrom(u, i + 1)
  }

  /** Thirty-two hexadecimal digits with dashes between groups of 4, 2, 2, 2 and 6 bytes. */
  function PrintUuid(u: Uuid): (r: bytes) {
    PrintFrom(u, 0)
  }

  /** `is >> c`: the next character that is not white space. */
  function NextChar(s: bytes): (r: Parsed<byte>)
    ensures r.Done? ==> |r.rest| < |s|
  {
    var t := SkipSpaces(s);
    if t == [] then Fail else Done(t[0], t[1..])
  }

  function ReadHexByte(s: bytes): (r: Parsed<byte>)
    ensures r.Done? ==> |r.rest| < |s|
  {
    var a := NextChar(s);
    if a.Fail? || !IsDigit(a.value, 16) then Fail else
    var b := NextChar(a.rest);
    if b.Fail? || !IsDigit(b.value, 16) then Fail else Done(16 * DigitValue(a.value) + DigitValue(b.value), b.rest)
  }

  function ReadDash(i: nat, s: bytes): (r: Parsed<()>)
    ensures r.Done? ==> |r.rest| <= |s|
  {
    if !DashAfter(i) then Done((), s)
    else
      var c := NextChar(s);
      if c.Fail? || c.value != DASH then Fail else Done((), c.rest)
  }

  function ReadFrom(s: bytes, i: nat, acc: bytes): (r: Parsed<bytes>)
    requires i <= 16 && |acc| == i
    ensures r.Done? ==> |r.value| == 16 && |r.rest| <= |s| - (16 - i)
    decreases 16 - i
  {
    if i == 16 then Done(acc, s)
    else
      var b := ReadHexByte(s);
      if b.Fail? then Fail else
      var d := ReadDash(i, b.rest);
      if d.Fail? then Fail else ReadFrom(d.rest, i + 1, acc + [b.value])
  }

  function ReadUuid(s: bytes): (r: Parsed<bytes>)
    ensures r.Done? ==> |r.value| == 16 && |r.rest| < |s|
  {
    ReadFrom(s, 0, [])
  }

  lemma {:induction false} NextBack(c: byte, t: bytes)
    requires !IsSpace(c)
    ensures NextChar([c] + t) == Done(c, t)
  {
    ConsFacts(c, t);
  }

  lemma {:induction false} HexByteBack(b: byte, t: bytes)
    ensures ReadHexByte([HexDigit(b / 16), HexDigit(b % 16)] + t) == Done(b, t)
  {
    var x, y := HexDigit(b / 16), HexDigit(b % 16);
    HexBack(b / 16);
    HexBack(b % 16);
    assert [x, y] + t == [x] + ([y] + t);
    NextBack(x, [y] + t);
    NextBack(y, t);
    hide NextChar, HexDigit, DigitValue;
  }

  lemma {:induction false} ByteAtBack(u: Uuid, i: nat, t: bytes)
    requires i < 16
    ensures var b := ReadHexByte(PrintByteAt(u, i) + t);
            b.Done? && b.value == u[i] && ReadDash(i, b.rest) == Done((), t)
  {
    var dash := if DashAfter(i) then [DASH] else [];
    Assoc([HexDigit(u[i] / 16), HexDigit(u[i] % 16)], dash, t);
    HexByteBack(u[i], dash + t);
    if DashAfter(i) {
      NextBack(DASH, t);
    } else {
      assert [] + t == t;
    }
    hide ReadHexByte, HexDigit;
  }

  lemma {:induction false} FromBack(u: Uuid, i: nat, acc: bytes, rest: bytes)
    requires i <= 16 && acc == u[..i]
    ensures ReadFrom(PrintFrom(u, i) + rest, i, acc) == Done(u, rest)
    decreases 16 - i
  {
    if i == 16 {
      assert [] + rest == rest && u[..16] == u;
    } else {
      var t := PrintFrom(u, i + 1) + rest;
      Assoc(PrintByteAt(u, i), PrintFrom(u, i + 1), rest);
      ByteAtBack(u, i, t);
      assert acc + [u[i]] == u[..i + 1];
      FromBack(u, i + 1, acc + [u[i]], rest);
      hide ReadHexByte, ReadDash, PrintByteAt;
    }
  }

  lemma {:induction false} UuidAfterSpaces(w: bytes, s: bytes)
    requires Spaces(w)
    ensures ReadUuid(w + s) == ReadUuid(s)
  {
    SkipsSpaces(w, s);
    assert NextChar(w + s) == NextChar(s);
    hide NextChar, Spaces;
    assert ReadHexByte(w + s) == ReadHexByte(s);
    hide ReadHexByte, ReadDash;
  }

  lemma {:induction false} UuidBack(w: bytes, u: Uuid, rest: bytes)
    requires Spaces(w)
    ensures ReadUuid(w + (PrintUuid(u) + rest)) == Done(u, rest)
  {
    UuidAfterSpaces(w, PrintUuid(u) + rest);
    FromBack(u, 0, [], rest);
  }

  /** Where the digits of a byte stand among the 36 characters. */
  function DigitsAt(i: nat): nat {
    2 * i + (if i >= 10 then 4 else if i >= 8 then 3 else if i >= 6 then 2 else if i >= 4 then 1 else 0)
  }

  lemma {:induction false} PrintedFrom(u: Uuid, i: nat)
    requires i <= 16
    ensures |PrintFrom(u, i)| == 36 - DigitsAt(i)
    decreases 16 - i
  {
    hide HexDigit;
    if i < 16 {
      PrintedFrom(u, i + 1);
    }
  }

  lemma {:induction false} PrintedTail(u: Uuid, k: nat)
    requires k <= 16
    ensures |PrintUuid(u)| == 36 && DigitsAt(k) <= 36 && PrintUuid(u)[DigitsAt(k)..] == PrintFrom(u, k)
  {
    hide PrintFrom, PrintByteAt;
    PrintedFrom(u, 0);
    if k > 0 {
      PrintedTail(u, k - 1);
      PrintedStep(u, k - 1);
      TailOfTail(PrintUuid(u), DigitsAt(k - 1), PrintByteAt(u, k - 1), PrintFrom(u, k));
    }
  }

  lemma {:induction false} PrintedStep(u: Uuid, k: nat)
    requires k < 16
    ensures PrintFrom(u, k) == PrintByteAt(u, k) + PrintFrom(u, k + 1) && |PrintByteAt(u, k)| == DigitsAt(k + 1) - DigitsAt(k)
  {
    hide HexDigit;
  }

  lemma {:induction false} TailOfTail(s: bytes, at: nat, here: bytes, rest: bytes)
    requires at <= |s| && s[at..] == here + rest
    ensures at + |here| <= |s| && s[at + |here|..] == rest
  {
    assert s[at + |here|..] == s[at..][|here|..];
  }

  function LowerHex(v: int): int {
    if v < 10 then 48 + v else 87 + v
  }

  /** A uuid is written as 36 characters: two lower-case hexadecimal digits for each byte, and a dash after the bytes 3, 5, 7 and 9. */
  lemma {:induction false} UuidLayout(u: Uuid, k: nat)
    requires k < 16
    ensures |PrintUuid(u)| == 36 && DigitsAt(k) + 2 <= 36
    ensures PrintUuid(u)[DigitsAt(k)] == LowerHex(u[k] / 16) && PrintUuid(u)[DigitsAt(k) + 1] == LowerHex(u[k] % 16)
    ensures k == 3 || k == 5 || k == 7 || k == 9 ==> PrintUuid(u)[DigitsAt(k) + 2] == 45
  {
    hide PrintFrom, PrintUuid, HexDigit, PrintByteAt;
    PrintedTail(u, k);
    PrintedStep(u, k);
    ByteDigits(u, k);
    HeadOfTail(PrintUuid(u), DigitsAt(k), PrintByteAt(u, k), PrintFrom(u, k + 1));
  }

  lemma {:induction false} ByteDigits(u: Uuid, k: nat)
    requires k < 16
    ensures var here := PrintByteAt(u, k);
            && |here| >= 2 && here[0] == LowerHex(u[k] / 16) && here[1] == LowerHex(u[k] % 16)
            && (k == 3 || k == 5 || k == 7 || k == 9 ==> |here| == 3 && here[2] == 45)
  {
  }

  lemma {:induction false} HeadOfTail(s: bytes, at: nat, here: bytes, rest: bytes)
    requires at <= |s| && s[at..] == here + rest
    ensures at + |here| <= |s| && forall i :: 0 <= i < |here| ==> s[at + i] == here[i]
  {
    forall i | 0 <= i < |here| ensures s[at + i] == here[i] {
      assert s[at + i] == s[at..][i];
    }
  }

  // ---------------------------------------------------------------- jobs, statuses, results

  datatype WorkerJob = WorkerJob(id: Uuid, submission: JobSubmission)

  /** `to_string(WorkerJob)` */
  function WriteWorkerJob(j: WorkerJob): (r: bytes) {
    PrintUuid(j.id) + ([LF] + (WriteSubmission(j.submission) + [LF]))
  }

  /** `to_WorkerJob` */
  function ReadWorkerJob(s: bytes): (r: Parsed<WorkerJob>) {
    var id := ReadUuid(s);
    if id.Fail? then Fail else
    var sub := ReadSubmission(id.rest);
    if sub.Fail? then Fail else Done(WorkerJob(id.value, sub.value), sub.rest)
  }

  /** The job a worker is sent is the job that was queued. */
  lemma {:induction false} WorkerJobBack(w: bytes, j: WorkerJob, rest: bytes) returns (v: bytes)
    requires Spaces(w) && SubmissionFits(j.submission)
    ensures Spaces(v) && ReadWorkerJob(w + (WriteWorkerJob(j) + rest)) == Done(j, v + rest)
  {
    var s := WriteSubmission(j.submission);
    var t := s + ([LF] + rest);
    Assoc(PrintUuid(j.id), [LF] + (s + [LF]), rest);
    Assoc([LF], s + [LF], rest);
    Assoc(s, [LF], rest);
    UuidBack(w, j.id, [LF] + t);
    OneLineFeed();
    hide ReadUuid, ReadSubmission, PrintUuid, WriteSubmission, SubmissionFits, Spaces;
    var v' := SubmissionBack([LF], j.submission, [LF] + rest);
    v := v' + [LF];
    Assoc(v', [LF], rest);
    MoreSpace(v');
  }

  lemma {:induction false} MoreSpace(v: bytes)
    requires Spaces(v)
    ensures Spaces(v + [LF])
  {
  }

  /** `JobProgress::serialize` */
  function WriteProgress(p: A.Progress): (r: bytes) {
    Line(p.value) + Sized(p.message)
  }

  function ReadProgress(s: bytes): (r: Parsed<A.Progress>)
    ensures r.Done? ==> |r.rest| < |s|
  {
    var value := ReadEnum(s);
    if value.Fail? then Fail else
    var message := ReadSizedInt(value.rest);
    if message.Fail? then Fail else Done(A.Progress(value.value, message.value), message.rest)
  }

  lemma {:induction false} ProgressBack(w: bytes, p: A.Progress, rest: bytes)
    requires Spaces(w) && IsInt(p.value) && |p.message| <= INT_MAX
    ensures ReadProgress(w + (WriteProgress(p) + rest)) == Done(p, [LF] + rest)
  {
    Assoc(Line(p.value), Sized(p.message), rest);
    EnumBack(w, p.value, Sized(p.message) + rest);
    OneLineFeed();
    SizedBack([LF], p.message, rest);
    hide ReadEnum, ReadSizedInt, ReadSized, Line, Sized, Spaces;
  }

  datatype Status = Status(id: Uuid, status: int, progress: A.Progress)

  /** `JobStatus::serialize` */
  function WriteStatus(s: Status): (r: bytes) {
    PrintUuid(s.id) + ([LF] + (Line(s.status) + (WriteProgress(s.progress) + [LF])))
  }

  /** `JobStatus::JobStatus(std::istream&)` */
  function ReadStatus(s: bytes): (r: Parsed<Status>) {
    var id := ReadUuid(s);
    if id.Fail? then Fail else
    var status := ReadEnum(id.rest);
    if status.Fail? then Fail else
    var progress := ReadProgress(status.rest);
    if progress.Fail? then Fail else Done(Status(id.value, status.value, progress.value), progress.rest)
  }

  lemma {:induction false} StatusBack(w: bytes, s: Status, rest: bytes)
    requires Spaces(w) && IsInt(s.status) && IsInt(s.progress.value) && |s.progress.message| <= INT_MAX
    ensures ReadStatus(w + (WriteStatus(s) + rest)) == Done(s, [LF, LF] + rest)
  {
    var a, b, c := PrintUuid(s.id), Line(s.status), WriteProgress(s.progress);
    Assoc(a, [LF] + (b + (c + [LF])), rest);
    Assoc([LF], b + (c + [LF]), rest);
    Assoc(b, c + [LF], rest);
    Assoc(c, [LF], rest);
    UuidBack(w, s.id, [LF] + (b + (c + ([LF] + rest))));
    OneLineFeed();
    EnumBack([LF], s.status, c + ([LF] + rest));
    ProgressBack([LF], s.progress, [LF] + rest);
    TwoLineFeeds(rest);
    hide ReadUuid, ReadEnum, ReadProgress, PrintUuid, Line, WriteProgress, Spaces;
  }

  datatype Result = Result(id: Uuid, format: int, data: bytes)

  /** `JobResult::serialize` */
  function WriteResult(r: Result): (s: bytes) {
    PrintUuid(r.id) + ([LF] + (Line(r.format) + Sized(r.data)))
  }

  /** `JobResult::JobResult(std::istream&)` */
  function ReadResult(s: bytes): (r: Parsed<Result>) {
    var id := ReadUuid(s);
    if id.Fail? then Fail else
    var format := ReadEnum(id.rest);
    if format.Fail? then Fail else
    var data := ReadSized(format.rest);
    if data.Fail? then Fail else Done(Result(id.value, format.value, data.value), data.rest)
  }

  lemma {:induction false} ResultBack(w: bytes, r: Result, rest: bytes)
    requires Spaces(w) && IsInt(r.format) && |r.data| <= SIZE_MAX
    ensures ReadResult(w + (WriteResult(r) + rest)) == Done(r, [LF] + rest)
  {
    var a, b, c := PrintUuid(r.id), Line(r.format), Sized(r.data);
    Assoc(a, [LF] + (b + c), rest);
    Assoc([LF], b + c, rest);
    Assoc(b, c, rest);
    UuidBack(w, r.id, [LF] + (b + (c + rest)));
    OneLineFeed();
    EnumBack([LF], r.format, c + rest);
    SizedBack([LF], r.data, rest);
    hide ReadUuid, ReadEnum, ReadSized, ReadSizedInt, PrintUuid, Line, Sized, Spaces;
  }
}
