/** Reading and writing messages through a stream that keeps its position. */
module Streams {
  import opened Bytes
  import opened Sequences
  import opened Digits
  import opened Requirements
  import opened Wire
  import opened Messages

  /** `std::ostringstream` */
  class OutStream {
    var text: bytes

    constructor ()
      ensures text == []
    {
      text := [];
    }

    /** `buffer << n << '\n'` */
    method PutLine(n: int)
      modifies this
      ensures text == old(text) + Line(n)
    {
      text := text + PrintInt(n) + [LF];
      Assoc(old(text), PrintInt(n), [LF]);
    }

    /** `writeString` */
    method PutString(s: bytes)
      modifies this
      ensures text == old(text) + (s + [LF])
    {
      text := text + s;
      text := text + [LF];
      Assoc(old(text), s, [LF]);
    }

    method PutSized(s: bytes)
      modifies this
      ensures text == old(text) + Sized(s)
    {
      hide Line;
      PutLine(|s|);
      PutString(s);
      Assoc(old(text), Line(|s|), s + [LF]);
    }

    method PutMesh(m: MeshIOType)
      modifies this
      ensures text == old(text) + WriteMesh(m)
    {
      hide Sized;
      PutSized(m.input);
      PutSized(m.output);
      Assoc(old(text), Sized(m.input), Sized(m.output));
    }

    /** `JobRequirements::serialize` */
    method PutReqs(r: JobRequirements)
      modifies this
      ensures text == old(text) + WriteReqs(r)
    {
      hide Sized, Line, WriteMesh;
      ghost var t0 := text;
      PutLine(r.key.source);
      PutLine(r.key.format);
      PutMesh(r.key.mesh);
      Join3(t0, Line(r.key.source), Line(r.key.format), WriteMesh(r.key.mesh));
      text := text + [LF];
      ghost var t1 := text;
      PutSized(r.key.workerName);
      PutSized(r.key.tag);
      PutSized(r.payload);
      Join3(t1, Sized(r.key.workerName), Sized(r.key.tag), Sized(r.payload));
      hide WriteHead, WriteTail;
      assert t1 == t0 + WriteHead(r.key) + [LF];
      assert text == t1 + WriteTail(r);
      Join3(t0, WriteHead(r.key), [LF], WriteTail(r));
    }

    /** `JobRequirementsSet::serialize` */
    method PutSet(s: seq<JobRequirements>)
      modifies this
      ensures text == old(text) + WriteSet(s)
    {
      PutLine(|s|);
      ghost var t := text;
      assert s[0..] == s;
      for i := 0 to |s|
        invariant text + WriteEach(s[i..]) == t + WriteEach(s)
      {
        ghost var before := text;
        PutReqs(s[i]);
        text := text + [LF];
        EachTail(before, s, i);
      }
      assert s[|s|..] == [] && text + [] == text;
      Assoc(old(text), Line(|s|), WriteEach(s));
    }

    /** `JobContent::serialize` */
    method PutContent(c: JobContent)
      modifies this
      ensures text == old(text) + WriteContent(c)
    {
      hide Sized, Line;
      ghost var t0 := text;
      PutLine(c.source);
      PutLine(c.format);
      PutSized(c.tag);
      PutSized(c.data);
      Assoc(t0 + Line(c.source) + Line(c.format), Sized(c.tag), Sized(c.data));
      Join3(t0, Line(c.source), Line(c.format), Sized(c.tag) + Sized(c.data));
    }

    /** `JobSubmission::serialize` */
    method PutSubmission(s: JobSubmission)
      modifies this
      ensures text == old(text) + WriteSubmission(s)
    {
      ghost var t0 := text;
      PutMesh(s.mesh);
      text := text + [LF];
      PutReqs(s.reqs);
      text := text + [LF];
      PutLine(|s.content|);
      ghost var t := text;
      var m := s.content;
      assert m[0..] == m;
      for i := 0 to |m|
        invariant text + WriteEntries(m[i..]) == t + WriteEntries(m)
      {
        PutEntry(m, i);
      }
      assert m[|m|..] == [] && text + [] == text;
      SubmissionPieces(t0, s);
    }

    method PutEntry(m: Contents, i: nat)
      requires i < |m|
      modifies this
      ensures text + WriteEntries(m[i + 1..]) == old(text) + WriteEntries(m[i..])
    {
      hide Sized, WriteContent, WriteEntries;
      ghost var before := text;
      PutSized(m[i].0);
      PutContent(m[i].1);
      text := text + [LF];
      EntryTail(before, m, i);
    }
  }

  lemma {:induction false} Join3(t: bytes, a: bytes, b: bytes, c: bytes)
    ensures t + a + b + c == t + (a + (b + c))
  {
    Assoc(t + a, b, c);
    Assoc(t, a, b + c);
  }

  lemma {:induction false} EachTail(before: bytes, s: seq<JobRequirements>, i: nat)
    requires i < |s|
    ensures before + WriteEach(s[i..]) == before + WriteReqs(s[i]) + [LF] + WriteEach(s[i + 1..])
  {
    assert s[i..][0] == s[i] && s[i..][1..] == s[i + 1..];
    Join3(before, WriteReqs(s[i]), [LF], WriteEach(s[i + 1..]));
  }

  lemma {:induction false} EntryTail(before: bytes, m: Contents, i: nat)
    requires i < |m|
    ensures before + Sized(m[i].0) + WriteContent(m[i].1) + [LF] + WriteEntries(m[i + 1..]) == before + WriteEntries(m[i..])
  {
    assert m[i..][0] == m[i] && m[i..][1..] == m[i + 1..];
    var a, b, c := Sized(m[i].0), WriteContent(m[i].1), WriteEntries(m[i + 1..]);
    assert WriteEntries(m[i..]) == a + (b + ([LF] + c));
    hide *;
    Assoc(before + a + b, [LF], c);
    Join3(before, a, b, [LF] + c);
  }

  lemma {:induction false} SubmissionPieces(t: bytes, s: JobSubmission)
    ensures t + WriteMesh(s.mesh) + [LF] + WriteReqs(s.reqs) + [LF] + Line(|s.content|) + WriteEntries(s.content) == t + WriteSubmission(s)
  {
    var a, b, n, e := WriteMesh(s.mesh), WriteReqs(s.reqs), Line(|s.content|), WriteEntries(s.content);
    assert WriteSubmission(s) == a + ([LF] + (b + ([LF] + (n + e))));
    hide *;
    Assoc(t + a + [LF] + b + [LF], n, e);
    Assoc(t + a + [LF] + b, [LF], n + e);
    Assoc(t + a + [LF], b, [LF] + (n + e));
    Join3(t, a, [LF], b + ([LF] + (n + e)));
  }

  // ---------------------------------------------------------------- reading

  /** `std::istringstream`; once a read has failed, nothing more is read. */
  class InStream {
    const text: bytes
    var pos: nat
    var failed: bool

    constructor (text: bytes)
      ensures this.text == text && pos == 0 && !failed
    {
      this.text, pos, failed := text, 0, false;
    }

    ghost predicate Valid()
      reads this
    {
      pos <= |text|
    }

    ghost function Rest(): bytes
      requires Valid()
      reads this
    {
      text[pos..]
    }

    /** The stream is where `p` says reading leaves it. */
    ghost predicate After<T>(p: Parsed<T>)
      reads this
    {
      Valid() && if p.Fail? then failed else !failed && Rest() == p.rest
    }

    method Skip()
      requires Valid()
      modifies this`pos
      ensures Valid() && Rest() == SkipSpaces(old(Rest()))
    {
      ghost var from := pos;
      while pos < |text| && IsSpace(text[pos])
        invariant from <= pos <= |text| && SkipSpaces(text[pos..]) == SkipSpaces(text[from..])
        decreases |text| - pos
      {
        assert text[pos..][1..] == text[pos + 1..];
        pos := pos + 1;
      }
    }

    /** Digits from the position on. */
    method GetDigits() returns (n: nat, count: nat)
      requires Valid()
      modifies this`pos
      ensures Valid() && count == Run(old(Rest()), 10) && Rest() == old(Rest())[count..]
      ensures n == Number(old(Rest())[..count], 10)
    {
      ghost var from, s := pos, text[pos..];
      n, count := 0, 0;
      NumberNone(10);
      assert s[..0] == [];
      while pos < |text| && 48 <= text[pos] <= 57
        invariant pos == from + count <= |text| && (forall i :: 0 <= i < count ==> IsDigit(s[i], 10)) && n == Number(s[..count], 10)
        decreases |text| - pos
      {
        assert s[count] == text[pos] && s[..count + 1][..count] == s[..count];
        n := 10 * n + (text[pos] - 48);
        pos, count := pos + 1, count + 1;
      }
      assert pos < |text| ==> s[count] == text[pos];
      RunUpTo(s, count, 10);
    }

    /** `buffer >> n` */
    method GetInt(low: int, high: int) returns (v: int)
      requires Valid() && !failed
      modifies this
      ensures After(ReadInt(old(Rest()), low, high)) && (!failed ==> v == ReadInt(old(Rest()), low, high).value)
    {
      hide Run, Number, SkipSpaces;
      Skip();
      var negative := GetSign();
      var m: int, n := GetDigits();
      v := if negative then -m else m;
      failed := n == 0 || v < low || v > high;
    }

    method GetSign() returns (negative: bool)
      requires Valid()
      modifies this`pos
      ensures Valid() && (negative <==> old(Rest()) != [] && old(Rest())[0] == 45)
      ensures Rest() == var t := old(Rest()); if t != [] && (t[0] == 45 || t[0] == 43) then t[1..] else t
    {
      negative := pos < |text| && text[pos] == 45;
      if pos < |text| && (text[pos] == 45 || text[pos] == 43) {
        assert text[pos..][1..] == text[pos + 1..];
        pos := pos + 1;
      }
    }

    /** `extractString` */
    method GetBytes(size: nat) returns (s: bytes)
      requires Valid() && !failed
      modifies this
      ensures After(Extract(old(Rest()), size)) && (!failed ==> s == Extract(old(Rest()), size).value)
    {
      s := [];
      if pos < |text| && text[pos] == LF {
        assert text[pos..][1..] == text[pos + 1..];
        pos := pos + 1;
      }
      if |text| - pos < size {
        failed := true;
      } else {
        s := text[pos..pos + size];
        assert text[pos..][..size] == s && text[pos..][size..] == text[pos + size..];
        pos := pos + size;
      }
    }

    method GetSized(high: int) returns (s: bytes)
      requires Valid() && !failed
      modifies this
      ensures After(Take(ReadInt(old(Rest()), 0, high))) && (!failed ==> s == Take(ReadInt(old(Rest()), 0, high)).value)
    {
      hide ReadInt, Extract;
      s := [];
      var n := GetInt(0, high);
      if !failed {
        s := GetBytes(n);
      }
    }

    method GetMesh() returns (m: MeshIOType)
      requires Valid() && !failed
      modifies this
      ensures After(ReadMesh(old(Rest()))) && (!failed ==> m == ReadMesh(old(Rest())).value)
    {
      hide ReadInt, Take;
      m := MeshIOType([], []);
      var input := GetSized(SIZE_MAX);
      if !failed {
        var output := GetSized(SIZE_MAX);
        m := MeshIOType(input, output);
      }
    }

    method GetHead() returns (source: int, format: int, mesh: MeshIOType)
      requires Valid() && !failed
      modifies this
      ensures After(ReadHead(old(Rest()))) && (!failed ==> (source, format, mesh) == ReadHead(old(Rest())).value)
    {
      hide ReadInt, ReadMesh;
      format, mesh := 0, MeshIOType([], []);
      source := GetInt(-INT_MAX - 1, INT_MAX);
      if !failed {
        format := GetInt(-INT_MAX - 1, INT_MAX);
        if !failed {
          mesh := GetMesh();
        }
      }
    }

    method GetTail() returns (name: bytes, tag: bytes, payload: bytes)
      requires Valid() && !failed
      modifies this
      ensures After(ReadTail(old(Rest()))) && (!failed ==> (name, tag, payload) == ReadTail(old(Rest())).value)
    {
      hide ReadInt, Take;
      tag, payload := [], [];
      name := GetSized(INT_MAX);
      if !failed {
        tag := GetSized(INT_MAX);
        if !failed {
          payload := GetSized(INT_MAX);
        }
      }
    }

    /** `JobRequirements::JobRequirements(std::istream&)` */
    method GetReqs() returns (r: JobRequirements)
      requires Valid() && !failed
      modifies this
      ensures After(ReadReqs(old(Rest()))) && (!failed ==> r == ReadReqs(old(Rest())).value)
    {
      hide ReadHead, ReadTail;
      var source, format, mesh := GetHead();
      r := JobRequirements(Key(mesh, source, format, [], []), []);
      if !failed {
        var name, tag, payload := GetTail();
        r := JobRequirements(Key(mesh, source, format, name, tag), payload);
      }
    }

    /** `JobRequirementsSet::JobRequirementsSet(std::istream&)` */
    method GetSet() returns (s: seq<JobRequirements>)
      requires Valid() && !failed
      modifies this
      ensures After(ReadSet(old(Rest()))) && (!failed ==> s == ReadSet(old(Rest())).value)
    {
      hide ReadInt, ReadEach, ReadReqs;
      s := [];
      ghost var one := (t: bytes) => ReadReqs(t);
      var csize := GetInt(0, SIZE_MAX);
      if !failed {
        ReqsByOne(one, csize, Rest(), []);
        s := GetEach(csize, one);
      }
    }

    method GetEach(csize: nat, ghost one: bytes -> Parsed<JobRequirements>) returns (s: seq<JobRequirements>)
      requires Valid() && !failed && ReadsReqs(one)
      modifies this
      ensures After(EachBy(one, csize, old(Rest()), [])) && (!failed ==> s == EachBy(one, csize, old(Rest()), []).value)
    {
      s := [];
      var i := 0;
      while i < csize && !failed
        invariant Valid() && i <= csize
        invariant if failed then EachBy(one, csize, old(Rest()), []).Fail?
                  else EachBy(one, csize, old(Rest()), []) == EachBy(one, csize - i, Rest(), s)
        decreases csize - i
      {
        s := GetNext(csize - i, s, one);
        i := i + 1;
      }
    }

    method GetNext(n: nat, acc: seq<JobRequirements>, ghost one: bytes -> Parsed<JobRequirements>) returns (s: seq<JobRequirements>)
      requires Valid() && !failed && n > 0 && ReadsReqs(one)
      modifies this
      ensures Valid()
      ensures if failed then EachBy(one, n, old(Rest()), acc).Fail? else EachBy(one, n, old(Rest()), acc) == EachBy(one, n - 1, Rest(), s)
    {
      hide ReadReqs, Insert;
      s := acc;
      var reqs := GetReqs();
      if !failed {
        s := Insert(s, reqs);
      }
    }

    /** `JobContent::JobContent(std::istream&)` */
    method GetContent() returns (c: JobContent)
      requires Valid() && !failed
      modifies this
      ensures After(ReadContent(old(Rest()))) && (!failed ==> c == ReadContent(old(Rest())).value)
    {
      hide ReadInt, Take;
      c := JobContent(0, 0, [], []);
      var source := GetInt(-INT_MAX - 1, INT_MAX);
      if !failed {
        var format := GetInt(-INT_MAX - 1, INT_MAX);
        if !failed {
          var tag := GetSized(SIZE_MAX);
          if !failed {
            var data := GetSized(SIZE_MAX);
            c := JobContent(source, format, tag, data);
          }
        }
      }
    }

    method GetEntry() returns (e: (bytes, JobContent))
      requires Valid() && !failed
      modifies this
      ensures After(ReadEntry(old(Rest()))) && (!failed ==> e == ReadEntry(old(Rest())).value)
    {
      hide ReadInt, Take, ReadContent;
      e := ([], JobContent(0, 0, [], []));
      var key := GetSized(SIZE_MAX);
      if !failed {
        var value := GetContent();
        e := (key, value);
      }
    }

    /** `JobSubmission::JobSubmission(std::istream&)` */
    method GetSubmission() returns (sub: JobSubmission)
      requires Valid() && !failed
      modifies this
      ensures After(ReadSubmission(old(Rest()))) && (!failed ==> sub == ReadSubmission(old(Rest())).value)
    {
      hide ReadInt, ReadMesh, ReadReqs, ReadEntries, ReadEntry;
      var mesh := GetMesh();
      sub := JobSubmission(mesh, JobRequirements(Key(mesh, 0, 0, [], []), []), []);
      if failed {
        return;
      }
      var reqs := GetReqs();
      if failed {
        return;
      }
      var contentSize := GetInt(0, SIZE_MAX);
      if failed {
        return;
      }
      ghost var one := (t: bytes) => ReadEntry(t);
      EntriesByOne(one, contentSize, Rest(), []);
      var content := GetEntries(contentSize, one);
      sub := JobSubmission(mesh, reqs, content);
    }

    method GetEntries(contentSize: nat, ghost one: bytes -> Parsed<(bytes, JobContent)>) returns (m: Contents)
      requires Valid() && !failed && ReadsEntries(one)
      modifies this
      ensures After(EntriesBy(one, contentSize, old(Rest()), [])) && (!failed ==> m == EntriesBy(one, contentSize, old(Rest()), []).value)
    {
      m := [];
      var i := 0;
      while i < contentSize && !failed
        invariant Valid() && i <= contentSize
        invariant if failed then EntriesBy(one, contentSize, old(Rest()), []).Fail?
                  else EntriesBy(one, contentSize, old(Rest()), []) == EntriesBy(one, contentSize - i, Rest(), m)
        decreases contentSize - i
      {
        m := GetNextEntry(contentSize - i, m, one);
        i := i + 1;
      }
    }

    method GetNextEntry(n: nat, acc: Contents, ghost one: bytes -> Parsed<(bytes, JobContent)>) returns (m: Contents)
      requires Valid() && !failed && n > 0 && ReadsEntries(one)
      modifies this
      ensures Valid()
      ensures if failed then EntriesBy(one, n, old(Rest()), acc).Fail?
              else EntriesBy(one, n, old(Rest()), acc) == EntriesBy(one, n - 1, Rest(), m)
    {
      hide ReadEntry, Put;
      m := acc;
      var e := GetEntry();
      if !failed {
        m := Put(m, e.0, e.1);
      }
    }
  }

  // ---------------------------------------------------------------- repeated reads

  /** Repeated reads by way of a function that reads one. */
  ghost function EachBy(one: bytes -> Parsed<JobRequirements>, n: nat, s: bytes, acc: seq<JobRequirements>): Parsed<seq<JobRequirements>> {
    if n == 0 then Done(acc, s)
    else
      var r := one(s);
      if r.Fail? then Fail else EachBy(one, n - 1, r.rest, Insert(acc, r.value))
  }

  ghost predicate ReadsReqs(one: bytes -> Parsed<JobRequirements>) {
    forall s {:trigger ReadReqs(s)} :: one(s) == ReadReqs(s)
  }

  lemma {:induction false} ReqsByOne(one: bytes -> Parsed<JobRequirements>, n: nat, s: bytes, acc: seq<JobRequirements>)
    requires ReadsReqs(one)
    ensures EachBy(one, n, s, acc) == ReadEach(n, s, acc)
  {
    hide ReadReqs, Insert;
    if n > 0 {
      var r := ReadReqs(s);
      if r.Done? {
        ReqsByOne(one, n - 1, r.rest, Insert(acc, r.value));
      }
    }
  }

  ghost function EntriesBy(one: bytes -> Parsed<(bytes, JobContent)>, n: nat, s: bytes, acc: Contents): Parsed<Contents> {
    if n == 0 then Done(acc, s)
    else
      var r := one(s);
      if r.Fail? then Fail else EntriesBy(one, n - 1, r.rest, Put(acc, r.value.0, r.value.1))
  }

  ghost predicate ReadsEntries(one: bytes -> Parsed<(bytes, JobContent)>) {
    forall s {:trigger ReadEntry(s)} :: one(s) == ReadEntry(s)
  }

  lemma {:induction false} EntriesByOne(one: bytes -> Parsed<(bytes, JobContent)>, n: nat, s: bytes, acc: Contents)
    requires ReadsEntries(one)
    ensures EntriesBy(one, n, s, acc) == ReadEntries(n, s, acc)
  {
    hide ReadEntry, Put;
    if n > 0 {
      var r := ReadEntry(s);
      if r.Done? {
        EntriesByOne(one, n - 1, r.rest, Put(acc, r.value.0, r.value.1));
      }
    }
  }

  /** A submission written to one stream and read from another is the same submission. */
  method Transfer(sub: JobSubmission) returns (back: JobSubmission)
    requires SubmissionFits(sub)
    ensures back == sub
  {
    hide ReadSubmission, WriteSubmission, SubmissionFits;
    var out := new OutStream();
    out.PutSubmission(sub);
    var input := new InStream(out.text);
    AsWritten(WriteSubmission(sub), input.text);
    ghost var v := SubmissionBack([], sub, []);
    back := input.GetSubmission();
  }

  lemma {:induction false} AsWritten(s: bytes, t: bytes)
    requires t == [] + s
    ensures t[0..] == [] + (s + []) && Spaces([])
  {
  }
}
