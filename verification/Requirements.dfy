/**
  What a job demands of a worker. Two requirements are interchangeable when everything but their
  payload agrees; the broker matches jobs, workers and factory entries by that relation.
  */
module Requirements {
  import opened Bytes

  datatype MeshIOType = MeshIOType(input: bytes, output: bytes)

  /** The part of the requirements that comparisons look at. */
  datatype Key = Key(mesh: MeshIOType, source: int, format: int, workerName: bytes, tag: bytes)

  datatype JobRequirements = JobRequirements(key: Key, payload: bytes)

  /** `MeshIOType::operator<` */
  predicate MeshLess(a: MeshIOType, b: MeshIOType) {
    if a.input == b.input then Less(a.output, b.output) else Less(a.input, b.input)
  }

  /** `JobRequirements::operator<` */
  predicate ReqLess(a: JobRequirements, b: JobRequirements) {
    KeyLess(a.key, b.key)
  }

  predicate KeyLess(a: Key, b: Key) {
    if a.mesh != b.mesh then MeshLess(a.mesh, b.mesh)
    else if a.source != b.source then a.source < b.source
    else if a.format != b.format then a.format < b.format
    else if a.workerName != b.workerName then Less(a.workerName, b.workerName)
    else if a.tag != b.tag then Less(a.tag, b.tag)
    else false
  }

  /** `JobRequirements::operator==` */
  predicate ReqSame(a: JobRequirements, b: JobRequirements) {
    && a.key.mesh == b.key.mesh
    && a.key.source == b.key.source
    && a.key.format == b.key.format
    && a.key.workerName == b.key.workerName
    && a.key.tag == b.key.tag
  }

  lemma {:induction false} MeshTrichotomy(a: MeshIOType, b: MeshIOType)
    ensures MeshLess(a, b) || MeshLess(b, a) || a == b
    ensures !(MeshLess(a, b) && MeshLess(b, a)) && (a == b ==> !MeshLess(a, b))
  {
    LessTrichotomy(a.input, b.input);
    LessTrichotomy(a.output, b.output);
  }

  lemma {:induction false} MeshTransitive(a: MeshIOType, b: MeshIOType, c: MeshIOType)
    requires MeshLess(a, b) && MeshLess(b, c)
    ensures MeshLess(a, c)
  {
    LessTrichotomy(a.input, b.input);
    LessTrichotomy(b.input, c.input);
    LessTrichotomy(a.input, c.input);
    if Less(a.input, b.input) && Less(b.input, c.input) {
      LessTransitive(a.input, b.input, c.input);
    }
    if Less(a.output, b.output) && Less(b.output, c.output) {
      LessTransitive(a.output, b.output, c.output);
    }
  }

  lemma {:induction false} KeyTrichotomy(a: Key, b: Key)
    ensures KeyLess(a, b) || KeyLess(b, a) || a == b
    ensures !(KeyLess(a, b) && KeyLess(b, a)) && (a == b ==> !KeyLess(a, b))
  {
    MeshTrichotomy(a.mesh, b.mesh);
    LessTrichotomy(a.workerName, b.workerName);
    LessTrichotomy(a.tag, b.tag);
  }

  lemma {:induction false} KeyTransitive(a: Key, b: Key, c: Key)
    requires KeyLess(a, b) && KeyLess(b, c)
    ensures KeyLess(a, c)
  {
    MeshTrichotomy(a.mesh, b.mesh);
    MeshTrichotomy(b.mesh, c.mesh);
    LessTrichotomy(a.workerName, b.workerName);
    LessTrichotomy(b.workerName, c.workerName);
    LessTrichotomy(a.tag, b.tag);
    LessTrichotomy(b.tag, c.tag);
    if MeshLess(a.mesh, b.mesh) && MeshLess(b.mesh, c.mesh) {
      MeshTransitive(a.mesh, b.mesh, c.mesh);
      MeshTrichotomy(a.mesh, c.mesh);
    }
    if Less(a.workerName, b.workerName) && Less(b.workerName, c.workerName) {
      LessTransitive(a.workerName, b.workerName, c.workerName);
      LessTrichotomy(a.workerName, c.workerName);
    }
    if Less(a.tag, b.tag) && Less(b.tag, c.tag) {
      LessTransitive(a.tag, b.tag, c.tag);
      LessTrichotomy(a.tag, c.tag);
    }
  }

  /** `operator<` is a strict weak order, and its equivalence is exactly `operator==`. */
  lemma {:induction false} ReqOrder(a: JobRequirements, b: JobRequirements, c: JobRequirements)
    ensures !ReqLess(a, a)
    ensures ReqLess(a, b) && ReqLess(b, c) ==> ReqLess(a, c)
    ensures !ReqLess(a, b) && !ReqLess(b, a) <==> ReqSame(a, b)
    ensures ReqSame(a, b) && ReqSame(b, c) ==> ReqSame(a, c)
  {
    KeyTrichotomy(a.key, a.key);
    KeyTrichotomy(a.key, b.key);
    if ReqLess(a, b) && ReqLess(b, c) {
      KeyTransitive(a.key, b.key, c.key);
    }
  }

  /** The first field that differs decides: mesh types by input and then output, source, format, worker name, tag. */
  lemma {:induction false} FirstFieldDecides(a: JobRequirements, b: JobRequirements)
    ensures var x, y := a.key, b.key;
            && (Less(x.mesh.input, y.mesh.input) ==> ReqLess(a, b))
            && (x.mesh.input == y.mesh.input && Less(x.mesh.output, y.mesh.output) ==> ReqLess(a, b))
            && (x.mesh == y.mesh && x.source < y.source ==> ReqLess(a, b))
            && (x.mesh == y.mesh && x.source == y.source && x.format < y.format ==> ReqLess(a, b))
            && (x.mesh == y.mesh && x.source == y.source && x.format == y.format && Less(x.workerName, y.workerName) ==> ReqLess(a, b))
            && (x.(tag := y.tag) == y && Less(x.tag, y.tag) ==> ReqLess(a, b))
  {
    LessTrichotomy(a.key.mesh.input, b.key.mesh.input);
    LessTrichotomy(a.key.mesh.output, b.key.mesh.output);
    LessTrichotomy(a.key.workerName, b.key.workerName);
    LessTrichotomy(a.key.tag, b.key.tag);
  }

  /** What `askForJobs` sends instead of the full requirements. */
  function Light(r: JobRequirements): (l: JobRequirements)
    ensures ReqSame(l, r) && l.payload == []
  {
    JobRequirements(Key(r.key.mesh, r.key.source, r.key.format, r.key.workerName, r.key.tag), [])
  }

  // ---------------------------------------------------------------- sets of requirements

  /** A `std::set` of requirements as the sequence its iterators run through. */
  ghost predicate IsSet(s: seq<JobRequirements>) {
    forall i, j :: 0 <= i < j < |s| ==> ReqLess(s[i], s[j])
  }

  /** `std::set::insert`: an element equivalent to one already there changes nothing. */
  function Insert(s: seq<JobRequirements>, r: JobRequirements): (t: seq<JobRequirements>) {
    if s == [] then [r]
    else if ReqLess(r, s[0]) then [r] + s
    else if ReqLess(s[0], r) then [s[0]] + Insert(s[1..], r)
    else s
  }

  lemma {:induction false} InsertKeepsSet(s: seq<JobRequirements>, r: JobRequirements)
    requires IsSet(s)
    ensures IsSet(Insert(s, r))
    ensures forall x :: x in Insert(s, r) ==> x in s || x == r
    ensures exists x :: x in Insert(s, r) && ReqSame(x, r)
  {
    hide KeyLess;
    if s == [] {
      assert r in Insert(s, r);
    } else if ReqLess(r, s[0]) {
      forall i | 0 <= i < |s| ensures ReqLess(r, s[i]) {
        if i > 0 { ReqOrder(r, s[0], s[i]); }
      }
      assert r in Insert(s, r);
    } else if ReqLess(s[0], r) {
      InsertKeepsSet(s[1..], r);
      var t := Insert(s[1..], r);
      forall i | 0 <= i < |t| ensures ReqLess(s[0], t[i]) {
        assert t[i] in t;
      }
      var x :| x in t && ReqSame(x, r);
      assert x in Insert(s, r);
    } else {
      ReqOrder(s[0], r, r);
      assert s[0] in Insert(s, r);
    }
  }

  /** An insertion loses nothing, and one of an element equivalent to one already there changes nothing. */
  lemma {:induction false} InsertLosesNothing(s: seq<JobRequirements>, r: JobRequirements, x: JobRequirements)
    requires IsSet(s) && x in s
    ensures x in Insert(s, r) && (ReqSame(x, r) ==> Insert(s, r) == s)
  {
    hide KeyLess, ReqSame;
    var i :| 0 <= i < |s| && s[i] == x;
    ReqOrder(r, s[0], x);
    ReqOrder(x, r, x);
    if i == 0 {
      ReqOrder(s[0], r, r);
    } else {
      assert ReqLess(s[0], x);
      ReqOrder(s[0], x, r);
      ReqOrder(r, x, r);
      if ReqLess(s[0], r) {
        assert s[1..][i - 1] == x;
        InsertLosesNothing(s[1..], r, x);
        assert [s[0]] + s[1..] == s;
      }
    }
  }

  /** Stripping the payload never changes which element of a set is found. */
  lemma {:induction false} LightFindsSame(s: seq<JobRequirements>, r: JobRequirements, i: int)
    requires IsSet(s) && 0 <= i < |s|
    ensures ReqSame(s[i], r) <==> ReqSame(s[i], Light(r))
    ensures forall j :: 0 <= j < |s| && ReqSame(s[i], r) && ReqSame(s[j], Light(r)) ==> i == j
  {
    forall j | 0 <= j < |s| && ReqSame(s[i], r) && ReqSame(s[j], Light(r)) ensures i == j {
      ReqOrder(s[i], s[j], r);
    }
  }
}
