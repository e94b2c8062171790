/** Comparing whole submissions: `operator<` and `operator==` of `JobSubmission`. */
module SubmissionOrder {
  import opened Bytes
  import opened Requirements
  import opened Messages
  import opened ContentHash

  type Entry = (bytes, JobContent)

  /** `std::pair::operator<` on an entry of the content map. */
  predicate EntryLess(md5: Hash, a: Entry, b: Entry) {
    Less(a.0, b.0) || (!Less(b.0, a.0) && ContentLess(md5, a.1, b.1))
  }

  predicate EntrySame(md5: Hash, a: Entry, b: Entry) {
    a.0 == b.0 && Same(md5, a.1, b.1)
  }

  /** `std::map::operator<`: the first entries that differ decide, and a map that ends first comes first. */
  predicate ContentsLess(md5: Hash, a: Contents, b: Contents)
    decreases |a|
  {
    b != [] && (a == [] || EntryLess(md5, a[0], b[0]) || (!EntryLess(md5, b[0], a[0]) && ContentsLess(md5, a[1..], b[1..])))
  }

  predicate ContentsSame(md5: Hash, a: Contents, b: Contents) {
    |a| == |b| && forall i :: 0 <= i < |a| ==> EntrySame(md5, a[i], b[i])
  }

  /** Both compare equal up to the contents, and have equally many of them. */
  predicate Alike(a: JobSubmission, b: JobSubmission) {
    a.mesh == b.mesh && ReqSame(a.reqs, b.reqs) && |a.content| == |b.content|
  }

  /** `JobSubmission::operator<` */
  predicate SubmissionLess(md5: Hash, a: JobSubmission, b: JobSubmission) {
    if a.mesh != b.mesh then MeshLess(a.mesh, b.mesh)
    else if !ReqSame(a.reqs, b.reqs) then ReqLess(a.reqs, b.reqs)
    else if |a.content| != |b.content| then ContentsLess(md5, a.content, b.content)
    else false
  }

  /** `JobSubmission::operator==` */
  predicate SubmissionSame(md5: Hash, a: JobSubmission, b: JobSubmission) {
    a.mesh == b.mesh && ReqSame(a.reqs, b.reqs) && |a.content| == |b.content| && ContentsSame(md5, a.content, b.content)
  }

  lemma {:induction false} EntryOrder(md5: Hash, a: Entry, b: Entry, c: Entry)
    ensures !EntryLess(md5, a, a)
    ensures EntryLess(md5, a, b) && EntryLess(md5, b, c) ==> EntryLess(md5, a, c)
    ensures !EntryLess(md5, a, b) && !EntryLess(md5, b, a) <==> EntrySame(md5, a, b)
  {
    LessTrichotomy(a.0, a.0);
    LessTrichotomy(a.0, b.0);
    LessTrichotomy(b.0, c.0);
    LessTrichotomy(a.0, c.0);
    if Less(a.0, b.0) && Less(b.0, c.0) {
      LessTransitive(a.0, b.0, c.0);
    }
    ContentOrder(md5, a.1, b.1, c.1);
    hide Less, ContentLess, Same;
  }

  /** Entries that compare equal stand for each other. */
  lemma {:induction false} EntryInterchange(md5: Hash, a: Entry, b: Entry, c: Entry)
    requires EntrySame(md5, a, b)
    ensures EntrySame(md5, b, a) && (EntrySame(md5, a, c) <==> EntrySame(md5, b, c))
    ensures EntryLess(md5, a, c) <==> EntryLess(md5, b, c)
    ensures EntryLess(md5, c, a) <==> EntryLess(md5, c, b)
  {
    assert EntrySame(md5, b, a) && (EntrySame(md5, a, c) <==> EntrySame(md5, b, c));
    hide EntryLess, EntrySame;
    EntryOrder(md5, a, c, b);
    EntryOrder(md5, b, c, a);
    EntryOrder(md5, a, b, c);
    EntryOrder(md5, c, a, b);
    EntryOrder(md5, c, b, a);
  }

  /** `std::map::operator<` is a strict weak order whose equivalence is that of `operator==`. */
  lemma {:induction false} ContentsTrichotomy(md5: Hash, a: Contents, b: Contents)
    ensures !(ContentsLess(md5, a, b) && ContentsLess(md5, b, a))
    ensures !ContentsLess(md5, a, b) && !ContentsLess(md5, b, a) <==> ContentsSame(md5, a, b)
    decreases |a|
  {
    hide EntryLess, EntrySame;
    if a != [] && b != [] {
      EntryOrder(md5, a[0], b[0], a[0]);
      ContentsTrichotomy(md5, a[1..], b[1..]);
      assert ContentsSame(md5, a, b) <==> EntrySame(md5, a[0], b[0]) && ContentsSame(md5, a[1..], b[1..]) by {
        assert forall i :: 1 <= i < |a| ==> a[1..][i - 1] == a[i];
        assert forall i :: 1 <= i < |b| ==> b[1..][i - 1] == b[i];
      }
    }
  }

  lemma {:induction false} ContentsTransitive(md5: Hash, a: Contents, b: Contents, c: Contents)
    requires ContentsLess(md5, a, b) && ContentsLess(md5, b, c)
    ensures ContentsLess(md5, a, c)
    decreases |a|
  {
    hide EntryLess, EntrySame;
    if a != [] {
      EntryOrder(md5, a[0], b[0], c[0]);
      EntryOrder(md5, b[0], c[0], a[0]);
      if EntrySame(md5, a[0], b[0]) {
        EntryInterchange(md5, a[0], b[0], c[0]);
      }
      if EntrySame(md5, b[0], c[0]) {
        EntryInterchange(md5, b[0], c[0], a[0]);
      }
      if !EntryLess(md5, a[0], c[0]) {
        ContentsTransitive(md5, a[1..], b[1..], c[1..]);
      }
    }
  }

  /** Neither of two submissions is less exactly when they are alike, whatever their contents hold. */
  lemma {:induction false} SubmissionUnordered(md5: Hash, a: JobSubmission, b: JobSubmission)
    ensures !(SubmissionLess(md5, a, b) && SubmissionLess(md5, b, a))
    ensures !SubmissionLess(md5, a, b) && !SubmissionLess(md5, b, a) <==> Alike(a, b)
    ensures SubmissionSame(md5, a, b) <==> Alike(a, b) && ContentsSame(md5, a.content, b.content)
  {
    hide ContentsLess;
    MeshTrichotomy(a.mesh, b.mesh);
    KeyTrichotomy(a.reqs.key, b.reqs.key);
    ContentsTrichotomy(md5, a.content, b.content);
  }

  /** `operator<` passes from one submission over a second to a third exactly when the first and the third are not alike. */
  lemma {:induction false} SubmissionTransitive(md5: Hash, a: JobSubmission, b: JobSubmission, c: JobSubmission)
    requires SubmissionLess(md5, a, b) && SubmissionLess(md5, b, c)
    ensures SubmissionLess(md5, a, c) <==> !Alike(a, c)
  {
    hide ContentsLess, MeshLess, KeyLess, ContentsSame;
    MeshTrichotomy(a.mesh, b.mesh);
    MeshTrichotomy(b.mesh, c.mesh);
    if MeshLess(a.mesh, b.mesh) && MeshLess(b.mesh, c.mesh) {
      MeshTransitive(a.mesh, b.mesh, c.mesh);
    }
    MeshTrichotomy(a.mesh, c.mesh);
    KeyTrichotomy(a.reqs.key, b.reqs.key);
    KeyTrichotomy(b.reqs.key, c.reqs.key);
    if KeyLess(a.reqs.key, b.reqs.key) && KeyLess(b.reqs.key, c.reqs.key) {
      KeyTransitive(a.reqs.key, b.reqs.key, c.reqs.key);
    }
    KeyTrichotomy(a.reqs.key, c.reqs.key);
    if ContentsLess(md5, a.content, b.content) && ContentsLess(md5, b.content, c.content) {
      ContentsTransitive(md5, a.content, b.content, c.content);
    }
  }

  /** For every pair of keys in order, three submissions that `operator<` sends round: less, less, and not less. */
  lemma {:induction false} NotTransitive(md5: Hash, mesh: MeshIOType, reqs: JobRequirements, k: bytes, l: bytes, x: JobContent)
    requires Less(k, l)
    ensures var a, b, c := JobSubmission(mesh, reqs, [(k, x)]), JobSubmission(mesh, reqs, [(k, x), (l, x)]), JobSubmission(mesh, reqs, [(l, x)]);
            SubmissionLess(md5, a, b) && SubmissionLess(md5, b, c) && !SubmissionLess(md5, a, c)
  {
    hide Less, ContentLess;
    EntryOrder(md5, (k, x), (k, x), (k, x));
    var one, two, last := [(k, x)], [(k, x), (l, x)], [(l, x)];
    assert ContentsLess(md5, one, two) by { assert one[1..] == [] && two[1..] == last; }
    assert ContentsLess(md5, two, last) by { assert EntryLess(md5, two[0], last[0]); }
  }
}
