/**
  Documents as ordered trees, and document order.

  A node is named by its path from the document node: the sequence of child positions that leads to it.
  `Tree` keeps only the shape, since the traversals of this model never look at names or values.
  */
module XmlTree {

  datatype Tree = Tree(children: seq<Tree>)

  type Path = seq<nat>

  /** A node handle; every accessor of the null handle is null again. */
  datatype Handle = Null | At(path: Path)

  predicate Has(t: Tree, p: Path)
    decreases |p|
  {
    p == [] || (p[0] < |t.children| && Has(t.children[p[0]], p[1..]))
  }

  function Sub(t: Tree, p: Path): (s: Tree)
    requires Has(t, p)
    decreases |p|
  {
    if p == [] then t else Sub(t.children[p[0]], p[1..])
  }

  function Up(p: Path): (q: Path)
    requires p != []
  {
    p[..|p| - 1]
  }

  function Last(p: Path): nat
    requires p != []
  {
    p[|p| - 1]
  }

  /** A path exists exactly when its parent does and has enough children. */
  lemma {:induction false} HasStep(t: Tree, p: Path, i: nat)
    ensures Has(t, p + [i]) <==> Has(t, p) && i < |Sub(t, p).children|
    ensures Has(t, p + [i]) ==> Sub(t, p + [i]) == Sub(t, p).children[i]
    decreases |p|
  {
    if p == [] {
      assert (p + [i])[1..] == [];
    } else {
      assert (p + [i])[1..] == p[1..] + [i];
      if p[0] < |t.children| {
        HasStep(t.children[p[0]], p[1..], i);
      }
    }
  }

  lemma {:induction false} HasUp(t: Tree, p: Path)
    requires p != [] && Has(t, p)
    ensures Has(t, Up(p)) && Last(p) < |Sub(t, Up(p)).children|
    ensures Sub(t, p) == Sub(t, Up(p)).children[Last(p)]
  {
    assert p == Up(p) + [Last(p)];
    HasStep(t, Up(p), Last(p));
  }

  // ---------------------------------------------------------------- node accessors

  function ParentOf(h: Handle): Handle {
    if h.Null? || h.path == [] then Null else At(Up(h.path))
  }

  ghost predicate InTree(t: Tree, h: Handle) {
    h.At? ==> Has(t, h.path)
  }

  function FirstChild(t: Tree, h: Handle): (r: Handle)
    requires InTree(t, h)
    ensures InTree(t, r)
  {
    if h.Null? || Sub(t, h.path).children == [] then Null
    else HasStep(t, h.path, 0); At(h.path + [0])
  }

  function LastChild(t: Tree, h: Handle): (r: Handle)
    requires InTree(t, h)
    ensures InTree(t, r)
  {
    if h.Null? || Sub(t, h.path).children == [] then Null
    else
      var k := |Sub(t, h.path).children| - 1;
      HasStep(t, h.path, k); At(h.path + [k])
  }

  function NextSibling(t: Tree, h: Handle): (r: Handle)
    requires InTree(t, h)
    ensures InTree(t, r)
  {
    if h.Null? || h.path == [] then Null
    else
      var up, k := Up(h.path), Last(h.path) + 1;
      HasUp(t, h.path); HasStep(t, up, k);
      if k < |Sub(t, up).children| then At(up + [k]) else Null
  }

  function PreviousSibling(t: Tree, h: Handle): (r: Handle)
    requires InTree(t, h)
    ensures InTree(t, r)
  {
    if h.Null? || h.path == [] || Last(h.path) == 0 then Null
    else
      var up, k := Up(h.path), Last(h.path) - 1;
      HasUp(t, h.path); HasStep(t, up, k);
      At(up + [k])
  }

  // ---------------------------------------------------------------- document order

  /** Document order: an ancestor comes before its descendants, otherwise the first differing position decides. */
  predicate DocLess(p: Path, q: Path)
    decreases |p|
  {
    q != [] && (p == [] || p[0] < q[0] || (p[0] == q[0] && DocLess(p[1..], q[1..])))
  }

  lemma {:induction false} DocLessTrichotomy(p: Path, q: Path)
    ensures DocLess(p, q) || DocLess(q, p) || p == q
    ensures !(DocLess(p, q) && DocLess(q, p)) && (p == q ==> !DocLess(p, q))
    decreases |p|
  {
    if p != [] && q != [] && p[0] == q[0] {
      DocLessTrichotomy(p[1..], q[1..]);
      assert p == [p[0]] + p[1..] && q == [q[0]] + q[1..];
    }
  }

  lemma {:induction false} DocLessTransitive(p: Path, q: Path, r: Path)
    requires DocLess(p, q) && DocLess(q, r)
    ensures DocLess(p, r)
    decreases |p|
  {
    if p != [] && p[0] == q[0] == r[0] {
      DocLessTransitive(p[1..], q[1..], r[1..]);
    }
  }

  lemma {:induction false} DocLessCommonPrefix(c: Path, x: Path, y: Path)
    ensures DocLess(c + x, c + y) <==> DocLess(x, y)
    decreases |c|
  {
    if c == [] {
      assert c + x == x && c + y == y;
    } else {
      assert (c + x)[1..] == c[1..] + x && (c + y)[1..] == c[1..] + y;
      DocLessCommonPrefix(c[1..], x, y);
    }
  }

  /** The nodes of the subtree `s` rooted at `p`, in document order. */
  function Pre(s: Tree, p: Path): (r: seq<Path>)
    decreases s, |s.children| + 1
  {
    [p] + PreFrom(s, p, 0)
  }

  /** The nodes below `p` whose branch is the `i`-th child or a later one, in document order. */
  function PreFrom(s: Tree, p: Path, i: nat): (r: seq<Path>)
    requires i <= |s.children|
    decreases s, |s.children| - i
  {
    if i == |s.children| then [] else Pre(s.children[i], p + [i]) + PreFrom(s, p, i + 1)
  }

  /** The nodes below `p` in the branches before the `i`-th child, in document order. */
  function PreUpTo(s: Tree, p: Path, i: nat): (r: seq<Path>)
    requires i <= |s.children|
    decreases i
  {
    if i == 0 then [] else PreUpTo(s, p, i - 1) + Pre(s.children[i - 1], p + [i - 1])
  }

  /** All nodes of a document, in document order. */
  function Document(t: Tree): (r: seq<Path>) {
    Pre(t, [])
  }

  lemma {:induction false} PreSplit(s: Tree, p: Path, i: nat)
    requires i <= |s.children|
    ensures PreFrom(s, p, 0) == PreUpTo(s, p, i) + PreFrom(s, p, i)
    decreases i
  {
    if i > 0 {
      PreSplit(s, p, i - 1);
    }
  }

  /** The nodes after the whole subtree of `q`, inside the subtree of its ancestor of length `top`. */
  function After(t: Tree, top: nat, q: Path): (r: seq<Path>)
    requires Has(t, q) && top <= |q|
    decreases |q|
  {
    if |q| == top then []
    else HasUp(t, q); PreFrom(Sub(t, Up(q)), Up(q), Last(q) + 1) + After(t, top, Up(q))
  }

  /** The nodes before `q` in document order: its ancestors, and the branches before it. */
  function Before(t: Tree, q: Path): (r: seq<Path>)
    requires Has(t, q)
    decreases |q|
  {
    if q == [] then []
    else HasUp(t, q); Before(t, Up(q)) + [Up(q)] + PreUpTo(Sub(t, Up(q)), Up(q), Last(q))
  }

  lemma {:induction false} Regroup(a: seq<Path>, b: seq<Path>, c: seq<Path>, d: seq<Path>, e: seq<Path>, f: seq<Path>)
    ensures a + (b + (c + (d + e))) + f == (a + b + c) + d + (e + f)
  {
  }

  /** Every node splits the document: what is before it, its own subtree, what is after it. */
  lemma {:induction false} DocumentSplit(t: Tree, q: Path)
    requires Has(t, q)
    ensures Document(t) == Before(t, q) + Pre(Sub(t, q), q) + After(t, 0, q)
    decreases |q|
  {
    if q != [] {
      HasUp(t, q);
      var up, i := Up(q), Last(q);
      var s := Sub(t, up);
      assert up + [i] == q;
      DocumentSplit(t, up);
      PreSplit(s, up, i);
      Regroup(Before(t, up), [up], PreUpTo(s, up, i), Pre(s.children[i], q), PreFrom(s, up, i + 1), After(t, 0, up));
    }
  }

  /** `p` is `q` or one of its ancestors. */
  predicate IsPrefix(p: Path, q: Path) {
    |p| <= |q| && q[..|p|] == p
  }

  /** The preorder list of a subtree holds exactly the nodes under its root. */
  lemma {:induction false} PreMembers(s: Tree, p: Path, q: Path)
    ensures q in Pre(s, p) <==> IsPrefix(p, q) && Has(s, q[|p|..])
    decreases s, |s.children| + 1
  {
    PreFromMembers(s, p, 0, q);
    if IsPrefix(p, q) {
      if |q| == |p| {
        assert q == p;
      } else {
        assert q != p;
      }
    }
  }

  lemma {:induction false} PreFromMembers(s: Tree, p: Path, i: nat, q: Path)
    requires i <= |s.children|
    ensures q in PreFrom(s, p, i) <==> IsPrefix(p, q) && |p| < |q| && i <= q[|p|] && Has(s, q[|p|..])
    decreases s, |s.children| - i
  {
    if i < |s.children| {
      PreMembers(s.children[i], p + [i], q);
      PreFromMembers(s, p, i + 1, q);
      if IsPrefix(p, q) && |p| < |q| {
        assert q[|p|..][1..] == q[|p| + 1..];
        assert IsPrefix(p + [i], q) <==> q[|p|] == i by {
          assert q[..|p| + 1] == q[..|p|] + [q[|p|]];
        }
      }
    } else if IsPrefix(p, q) && |p| < |q| {
      assert q[|p|..][0] == q[|p|];
    }
  }

  ghost predicate InOrder(s: seq<Path>) {
    forall i, j :: 0 <= i < j < |s| ==> DocLess(s[i], s[j])
  }

  lemma {:induction false} InOrderConcat(s: seq<Path>, u: seq<Path>)
    requires InOrder(s) && InOrder(u)
    requires forall p, q :: p in s && q in u ==> DocLess(p, q)
    ensures InOrder(s + u)
  {
  }

  lemma {:induction false} PreInOrder(s: Tree, p: Path)
    ensures InOrder(Pre(s, p))
    decreases s, |s.children| + 1
  {
    PreFromInOrder(s, p, 0);
    forall q | q in PreFrom(s, p, 0) ensures DocLess(p, q) {
      PreFromMembers(s, p, 0, q);
      assert p == p + [] && q == p + q[|p|..];
      DocLessCommonPrefix(p, [], q[|p|..]);
    }
    InOrderConcat([p], PreFrom(s, p, 0));
  }

  lemma {:induction false} PreFromInOrder(s: Tree, p: Path, i: nat)
    requires i <= |s.children|
    ensures InOrder(PreFrom(s, p, i))
    decreases s, |s.children| - i
  {
    if i < |s.children| {
      var here, rest := Pre(s.children[i], p + [i]), PreFrom(s, p, i + 1);
      PreInOrder(s.children[i], p + [i]);
      PreFromInOrder(s, p, i + 1);
      forall q, r | q in here && r in rest ensures DocLess(q, r) {
        PreMembers(s.children[i], p + [i], q);
        PreFromMembers(s, p, i + 1, r);
        assert q[|p|] == q[..|p| + 1][|p|] == i;
        assert q[..|p|] == q[..|p| + 1][..|p|] == p;
        assert q == p + q[|p|..] && r == p + r[|p|..];
        DocLessCommonPrefix(p, q[|p|..], r[|p|..]);
      }
      InOrderConcat(here, rest);
    }
  }

  /** The document lists every node exactly once, and position in it is document order. */
  lemma {:induction false} DocumentOrder(t: Tree)
    ensures InOrder(Document(t))
    ensures forall p :: p in Document(t) <==> Has(t, p)
    ensures forall i, j :: 0 <= i < |Document(t)| && 0 <= j < |Document(t)| ==>
                             (DocLess(Document(t)[i], Document(t)[j]) <==> i < j)
  {
    PreInOrder(t, []);
    forall p ensures p in Document(t) <==> Has(t, p) {
      PreMembers(t, [], p);
      assert p[0..] == p;
    }
    var d := Document(t);
    forall i, j | 0 <= i < |d| && 0 <= j < |d| ensures DocLess(d[i], d[j]) <==> i < j {
      DocLessTrichotomy(d[i], d[j]);
    }
  }
}
