/** The cursor loops of `step_fill`, and the document-order comparison `node_is_before`. */
module XPathTraversal {
  import Sequences
  import opened XmlTree
  import opened XPathAxes

  /** `step_push`: a null handle and a node that fails the test are not pushed. */
  function Push(ns: seq<Path>, h: Handle, test: Path -> bool): (r: seq<Path>)
    ensures h.At? && test(h.path) ==> r == ns + [h.path]
    ensures h.Null? || !test(h.path) ==> r == ns
  {
    if h.At? && test(h.path) then ns + [h.path] else ns
  }

  // ---------------------------------------------------------------- one step in document order

  lemma {:induction false} StepToChild(t: Tree, top: nat, q: Path)
    requires Has(t, q) && top <= |q| && Sub(t, q).children != []
    ensures Has(t, q + [0])
    ensures Pre(Sub(t, q), q) + After(t, top, q) == [q] + (Pre(Sub(t, q + [0]), q + [0]) + After(t, top, q + [0]))
  {
    HasStep(t, q, 0);
    assert Up(q + [0]) == q && Last(q + [0]) == 0;
  }

  lemma {:induction false} StepFromLeaf(t: Tree, q: Path)
    requires Has(t, q) && Sub(t, q).children == []
    ensures Pre(Sub(t, q), q) == [q]
  {
  }

  lemma {:induction false} StepToSibling(t: Tree, top: nat, q: Path)
    requires Has(t, q) && top < |q| && NextSibling(t, At(q)).At?
    ensures var r := NextSibling(t, At(q)).path;
            |r| == |q| && After(t, top, q) == Pre(Sub(t, r), r) + After(t, top, r)
  {
    hide Pre, PreFrom, After, Sub, Has;
    SiblingPath(t, q);
    var r := NextSibling(t, At(q)).path;
    SiblingAfter(t, top, q, r);
  }

  lemma {:induction false} SiblingAfter(t: Tree, top: nat, q: Path, r: Path)
    requires Has(t, q) && Has(t, r) && top < |q| == |r| && Up(r) == Up(q) && Last(r) == Last(q) + 1 && r == Up(q) + [Last(r)]
    requires Has(t, Up(q)) && Last(r) < |Sub(t, Up(q)).children| && Sub(t, r) == Sub(t, Up(q)).children[Last(r)]
    ensures After(t, top, q) == Pre(Sub(t, r), r) + After(t, top, r)
  {
    hide *;
    AfterStep(t, top, q);
    AfterStep(t, top, r);
    PreFromStep(Sub(t, Up(q)), Up(q), Last(r));
    Sequences.Assoc(Pre(Sub(t, r), r), PreFrom(Sub(t, Up(q)), Up(q), Last(r) + 1), After(t, top, Up(q)));
  }

  lemma {:induction false} SiblingPath(t: Tree, q: Path)
    requires Has(t, q) && NextSibling(t, At(q)).At?
    ensures var r := NextSibling(t, At(q)).path;
            && q != [] && r != [] && |r| == |q| && Has(t, r) && Up(r) == Up(q) && Last(r) == Last(q) + 1 && r == Up(q) + [Last(r)]
            && Has(t, Up(q)) && Last(r) < |Sub(t, Up(q)).children| && Sub(t, r) == Sub(t, Up(q)).children[Last(r)]
  {
    HasUp(t, q);
    HasStep(t, Up(q), Last(q) + 1);
  }

  lemma {:induction false} PreFromStep(s: Tree, p: Path, i: nat)
    requires i < |s.children|
    ensures PreFrom(s, p, i) == Pre(s.children[i], p + [i]) + PreFrom(s, p, i + 1)
  {
  }

  lemma {:induction false} AfterStep(t: Tree, top: nat, q: Path)
    requires Has(t, q) && top < |q|
    ensures Has(t, Up(q)) && Last(q) < |Sub(t, Up(q)).children|
    ensures After(t, top, q) == PreFrom(Sub(t, Up(q)), Up(q), Last(q) + 1) + After(t, top, Up(q))
  {
    HasUp(t, q);
  }

  lemma {:induction false} StepUp(t: Tree, top: nat, q: Path)
    requires Has(t, q) && top < |q| && NextSibling(t, At(q)).Null?
    ensures Has(t, Up(q)) && After(t, top, q) == After(t, top, Up(q))
  {
    HasUp(t, q);
  }

  /** What a forward traversal inside the subtree of `n` has still to visit when its cursor is at `cur`. */
  ghost function Ahead(t: Tree, n: Path, cur: Handle): (r: seq<Path>)
    requires InTree(t, cur) && (cur.At? ==> |n| <= |cur.path|)
  {
    if cur.Null? || |cur.path| == |n| then [] else Pre(Sub(t, cur.path), cur.path) + After(t, |n|, cur.path)
  }

  /** Inside the subtree of `n` only `n` itself has its length. */
  ghost predicate Under(n: Path, h: Handle) {
    h.At? ==> IsPrefix(n, h.path)
  }

  lemma {:induction false} UnderUp(n: Path, q: Path)
    requires IsPrefix(n, q) && q != n
    ensures IsPrefix(n, Up(q)) && |n| < |q|
  {
    assert q[..|n|] == q[..|q| - 1][..|n|];
  }

  /** Leaves every subtree that is finished; stops at `n` or at a node with a next sibling. */
  method Climb(t: Tree, n: Path, start: Path) returns (q: Path)
    requires Has(t, start) && IsPrefix(n, start)
    ensures Has(t, q) && IsPrefix(n, q)
    ensures q == n || NextSibling(t, At(q)).At?
    ensures After(t, |n|, q) == After(t, |n|, start)
  {
    q := start;
    while NextSibling(t, At(q)) == Null && q != n
      invariant Has(t, q) && IsPrefix(n, q)
      invariant After(t, |n|, q) == After(t, |n|, start)
      decreases |q|
    {
      UnderUp(n, q);
      StepUp(t, |n|, q);
      q := Up(q);
    }
  }

  /** The cursor after `q` in the traversal of the subtree of `n`; `n` itself when the subtree is finished. */
  method NextBelow(t: Tree, n: Path, q: Path) returns (next: Handle)
    requires Has(t, q) && IsPrefix(n, q) && q != n
    ensures InTree(t, next) && next.At? && Under(n, next)
    ensures Ahead(t, n, At(q)) == [q] + Ahead(t, n, next)
  {
    hide After, Pre, PreFrom;
    UnderUp(n, q);
    var cur := At(q);
    if FirstChild(t, cur) != Null {
      StepToChild(t, |n|, q);
      next := FirstChild(t, cur);
    } else if NextSibling(t, cur) != Null {
      StepFromLeaf(t, q);
      StepToSibling(t, |n|, q);
      next := NextSibling(t, cur);
    } else {
      StepFromLeaf(t, q);
      var r := Climb(t, n, q);
      if r != n {
        UnderUp(n, r);
        StepToSibling(t, |n|, r);
        next := NextSibling(t, At(r));
      } else {
        AfterSelf(t, n);
        next := At(n);
      }
    }
  }

  lemma {:induction false} AfterSelf(t: Tree, n: Path)
    requires Has(t, n)
    ensures After(t, |n|, n) == []
  {
  }

  method FillDescendants(t: Tree, n: Path, orSelf: bool, test: Path -> bool) returns (ns: seq<Path>)
    requires Has(t, n)
    ensures ns == Keep(Chosen(Document(t), if orSelf then DescendantOrSelf else Descendant, n), test)
  {
    hide Keep, Chosen, Document, PreFrom, Pre, After, Sub, Has;
    ns := [];
    ghost var seen: seq<Path> := [];
    KeepNone(test);
    if orSelf {
      ns := Push(ns, At(n), test);
      KeepPush(seen, n, test);
      assert seen + [n] == [n];
      seen := [n];
    }
    ghost var goal := seen + PreFrom(Sub(t, n), n, 0);
    var cur := FirstChild(t, At(n));
    StartBelow(t, n);
    while cur != Null && cur != At(n)
      invariant InTree(t, cur) && Under(n, cur)
      invariant ns == Keep(seen, test)
      invariant seen + Ahead(t, n, cur) == goal
      decreases |goal| - |seen|
    {
      KeepPush(seen, cur.path, test);
      ns := Push(ns, cur, test);
      var q := cur.path;
      cur := NextBelow(t, n, q);
      seen := seen + [q];
    }
    assert seen == goal;
    assert goal == (if orSelf then [n] else []) + PreFrom(Sub(t, n), n, 0);
    DescendantAxis(t, n, if orSelf then DescendantOrSelf else Descendant);
  }

  lemma {:induction false} KeepNone(test: Path -> bool)
    ensures Keep([], test) == []
  {
  }

  lemma {:induction false} StartBelow(t: Tree, n: Path)
    requires Has(t, n)
    ensures var c := FirstChild(t, At(n)); Under(n, c) && Ahead(t, n, c) == PreFrom(Sub(t, n), n, 0)
  {
    hide After, Pre, PreFrom, Sub, Has;
    var s := Sub(t, n);
    if s.children != [] {
      HasStep(t, n, 0);
      var c := n + [0];
      assert Up(c) == n && Last(c) == 0;
      AfterStep(t, |n|, c);
      AfterSelf(t, n);
      PreFromStep(s, n, 0);
      assert PreFrom(s, n, 1) + [] == PreFrom(s, n, 1);
    } else {
      PreFromEnd(s, n);
    }
  }

  lemma {:induction false} PreFromEnd(s: Tree, p: Path)
    ensures PreFrom(s, p, |s.children|) == []
  {
  }

  // ---------------------------------------------------------------- following

  /** What a forward traversal of the whole document has still to visit when its cursor is at `cur`. */
  ghost function Onward(t: Tree, cur: Handle): (r: seq<Path>)
    requires InTree(t, cur)
  {
    if cur.Null? then [] else Pre(Sub(t, cur.path), cur.path) + After(t, 0, cur.path)
  }

  /** Leaves the subtree of `start` and every finished subtree around it. */
  method ExitForward(t: Tree, start: Handle) returns (next: Handle)
    requires InTree(t, start)
    ensures InTree(t, next) && (start.Null? ==> next.Null?)
    ensures Onward(t, next) == if start.Null? then [] else After(t, 0, start.path)
  {
    hide Pre, PreFrom, After, Sub;
    var cur := start;
    while cur != Null && NextSibling(t, cur) == Null
      invariant InTree(t, cur) && (start.Null? ==> cur.Null?)
      invariant start.At? ==> After(t, 0, start.path) == if cur.Null? then [] else After(t, 0, cur.path)
      decreases if cur.Null? then 0 else 1 + |cur.path|
    {
      if cur.path == [] {
        AfterSelf(t, []);
      } else {
        StepUp(t, 0, cur.path);
      }
      cur := ParentOf(cur);
    }
    if cur.At? {
      StepToSibling(t, 0, cur.path);
    }
    next := NextSibling(t, cur);
  }

  method FillFollowing(t: Tree, n: Path, test: Path -> bool) returns (ns: seq<Path>)
    requires Has(t, n)
    ensures ns == Keep(Chosen(Document(t), Following, n), test)
  {
    hide Keep, Chosen, Document, PreFrom, Pre, After, Sub, Onward;
    ns := [];
    ghost var seen: seq<Path> := [];
    KeepNone(test);
    ghost var goal := After(t, 0, n);
    // leave the subtree of `n`, which is not on the axis
    var cur := ExitForward(t, At(n));
    while true
      invariant InTree(t, cur)
      invariant ns == Keep(seen, test)
      invariant seen + Onward(t, cur) == goal
      decreases |goal| - |seen|
    {
      ns := Push(ns, cur, test);
      if cur.At? {
        KeepPush(seen, cur.path, test);
        seen := seen + [cur.path];
      }
      cur := NextForward(t, cur);
      if cur == Null {
        break;
      }
    }
    assert seen == goal by { OnwardNull(t); }
    FollowingAxis(t, n);
  }

  lemma {:induction false} OnwardNull(t: Tree)
    ensures Onward(t, Null) == []
  {
  }

  /** The cursor after `cur` in document order; null at the end of the document and after null. */
  method NextForward(t: Tree, cur: Handle) returns (next: Handle)
    requires InTree(t, cur)
    ensures InTree(t, next) && (cur.Null? ==> next.Null?)
    ensures Onward(t, cur) == (if cur.Null? then [] else [cur.path]) + Onward(t, next)
  {
    hide PreFrom, Pre, After, Sub;
    if FirstChild(t, cur) != Null {
      StepToChild(t, 0, cur.path);
      next := FirstChild(t, cur);
    } else if NextSibling(t, cur) != Null {
      StepFromLeaf(t, cur.path);
      StepToSibling(t, 0, cur.path);
      next := NextSibling(t, cur);
    } else {
      if cur.At? {
        StepFromLeaf(t, cur.path);
      }
      next := ExitForward(t, cur);
    }
  }

  // ---------------------------------------------------------------- ancestors

  method FillAncestors(t: Tree, n: Path, orSelf: bool, test: Path -> bool) returns (ns: seq<Path>)
    requires Has(t, n)
    ensures ns == Keep(Reverse(Chosen(Document(t), if orSelf then AncestorOrSelf else Ancestor, n)), test)
  {
    hide *;
    KeepNone(test);
    AncestorAxis(t, n);
    ghost var first: seq<Path> := [];
    ns := [];
    if orSelf {
      ns := Push(ns, At(n), test);
      KeepPush([], n, test);
      assert [] + [n] == [n];
      first := [n];
      AncestorOrSelfAxis(t, n);
      ReverseConcat(Chosen(Document(t), Ancestor, n), [n]);
      ReverseOne(n);
    } else {
      Sequences.EmptyFirst(Ancestors(n));
    }
    ns := ClimbAncestors(n, ns, first, test);
  }

  /** The climb along the parent links, behind what has been pushed already. */
  method ClimbAncestors(n: Path, before: seq<Path>, ghost first: seq<Path>, test: Path -> bool) returns (ns: seq<Path>)
    requires before == Keep(first, test)
    ensures ns == Keep(first + Ancestors(n), test)
  {
    ns := before;
    ghost var seen, p := first, n;
    var cur := ParentOf(At(n));
    while cur != Null
      invariant cur == ParentOf(At(p)) && ns == Keep(seen, test) && seen + Ancestors(p) == first + Ancestors(n)
      decreases |p|
    {
      ns := Push(ns, cur, test);
      ghost var up := Up(p);
      KeepPush(seen, up, test);
      Sequences.Assoc(seen, [up], Ancestors(up));
      seen, p := seen + [up], up;
      cur := ParentOf(cur);
    }
    assert seen + [] == seen;
  }

  lemma {:induction false} ReverseOne(p: Path)
    ensures Reverse([p]) == [p]
  {
    assert Reverse([]) == [];
  }

  /** `node_is_ancestor`: the walk up from `node` meets `parent`. */
  method NodeIsAncestor(parent: Handle, node: Handle) returns (r: bool)
    ensures r <==> parent.At? && node.At? && IsPrefix(parent.path, node.path)
  {
    var cur := node;
    while cur != Null && cur != parent
      invariant cur.At? ==> node.At? && IsPrefix(cur.path, node.path)
      invariant parent.At? && node.At? && IsPrefix(parent.path, node.path) ==> cur.At? && IsPrefix(parent.path, cur.path)
      decreases if cur.Null? then 0 else 1 + |cur.path|
    {
      if cur.path != [] {
        var up := Up(cur.path);
        assert node.path[..|up|] == node.path[..|cur.path|][..|up|];
        if parent.At? && IsPrefix(parent.path, cur.path) && parent.path != cur.path {
          UnderUp(parent.path, cur.path);
        }
      }
      cur := ParentOf(cur);
    }
    r := parent != Null && cur == parent;
  }

  // ---------------------------------------------------------------- preceding

  /** What the backward traversal for `n` has still to visit once the whole subtree of `q` is done. */
  ghost function Rest(t: Tree, n: Path, q: Path): (r: seq<Path>)
    requires Has(t, q)
    decreases |q|
  {
    if q == [] then []
    else
      HasUp(t, q);
      Reverse(PreUpTo(Sub(t, Up(q)), Up(q), Last(q))) + (if IsPrefix(Up(q), n) then [] else [Up(q)]) + Rest(t, n, Up(q))
  }

  /** What it has still to visit when its cursor is at `cur`, whose subtree is not yet done. */
  ghost function Backward(t: Tree, n: Path, cur: Handle): (r: seq<Path>)
    requires InTree(t, cur)
  {
    if cur.Null? then [] else Reverse(Pre(Sub(t, cur.path), cur.path)) + Rest(t, n, cur.path)
  }

  lemma {:induction false} RestOfAncestor(t: Tree, n: Path, q: Path)
    requires Has(t, q) && IsPrefix(q, n)
    ensures Rest(t, n, q) == Precedings(t, q)
    decreases |q|
  {
    if q != [] {
      HasUp(t, q);
      PrefixUp(q, n);
      RestOfAncestor(t, n, Up(q));
    }
  }

  lemma {:induction false} RestStep(t: Tree, n: Path, q: Path)
    requires Has(t, q) && q != []
    ensures Has(t, Up(q)) && Last(q) < |Sub(t, Up(q)).children|
    ensures Rest(t, n, q) ==
            Reverse(PreUpTo(Sub(t, Up(q)), Up(q), Last(q))) + (if IsPrefix(Up(q), n) then [] else [Up(q)]) + Rest(t, n, Up(q))
  {
    HasUp(t, q);
  }

  lemma {:induction false} PreUpToStep(s: Tree, p: Path, i: nat)
    requires i < |s.children|
    ensures Reverse(PreUpTo(s, p, i + 1)) == Reverse(Pre(s.children[i], p + [i])) + Reverse(PreUpTo(s, p, i))
  {
    ReverseConcat(PreUpTo(s, p, i), Pre(s.children[i], p + [i]));
  }

  lemma {:induction false} ReversePre(s: Tree, p: Path)
    ensures Reverse(Pre(s, p)) == Reverse(PreUpTo(s, p, |s.children|)) + [p]
  {
    PreAsUpTo(s, p);
    hide Pre, PreUpTo;
    ReverseConcat([p], PreUpTo(s, p, |s.children|));
    assert Reverse([p]) == [p];
  }

  lemma {:induction false} PreAsUpTo(s: Tree, p: Path)
    ensures Pre(s, p) == [p] + PreUpTo(s, p, |s.children|)
  {
    PreSplit(s, p, |s.children|);
    hide PreUpTo;
    assert PreFrom(s, p, |s.children|) == [];
  }

  lemma {:induction false} BackToChild(t: Tree, n: Path, q: Path)
    requires Has(t, q) && !IsPrefix(q, n) && LastChild(t, At(q)).At?
    ensures Backward(t, n, At(q)) == Backward(t, n, LastChild(t, At(q)))
  {
    hide Pre, PreUpTo, Rest, Backward, Sub, Has, Reverse, IsPrefix;
    var k := |Sub(t, q).children| - 1;
    HasStep(t, q, k);
    var c := q + [k];
    assert Up(c) == q && Last(c) == k;
    ChildRest(t, n, q, c);
  }

  lemma {:induction false} ChildRest(t: Tree, n: Path, q: Path, c: Path)
    requires Has(t, q) && Has(t, c) && c != [] && Up(c) == q && c == q + [Last(c)] && !IsPrefix(q, n)
    requires Last(c) == |Sub(t, q).children| - 1 && Sub(t, c) == Sub(t, q).children[Last(c)]
    ensures InTree(t, At(q)) && InTree(t, At(c)) && Backward(t, n, At(q)) == Backward(t, n, At(c))
  {
    hide *;
    var s := Sub(t, q);
    ReversePre(s, q);
    PreUpToStep(s, q, Last(c));
    RestStep(t, n, c);
    BackwardAt(t, n, q);
    BackwardAt(t, n, c);
    Assoc(Reverse(Pre(Sub(t, c), c)), Reverse(PreUpTo(s, q, Last(c))), [q], Rest(t, n, q));
  }

  lemma {:induction false} BackToSibling(t: Tree, n: Path, q: Path)
    requires Has(t, q) && PreviousSibling(t, At(q)).At?
    ensures InTree(t, PreviousSibling(t, At(q))) && Rest(t, n, q) == Backward(t, n, PreviousSibling(t, At(q)))
  {
    hide Pre, PreUpTo, Rest, Backward, Sub, Has, Reverse;
    PreviousPath(t, q);
    SiblingRest(t, n, q, PreviousSibling(t, At(q)).path);
  }

  lemma {:induction false} SiblingRest(t: Tree, n: Path, q: Path, r: Path)
    requires Has(t, q) && Has(t, r) && 0 < |q| == |r| && Up(r) == Up(q) && Last(q) == Last(r) + 1 && r == Up(q) + [Last(r)]
    requires Has(t, Up(q)) && Last(q) < |Sub(t, Up(q)).children| && Sub(t, r) == Sub(t, Up(q)).children[Last(r)]
    ensures InTree(t, At(r)) && Rest(t, n, q) == Backward(t, n, At(r))
  {
    hide *;
    RestStep(t, n, q);
    RestStep(t, n, r);
    var up := Up(q);
    PreUpToStep(Sub(t, up), up, Last(r));
    BackwardAt(t, n, r);
    Assoc(Reverse(Pre(Sub(t, r), r)), Reverse(PreUpTo(Sub(t, up), up, Last(r))), if IsPrefix(up, n) then [] else [up], Rest(t, n, up));
  }

  lemma {:induction false} Assoc(a: seq<Path>, b: seq<Path>, c: seq<Path>, d: seq<Path>)
    ensures (a + b) + c + d == a + (b + c + d)
  {
  }

  lemma {:induction false} PreviousPath(t: Tree, q: Path)
    requires Has(t, q) && PreviousSibling(t, At(q)).At?
    ensures var r := PreviousSibling(t, At(q)).path;
            && q != [] && r != [] && |r| == |q| && Has(t, r) && Up(r) == Up(q) && Last(q) == Last(r) + 1 && r == Up(q) + [Last(r)]
            && Has(t, Up(q)) && Last(q) < |Sub(t, Up(q)).children| && Sub(t, r) == Sub(t, Up(q)).children[Last(r)]
  {
    HasUp(t, q);
    HasStep(t, Up(q), Last(q) - 1);
  }

  lemma {:induction false} BackwardAt(t: Tree, n: Path, q: Path)
    requires Has(t, q)
    ensures InTree(t, At(q)) && Backward(t, n, At(q)) == Reverse(Pre(Sub(t, q), q)) + Rest(t, n, q)
  {
  }

  lemma {:induction false} BackUp(t: Tree, n: Path, q: Path)
    requires Has(t, q) && q != [] && PreviousSibling(t, At(q)).Null?
    ensures Has(t, Up(q)) && Rest(t, n, q) == (if IsPrefix(Up(q), n) then [] else [Up(q)]) + Rest(t, n, Up(q))
  {
    RestStep(t, n, q);
    assert Reverse(PreUpTo(Sub(t, Up(q)), Up(q), 0)) == [];
  }

  lemma {:induction false} BackFromLeaf(t: Tree, n: Path, q: Path)
    requires Has(t, q) && Sub(t, q).children == []
    ensures Backward(t, n, At(q)) == [q] + Rest(t, n, q)
  {
    ReversePre(Sub(t, q), q);
    assert Reverse([]) == [];
  }

  /** Where the cursor of the backward traversal may be: on a node that precedes `n`, or nowhere. */
  ghost predicate Earlier(n: Path, h: Handle) {
    h.At? ==> OnAxis(Preceding, n, h.path)
  }

  /** Only the subtree of `q` lies between `q` and its descendants. */
  lemma {:induction false} Between(q: Path, n: Path, x: Path)
    requires DocLess(q, n) && DocLess(n, q + x)
    ensures IsPrefix(q, n)
    decreases |q|
  {
    if q != [] {
      assert (q + x)[1..] == q[1..] + x;
      Between(q[1..], n[1..], x);
      assert n[..|q|] == [n[0]] + n[1..][..|q| - 1];
    }
  }

  lemma {:induction false} EarlierChild(n: Path, q: Path, k: nat)
    requires OnAxis(Preceding, n, q)
    ensures OnAxis(Preceding, n, q + [k])
  {
    var c := q + [k];
    DocLessTrichotomy(c, n);
    if DocLess(n, c) {
      Between(q, n, [k]);
    }
    assert |c| <= |n| ==> n[..|c|][..|q|] == n[..|q|];
  }

  lemma {:induction false} EarlierSibling(n: Path, up: Path, k: nat, i: nat)
    requires i < k && (OnAxis(Preceding, n, up + [k]) || IsPrefix(up + [k], n))
    ensures OnAxis(Preceding, n, up + [i])
  {
    var q, r := up + [k], up + [i];
    if IsPrefix(q, n) {
      assert n[..|up|] == n[..|q|][..|up|] == up && n[|up|] == n[..|q|][|up|] == k;
      EarlierBranch(r, n, |up|);
    } else {
      DocLessCommonPrefix(up, [i], [k]);
      DocLessTransitive(r, q, n);
      if IsPrefix(r, n) {
        var x := n[|r|..];
        assert n == up + ([i] + x);
        DocLessCommonPrefix(up, [i] + x, [k]);
        DocLessTrichotomy(n, q);
      }
    }
  }

  lemma {:induction false} EarlierUp(n: Path, q: Path)
    requires q != [] && OnAxis(Preceding, n, q)
    ensures IsPrefix(Up(q), n) || OnAxis(Preceding, n, Up(q))
  {
    PrefixBefore(Up(q), q);
    DocLessTransitive(Up(q), q, n);
  }

  lemma {:induction false} EarlierPrevious(t: Tree, n: Path, q: Path)
    requires Has(t, q) && (OnAxis(Preceding, n, q) || IsPrefix(q, n))
    ensures Earlier(n, PreviousSibling(t, At(q)))
  {
    if PreviousSibling(t, At(q)).At? {
      assert q == Up(q) + [Last(q)];
      EarlierSibling(n, Up(q), Last(q), Last(q) - 1);
    }
  }

  /** From `n` to the last node that precedes it in the branch before: leaves finished ancestors on the way. */
  method ExitBackward(t: Tree, n: Path) returns (next: Handle)
    requires Has(t, n)
    ensures InTree(t, next) && Earlier(n, next)
    ensures Backward(t, n, next) == Rest(t, n, n)
  {
    hide Reverse, Pre, PreUpTo, Sub, OnAxis;
    var cur := At(n);
    while cur != Null && PreviousSibling(t, cur) == Null
      invariant InTree(t, cur)
      invariant cur.At? ==> IsPrefix(cur.path, n) && Rest(t, n, cur.path) == Rest(t, n, n)
      invariant cur.Null? ==> Rest(t, n, n) == []
      decreases if cur.Null? then 0 else 1 + |cur.path|
    {
      if cur.path != [] {
        PrefixUp(cur.path, n);
        BackUp(t, n, cur.path);
      }
      cur := ParentOf(cur);
    }
    if cur.At? {
      EarlierPrevious(t, n, cur.path);
      BackToSibling(t, n, cur.path);
    }
    next := PreviousSibling(t, cur);
  }

  /** The inner `do` loop: climbs from the finished node `q`, pushing every finished node that is no ancestor of `n`. */
  method ClimbBackward(t: Tree, n: Path, q: Path, ns0: seq<Path>, ghost seen0: seq<Path>, test: Path -> bool)
    returns (ns: seq<Path>, next: Handle, ghost seen: seq<Path>)
    requires Has(t, q) && Has(t, n) && OnAxis(Preceding, n, q) && PreviousSibling(t, At(q)) == Null && ns0 == Keep(seen0, test)
    ensures InTree(t, next) && Earlier(n, next)
    ensures ns == Keep(seen, test) && |seen0| <= |seen|
    ensures seen0 + Rest(t, n, q) == seen + Backward(t, n, next)
  {
    hide Reverse, Pre, PreUpTo, Sub, OnAxis, Keep, Rest, IsPrefix, Backward, Has;
    BackwardNull(t, n);
    ns, seen := ns0, seen0;
    ghost var goal := seen0 + Rest(t, n, q);
    ghost var todo := Rest(t, n, q);
    var cur := At(q);
    while cur != Null && PreviousSibling(t, cur) == Null
      invariant InTree(t, cur)
      invariant cur.At? ==> OnAxis(Preceding, n, cur.path) || IsPrefix(cur.path, n)
      invariant ns == Keep(seen, test) && |seen0| <= |seen|
      invariant todo == if cur.Null? then [] else Rest(t, n, cur.path)
      invariant goal == seen + todo
      decreases if cur.Null? then 0 else 1 + |cur.path|
    {
      ghost var at := cur.path;
      cur := ParentOf(cur);
      if cur == Null {
        RestOfRoot(t, n);
        break;
      }
      BackUp(t, n, at);
      ClimbStays(n, at);
      var ancestor := NodeIsAncestor(cur, At(n));
      todo := Rest(t, n, cur.path);
      if !ancestor {
        ns := Push(ns, cur, test);
        KeepPush(seen, cur.path, test);
        Sequences.Assoc(seen, [cur.path], todo);
        seen := seen + [cur.path];
      }
    }
    if cur.At? {
      EarlierPrevious(t, n, cur.path);
      BackToSibling(t, n, cur.path);
    }
    next := PreviousSibling(t, cur);
  }

  lemma {:induction false} RestOfRoot(t: Tree, n: Path)
    ensures Has(t, []) && Rest(t, n, []) == []
  {
  }

  lemma {:induction false} ClimbStays(n: Path, q: Path)
    requires q != [] && (OnAxis(Preceding, n, q) || IsPrefix(q, n))
    ensures OnAxis(Preceding, n, Up(q)) || IsPrefix(Up(q), n)
  {
    if IsPrefix(q, n) {
      PrefixUp(q, n);
    } else {
      EarlierUp(n, q);
    }
  }

  method FillPreceding(t: Tree, n: Path, test: Path -> bool) returns (ns: seq<Path>)
    requires Has(t, n)
    ensures ns == Keep(Reverse(Chosen(Document(t), Preceding, n)), test)
  {
    hide Keep, Chosen, Document, Reverse, Pre, PreUpTo, OnAxis, Backward;
    ns := [];
    ghost var seen: seq<Path> := [];
    KeepNone(test);
    ghost var goal := Rest(t, n, n);
    var cur := ExitBackward(t, n);
    while cur != Null
      invariant InTree(t, cur) && Earlier(n, cur)
      invariant ns == Keep(seen, test)
      invariant seen + Backward(t, n, cur) == goal
      decreases |goal| - |seen|, if cur.At? then Sub(t, cur.path) else Tree([])
    {
      var q := cur.path;
      NotAncestor(n, q);
      if LastChild(t, cur) != Null {
        ghost var k := |Sub(t, q).children| - 1;
        HasStep(t, q, k);
        EarlierChild(n, q, k);
        BackToChild(t, n, q);
        cur := LastChild(t, cur);
      } else {
        // without children it is none of the ancestors of `n`
        BackFromLeaf(t, n, q);
        ns := Push(ns, cur, test);
        KeepPush(seen, q, test);
        seen := seen + [q];
        if PreviousSibling(t, cur) != Null {
          EarlierPrevious(t, n, q);
          BackToSibling(t, n, q);
          cur := PreviousSibling(t, cur);
        } else {
          ns, cur, seen := ClimbBackward(t, n, q, ns, seen, test);
        }
      }
    }
    assert seen == goal by { BackwardNull(t, n); }
    IsPrefixSelf(n);
    RestOfAncestor(t, n, n);
    PrecedingAxis(t, n);
  }

  lemma {:induction false} BackwardNull(t: Tree, n: Path)
    ensures Backward(t, n, Null) == []
  {
  }

  lemma {:induction false} NotAncestor(n: Path, q: Path)
    requires OnAxis(Preceding, n, q)
    ensures !IsPrefix(q, n)
  {
  }

  lemma {:induction false} IsPrefixSelf(n: Path)
    ensures IsPrefix(n, n)
  {
  }

  // ---------------------------------------------------------------- children, siblings, parent

  /** The loop over `next_sibling` that starts at the child `from` of `up`. */
  method FillOnward(t: Tree, up: Path, from: nat, test: Path -> bool) returns (ns: seq<Path>)
    requires Has(t, up) && from <= |Sub(t, up).children|
    ensures ns == Keep(Branch(up, from, |Sub(t, up).children|), test)
  {
    hide Keep, Has, Sub;
    ns := [];
    KeepNone(test);
    ghost var k, j := |Sub(t, up).children|, from;
    var cur := if from < |Sub(t, up).children| then At(up + [from]) else Null;
    while cur != Null
      invariant from <= j <= k && cur == if j < k then At(up + [j]) else Null
      invariant ns == Keep(Branch(up, from, j), test)
      decreases k - j
    {
      NextOnward(t, up, j);
      ns := Push(ns, cur, test);
      KeepPush(Branch(up, from, j), up + [j], test);
      cur := NextSibling(t, cur);
      j := j + 1;
    }
  }

  lemma {:induction false} NextOnward(t: Tree, up: Path, j: nat)
    requires Has(t, up) && j < |Sub(t, up).children|
    ensures Has(t, up + [j]) && NextSibling(t, At(up + [j])) == if j + 1 < |Sub(t, up).children| then At(up + [j + 1]) else Null
    ensures PreviousSibling(t, At(up + [j])) == if j > 0 then At(up + [j - 1]) else Null
  {
    HasStep(t, up, j);
    assert Up(up + [j]) == up && Last(up + [j]) == j;
  }

  method FillChildren(t: Tree, n: Path, test: Path -> bool) returns (ns: seq<Path>)
    requires Has(t, n)
    ensures ns == Keep(Chosen(Document(t), Child, n), test)
  {
    hide Keep, Chosen, Document, Branch;
    ns := FillOnward(t, n, 0, test);
    ChildAxis(t, n);
  }

  method FillFollowingSiblings(t: Tree, n: Path, test: Path -> bool) returns (ns: seq<Path>)
    requires Has(t, n)
    ensures ns == Keep(Chosen(Document(t), FollowingSibling, n), test)
  {
    hide Keep, Chosen, Document, Branch;
    if n == [] {
      RootAlone(t);
      KeepNone(test);
      return [];
    }
    HasUp(t, n);
    ns := FillOnward(t, Up(n), Last(n) + 1, test);
    SiblingAxes(t, n);
  }

  /** The loop over `previous_sibling`. */
  method FillPrecedingSiblings(t: Tree, n: Path, test: Path -> bool) returns (ns: seq<Path>)
    requires Has(t, n)
    ensures ns == Keep(Reverse(Chosen(Document(t), PrecedingSibling, n)), test)
  {
    hide Keep, Chosen, Document, Has, Sub, Branch;
    ns := [];
    KeepNone(test);
    var cur := PreviousSibling(t, At(n));
    if n == [] {
      RootAlone(t);
      return;
    }
    ghost var up, i := Up(n), Last(n);
    HasUp(t, n);
    SiblingAxes(t, n);
    assert n == up + [i];
    NextOnward(t, up, i);
    BranchNone(up, i);
    ghost var j := i;
    while cur != Null
      invariant j <= i && cur == if j > 0 then At(up + [j - 1]) else Null
      invariant ns == Keep(Reverse(Branch(up, j, i)), test)
      decreases j
    {
      NextOnward(t, up, j - 1);
      ns := Push(ns, cur, test);
      BranchBack(up, j - 1, i, test);
      cur := PreviousSibling(t, cur);
      j := j - 1;
    }
  }

  lemma {:induction false} BranchNone(up: Path, i: nat)
    ensures Reverse(Branch(up, i, i)) == []
  {
  }

  lemma {:induction false} BranchBack(up: Path, j: nat, i: nat, test: Path -> bool)
    requires j < i
    ensures Keep(Reverse(Branch(up, j, i)), test) ==
            Keep(Reverse(Branch(up, j + 1, i)), test) + if test(up + [j]) then [up + [j]] else []
  {
    var rest := Branch(up, j + 1, i);
    BranchFirst(up, j, i);
    assert ([up + [j]] + rest)[1..] == rest;
    KeepPush(Reverse(rest), up + [j], test);
  }

  method FillParent(t: Tree, n: Path, test: Path -> bool) returns (ns: seq<Path>)
    requires Has(t, n)
    ensures ns == Keep(Chosen(Document(t), Parent, n), test)
  {
    hide Keep, Chosen, Document;
    ns := [];
    KeepNone(test);
    if ParentOf(At(n)) != Null {
      ns := Push(ns, ParentOf(At(n)), test);
      KeepPush([], Up(n), test);
      ParentAxis(t, n);
      assert [] + [Up(n)] == [Up(n)];
    } else {
      RootAlone(t);
    }
  }

  method FillSelf(t: Tree, n: Path, test: Path -> bool) returns (ns: seq<Path>)
    requires Has(t, n)
    ensures ns == Keep(Chosen(Document(t), Self, n), test)
  {
    hide Keep, Chosen, Document;
    ns := Push([], At(n), test);
    SelfAxis(t, n);
    KeepNone(test);
    KeepPush([], n, test);
    assert [] + [n] == [n];
  }

  /**
    `step_fill` from a node, with any node test: exactly the nodes on the axis that pass it,
    each once, in document order on a forward axis and against it on a reverse one.
    */
  method StepFill(t: Tree, n: Path, axis: Axis, test: Path -> bool) returns (ns: seq<Path>)
    requires Has(t, n)
    ensures ns == Keep(AxisNodes(t, axis, n), test)
    ensures forall p :: p in ns <==> Has(t, p) && OnAxis(axis, n, p) && test(p)
    ensures Runs(ns, !IsReverse(axis))
  {
    hide Keep, Chosen, Document, Reverse, OnAxis, Has, Runs;
    match axis {
      case Self => ns := FillSelf(t, n, test);
      case Child => ns := FillChildren(t, n, test);
      case Descendant => ns := FillDescendants(t, n, false, test);
      case DescendantOrSelf => ns := FillDescendants(t, n, true, test);
      case Parent => ns := FillParent(t, n, test);
      case Ancestor => ns := FillAncestors(t, n, false, test);
      case AncestorOrSelf => ns := FillAncestors(t, n, true, test);
      case FollowingSibling => ns := FillFollowingSiblings(t, n, test);
      case PrecedingSibling => ns := FillPrecedingSiblings(t, n, test);
      case Following => ns := FillFollowing(t, n, test);
      case Preceding => ns := FillPreceding(t, n, test);
    }
    KeptList(t, axis, n, test);
  }

  lemma {:induction false} KeptList(t: Tree, axis: Axis, n: Path, test: Path -> bool)
    ensures var ns := Keep(AxisNodes(t, axis, n), test);
            (forall p :: p in ns <==> Has(t, p) && OnAxis(axis, n, p) && test(p)) && Runs(ns, !IsReverse(axis))
  {
    hide *;
    var s := AxisNodes(t, axis, n);
    AxisList(t, axis, n);
    KeepRuns(s, test, !IsReverse(axis));
    forall p ensures p in Keep(s, test) <==> Has(t, p) && OnAxis(axis, n, p) && test(p) {
      KeepMembers(s, test, p);
    }
  }

  // ---------------------------------------------------------------- node_is_before

  /** `node_height`: the number of nodes on the way to the document node. */
  method NodeHeight(h: Handle) returns (height: nat)
    ensures height == if h.Null? then 0 else |h.path| + 1
  {
    height := 0;
    var n := h;
    while n != Null
      invariant height + (if n.Null? then 0 else |n.path| + 1) == if h.Null? then 0 else |h.path| + 1
      decreases if n.Null? then 0 else |n.path| + 1
    {
      height := height + 1;
      n := ParentOf(n);
    }
  }

  /** The ancestor-or-self of `p` with `k` fewer steps. */
  method Lift(p: Path, k: nat) returns (q: Path)
    requires k <= |p|
    ensures q == p[..|p| - k]
  {
    q := p;
    for i := 0 to k
      invariant q == p[..|p| - i]
    {
      q := Up(q);
    }
  }

  /** Below a common parent, the first differing position decides the order of everything further down. */
  lemma {:induction false} BranchOrder(c: Path, l: Path, r: Path)
    requires IsPrefix(c, l) && IsPrefix(c, r) && |c| < |l| && |c| < |r| && l[|c|] != r[|c|]
    ensures DocLess(l, r) <==> l[|c|] < r[|c|]
  {
    assert l == c + l[|c|..] && r == c + r[|c|..];
    DocLessCommonPrefix(c, l[|c|..], r[|c|..]);
  }

  /** `node_is_before` on nodes of one document, called with their true heights, is document order. */
  method NodeIsBefore(t: Tree, l: Path, lh: nat, r: Path, rh: nat) returns (before: bool)
    requires Has(t, l) && Has(t, r) && lh == |l| + 1 && rh == |r| + 1
    ensures before <==> DocLess(l, r)
  {
    // bring both to the depth of the shallower one
    var ln := Lift(l, if rh < lh then lh - rh else 0);
    var rn := Lift(r, if lh < rh then rh - lh else 0);
    assert IsPrefix(ln, l) && IsPrefix(rn, r) && |ln| == |rn|;
    if ln == rn {
      PrefixBefore(l, r);
      PrefixBefore(r, l);
      DocLessTrichotomy(l, r);
      return lh < rh;
    }
    // climb until both hang on one parent
    while Up(ln) != Up(rn)
      invariant IsPrefix(ln, l) && IsPrefix(rn, r) && |ln| == |rn| && ln != rn
      decreases |ln|
    {
      PrefixUp(ln, l);
      PrefixUp(rn, r);
      ln, rn := Up(ln), Up(rn);
    }
    PrefixUp(ln, l);
    PrefixUp(rn, r);
    ghost var c := Up(ln);
    assert ln == c + [Last(ln)] && rn == c + [Last(rn)];
    assert l[|c|] == l[..|ln|][|c|] == Last(ln) && r[|c|] == r[..|rn|][|c|] == Last(rn);
    BranchOrder(c, l, r);
    PrefixHas(t, l, ln);
    PrefixHas(t, r, rn);
    before := SiblingReaches(t, ln, rn);
  }

  lemma {:induction false} PrefixHas(t: Tree, p: Path, q: Path)
    requires Has(t, p) && IsPrefix(q, p)
    ensures Has(t, q)
    decreases |p|
  {
    if q != p {
      HasUp(t, p);
      UnderUp(q, p);
      PrefixHas(t, Up(p), q);
    }
  }

  /** Walks the sibling list from `l`: true exactly when `r` is `l` or a later sibling. */
  method SiblingReaches(t: Tree, l: Path, r: Path) returns (found: bool)
    requires Has(t, l) && Has(t, r) && l != [] && r != [] && Up(l) == Up(r)
    ensures found <==> Last(l) <= Last(r)
  {
    var cur := At(l);
    HasUp(t, r);
    assert r == Up(r) + [Last(r)];
    while cur != Null
      invariant InTree(t, cur)
      invariant cur.At? ==> cur.path != [] && Up(cur.path) == Up(l) && Last(l) <= Last(cur.path)
      invariant cur.At? ==> (Last(l) <= Last(r) <==> Last(cur.path) <= Last(r))
      invariant cur.Null? ==> Last(r) < Last(l)
      decreases if cur.Null? then 0 else 1 + |Sub(t, Up(r)).children| - Last(cur.path)
    {
      HasUp(t, cur.path);
      if cur == At(r) {
        return true;
      }
      assert cur.path == Up(r) + [Last(cur.path)];
      cur := NextSibling(t, cur);
    }
    return false;
  }
}
