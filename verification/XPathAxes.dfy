/**
  The XPath axes as pugixml walks them: cursor loops over parent, child and sibling links,
  without a stack and without marking nodes.
  */
module XPathAxes {
  import opened XmlTree

  datatype Axis =
    | Self | Child | Descendant | DescendantOrSelf | Parent | Ancestor | AncestorOrSelf
    | FollowingSibling | PrecedingSibling | Following | Preceding

  /** The axes as section 2.2 of XPath 1.0 defines them, for the context node `n`. */
  predicate OnAxis(axis: Axis, n: Path, p: Path) {
    match axis
    case Self => p == n
    case Child => p != [] && Up(p) == n
    case Parent => n != [] && p == Up(n)
    case FollowingSibling => p != [] && n != [] && Up(p) == Up(n) && Last(n) < Last(p)
    case PrecedingSibling => p != [] && n != [] && Up(p) == Up(n) && Last(p) < Last(n)
    case Descendant => p != n && IsPrefix(n, p)
    case DescendantOrSelf => IsPrefix(n, p)
    case Ancestor => p != n && IsPrefix(p, n)
    case AncestorOrSelf => IsPrefix(p, n)
    case Following => DocLess(n, p) && !IsPrefix(n, p)
    case Preceding => DocLess(p, n) && !IsPrefix(p, n)
  }

  predicate Basic(axis: Axis) {
    axis.Self? || axis.Descendant? || axis.Ancestor? || axis.Following? || axis.Preceding?
  }

  /** Five of the axes divide the nodes of a document between them: every node is on exactly one. */
  lemma {:induction false} AxesPartition(n: Path, p: Path) returns (axis: Axis)
    ensures Basic(axis) && OnAxis(axis, n, p)
    ensures forall other :: Basic(other) && OnAxis(other, n, p) ==> other == axis
  {
    DocLessTrichotomy(n, p);
    PrefixBefore(n, p);
    PrefixBefore(p, n);
    axis := if p == n then Self
            else if IsPrefix(n, p) then Descendant
            else if IsPrefix(p, n) then Ancestor
            else if DocLess(n, p) then Following
            else Preceding;
  }

  lemma {:induction false} PrefixBefore(p: Path, q: Path)
    ensures IsPrefix(p, q) && p != q ==> DocLess(p, q)
  {
    if IsPrefix(p, q) && p != q {
      assert q == p + q[|p|..] && p == p + [];
      DocLessCommonPrefix(p, [], q[|p|..]);
    }
  }

  /** The nodes of `s` that are on an axis, in the order of `s`. */
  function Chosen(s: seq<Path>, axis: Axis, n: Path): (r: seq<Path>) {
    if s == [] then []
    else Chosen(s[..|s| - 1], axis, n) + (if OnAxis(axis, n, s[|s| - 1]) then [s[|s| - 1]] else [])
  }

  /** The nodes of `s` that pass a node test, in the order of `s`. */
  function Keep(s: seq<Path>, test: Path -> bool): (r: seq<Path>) {
    if s == [] then []
    else Keep(s[..|s| - 1], test) + (if test(s[|s| - 1]) then [s[|s| - 1]] else [])
  }

  function Reverse(s: seq<Path>): (r: seq<Path>) {
    if s == [] then [] else Reverse(s[1..]) + [s[0]]
  }

  lemma {:induction false} ReverseConcat(s: seq<Path>, u: seq<Path>)
    ensures Reverse(s + u) == Reverse(u) + Reverse(s)
  {
    if s == [] {
      assert s + u == u;
    } else {
      assert (s + u)[1..] == s[1..] + u;
      ReverseConcat(s[1..], u);
    }
  }

  lemma {:induction false} ChosenConcat(s: seq<Path>, u: seq<Path>, axis: Axis, n: Path)
    ensures Chosen(s + u, axis, n) == Chosen(s, axis, n) + Chosen(u, axis, n)
  {
    hide OnAxis;
    if u == [] {
      assert s + u == s;
    } else {
      assert (s + u)[..|s + u| - 1] == s + u[..|u| - 1];
      ChosenConcat(s, u[..|u| - 1], axis, n);
    }
  }

  lemma {:induction false} ChosenAll(s: seq<Path>, axis: Axis, n: Path)
    requires forall p :: p in s ==> OnAxis(axis, n, p)
    ensures Chosen(s, axis, n) == s
  {
    hide OnAxis;
    if s != [] {
      assert s == s[..|s| - 1] + [s[|s| - 1]];
      ChosenAll(s[..|s| - 1], axis, n);
    }
  }

  lemma {:induction false} ChosenNone(s: seq<Path>, axis: Axis, n: Path)
    requires forall p :: p in s ==> !OnAxis(axis, n, p)
    ensures Chosen(s, axis, n) == []
  {
    hide OnAxis;
    if s != [] {
      assert s == s[..|s| - 1] + [s[|s| - 1]];
      ChosenNone(s[..|s| - 1], axis, n);
    }
  }

  lemma {:induction false} KeepPush(s: seq<Path>, p: Path, test: Path -> bool)
    ensures Keep(s + [p], test) == Keep(s, test) + (if test(p) then [p] else [])
  {
    assert (s + [p])[..|s|] == s;
  }

  /** Where the parts of a document lie, seen from the node that splits it. */
  lemma {:induction false} DocumentParts(t: Tree, n: Path)
    requires Has(t, n)
    ensures Document(t) == Before(t, n) + [n] + PreFrom(Sub(t, n), n, 0) + After(t, 0, n)
    ensures forall p :: p in Before(t, n) ==> DocLess(p, n)
    ensures forall p :: p in PreFrom(Sub(t, n), n, 0) ==> p != n && IsPrefix(n, p)
    ensures forall p :: p in After(t, 0, n) ==> DocLess(n, p) && !IsPrefix(n, p)
  {
    hide *;
    DocumentSplit(t, n);
    RootFirst(Sub(t, n), n);
    forall p | p in PreFrom(Sub(t, n), n, 0) ensures p != n && IsPrefix(n, p) {
      PreFromMembers(Sub(t, n), n, 0, p);
    }
    forall p | p in Before(t, n) ensures DocLess(p, n) {
      EarlierPart(t, n, p);
    }
    forall p | p in After(t, 0, n) ensures DocLess(n, p) && !IsPrefix(n, p) {
      LaterPart(t, n, p);
    }
  }

  lemma {:induction false} RootFirst(s: Tree, p: Path)
    ensures Pre(s, p) == [p] + PreFrom(s, p, 0)
  {
  }

  lemma {:induction false} EarlierPart(t: Tree, n: Path, p: Path)
    requires Has(t, n) && p in Before(t, n)
    ensures DocLess(p, n)
  {
    DocumentSplit(t, n);
    DocumentOrder(t);
    var b, pre := Before(t, n), Pre(Sub(t, n), n);
    assert pre[0] == n;
    hide *;
    var d := Document(t);
    var i :| 0 <= i < |b| && b[i] == p;
    assert d[i] == p && d[|b|] == n;
  }

  lemma {:induction false} LaterPart(t: Tree, n: Path, p: Path)
    requires Has(t, n) && p in After(t, 0, n)
    ensures DocLess(n, p) && !IsPrefix(n, p)
  {
    DocumentSplit(t, n);
    DocumentOrder(t);
    RootFirst(Sub(t, n), n);
    hide *;
    var pre := Pre(Sub(t, n), n);
    LaterInList(Before(t, n), pre, After(t, 0, n), n, p);
    assert p in Document(t);
    if IsPrefix(n, p) {
      HasUnder(t, n, p);
      PreMembers(Sub(t, n), n, p);
    }
  }

  lemma {:induction false} LaterInList(b: seq<Path>, pre: seq<Path>, after: seq<Path>, n: Path, p: Path)
    requires InOrder(b + pre + after) && pre != [] && pre[0] == n && p in after
    ensures DocLess(n, p) && p !in pre
  {
    hide DocLess;
    var j :| 0 <= j < |after| && after[j] == p;
    forall i | 0 <= i < |pre| ensures DocLess(pre[i], p) && pre[i] != p {
      var d := b + pre + after;
      assert d[|b| + i] == pre[i] && d[|b| + |pre| + j] == p;
      DocLessTrichotomy(pre[i], p);
    }
  }

  lemma {:induction false} HasUnder(t: Tree, n: Path, p: Path)
    requires Has(t, n) && Has(t, p) && IsPrefix(n, p)
    ensures Has(Sub(t, n), p[|n|..])
    decreases |n|
  {
    if n == [] {
      assert p[0..] == p;
    } else {
      assert p[0] == p[..|n|][0] == n[0];
      assert p[1..][..|n| - 1] == p[..|n|][1..] == n[1..];
      HasUnder(t.children[n[0]], n[1..], p[1..]);
      assert p[1..][|n| - 1..] == p[|n|..];
    }
  }

  /** Selecting an axis from a document selects it from each part. */
  lemma {:induction false} ChosenParts(t: Tree, axis: Axis, n: Path)
    requires Has(t, n)
    ensures Chosen(Document(t), axis, n) ==
            Chosen(Before(t, n), axis, n) + Chosen([n], axis, n) + Chosen(PreFrom(Sub(t, n), n, 0), axis, n) + Chosen(After(t, 0, n), axis, n)
  {
    DocumentParts(t, n);
    hide *;
    var b, desc, after := Before(t, n), PreFrom(Sub(t, n), n, 0), After(t, 0, n);
    ChosenConcat(b + [n] + desc, after, axis, n);
    ChosenConcat(b + [n], desc, axis, n);
    ChosenConcat(b, [n], axis, n);
  }

  lemma {:induction false} NotEarlier(p: Path, n: Path)
    requires DocLess(p, n)
    ensures p != n && !IsPrefix(n, p) && !DocLess(n, p)
  {
    DocLessTrichotomy(p, n);
    PrefixBefore(n, p);
  }

  /** The lists the forward traversals produce are exactly the nodes on the axis, in document order. */
  lemma {:induction false} DescendantAxis(t: Tree, n: Path, axis: Axis)
    requires Has(t, n) && (axis.Descendant? || axis.DescendantOrSelf?)
    ensures Chosen(Document(t), axis, n) == (if axis.DescendantOrSelf? then [n] else []) + PreFrom(Sub(t, n), n, 0)
  {
    hide Document, Before, PreFrom, After;
    ChosenParts(t, axis, n);
    DocumentParts(t, n);
    forall p | p in Before(t, n) ensures !OnAxis(axis, n, p) { NotEarlier(p, n); }
    ChosenNone(Before(t, n), axis, n);
    if axis.Descendant? { ChosenNone([n], axis, n); } else { ChosenAll([n], axis, n); }
    ChosenAll(PreFrom(Sub(t, n), n, 0), axis, n);
    ChosenNone(After(t, 0, n), axis, n);
  }

  lemma {:induction false} FollowingAxis(t: Tree, n: Path)
    requires Has(t, n)
    ensures Chosen(Document(t), Following, n) == After(t, 0, n)
  {
    hide Document, Before, PreFrom, After;
    ChosenParts(t, Following, n);
    DocumentParts(t, n);
    forall p | p in Before(t, n) ensures !OnAxis(Following, n, p) { NotEarlier(p, n); }
    DocLessTrichotomy(n, n);
    ChosenNone(Before(t, n), Following, n);
    ChosenNone([n], Following, n);
    ChosenNone(PreFrom(Sub(t, n), n, 0), Following, n);
    ChosenAll(After(t, 0, n), Following, n);
  }

  /** Nothing at or after `n` is an ancestor of it or precedes it. */
  lemma {:induction false} ReverseAxesBefore(t: Tree, n: Path, axis: Axis)
    requires Has(t, n) && (axis.Ancestor? || axis.Preceding?)
    ensures Chosen(Document(t), axis, n) == Chosen(Before(t, n), axis, n)
  {
    hide Document, Before, PreFrom, After;
    ChosenParts(t, axis, n);
    DocumentParts(t, n);
    DocLessTrichotomy(n, n);
    ChosenNone([n], axis, n);
    forall p | p in PreFrom(Sub(t, n), n, 0) ensures !OnAxis(axis, n, p) { PrefixBefore(n, p); NotEarlier(n, p); }
    ChosenNone(PreFrom(Sub(t, n), n, 0), axis, n);
    forall p | p in After(t, 0, n) ensures !OnAxis(axis, n, p) { NotEarlier(n, p); }
    ChosenNone(After(t, 0, n), axis, n);
  }

  lemma {:induction false} PreUpToMembers(s: Tree, p: Path, i: nat, q: Path)
    requires i <= |s.children| && q in PreUpTo(s, p, i)
    ensures IsPrefix(p, q) && |p| < |q| && q[|p|] < i
    decreases i
  {
    if q in PreUpTo(s, p, i - 1) {
      PreUpToMembers(s, p, i - 1, q);
    } else {
      PreMembers(s.children[i - 1], p + [i - 1], q);
      assert q[..|p|] == q[..|p| + 1][..|p|] == p;
      assert q[|p|] == q[..|p| + 1][|p|] == i - 1;
    }
  }

  /** A node in a branch before the one that leads to `n` precedes `n` and is no ancestor of it. */
  lemma {:induction false} EarlierBranch(p: Path, n: Path, k: nat)
    requires k < |n| && k < |p| && p[..k] == n[..k] && p[k] < n[k]
    ensures OnAxis(Preceding, n, p) && !OnAxis(Ancestor, n, p)
  {
    assert p == n[..k] + p[k..] && n == n[..k] + n[k..];
    DocLessCommonPrefix(n[..k], p[k..], n[k..]);
    assert |p| <= |n| ==> n[..|p|][k] == n[k];
  }

  lemma {:induction false} BranchesBefore(t: Tree, q: Path, n: Path, p: Path)
    requires q != [] && Has(t, q) && IsPrefix(q, n)
    requires Has(t, Up(q)) && Last(q) < |Sub(t, Up(q)).children| && p in PreUpTo(Sub(t, Up(q)), Up(q), Last(q))
    ensures OnAxis(Preceding, n, p) && !OnAxis(Ancestor, n, p)
  {
    var up := Up(q);
    PreUpToMembers(Sub(t, up), up, Last(q), p);
    assert n[..|up|] == n[..|q|][..|up|] == up;
    assert n[|up|] == n[..|q|][|up|] == Last(q);
    EarlierBranch(p, n, |up|);
  }

  /** The ancestors of a node, nearest first. */
  function Ancestors(q: Path): (r: seq<Path>)
    decreases |q|
  {
    if q == [] then [] else [Up(q)] + Ancestors(Up(q))
  }

  /** The nodes that precede a node, last one first. */
  function Precedings(t: Tree, q: Path): (r: seq<Path>)
    requires Has(t, q)
    decreases |q|
  {
    if q == [] then []
    else HasUp(t, q); Reverse(PreUpTo(Sub(t, Up(q)), Up(q), Last(q))) + Precedings(t, Up(q))
  }

  /** What one more step down the path to `n` adds to the nodes chosen before it. */
  lemma {:induction false} ChosenStep(t: Tree, q: Path, n: Path, axis: Axis)
    requires q != [] && Has(t, q) && IsPrefix(q, n) && (axis.Ancestor? || axis.Preceding?)
    requires Has(t, Up(q)) && Last(q) < |Sub(t, Up(q)).children|
    ensures Chosen(Before(t, q), axis, n) ==
            Chosen(Before(t, Up(q)), axis, n) + (if axis.Ancestor? then [Up(q)] else PreUpTo(Sub(t, Up(q)), Up(q), Last(q)))
  {
    hide *;
    var up := Up(q);
    var s := PreUpTo(Sub(t, up), up, Last(q));
    BeforeStep(t, q);
    forall p | p in s ensures OnAxis(Preceding, n, p) && !OnAxis(Ancestor, n, p) {
      BranchesBefore(t, q, n, p);
    }
    UpIsAncestor(q, n);
    ChosenConcat(Before(t, up) + [up], s, axis, n);
    ChosenConcat(Before(t, up), [up], axis, n);
    if axis.Ancestor? {
      ChosenNone(s, axis, n);
      ChosenAll([up], axis, n);
    } else {
      ChosenAll(s, axis, n);
      ChosenNone([up], axis, n);
    }
  }

  lemma {:induction false} PrefixUp(q: Path, n: Path)
    requires q != [] && IsPrefix(q, n)
    ensures IsPrefix(Up(q), n)
  {
    assert n[..|q| - 1] == n[..|q|][..|q| - 1];
  }

  lemma {:induction false} ChosenAncestors(t: Tree, q: Path, n: Path)
    requires Has(t, q) && IsPrefix(q, n)
    ensures Reverse(Chosen(Before(t, q), Ancestor, n)) == Ancestors(q)
    decreases |q|
  {
    hide Chosen, OnAxis, IsPrefix;
    if q == [] {
      ChosenNone([], Ancestor, n);
    } else {
      HasUp(t, q);
      PrefixUp(q, n);
      ChosenAncestors(t, Up(q), n);
      ChosenStep(t, q, n, Ancestor);
      ReverseConcat(Chosen(Before(t, Up(q)), Ancestor, n), [Up(q)]);
      assert Reverse([Up(q)]) == [Up(q)];
    }
  }

  lemma {:induction false} ChosenPrecedings(t: Tree, q: Path, n: Path)
    requires Has(t, q) && IsPrefix(q, n)
    ensures Reverse(Chosen(Before(t, q), Preceding, n)) == Precedings(t, q)
    decreases |q|
  {
    hide Chosen, OnAxis, IsPrefix;
    if q == [] {
      ChosenNone([], Preceding, n);
    } else {
      HasUp(t, q);
      PrefixUp(q, n);
      ChosenPrecedings(t, Up(q), n);
      ChosenStep(t, q, n, Preceding);
      ReverseConcat(Chosen(Before(t, Up(q)), Preceding, n), PreUpTo(Sub(t, Up(q)), Up(q), Last(q)));
    }
  }

  lemma {:induction false} BeforeStep(t: Tree, q: Path)
    requires q != [] && Has(t, q) && Has(t, Up(q)) && Last(q) < |Sub(t, Up(q)).children|
    ensures Before(t, q) == Before(t, Up(q)) + [Up(q)] + PreUpTo(Sub(t, Up(q)), Up(q), Last(q))
  {
  }

  lemma {:induction false} UpIsAncestor(q: Path, n: Path)
    requires q != [] && IsPrefix(q, n)
    ensures OnAxis(Ancestor, n, Up(q)) && !OnAxis(Preceding, n, Up(q))
  {
    assert n[..|q| - 1] == n[..|q|][..|q| - 1];
  }

  lemma {:induction false} AncestorAxis(t: Tree, n: Path)
    requires Has(t, n)
    ensures Reverse(Chosen(Document(t), Ancestor, n)) == Ancestors(n)
  {
    ReverseAxesBefore(t, n, Ancestor);
    ChosenAncestors(t, n, n);
  }

  lemma {:induction false} PrecedingAxis(t: Tree, n: Path)
    requires Has(t, n)
    ensures Reverse(Chosen(Document(t), Preceding, n)) == Precedings(t, n)
  {
    ReverseAxesBefore(t, n, Preceding);
    ChosenPrecedings(t, n, n);
  }

  lemma {:induction false} AncestorOrSelfAxis(t: Tree, n: Path)
    requires Has(t, n)
    ensures Chosen(Document(t), AncestorOrSelf, n) == Chosen(Document(t), Ancestor, n) + [n]
  {
    ChosenParts(t, AncestorOrSelf, n);
    ReverseAxesBefore(t, n, Ancestor);
    DocumentParts(t, n);
    var b, desc, after := Before(t, n), PreFrom(Sub(t, n), n, 0), After(t, 0, n);
    hide Document, Before, PreFrom, After;
    forall p | p in b ensures OnAxis(AncestorOrSelf, n, p) <==> OnAxis(Ancestor, n, p) { NotEarlier(p, n); }
    ChosenSame(b, AncestorOrSelf, Ancestor, n);
    ChosenAll([n], AncestorOrSelf, n);
    forall p | p in desc ensures !OnAxis(AncestorOrSelf, n, p) { PrefixBefore(n, p); NotEarlier(n, p); }
    ChosenNone(desc, AncestorOrSelf, n);
    forall p | p in after ensures !OnAxis(AncestorOrSelf, n, p) { NotEarlier(n, p); }
    ChosenNone(after, AncestorOrSelf, n);
  }

  lemma {:induction false} ChosenSame(s: seq<Path>, a: Axis, b: Axis, n: Path)
    requires forall p :: p in s ==> (OnAxis(a, n, p) <==> OnAxis(b, n, p))
    ensures Chosen(s, a, n) == Chosen(s, b, n)
  {
    hide OnAxis;
    if s != [] {
      assert s == s[..|s| - 1] + [s[|s| - 1]];
      ChosenSame(s[..|s| - 1], a, b, n);
    }
  }

  lemma {:induction false} SelfAxis(t: Tree, n: Path)
    requires Has(t, n)
    ensures Chosen(Document(t), Self, n) == [n]
  {
    ChosenParts(t, Self, n);
    DocumentParts(t, n);
    hide Document, Before, PreFrom, After;
    forall p | p in Before(t, n) ensures p != n { NotEarlier(p, n); }
    forall p | p in After(t, 0, n) ensures p != n { NotEarlier(n, p); }
    ChosenNone(Before(t, n), Self, n);
    ChosenAll([n], Self, n);
    ChosenNone(PreFrom(Sub(t, n), n, 0), Self, n);
    ChosenNone(After(t, 0, n), Self, n);
  }

  // ---------------------------------------------------------------- what the lists hold, and in which order

  predicate IsReverse(axis: Axis) {
    axis.Ancestor? || axis.AncestorOrSelf? || axis.Preceding? || axis.PrecedingSibling?
  }

  /** The nodes on an axis in the order the axis has: reverse axes run against document order. */
  function AxisNodes(t: Tree, axis: Axis, n: Path): (r: seq<Path>) {
    if IsReverse(axis) then Reverse(Chosen(Document(t), axis, n)) else Chosen(Document(t), axis, n)
  }

  /** Strictly in document order, or strictly against it; either way without repeats. */
  ghost predicate Runs(s: seq<Path>, forward: bool) {
    forall i, j :: 0 <= i < j < |s| ==> if forward then DocLess(s[i], s[j]) else DocLess(s[j], s[i])
  }

  lemma {:induction false} KeepMembers(s: seq<Path>, test: Path -> bool, p: Path)
    ensures p in Keep(s, test) <==> p in s && test(p)
  {
    if s != [] {
      assert s == s[..|s| - 1] + [s[|s| - 1]];
      KeepMembers(s[..|s| - 1], test, p);
    }
  }

  lemma {:induction false} KeepRuns(s: seq<Path>, test: Path -> bool, forward: bool)
    requires Runs(s, forward)
    ensures Runs(Keep(s, test), forward)
  {
    if s != [] {
      var init, last := s[..|s| - 1], s[|s| - 1];
      KeepRuns(init, test, forward);
      forall p | p in Keep(init, test) ensures if forward then DocLess(p, last) else DocLess(last, p) {
        KeepMembers(init, test, p);
        var i :| 0 <= i < |init| && init[i] == p;
        assert s[i] == p;
      }
    }
  }

  lemma {:induction false} ChosenIsKeep(s: seq<Path>, axis: Axis, n: Path)
    ensures Chosen(s, axis, n) == Keep(s, p => OnAxis(axis, n, p))
  {
    hide OnAxis;
    if s != [] {
      ChosenIsKeep(s[..|s| - 1], axis, n);
    }
  }

  lemma {:induction false} ReverseMembers(s: seq<Path>)
    ensures multiset(Reverse(s)) == multiset(s) && |Reverse(s)| == |s|
    ensures forall p :: p in Reverse(s) <==> p in s
  {
    if s != [] {
      assert s == [s[0]] + s[1..];
      ReverseMembers(s[1..]);
    }
  }

  lemma {:induction false} ReverseRuns(s: seq<Path>, forward: bool)
    requires Runs(s, forward)
    ensures Runs(Reverse(s), !forward)
  {
    if s != [] {
      var rest := s[1..];
      ReverseRuns(rest, forward);
      ReverseMembers(rest);
      forall p | p in Reverse(rest) ensures if forward then DocLess(s[0], p) else DocLess(p, s[0]) {
        var i :| 0 <= i < |rest| && rest[i] == p;
        assert s[i + 1] == p;
      }
    }
  }

  lemma {:induction false} ChosenList(t: Tree, axis: Axis, n: Path)
    ensures forall p :: p in Chosen(Document(t), axis, n) <==> Has(t, p) && OnAxis(axis, n, p)
    ensures Runs(Chosen(Document(t), axis, n), true)
  {
    DocumentOrder(t);
    hide OnAxis, Keep, Document, Has, DocLess;
    var d := Document(t);
    ChosenIsKeep(d, axis, n);
    KeepRuns(d, p => OnAxis(axis, n, p), true);
    forall p ensures p in Chosen(d, axis, n) <==> Has(t, p) && OnAxis(axis, n, p) {
      KeepMembers(d, p => OnAxis(axis, n, p), p);
    }
  }

  /** The list of an axis holds exactly the nodes on it, each once, strictly in or against document order. */
  lemma {:induction false} AxisList(t: Tree, axis: Axis, n: Path)
    ensures forall p :: p in AxisNodes(t, axis, n) <==> Has(t, p) && OnAxis(axis, n, p)
    ensures Runs(AxisNodes(t, axis, n), !IsReverse(axis))
  {
    hide OnAxis, Document, Has, Chosen, Reverse, Runs;
    ChosenList(t, axis, n);
    if IsReverse(axis) {
      var c := Chosen(Document(t), axis, n);
      ReverseMembers(c);
      ReverseRuns(c, true);
    }
  }

  /** How often the list of an axis names a node. */
  ghost function Times(s: seq<Path>, axis: Axis, n: Path, p: Path): nat {
    multiset(Chosen(s, axis, n))[p]
  }

  lemma {:induction false} TimesStep(s: seq<Path>, last: Path, axis: Axis, n: Path, p: Path)
    ensures Times(s + [last], axis, n, p) == Times(s, axis, n, p) + if p == last && OnAxis(axis, n, p) then 1 else 0
  {
    hide OnAxis;
    assert (s + [last])[..|s|] == s;
  }

  /** The five basic lists together name a node as often as the whole does. */
  lemma {:induction false} ShareOut(s: seq<Path>, n: Path, p: Path)
    ensures multiset(s)[p] ==
            Times(s, Self, n, p) + Times(s, Descendant, n, p) + Times(s, Ancestor, n, p) + Times(s, Following, n, p) + Times(s, Preceding, n, p)
  {
    if s != [] {
      hide OnAxis, Times;
      var init, last := s[..|s| - 1], s[|s| - 1];
      assert s == init + [last];
      ShareOut(init, n, p);
      var axis := AxesPartition(n, p);
      TimesStep(init, last, Self, n, p);
      TimesStep(init, last, Descendant, n, p);
      TimesStep(init, last, Ancestor, n, p);
      TimesStep(init, last, Following, n, p);
      TimesStep(init, last, Preceding, n, p);
    }
  }

  /** The five basic lists together are a permutation of the whole document. */
  lemma {:induction false} AxesShareOut(t: Tree, n: Path)
    ensures multiset(Document(t)) ==
            multiset(AxisNodes(t, Self, n)) + multiset(AxisNodes(t, Descendant, n)) + multiset(AxisNodes(t, Ancestor, n))
            + multiset(AxisNodes(t, Following, n)) + multiset(AxisNodes(t, Preceding, n))
  {
    hide Document, Chosen, Reverse;
    ReverseMembers(Chosen(Document(t), Ancestor, n));
    ReverseMembers(Chosen(Document(t), Preceding, n));
    var d := Document(t);
    forall p ensures multiset(d)[p] ==
                     Times(d, Self, n, p) + Times(d, Descendant, n, p) + Times(d, Ancestor, n, p) + Times(d, Following, n, p) + Times(d, Preceding, n, p) {
      ShareOut(d, n, p);
    }
  }

  /** A list in document order is determined by its members. */
  lemma {:induction false} SameRuns(s: seq<Path>, u: seq<Path>)
    requires Runs(s, true) && Runs(u, true) && forall p :: p in s <==> p in u
    ensures s == u
    decreases |s|
  {
    if s == [] || u == [] {
      HasMember(s);
      HasMember(u);
    } else {
      var a, b, x, y := s[..|s| - 1], u[..|u| - 1], s[|s| - 1], u[|u| - 1];
      assert s == a + [x] && u == b + [y];
      SameLast(s, u);
      forall p ensures p in a <==> p in b {
        LastOnce(s, p);
        LastOnce(u, p);
      }
      SameRuns(a, b);
    }
  }

  lemma {:induction false} HasMember(s: seq<Path>)
    ensures s != [] ==> exists p :: p in s
  {
    assert s != [] ==> s[0] in s;
  }

  lemma {:induction false} SameLast(s: seq<Path>, u: seq<Path>)
    requires s != [] && u != [] && Runs(s, true) && Runs(u, true) && forall p :: p in s <==> p in u
    ensures s[|s| - 1] == u[|u| - 1]
  {
    var x, y := s[|s| - 1], u[|u| - 1];
    assert x in u && y in s;
    var i :| 0 <= i < |s| && s[i] == y;
    var j :| 0 <= j < |u| && u[j] == x;
    DocLessTrichotomy(x, y);
  }

  lemma {:induction false} LastOnce(s: seq<Path>, p: Path)
    requires s != [] && Runs(s, true)
    ensures p in s[..|s| - 1] <==> p in s && p != s[|s| - 1]
  {
    var a, x := s[..|s| - 1], s[|s| - 1];
    assert s == a + [x];
    if p in a {
      var i :| 0 <= i < |a| && a[i] == p;
      assert s[i] == p;
      DocLessTrichotomy(p, x);
    }
  }

  // ---------------------------------------------------------------- children and siblings

  /** The nodes below `up` from the child `from` to the one before `past`. */
  function Branch(up: Path, from: nat, past: nat): (r: seq<Path>)
    requires from <= past
    decreases past
  {
    if from == past then [] else Branch(up, from, past - 1) + [up + [past - 1]]
  }

  lemma {:induction false} BranchList(up: Path, from: nat, past: nat)
    requires from <= past
    ensures forall p :: p in Branch(up, from, past) <==> p != [] && Up(p) == up && from <= Last(p) < past
    ensures Runs(Branch(up, from, past), true)
    decreases past
  {
    if from < past {
      var init, x := Branch(up, from, past - 1), up + [past - 1];
      BranchList(up, from, past - 1);
      forall p ensures p in init + [x] <==> p != [] && Up(p) == up && from <= Last(p) < past {
        assert p != [] ==> p == Up(p) + [Last(p)];
      }
      forall p | p in init ensures DocLess(p, x) {
        assert p == up + [Last(p)];
        DocLessCommonPrefix(up, [Last(p)], [past - 1]);
      }
    }
  }

  lemma {:induction false} BranchFirst(up: Path, from: nat, past: nat)
    requires from < past
    ensures Branch(up, from, past) == [up + [from]] + Branch(up, from + 1, past)
    decreases past
  {
    if from + 1 < past {
      BranchFirst(up, from, past - 1);
    }
  }

  /** A stretch of children that holds exactly the nodes on an axis is the list of that axis. */
  lemma {:induction false} BranchIsAxis(t: Tree, axis: Axis, n: Path, up: Path, from: nat, past: nat)
    requires from <= past && forall p :: Has(t, p) && OnAxis(axis, n, p) <==> p != [] && Up(p) == up && from <= Last(p) < past
    ensures Chosen(Document(t), axis, n) == Branch(up, from, past)
  {
    hide OnAxis, Document, Has, Chosen, Branch, Runs;
    ChosenList(t, axis, n);
    BranchList(up, from, past);
    SameRuns(Chosen(Document(t), axis, n), Branch(up, from, past));
  }

  lemma {:induction false} ChildAxis(t: Tree, n: Path)
    requires Has(t, n)
    ensures Chosen(Document(t), Child, n) == Branch(n, 0, |Sub(t, n).children|)
  {
    var k := |Sub(t, n).children|;
    hide Document, Has, Chosen, Branch;
    forall p ensures Has(t, p) && OnAxis(Child, n, p) <==> p != [] && Up(p) == n && 0 <= Last(p) < k {
      ChildExists(t, n, p);
    }
    BranchIsAxis(t, Child, n, n, 0, k);
  }

  lemma {:induction false} ChildExists(t: Tree, up: Path, p: Path)
    requires Has(t, up)
    ensures p != [] && Up(p) == up ==> (Has(t, p) <==> Last(p) < |Sub(t, up).children|)
  {
    if p != [] && Up(p) == up {
      assert p == up + [Last(p)];
      HasStep(t, up, Last(p));
    }
  }

  lemma {:induction false} SiblingAxes(t: Tree, n: Path)
    requires n != [] && Has(t, n) && Has(t, Up(n)) && Last(n) < |Sub(t, Up(n)).children|
    ensures Chosen(Document(t), FollowingSibling, n) == Branch(Up(n), Last(n) + 1, |Sub(t, Up(n)).children|)
    ensures Chosen(Document(t), PrecedingSibling, n) == Branch(Up(n), 0, Last(n))
  {
    var up, k := Up(n), |Sub(t, Up(n)).children|;
    hide Document, Has, Chosen, Branch;
    forall p ensures Has(t, p) && OnAxis(FollowingSibling, n, p) <==> p != [] && Up(p) == up && Last(n) + 1 <= Last(p) < k {
      ChildExists(t, up, p);
    }
    BranchIsAxis(t, FollowingSibling, n, up, Last(n) + 1, k);
    forall p ensures Has(t, p) && OnAxis(PrecedingSibling, n, p) <==> p != [] && Up(p) == up && 0 <= Last(p) < Last(n) {
      ChildExists(t, up, p);
    }
    BranchIsAxis(t, PrecedingSibling, n, up, 0, Last(n));
  }

  /** The document node has neither siblings nor a parent. */
  lemma {:induction false} RootAlone(t: Tree)
    ensures Chosen(Document(t), FollowingSibling, []) == Chosen(Document(t), PrecedingSibling, []) == Chosen(Document(t), Parent, []) == []
  {
    hide Document;
    ChosenNone(Document(t), FollowingSibling, []);
    ChosenNone(Document(t), PrecedingSibling, []);
    ChosenNone(Document(t), Parent, []);
  }

  lemma {:induction false} ParentAxis(t: Tree, n: Path)
    requires n != [] && Has(t, n)
    ensures Chosen(Document(t), Parent, n) == [Up(n)]
  {
    HasUp(t, n);
    hide Document, Has, Chosen;
    ChosenList(t, Parent, n);
    SameRuns(Chosen(Document(t), Parent, n), [Up(n)]);
  }
}
