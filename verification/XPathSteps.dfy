/** One step of a location path, taken from a whole node set (`step_do`), without predicates. */
module XPathSteps {
  import NodeSort
  import opened XmlTree
  import opened XPathAxes
  import opened XPathTraversal

  /** What a node set says of its own order. */
  datatype Kind = Unsorted | Sorted | SortedReverse

  /** Where a step starts: the context node, or the set another expression gives. */
  datatype Context = Node(node: Path) | NodeSet(nodes: seq<Path>, kind: Kind)

  function Nodes(c: Context): seq<Path> {
    if c.Node? then [c.node] else c.nodes
  }

  ghost predicate Distinct(s: seq<Path>) {
    forall i, j :: 0 <= i < j < |s| ==> s[i] != s[j]
  }

  /** A node set is what its kind says, and no kind allows a node twice. */
  ghost predicate IsKind(s: seq<Path>, kind: Kind) {
    match kind
    case Unsorted => Distinct(s)
    case Sorted => Runs(s, true)
    case SortedReverse => Runs(s, false)
  }

  lemma {:induction false} RunsDistinct(s: seq<Path>, forward: bool)
    requires Runs(s, forward)
    ensures Distinct(s)
  {
    forall i, j | 0 <= i < j < |s| ensures s[i] != s[j] {
      DocLessTrichotomy(s[i], s[j]);
    }
  }

  lemma {:induction false} KindDistinct(s: seq<Path>, kind: Kind)
    requires IsKind(s, kind)
    ensures Distinct(s)
  {
    hide Runs;
    if kind != Unsorted {
      RunsDistinct(s, kind.Sorted?);
    }
  }

  lemma {:induction false} KeepDistinct(s: seq<Path>, test: Path -> bool)
    requires Distinct(s)
    ensures Distinct(Keep(s, test))
  {
    if s != [] {
      var init, last := s[..|s| - 1], s[|s| - 1];
      KeepDistinct(init, test);
      KeepMembers(init, test, last);
    }
  }

  lemma {:induction false} KeepKind(s: seq<Path>, test: Path -> bool, kind: Kind)
    requires IsKind(s, kind)
    ensures IsKind(Keep(s, test), kind)
  {
    hide Keep, Runs, Distinct;
    if kind == Unsorted {
      KeepDistinct(s, test);
    } else {
      KeepRuns(s, test, kind.Sorted?);
    }
  }

  /** A step from `n` leads to `p`. */
  predicate Leads(t: Tree, axis: Axis, n: Path, test: Path -> bool, p: Path) {
    Has(t, p) && OnAxis(axis, n, p) && test(p)
  }

  /** A step from one of `s` leads to `p`. */
  ghost predicate Reached(t: Tree, axis: Axis, s: seq<Path>, test: Path -> bool, p: Path) {
    exists n :: n in s && Leads(t, axis, n, test, p)
  }

  function StartKind(axis: Axis): Kind {
    if IsReverse(axis) then SortedReverse else Sorted
  }

  /** What has been collected from the context nodes `s`, on any axis but self. */
  ghost predicate Collected(t: Tree, axis: Axis, s: seq<Path>, test: Path -> bool, ns: seq<Path>, kind: Kind) {
    && (forall p :: p in ns <==> Reached(t, axis, s, test, p))
    && (kind == Unsorted || (kind == StartKind(axis) && Runs(ns, !IsReverse(axis))))
    && (axis == Child ==> Distinct(ns))
  }

  lemma {:induction false} ReachedMore(t: Tree, axis: Axis, s: seq<Path>, n: Path, test: Path -> bool, p: Path)
    ensures Reached(t, axis, s + [n], test, p) <==> Reached(t, axis, s, test, p) || Leads(t, axis, n, test, p)
  {
    hide Leads;
    assert n in s + [n];
  }

  /** Different parents have different children. */
  lemma {:induction false} ChildrenApart(t: Tree, s: seq<Path>, n: Path, test: Path -> bool, ns: seq<Path>, piece: seq<Path>)
    requires n !in s && Distinct(ns) && Distinct(piece)
    requires (forall p :: p in ns <==> Reached(t, Child, s, test, p)) && forall p :: p in piece <==> Leads(t, Child, n, test, p)
    ensures Distinct(ns + piece)
  {
    forall p | p in ns ensures p !in piece {
      var m :| m in s && Leads(t, Child, m, test, p);
    }
    DistinctConcat(ns, piece);
  }

  lemma {:induction false} DistinctConcat(a: seq<Path>, b: seq<Path>)
    requires Distinct(a) && Distinct(b) && forall p :: p in a ==> p !in b
    ensures Distinct(a + b)
  {
    forall i, j | 0 <= i < |a| && 0 <= j < |b| ensures a[i] != b[j] {
      assert a[i] in a && b[j] in b;
    }
  }

  lemma {:induction false} DistinctPrefix(s: seq<Path>, i: nat)
    requires i < |s| && Distinct(s)
    ensures s[i] !in s[..i] && s[..i + 1] == s[..i] + [s[i]]
  {
  }

  lemma {:induction false} CollectedMore(t: Tree, axis: Axis, s: seq<Path>, n: Path, test: Path -> bool, ns: seq<Path>, kind: Kind, piece: seq<Path>)
    requires Collected(t, axis, s, test, ns, kind) && n !in s
    requires (forall p :: p in piece <==> Leads(t, axis, n, test, p)) && Runs(piece, !IsReverse(axis))
    ensures Collected(t, axis, s + [n], test, ns + piece, if ns != [] then Unsorted else kind)
  {
    hide Leads, Reached, Runs, Distinct, IsReverse;
    forall p ensures p in ns + piece <==> Reached(t, axis, s + [n], test, p) {
      ReachedMore(t, axis, s, n, test, p);
    }
    if axis == Child {
      RunsDistinct(piece, !IsReverse(axis));
      ChildrenApart(t, s, n, test, ns, piece);
    }
    assert ns == [] ==> ns + piece == piece;
  }

  lemma {:induction false} CollectedNone(t: Tree, axis: Axis, test: Path -> bool)
    ensures Collected(t, axis, [], test, [], StartKind(axis))
  {
  }

  /** The loop over a context set, on any axis but self: the order is given up as soon as two nodes may contribute. */
  method Collect(t: Tree, axis: Axis, s: seq<Path>, test: Path -> bool) returns (ns: seq<Path>, kind: Kind)
    requires (forall n :: n in s ==> Has(t, n)) && Distinct(s)
    ensures Collected(t, axis, s, test, ns, kind)
  {
    ns, kind := [], StartKind(axis);
    CollectedNone(t, axis, test);
    for i := 0 to |s|
      invariant Collected(t, axis, s[..i], test, ns, kind)
    {
      ns, kind := CollectNext(t, axis, s, i, test, ns, kind);
    }
    assert s[..|s|] == s;
  }

  method CollectNext(t: Tree, axis: Axis, s: seq<Path>, i: nat, test: Path -> bool, before: seq<Path>, was: Kind) returns (ns: seq<Path>, kind: Kind)
    requires i < |s| && Has(t, s[i]) && Distinct(s) && Collected(t, axis, s[..i], test, before, was)
    ensures Collected(t, axis, s[..i + 1], test, ns, kind)
  {
    hide Collected, Has, OnAxis, Runs, Keep, AxisNodes, Distinct, IsReverse;
    kind := if before != [] then Unsorted else was;
    var piece := StepFill(t, s[i], axis, test);
    ns := before + piece;
    DistinctPrefix(s, i);
    CollectedMore(t, axis, s[..i], s[i], test, before, was, piece);
  }

  /** The loop over a context set on the self axis, which keeps the order it finds. */
  method CollectSelf(t: Tree, s: seq<Path>, test: Path -> bool) returns (ns: seq<Path>)
    requires forall n :: n in s ==> Has(t, n)
    ensures ns == Keep(s, test)
  {
    ns := [];
    for i := 0 to |s|
      invariant ns == Keep(s[..i], test)
    {
      var piece := SelfPiece(t, s[i], test);
      ns := ns + piece;
      assert s[..i + 1] == s[..i] + [s[i]];
      KeepPush(s[..i], s[i], test);
    }
    assert s[..|s|] == s;
  }

  method SelfPiece(t: Tree, n: Path, test: Path -> bool) returns (piece: seq<Path>)
    requires Has(t, n)
    ensures piece == if test(n) then [n] else []
  {
    hide Has, OnAxis, Runs, Chosen, Document;
    piece := StepFill(t, n, Self, test);
    SelfAxis(t, n);
    KeepNone(test);
    KeepPush([], n, test);
    assert [] + [n] == [n];
  }

  lemma {:induction false} SelfReached(t: Tree, s: seq<Path>, test: Path -> bool)
    requires forall n :: n in s ==> Has(t, n)
    ensures forall p :: p in Keep(s, test) <==> Reached(t, Self, s, test, p)
  {
    hide Has, Keep;
    forall p ensures p in Keep(s, test) <==> Reached(t, Self, s, test, p) {
      KeepMembers(s, test, p);
      if p in s && test(p) {
        assert Leads(t, Self, p, test, p);
      }
    }
  }

  /** Sorting by address brings equal nodes together, so each is left once. */
  method WithoutRepeats(ns: seq<Path>, address: NodeSort.Order<Path>) returns (r: seq<Path>)
    requires NodeSort.StrictTotal(address)
    ensures Distinct(r) && forall p :: p in r <==> p in ns
  {
    var a := new Path[|ns|](i requires 0 <= i < |ns| => ns[i]);
    assert a[..] == ns;
    var past := NodeSort.RemoveDuplicates(a, true, address, address);
    r := a[..past];
  }

  /**
    The set a step gives: exactly the nodes that pass the test and lie on the axis of some context node,
    no node twice, and in the order the set claims to have.
    */
  method StepDo(t: Tree, context: Context, axis: Axis, test: Path -> bool, address: NodeSort.Order<Path>)
      returns (ns: seq<Path>, kind: Kind)
    requires (forall n :: n in Nodes(context) ==> Has(t, n)) && (context.NodeSet? ==> IsKind(context.nodes, context.kind))
    requires NodeSort.StrictTotal(address)
    ensures forall p :: p in ns <==> Reached(t, axis, Nodes(context), test, p)
    ensures IsKind(ns, kind) && Distinct(ns)
  {
    hide Has, Reached, Runs, Distinct, Keep, NodeSort.StrictTotal;
    if context.Node? {
      ns := StepFill(t, context.node, axis, test);
      kind := StartKind(axis);
      ReachedOne(t, axis, context.node, test);
    } else if axis == Self {
      ns := CollectSelf(t, context.nodes, test);
      kind := context.kind;
      SelfReached(t, context.nodes, test);
      KeepKind(context.nodes, test, kind);
    } else {
      KindDistinct(context.nodes, context.kind);
      ns, kind := Collect(t, axis, context.nodes, test);
      if axis != Child && kind == Unsorted {
        ns := WithoutRepeats(ns, address);
      }
    }
    KindDistinct(ns, kind);
  }

  lemma {:induction false} ReachedOne(t: Tree, axis: Axis, n: Path, test: Path -> bool)
    ensures forall p :: Reached(t, axis, [n], test, p) <==> Leads(t, axis, n, test, p)
  {
    hide Leads;
    assert n in [n];
  }
}
