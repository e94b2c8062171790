/**
  In-place sorting of XPath node sets (pugixml): insertion sort for short ranges, and above
  32 elements a quicksort with a median pick and a three-way partition whose block of pivots
  travels through the array.
  */
module NodeSort {

  type Order<!T> = (T, T) -> bool

  ghost predicate Comparable<T(!new)>(less: Order<T>) {
    forall x, y :: less(x, y) || less(y, x) || x == y
  }

  ghost predicate StrictTotal<T(!new)>(less: Order<T>) {
    && (forall x :: !less(x, x))
    && (forall x, y, z :: less(x, y) && less(y, z) ==> less(x, z))
    && Comparable(less)
  }

  ghost predicate Sorted<T>(s: seq<T>, lo: int, hi: int, less: Order<T>)
    requires 0 <= lo <= hi <= |s|
  {
    forall i, j :: lo <= i < j < hi ==> !less(s[j], s[i])
  }

  /** `t` is `s` with the positions `lo..hi` permuted and every other position untouched. */
  ghost predicate Shuffled<T>(s: seq<T>, t: seq<T>, lo: int, hi: int)
    requires 0 <= lo <= hi <= |s|
  {
    && |t| == |s|
    && multiset(s) == multiset(t)
    && (forall k :: 0 <= k < lo ==> s[k] == t[k])
    && (forall k :: hi <= k < |s| ==> s[k] == t[k])
  }

  lemma {:induction false} ShuffledReflexive<T>(s: seq<T>, lo: int, hi: int)
    requires 0 <= lo <= hi <= |s|
    ensures Shuffled(s, s, lo, hi)
  {
  }

  lemma {:induction false} ShuffledTransitive<T>(s: seq<T>, t: seq<T>, u: seq<T>, lo: int, hi: int)
    requires 0 <= lo <= hi <= |s| && Shuffled(s, t, lo, hi) && Shuffled(t, u, lo, hi)
    ensures Shuffled(s, u, lo, hi)
  {
  }

  lemma {:induction false} ShuffledWider<T>(s: seq<T>, t: seq<T>, lo: int, hi: int, lo': int, hi': int)
    requires 0 <= lo' <= lo <= hi <= hi' <= |s| && Shuffled(s, t, lo, hi)
    ensures Shuffled(s, t, lo', hi')
  {
  }

  /** The elements a shuffle leaves in the range are the ones it found there. */
  lemma {:induction false} ShuffledRange<T>(s: seq<T>, t: seq<T>, lo: int, hi: int)
    requires 0 <= lo <= hi <= |s| && Shuffled(s, t, lo, hi)
    ensures multiset(s[lo..hi]) == multiset(t[lo..hi])
  {
    assert s[..lo] == t[..lo] && s[hi..] == t[hi..];
    assert s == s[..lo] + s[lo..hi] + s[hi..];
    assert t == t[..lo] + t[lo..hi] + t[hi..];
    var outer := multiset(s[..lo]) + multiset(s[hi..]);
    assert multiset(s[lo..hi]) == multiset(s) - outer;
    assert multiset(t[lo..hi]) == multiset(t) - outer;
  }

  /** Every element of a shuffled range occurs in the range it came from. */
  lemma {:induction false} ShuffledOrigin<T>(s: seq<T>, t: seq<T>, lo: int, hi: int, k: int) returns (m: int)
    requires 0 <= lo <= hi <= |s| && Shuffled(s, t, lo, hi) && lo <= k < hi
    ensures lo <= m < hi && s[m] == t[k]
  {
    ShuffledRange(s, t, lo, hi);
    assert t[lo..hi][k - lo] in multiset(t[lo..hi]);
    assert t[k] in s[lo..hi];
    var i :| 0 <= i < |s[lo..hi]| && s[lo..hi][i] == t[k];
    m := lo + i;
  }

  ghost function Swapped<T>(s: seq<T>, i: int, j: int): (t: seq<T>)
    requires 0 <= i < |s| && 0 <= j < |s|
    ensures |t| == |s|
  {
    s[i := s[j]][j := s[i]]
  }

  lemma {:induction false} SwappedShuffles<T>(s: seq<T>, i: int, j: int, lo: int, hi: int)
    requires 0 <= lo <= i < hi <= |s| && lo <= j < hi
    ensures Shuffled(s, Swapped(s, i, j), lo, hi)
  {
    var t := Swapped(s, i, j);
    assert multiset(s[i := s[j]]) == multiset(s) - multiset{s[i]} + multiset{s[j]};
    assert multiset(t) == multiset(s);
  }

  method Swap<T>(a: array<T>, i: int, j: int)
    requires 0 <= i < a.Length && 0 <= j < a.Length
    modifies a
    ensures a[..] == Swapped(old(a[..]), i, j)
  {
    var temp := a[i];
    a[i] := a[j];
    a[j] := temp;
    assert a[..] == Swapped(old(a[..]), i, j);
  }

  // ---------------------------------------------------------------- insertion sort

  /** `s` with the element at `it` moved down to `to`. */
  ghost function MovedDown<T>(s: seq<T>, to: int, it: int): (t: seq<T>)
    requires 0 <= to <= it < |s|
  {
    s[..to] + [s[it]] + s[to..it] + s[it + 1..]
  }

  lemma {:induction false} MovedDownShuffles<T>(s: seq<T>, to: int, it: int, lo: int, hi: int)
    requires 0 <= lo <= to <= it < hi <= |s|
    ensures Shuffled(s, MovedDown(s, to, it), lo, hi)
  {
    var t := MovedDown(s, to, it);
    assert s == s[..to] + s[to..it] + [s[it]] + s[it + 1..];
  }

  lemma {:induction false} MovedDownSorts<T(!new)>(s: seq<T>, lo: int, to: int, it: int, less: Order<T>)
    requires StrictTotal(less)
    requires 0 <= lo <= to <= it < |s| && Sorted(s, lo, it, less)
    requires forall k :: to <= k < it ==> less(s[it], s[k])
    requires to > lo ==> !less(s[it], s[to - 1])
    ensures Sorted(MovedDown(s, to, it), lo, it + 1, less)
  {
    var t := MovedDown(s, to, it);
    forall i, j | lo <= i < j < it + 1
      ensures !less(t[j], t[i])
    {
      if j == to {
        assert t[j] == s[it] && t[i] == s[i];
        assert i == to - 1 || !less(s[to - 1], s[i]);
      } else if i == to {
        assert t[j] == s[j - 1] && t[i] == s[it];
      } else {
        assert t[i] == s[if i < to then i else i - 1];
        assert t[j] == s[if j < to then j else j - 1];
      }
    }
  }

  method InsertionSort<T(!new)>(a: array<T>, begin: int, end: int, less: Order<T>)
    requires StrictTotal(less)
    requires 0 <= begin < end <= a.Length
    modifies a
    ensures Shuffled(old(a[..]), a[..], begin, end)
    ensures Sorted(a[..], begin, end, less)
  {
    var it := begin + 1;
    while it != end
      invariant begin < it <= end
      invariant Shuffled(old(a[..]), a[..], begin, end)
      invariant Sorted(a[..], begin, it, less)
    {
      ghost var s := a[..];
      InsertNext(a, begin, it, less);
      ShuffledWider(s, a[..], begin, it + 1, begin, end);
      it := it + 1;
    }
  }

  /** One round of the outer loop: the element at `it` joins the sorted range below it. */
  method InsertNext<T(!new)>(a: array<T>, begin: int, it: int, less: Order<T>)
    requires StrictTotal(less)
    requires 0 <= begin < it < a.Length && Sorted(a[..], begin, it, less)
    modifies a
    ensures Shuffled(old(a[..]), a[..], begin, it + 1)
    ensures Sorted(a[..], begin, it + 1, less)
  {
    ghost var s := a[..];
    var val := a[it];
    if less(val, a[begin]) {
      // smaller than all before it
      LeastOfSorted(s, begin, it, less);
      CopyBackwards(a, begin, it);
      FillHole(a, val, s, begin, begin, it, less);
    } else {
      var hole := MoveHole(a, begin, it, less);
      FillHole(a, val, s, begin, hole, it, less);
    }
  }

  lemma {:induction false} LeastOfSorted<T(!new)>(s: seq<T>, begin: int, it: int, less: Order<T>)
    requires StrictTotal(less)
    requires 0 <= begin < it < |s| && Sorted(s, begin, it, less) && less(s[it], s[begin])
    ensures forall k :: begin <= k < it ==> less(s[it], s[k])
  {
    forall k | begin <= k < it ensures less(s[it], s[k]) {
      assert k == begin || !less(s[k], s[begin]);
    }
  }

  /** Writes the element taken out at `it` into the hole that the shift of `s` left. */
  method FillHole<T(!new)>(a: array<T>, val: T, ghost s: seq<T>, ghost begin: int, hole: int, ghost it: int, ghost less: Order<T>)
    requires StrictTotal(less)
    requires 0 <= begin <= hole <= it < |s| && Sorted(s, begin, it, less) && val == s[it]
    requires a[..] == s[..hole + 1] + s[hole..it] + s[it + 1..]
    requires forall k :: hole <= k < it ==> less(s[it], s[k])
    requires hole > begin ==> !less(s[it], s[hole - 1])
    modifies a
    ensures a.Length == |s| && Shuffled(s, a[..], begin, it + 1)
    ensures Sorted(a[..], begin, it + 1, less)
  {
    a[hole] := val;
    assert a[..] == MovedDown(s, hole, it);
    MovedDownShuffles(s, hole, it, begin, it + 1);
    MovedDownSorts(s, begin, hole, it, less);
  }

  /** Moves `begin..end` up by one position, last element first. */
  method CopyBackwards<T>(a: array<T>, begin: int, end: int)
    requires 0 <= begin <= end < a.Length
    modifies a
    ensures a[..] == old(a[..begin + 1] + a[begin..end] + a[end + 1..])
  {
    var k := end;
    while k != begin
      invariant begin <= k <= end
      invariant a[..] == old(a[..k + 1] + a[k..end] + a[end + 1..])
    {
      a[k] := a[k - 1];
      k := k - 1;
    }
  }

  /** Shifts up every element above the place of the one at `it`; the scan stops before it reaches `begin`. */
  method MoveHole<T(!new)>(a: array<T>, begin: int, it: int, less: Order<T>) returns (hole: int)
    requires 0 <= begin < it < a.Length && !less(a[it], a[begin])
    modifies a
    ensures begin < hole <= it
    ensures a[..] == old(a[..hole + 1] + a[hole..it] + a[it + 1..])
    ensures forall k :: hole <= k < it ==> less(old(a[it]), old(a[k]))
    ensures !less(old(a[it]), old(a[hole - 1]))
  {
    var val := a[it];
    ghost var s := a[..];
    hole := it;
    assert s == Holed(s, it, it);
    while less(val, a[hole - 1])
      invariant begin < hole <= it
      invariant a[..] == Holed(s, hole, it)
      invariant forall k :: hole <= k < it ==> less(val, s[k])
      invariant a[hole - 1] == s[hole - 1] && a[begin] == s[begin]
      decreases hole
    {
      ghost var cur := a[..];
      HoleDown(s, hole, it);
      a[hole] := a[hole - 1];
      assert a[..] == cur[hole := cur[hole - 1]];
      hole := hole - 1;
      assert a[hole - 1] == a[..][hole - 1] && a[begin] == a[..][begin];
    }
  }

  /** The sequence with the element at `it` gone and the ones from `hole` on shifted up by one. */
  ghost function Holed<T>(s: seq<T>, hole: int, it: int): seq<T>
    requires 0 <= hole <= it < |s|
  {
    s[..hole + 1] + s[hole..it] + s[it + 1..]
  }

  lemma {:induction false} HoleDown<T>(s: seq<T>, hole: int, it: int)
    requires 0 < hole <= it < |s|
    ensures var h := Holed(s, hole, it);
            && |h| == |s| && h[hole - 1] == s[hole - 1]
            && h[hole := h[hole - 1]] == Holed(s, hole - 1, it)
            && (forall k :: 0 <= k < hole ==> Holed(s, hole - 1, it)[k] == s[k])
  {
  }

  // ---------------------------------------------------------------- partition

  /** The array while it is partitioned: unscanned, below the pivot, pivots, above the pivot, unscanned. */
  ghost predicate Zones<T>(s: seq<T>, begin: int, ltend: int, eqbeg: int, eqend: int, gtbeg: int, end: int, p: T, less: Order<T>)
  {
    && 0 <= begin <= ltend <= eqbeg < eqend <= gtbeg <= end <= |s|
    && (forall k :: ltend <= k < eqbeg ==> less(s[k], p))
    && (forall k :: eqbeg <= k < eqend ==> s[k] == p)
    && (forall k :: eqend <= k < gtbeg ==> less(p, s[k]))
  }

  /** Widens the block of elements equal to the one in the middle. */
  method ExpandEqual<T(==)>(a: array<T>, begin: int, middle: int, end: int) returns (eqbeg: int, eqend: int)
    requires 0 <= begin <= middle < end <= a.Length
    ensures begin <= eqbeg <= middle < eqend <= end
    ensures forall k :: eqbeg <= k < eqend ==> a[k] == a[middle]
    ensures eqbeg == begin || a[eqbeg - 1] != a[middle]
    ensures eqend == end || a[eqend] != a[middle]
  {
    eqbeg, eqend := middle, middle + 1;
    while eqbeg != begin && a[eqbeg - 1] == a[eqbeg]
      invariant begin <= eqbeg <= middle
      invariant forall k :: eqbeg <= k <= middle ==> a[k] == a[middle]
    {
      eqbeg := eqbeg - 1;
    }
    while eqend != end && a[eqend] == a[eqbeg]
      invariant middle < eqend <= end
      invariant forall k :: eqbeg <= k < eqend ==> a[k] == a[middle]
    {
      eqend := eqend + 1;
    }
  }

  lemma {:induction false} ZonesBounds<T>(s: seq<T>, begin: int, ltend: int, eqbeg: int, eqend: int, gtbeg: int, end: int, p: T, less: Order<T>)
    requires Zones(s, begin, ltend, eqbeg, eqend, gtbeg, end, p, less)
    ensures 0 <= begin <= ltend <= eqbeg < eqend <= gtbeg <= end <= |s|
  {
  }

  lemma {:induction false} ZonesStart<T>(s: seq<T>, begin: int, eqbeg: int, eqend: int, end: int, p: T, less: Order<T>)
    requires 0 <= begin <= eqbeg < eqend <= end <= |s|
    requires forall k :: eqbeg <= k < eqend ==> s[k] == p
    ensures Zones(s, begin, eqbeg, eqbeg, eqend, eqend, end, p, less)
  {
  }

  lemma {:induction false} PivotJoinsAbove<T>(s: seq<T>, begin: int, ltend: int, eqbeg: int, eqend: int, gtbeg: int, end: int, p: T, less: Order<T>)
    requires Zones(s, begin, ltend, eqbeg, eqend, gtbeg, end, p, less) && gtbeg < end && s[gtbeg] == p
    ensures Zones(Swapped(s, gtbeg, eqend), begin, ltend, eqbeg, eqend + 1, gtbeg + 1, end, p, less)
    ensures Shuffled(s, Swapped(s, gtbeg, eqend), begin, end)
  {
    SwappedShuffles(s, gtbeg, eqend, begin, end);
  }

  lemma {:induction false} PivotJoinsBelow<T>(s: seq<T>, begin: int, ltend: int, eqbeg: int, eqend: int, gtbeg: int, end: int, p: T, less: Order<T>)
    requires Zones(s, begin, ltend, eqbeg, eqend, gtbeg, end, p, less) && begin < ltend && s[ltend - 1] == p
    ensures var t := Swapped(s, ltend - 1, eqbeg - 1);
            && Zones(t, begin, ltend - 1, eqbeg - 1, eqend, gtbeg, end, p, less)
            && Shuffled(s, t, begin, end)
            && (gtbeg < end ==> t[gtbeg] == s[gtbeg])
  {
    SwappedShuffles(s, ltend - 1, eqbeg - 1, begin, end);
  }

  lemma {:induction false} BlockDownZones<T>(s: seq<T>, t: seq<T>, u: seq<T>, begin: int, ltend: int, eqbeg: int, eqend: int, gtbeg: int, end: int,
                          p: T, less: Order<T>)
    requires Zones(s, begin, ltend, eqbeg, eqend, gtbeg, end, p, less) && begin < ltend && less(p, s[ltend - 1])
    requires t == Swapped(s, ltend - 1, eqbeg - 1) && u == Swapped(t, eqbeg - 1, eqend - 1)
    ensures Zones(u, begin, ltend - 1, eqbeg - 1, eqend - 1, gtbeg, end, p, less)
  {
    assert t[eqend - 1] == p && u[eqbeg - 1] == p && u[eqend - 1] == s[ltend - 1];
    assert forall k :: ltend <= k < eqbeg - 1 ==> u[k] == s[k];
    assert ltend < eqbeg ==> u[ltend - 1] == s[eqbeg - 1];
    assert forall k :: eqbeg <= k < eqend - 1 ==> u[k] == s[k];
    assert forall k :: eqend <= k < gtbeg ==> u[k] == s[k];
  }

  lemma {:induction false} BlockDown<T>(s: seq<T>, begin: int, ltend: int, eqbeg: int, eqend: int, gtbeg: int, end: int, p: T, less: Order<T>)
    requires Zones(s, begin, ltend, eqbeg, eqend, gtbeg, end, p, less) && begin < ltend && less(p, s[ltend - 1])
    ensures var t := Swapped(s, ltend - 1, eqbeg - 1);
            var u := Swapped(t, eqbeg - 1, eqend - 1);
            && Zones(u, begin, ltend - 1, eqbeg - 1, eqend - 1, gtbeg, end, p, less)
            && Shuffled(s, u, begin, end)
  {
    hide Shuffled, Swapped;
    var t := Swapped(s, ltend - 1, eqbeg - 1);
    var u := Swapped(t, eqbeg - 1, eqend - 1);
    BlockDownZones(s, t, u, begin, ltend, eqbeg, eqend, gtbeg, end, p, less);
    hide Zones;
    SwappedTwice(s, t, u, ltend - 1, eqbeg - 1, eqend - 1, begin, end);
  }

  lemma {:induction false} SwappedTwice<T>(s: seq<T>, t: seq<T>, u: seq<T>, i: int, j: int, k: int, lo: int, hi: int)
    requires 0 <= lo <= i < hi <= |s| && lo <= j < hi && lo <= k < hi && t == Swapped(s, i, j) && u == Swapped(t, j, k)
    ensures Shuffled(s, u, lo, hi)
  {
    hide Shuffled;
    SwappedShuffles(s, i, j, lo, hi);
    SwappedShuffles(t, j, k, lo, hi);
    ShuffledTransitive(s, t, u, lo, hi);
  }

  lemma {:induction false} BlockUpZones<T>(s: seq<T>, t: seq<T>, u: seq<T>, begin: int, ltend: int, eqbeg: int, eqend: int, gtbeg: int, end: int,
                        p: T, less: Order<T>)
    requires Zones(s, begin, ltend, eqbeg, eqend, gtbeg, end, p, less) && gtbeg < end && less(s[gtbeg], p)
    requires t == (if eqend != gtbeg then Swapped(s, eqbeg, eqend) else s) && u == Swapped(t, gtbeg, eqbeg)
    ensures Zones(u, begin, ltend, eqbeg + 1, eqend + 1, gtbeg + 1, end, p, less)
  {
    assert u[eqbeg] == s[gtbeg] && u[eqend] == p;
    assert eqend != gtbeg ==> u[gtbeg] == s[eqend];
    assert forall k :: ltend <= k < eqbeg ==> u[k] == s[k];
    assert forall k :: eqbeg < k < eqend ==> u[k] == s[k];
    assert forall k :: eqend < k < gtbeg ==> u[k] == s[k];
  }

  lemma {:induction false} BlockUp<T>(s: seq<T>, begin: int, ltend: int, eqbeg: int, eqend: int, gtbeg: int, end: int, p: T, less: Order<T>)
    requires Zones(s, begin, ltend, eqbeg, eqend, gtbeg, end, p, less) && gtbeg < end && less(s[gtbeg], p)
    ensures var t := if eqend != gtbeg then Swapped(s, eqbeg, eqend) else s;
            var u := Swapped(t, gtbeg, eqbeg);
            && Zones(u, begin, ltend, eqbeg + 1, eqend + 1, gtbeg + 1, end, p, less)
            && Shuffled(s, u, begin, end)
  {
    ZonesBounds(s, begin, ltend, eqbeg, eqend, gtbeg, end, p, less);
    hide Shuffled, Zones, Swapped;
    var t := if eqend != gtbeg then Swapped(s, eqbeg, eqend) else s;
    BlockUpZones(s, t, Swapped(t, gtbeg, eqbeg), begin, ltend, eqbeg, eqend, gtbeg, end, p, less);
    SwappedShuffles(t, gtbeg, eqbeg, begin, end);
    if eqend != gtbeg {
      SwappedShuffles(s, eqbeg, eqend, begin, end);
      ShuffledTransitive(s, t, Swapped(t, gtbeg, eqbeg), begin, end);
    }
  }

  lemma {:induction false} CrossSwap<T>(s: seq<T>, begin: int, ltend: int, eqbeg: int, eqend: int, gtbeg: int, end: int, p: T, less: Order<T>)
    requires Zones(s, begin, ltend, eqbeg, eqend, gtbeg, end, p, less) && gtbeg < end && less(s[gtbeg], p)
    requires begin < ltend && less(p, s[ltend - 1])
    ensures Zones(Swapped(s, gtbeg, ltend - 1), begin, ltend - 1, eqbeg, eqend, gtbeg + 1, end, p, less)
    ensures Shuffled(s, Swapped(s, gtbeg, ltend - 1), begin, end)
  {
    SwappedShuffles(s, gtbeg, ltend - 1, begin, end);
  }

  /** Finds the element on the right that belongs to the left; pivots met on the way join the block. */
  method ScanRight<T(!new, ==)>(a: array<T>, begin: int, ltend: int, eqbeg: int, eqend0: int, gtbeg0: int, end: int,
                                ghost p: T, less: Order<T>) returns (eqend: int, gtbeg: int)
    requires Comparable(less)
    requires Zones(a[..], begin, ltend, eqbeg, eqend0, gtbeg0, end, p, less)
    modifies a
    ensures Zones(a[..], begin, ltend, eqbeg, eqend, gtbeg, end, p, less)
    ensures Shuffled(old(a[..]), a[..], begin, end)
    ensures gtbeg0 <= gtbeg && (gtbeg < end ==> less(a[gtbeg], p))
  {
    hide Shuffled, Swapped;
    eqend, gtbeg := eqend0, gtbeg0;
    ShuffledReflexive(a[..], begin, end);
    while gtbeg != end
      invariant gtbeg0 <= gtbeg
      invariant Zones(a[..], begin, ltend, eqbeg, eqend, gtbeg, end, p, less)
      invariant Shuffled(old(a[..]), a[..], begin, end)
      decreases end - gtbeg
    {
      if !less(a[eqbeg], a[gtbeg]) {
        if a[gtbeg] == a[eqbeg] {
          ghost var s := a[..];
          PivotJoinsAbove(s, begin, ltend, eqbeg, eqend, gtbeg, end, p, less);
          Swap(a, gtbeg, eqend);
          ShuffledTransitive(old(a[..]), s, a[..], begin, end);
          eqend := eqend + 1;
        } else {
          break;
        }
      }
      gtbeg := gtbeg + 1;
    }
  }

  /** Finds the element on the left that belongs to the right. */
  method ScanLeft<T(!new, ==)>(a: array<T>, begin: int, ltend0: int, eqbeg0: int, eqend: int, gtbeg: int, end: int,
                               ghost p: T, less: Order<T>) returns (ltend: int, eqbeg: int)
    requires Comparable(less)
    requires Zones(a[..], begin, ltend0, eqbeg0, eqend, gtbeg, end, p, less)
    modifies a
    ensures Zones(a[..], begin, ltend, eqbeg, eqend, gtbeg, end, p, less)
    ensures Shuffled(old(a[..]), a[..], begin, end)
    ensures gtbeg < end ==> a[gtbeg] == old(a[gtbeg])
    ensures ltend <= ltend0 && (begin < ltend ==> less(p, a[ltend - 1]))
  {
    hide Shuffled, Swapped;
    ltend, eqbeg := ltend0, eqbeg0;
    ShuffledReflexive(a[..], begin, end);
    while ltend != begin
      invariant ltend <= ltend0
      invariant Zones(a[..], begin, ltend, eqbeg, eqend, gtbeg, end, p, less)
      invariant Shuffled(old(a[..]), a[..], begin, end)
      invariant gtbeg < end ==> a[gtbeg] == old(a[gtbeg])
      decreases ltend - begin
    {
      if !less(a[ltend - 1], a[eqbeg]) {
        if a[eqbeg] == a[ltend - 1] {
          ghost var s := a[..];
          PivotJoinsBelow(s, begin, ltend, eqbeg, eqend, gtbeg, end, p, less);
          eqbeg := eqbeg - 1;
          Swap(a, ltend - 1, eqbeg);
          ShuffledTransitive(old(a[..]), s, a[..], begin, end);
        } else {
          break;
        }
      }
      ltend := ltend - 1;
    }
  }

  /** The right side is finished: the pivot block moves down to make room for the misplaced element. */
  method ShiftBlockDown<T(!new)>(a: array<T>, begin: int, ltend0: int, eqbeg0: int, eqend0: int, gtbeg: int, end: int,
                                 ghost p: T, ghost less: Order<T>) returns (ltend: int, eqbeg: int, eqend: int)
    requires Zones(a[..], begin, ltend0, eqbeg0, eqend0, gtbeg, end, p, less)
    requires begin < ltend0 && less(p, a[ltend0 - 1])
    modifies a
    ensures ltend == ltend0 - 1
    ensures Zones(a[..], begin, ltend, eqbeg, eqend, gtbeg, end, p, less)
    ensures Shuffled(old(a[..]), a[..], begin, end)
  {
    hide Shuffled;
    BlockDown(a[..], begin, ltend0, eqbeg0, eqend0, gtbeg, end, p, less);
    ltend, eqbeg, eqend := ltend0 - 1, eqbeg0 - 1, eqend0 - 1;
    if ltend != eqbeg {
      Swap(a, ltend, eqbeg);
    }
    assert a[..] == Swapped(old(a[..]), ltend, eqbeg);
    Swap(a, eqbeg, eqend);
  }

  /** The left side is finished: the pivot block moves up. */
  method ShiftBlockUp<T(!new)>(a: array<T>, begin: int, ltend: int, eqbeg0: int, eqend0: int, gtbeg0: int, end: int,
                               ghost p: T, ghost less: Order<T>) returns (eqbeg: int, eqend: int, gtbeg: int)
    requires Zones(a[..], begin, ltend, eqbeg0, eqend0, gtbeg0, end, p, less)
    requires gtbeg0 < end && less(a[gtbeg0], p)
    modifies a
    ensures gtbeg == gtbeg0 + 1
    ensures Zones(a[..], begin, ltend, eqbeg, eqend, gtbeg, end, p, less)
    ensures Shuffled(old(a[..]), a[..], begin, end)
  {
    hide Shuffled, Swapped;
    BlockUp(a[..], begin, ltend, eqbeg0, eqend0, gtbeg0, end, p, less);
    if eqend0 != gtbeg0 {
      Swap(a, eqbeg0, eqend0);
    }
    eqend := eqend0 + 1;
    Swap(a, gtbeg0, eqbeg0);
    gtbeg, eqbeg := gtbeg0 + 1, eqbeg0 + 1;
  }

  /** Three-way partition around the element in the middle: below it, equal to it, above it. */
  method Partition<T(!new, ==)>(a: array<T>, begin: int, middle: int, end: int, less: Order<T>) returns (eqbeg: int, eqend: int)
    requires Comparable(less)
    requires 0 <= begin <= middle < end <= a.Length
    modifies a
    ensures Zones(a[..], begin, begin, eqbeg, eqend, end, end, old(a[middle]), less)
    ensures Shuffled(old(a[..]), a[..], begin, end)
  {
    hide Shuffled, Swapped, Zones;
    ghost var p := a[middle];
    eqbeg, eqend := ExpandEqual(a, begin, middle, end);
    var ltend, gtbeg := eqbeg, eqend;
    ShuffledReflexive(a[..], begin, end);
    ZonesStart(a[..], begin, eqbeg, eqend, end, p, less);
    while true
      invariant Zones(a[..], begin, ltend, eqbeg, eqend, gtbeg, end, p, less)
      invariant Shuffled(old(a[..]), a[..], begin, end)
      decreases end - gtbeg + ltend - begin
    {
      ghost var s := a[..];
      ZonesBounds(s, begin, ltend, eqbeg, eqend, gtbeg, end, p, less);
      eqend, gtbeg := ScanRight(a, begin, ltend, eqbeg, eqend, gtbeg, end, p, less);
      ShuffledTransitive(old(a[..]), s, a[..], begin, end);
      s := a[..];
      ZonesBounds(s, begin, ltend, eqbeg, eqend, gtbeg, end, p, less);
      ltend, eqbeg := ScanLeft(a, begin, ltend, eqbeg, eqend, gtbeg, end, p, less);
      ShuffledTransitive(old(a[..]), s, a[..], begin, end);
      ZonesBounds(a[..], begin, ltend, eqbeg, eqend, gtbeg, end, p, less);
      if gtbeg == end && ltend == begin {
        return;
      }
      s := a[..];
      if gtbeg == end {
        ltend, eqbeg, eqend := ShiftBlockDown(a, begin, ltend, eqbeg, eqend, gtbeg, end, p, less);
      } else if ltend == begin {
        eqbeg, eqend, gtbeg := ShiftBlockUp(a, begin, ltend, eqbeg, eqend, gtbeg, end, p, less);
      } else {
        CrossSwap(s, begin, ltend, eqbeg, eqend, gtbeg, end, p, less);
        ltend := ltend - 1;
        Swap(a, gtbeg, ltend);
        gtbeg := gtbeg + 1;
      }
      ShuffledTransitive(old(a[..]), s, a[..], begin, end);
    }
  }

  // ---------------------------------------------------------------- sort

  lemma {:induction false} NotAfterTransitive<T(!new)>(x: T, y: T, z: T, less: Order<T>)
    requires StrictTotal(less) && !less(y, x) && !less(z, y)
    ensures !less(z, x)
  {
    assert less(x, y) || x == y;
    assert less(y, z) || y == z;
  }

  lemma {:induction false} NotBefore<T(!new)>(x: T, y: T, less: Order<T>)
    requires StrictTotal(less) && less(x, y)
    ensures !less(y, x)
  {
  }

  /** Puts `x` and `y` in order; both stay where they are if they already were. */
  method OrderPair<T(!new)>(a: array<T>, i: int, j: int, less: Order<T>, ghost lo: int, ghost hi: int)
    requires StrictTotal(less)
    requires 0 <= lo <= i < j < hi <= a.Length
    modifies a
    ensures Shuffled(old(a[..]), a[..], lo, hi)
    ensures if less(old(a[j]), old(a[i])) then a[i] == old(a[j]) && a[j] == old(a[i]) else a[i] == old(a[i]) && a[j] == old(a[j])
    ensures !less(a[j], a[i])
    ensures forall k :: 0 <= k < a.Length && k != i && k != j ==> a[k] == old(a[k])
  {
    if less(a[j], a[i]) {
      NotBefore(a[j], a[i], less);
      SwapWithin(a, i, j, lo, hi);
    }
  }

  method Median3<T(!new)>(a: array<T>, first: int, middle: int, last: int, less: Order<T>, ghost lo: int, ghost hi: int)
    requires StrictTotal(less)
    requires 0 <= lo <= first < middle < last < hi <= a.Length
    modifies a
    ensures Shuffled(old(a[..]), a[..], lo, hi)
    ensures !less(a[middle], a[first]) && !less(a[last], a[middle])
  {
    hide Shuffled, StrictTotal;
    OrderPair(a, first, middle, less, lo, hi);
    ghost var s := a[..];
    if !less(a[last], a[middle]) {
      NotAfterTransitive(a[first], a[middle], a[last], less);
    }
    OrderPair(a, middle, last, less, lo, hi);
    ShuffledTransitive(old(a[..]), s, a[..], lo, hi);
    assert !less(a[last], a[first]);
    s := a[..];
    OrderPair(a, first, middle, less, lo, hi);
    ShuffledTransitive(old(a[..]), s, a[..], lo, hi);
  }

  method SwapWithin<T>(a: array<T>, i: int, j: int, ghost lo: int, ghost hi: int)
    requires 0 <= lo <= i < hi <= a.Length && lo <= j < hi
    modifies a
    ensures a[..] == Swapped(old(a[..]), i, j)
    ensures Shuffled(old(a[..]), a[..], lo, hi)
  {
    SwappedShuffles(a[..], i, j, lo, hi);
    Swap(a, i, j);
  }

  /** Brings a middle element of three, or of nine for long ranges, to the middle position. */
  method Median<T(!new)>(a: array<T>, first: int, middle: int, last: int, less: Order<T>)
    requires StrictTotal(less)
    requires 0 <= first && last < a.Length && last - first >= 32 && middle == first + (last + 1 - first) / 2
    modifies a
    ensures Shuffled(old(a[..]), a[..], first, last + 1)
    ensures InTheMiddle(a[..], first, middle, last, less)
  {
    hide Shuffled;
    ghost var end := last + 1;
    if last - first <= 40 {
      Median3(a, first, middle, last, less, first, end);
      assert InOrder3(a[..], first, middle, last, less);
    } else {
      var step := (last - first + 1) / 8;
      Median3(a, first, first + step, first + 2 * step, less, first, end);
      ghost var s := a[..];
      Median3(a, middle - step, middle, middle + step, less, first, end);
      ShuffledTransitive(old(a[..]), s, a[..], first, end);
      s := a[..];
      Median3(a, last - 2 * step, last - step, last, less, first, end);
      ShuffledTransitive(old(a[..]), s, a[..], first, end);
      s := a[..];
      Median3(a, first + step, middle, last - step, less, first, end);
      ShuffledTransitive(old(a[..]), s, a[..], first, end);
      assert InOrder3(a[..], first + step, middle, last - step, less);
    }
  }

  ghost predicate InOrder3<T>(s: seq<T>, i: int, j: int, k: int, less: Order<T>)
    requires 0 <= i <= j <= k < |s|
  {
    !less(s[j], s[i]) && !less(s[k], s[j])
  }

  /** Something before the middle is not greater than the element there, and something after it is not less. */
  ghost predicate InTheMiddle<T>(s: seq<T>, first: int, middle: int, last: int, less: Order<T>)
    requires 0 <= first <= middle <= last < |s|
  {
    exists i, k :: first <= i < middle < k <= last && InOrder3(s, i, middle, k, less)
  }

  function Pow2(n: nat): (p: nat)
    ensures p >= 1
  {
    if n == 0 then 1 else 2 * Pow2(n - 1)
  }

  /** Every pair of `begin..end` that is not entirely inside `b..e` is in order. */
  ghost predicate SortedAround<T>(s: seq<T>, begin: int, b: int, e: int, end: int, less: Order<T>)
    requires 0 <= begin <= b <= e <= end <= |s|
  {
    forall i, j :: begin <= i < j < end && !(b <= i && j < e) ==> !less(s[j], s[i])
  }

  lemma {:induction false} SortedAroundSurvives<T>(s: seq<T>, t: seq<T>, begin: int, b: int, e: int, end: int, less: Order<T>)
    requires 0 <= begin <= b <= e <= end <= |s| && SortedAround(s, begin, b, e, end, less) && Shuffled(s, t, b, e)
    ensures SortedAround(t, begin, b, e, end, less)
  {
    forall i, j | begin <= i < j < end && !(b <= i && j < e) ensures !less(t[j], t[i]) {
      if b <= i < e {
        var m := ShuffledOrigin(s, t, b, e, i);
      } else if b <= j < e {
        var m := ShuffledOrigin(s, t, b, e, j);
      }
    }
  }

  /** Sorting one outer zone of a partition leaves a smaller range to sort: the other zone. */
  lemma {:induction false} NarrowBelow<T(!new)>(s: seq<T>, t: seq<T>, begin: int, b: int, eqbeg: int, eqend: int, e: int, end: int, p: T, less: Order<T>)
    requires StrictTotal(less) && begin <= b && e <= end <= |s| && Zones(s, b, b, eqbeg, eqend, e, e, p, less)
    requires 0 <= begin && SortedAround(s, begin, b, e, end, less)
    requires Shuffled(s, t, eqend, e) && Sorted(t, eqend, e, less)
    ensures SortedAround(t, begin, b, eqbeg, end, less)
    ensures Shuffled(s, t, b, e)
  {
    ShuffledWider(s, t, eqend, e, b, e);
    SortedAroundSurvives(s, t, begin, b, e, end, less);
    forall k | eqend <= k < e ensures less(p, t[k]) {
      var m := ShuffledOrigin(s, t, eqend, e, k);
    }
    forall i, j | b <= i < j < e && eqbeg <= j ensures !less(t[j], t[i]) {
      if i < eqend {
        assert t[i] == s[i];
        assert j < eqend ==> t[j] == s[j];
      }
    }
  }

  lemma {:induction false} NarrowAbove<T(!new)>(s: seq<T>, t: seq<T>, begin: int, b: int, eqbeg: int, eqend: int, e: int, end: int, p: T, less: Order<T>)
    requires StrictTotal(less) && begin <= b && e <= end <= |s| && Zones(s, b, b, eqbeg, eqend, e, e, p, less)
    requires 0 <= begin && SortedAround(s, begin, b, e, end, less)
    requires Shuffled(s, t, b, eqbeg) && Sorted(t, b, eqbeg, less)
    ensures SortedAround(t, begin, eqend, e, end, less)
    ensures Shuffled(s, t, b, e)
  {
    ShuffledWider(s, t, b, eqbeg, b, e);
    SortedAroundSurvives(s, t, begin, b, e, end, less);
    forall k | b <= k < eqbeg ensures less(t[k], p) {
      var m := ShuffledOrigin(s, t, b, eqbeg, k);
    }
    forall i, j | b <= i < j < e && i < eqend ensures !less(t[j], t[i]) {
      if eqbeg <= j {
        assert t[j] == s[j];
        assert eqbeg <= i ==> t[i] == s[i];
      }
    }
  }

  /**
    Sorts `begin..end` in place. The loop goes on with the longer side of each partition and recurses
    only into the shorter one; `depth` is the number of nested recursive calls.
    */
  method Sort<T(!new, ==)>(a: array<T>, begin: int, end: int, less: Order<T>) returns (ghost depth: nat)
    requires StrictTotal(less)
    requires 0 <= begin <= end <= a.Length
    modifies a
    ensures Sorted(a[..], begin, end, less)
    ensures Shuffled(old(a[..]), a[..], begin, end)
    ensures depth > 0 ==> 33 * Pow2(depth - 1) <= end - begin
    decreases end - begin
  {
    hide Shuffled, StrictTotal, Zones, Sorted;
    depth := 0;
    var b, e := begin, end;
    ShuffledReflexive(a[..], begin, end);
    while e - b > 32
      invariant begin <= b <= e <= end
      invariant SortedAround(a[..], begin, b, e, end, less)
      invariant Shuffled(old(a[..]), a[..], begin, end)
      invariant depth > 0 ==> 33 * Pow2(depth - 1) <= end - begin
      decreases e - b
    {
      hide SortedAround;
      ghost var d;
      ghost var s := a[..];
      b, e, d := SortStep(a, begin, b, e, end, less);
      ShuffledTransitive(old(a[..]), s, a[..], begin, end);
      if d + 1 > depth {
        depth := d + 1;
      }
    }
    ghost var s := a[..];
    if b != e {
      InsertionSort(a, b, e, less);
      ShuffledWider(s, a[..], b, e, begin, end);
      ShuffledTransitive(old(a[..]), s, a[..], begin, end);
    }
    assert Shuffled(s, a[..], b, e) by { ShuffledReflexive(s, b, e); }
    SortedAroundSurvives(s, a[..], begin, b, e, end, less);
    SortedAll(a[..], begin, b, e, end, less);
  }

  /** One round of the loop: partition, sort the shorter side, keep the longer one. */
  method SortStep<T(!new, ==)>(a: array<T>, ghost begin: int, b0: int, e0: int, ghost end: int, less: Order<T>)
    returns (b: int, e: int, ghost d: nat)
    requires StrictTotal(less)
    requires 0 <= begin <= b0 <= e0 <= end <= a.Length && e0 - b0 > 32
    requires SortedAround(a[..], begin, b0, e0, end, less)
    modifies a
    ensures begin <= b <= e <= end && e - b < e0 - b0
    ensures SortedAround(a[..], begin, b, e, end, less)
    ensures Shuffled(old(a[..]), a[..], begin, end)
    ensures 33 * Pow2(d) <= e0 - b0
    decreases e0 - b0, 0
  {
    hide Shuffled, StrictTotal, Sorted, SortedAround;
    var middle := b0 + (e0 - b0) / 2;
    Median(a, b0, middle, e0 - 1, less);
    SortedAroundSurvives(old(a[..]), a[..], begin, b0, e0, end, less);
    ghost var s := a[..];
    StrictTotalComparable(less);
    var eqbeg, eqend := Partition(a, b0, middle, e0, less);
    SortedAroundSurvives(s, a[..], begin, b0, e0, end, less);
    ShuffledTransitive(old(a[..]), s, a[..], b0, e0);
    ghost var t := a[..];
    if eqbeg - b0 > e0 - eqend {
      d := Sort(a, eqend, e0, less);
      NarrowBelow(t, a[..], begin, b0, eqbeg, eqend, e0, end, s[middle], less);
      b, e := b0, eqbeg;
    } else {
      d := Sort(a, b0, eqbeg, less);
      NarrowAbove(t, a[..], begin, b0, eqbeg, eqend, e0, end, s[middle], less);
      b, e := eqend, e0;
    }
    ShuffledTransitive(old(a[..]), t, a[..], b0, e0);
    ShuffledWider(old(a[..]), a[..], b0, e0, begin, end);
  }

  lemma {:induction false} SortedAll<T>(s: seq<T>, begin: int, b: int, e: int, end: int, less: Order<T>)
    requires 0 <= begin <= b <= e <= end <= |s| && SortedAround(s, begin, b, e, end, less)
    requires b == e || Sorted(s, b, e, less)
    ensures Sorted(s, begin, end, less)
  {
  }

  lemma {:induction false} StrictTotalComparable<T(!new)>(less: Order<T>)
    requires StrictTotal(less)
    ensures Comparable(less)
  {
  }

  // ---------------------------------------------------------------- unique

  /** `s` with every run of equal neighbours reduced to one element. */
  function Collapse<T(==)>(s: seq<T>): (r: seq<T>)
    ensures |r| <= |s| && (s != [] ==> r != [] && r[|r| - 1] == s[|s| - 1])
  {
    if |s| < 2 then s
    else if s[|s| - 1] == s[|s| - 2] then Collapse(s[..|s| - 1])
    else Collapse(s[..|s| - 1]) + [s[|s| - 1]]
  }

  ghost predicate Ascending<T>(s: seq<T>, less: Order<T>) {
    forall i, j :: 0 <= i < j < |s| ==> less(s[i], s[j])
  }

  lemma {:induction false} AscendingAppend<T(!new)>(s: seq<T>, x: T, less: Order<T>)
    requires StrictTotal(less) && Ascending(s, less) && s != [] && less(s[|s| - 1], x)
    ensures Ascending(s + [x], less)
  {
    forall i | 0 <= i < |s| ensures less(s[i], x) {
      assert i == |s| - 1 || less(s[i], s[|s| - 1]);
    }
  }

  /** Of a sorted sequence, collapsing keeps each element once, in strictly ascending order. */
  lemma {:induction false} CollapseSorted<T(!new)>(s: seq<T>, less: Order<T>)
    requires StrictTotal(less) && Sorted(s, 0, |s|, less)
    ensures forall x :: x in s <==> x in Collapse(s)
    ensures Ascending(Collapse(s), less)
  {
    if |s| >= 2 {
      var t, last := s[..|s| - 1], s[|s| - 1];
      assert s == t + [last];
      CollapseSorted(t, less);
      var c := Collapse(t);
      if last != s[|s| - 2] {
        assert less(s[|s| - 2], last) by { assert !less(s[|s| - 1], s[|s| - 2]); }
        assert Collapse(s) == c + [last] && c[|c| - 1] == s[|s| - 2];
        AscendingAppend(c, last, less);
      }
    }
  }

  lemma {:induction false} CollapseShort<T>(s: seq<T>)
    requires |s| < 2
    ensures Collapse(s) == s
  {
  }

  ghost function CollapsedHead<T>(s: seq<T>, n: int): (r: seq<T>)
    requires 0 <= n <= |s|
    ensures 0 < n ==> r != [] && r[|r| - 1] == s[n - 1]
  {
    Collapse(s[..n])
  }

  lemma {:induction false} CollapseStep<T>(s: seq<T>, n: int)
    requires 0 < n < |s|
    ensures CollapsedHead(s, n + 1) == if s[n] == s[n - 1] then CollapsedHead(s, n) else CollapsedHead(s, n) + [s[n]]
  {
    assert s[..n + 1][..n] == s[..n];
  }

  lemma {:induction false} CollapseWhole<T>(s: seq<T>)
    ensures CollapsedHead(s, |s|) == Collapse(s)
  {
    assert s[..|s|] == s;
  }

  /** Skips the head of the range, where nothing has to move. */
  method SkipHead<T(==)>(a: array<T>, begin: int, end: int) returns (b: int)
    requires 0 <= begin < end <= a.Length
    ensures begin <= b < end
    ensures CollapsedHead(a[begin..end], b + 1 - begin) == a[begin..end][..b + 1 - begin]
  {
    ghost var s := a[begin..end];
    b := begin;
    while b + 1 < end && a[b] != a[b + 1]
      invariant begin <= b < end
      invariant CollapsedHead(s, b + 1 - begin) == s[..b + 1 - begin]
    {
      CollapseStep(s, b + 1 - begin);
      assert s[..b + 2 - begin] == s[..b + 1 - begin] + [s[b + 1 - begin]];
      b := b + 1;
    }
  }

  /** Merges the elements from `b0` on into the collapsed head that ends at `b0 - 1`. */
  method MergeUnique<T(==)>(a: array<T>, begin: int, b0: int, end: int, ghost s: seq<T>) returns (past: int)
    requires 0 <= begin < b0 <= end <= a.Length && s == a[begin..end]
    requires CollapsedHead(s, b0 - begin) == s[..b0 - begin]
    modifies a
    ensures begin <= past <= end && past - begin == |Collapse(s)|
    ensures forall k :: begin <= k < past ==> a[k] == Collapse(s)[k - begin]
    ensures forall k :: 0 <= k < begin || end <= k < a.Length ==> a[k] == old(a[k])
  {
    hide Collapse, CollapsedHead;
    var write, b := b0 - 1, b0;
    ghost var done := CollapsedHead(s, b - begin);
    while b != end
      invariant begin <= write < b <= end
      invariant done == CollapsedHead(s, b - begin) && |done| == write + 1 - begin
      invariant forall k :: begin <= k <= write ==> a[k] == done[k - begin]
      invariant forall k :: b <= k < end ==> a[k] == s[k - begin]
      invariant forall k :: 0 <= k < begin || end <= k < a.Length ==> a[k] == old(a[k])
    {
      CollapseStep(s, b - begin);
      if a[b] != a[write] {
        write := write + 1;
        a[write] := a[b];
      }
      b := b + 1;
      done := CollapsedHead(s, b - begin);
    }
    CollapseWhole(s);
    return write + 1;
  }

  /** Collapses equal neighbours in place; the result runs from `begin` to the returned position. */
  method Unique<T(==)>(a: array<T>, begin: int, end: int) returns (past: int)
    requires 0 <= begin <= end <= a.Length
    modifies a
    ensures begin <= past <= end
    ensures a[begin..past] == Collapse(old(a[begin..end]))
    ensures forall k :: 0 <= k < begin || end <= k < a.Length ==> a[k] == old(a[k])
  {
    hide Collapse;
    ghost var s := a[begin..end];
    if begin == end {
      CollapseShort(s);
      return begin;
    }
    var b := SkipHead(a, begin, end);
    past := MergeUnique(a, begin, b + 1, end, s);
    assert a[begin..past] == Collapse(s);
  }

  lemma {:induction false} CollapseMembers<T(!new)>(s: seq<T>)
    ensures forall x :: x in s <==> x in Collapse(s)
  {
    if |s| >= 2 {
      var t, last := s[..|s| - 1], s[|s| - 1];
      assert s == t + [last] && t[|t| - 1] == s[|s| - 2];
      CollapseMembers(t);
    }
  }

  /**
    `remove_duplicates`: an unsorted node set is put in the order of `less`, a sorted one is taken as it is.
    Every node of the set is left; each is left once if the set was unsorted or was sorted in some `order`.
    */
  method RemoveDuplicates<T(!new, ==)>(a: array<T>, unsorted: bool, less: Order<T>, ghost order: Order<T>) returns (past: int)
    requires StrictTotal(less) && StrictTotal(order)
    modifies a
    ensures 0 <= past <= a.Length
    ensures forall x :: x in a[..past] <==> x in old(a[..])
    ensures unsorted ==> Ascending(a[..past], less)
    ensures !unsorted && Sorted(old(a[..]), 0, a.Length, order) ==> Ascending(a[..past], order)
  {
    if unsorted {
      ghost var depth := Sort(a, 0, a.Length, less);
      SameElements(old(a[..]), a[..]);
    }
    ghost var s := a[..];
    past := Unique(a, 0, a.Length);
    assert s[0..a.Length] == s && a[0..past] == a[..past];
    CollapseMembers(s);
    if unsorted {
      CollapseSorted(s, less);
    } else if Sorted(s, 0, |s|, order) {
      CollapseSorted(s, order);
    }
  }

  lemma {:induction false} SameElements<T>(s: seq<T>, t: seq<T>)
    requires multiset(s) == multiset(t)
    ensures forall x :: x in s <==> x in t
  {
    forall x ensures x in s <==> x in t {
      assert x in s <==> x in multiset(s);
      assert x in t <==> x in multiset(t);
    }
  }
}
