/**
  The allocator behind documents: blocks are cut from the last of a list of pages; a page other than the last
  is given back when everything in it has been freed.
  */
module PageAllocator {

  const PAGE_SIZE: nat := 32768
  const LARGE: nat := PAGE_SIZE / 4

  /** A page at address `id`, with what has been handed out of it and what of that has come back. */
  datatype Page = Page(id: nat, capacity: nat, busy: nat, freed: nat)

  datatype Block = Block(page: nat, offset: nat, size: nat)

  // ---------------------------------------------------------------- operations on the list of pages

  /** `allocate_memory`; `id` is the address of the new page when one is needed. */
  function Allocated(v: seq<Page>, size: nat, id: nat): (r: (seq<Page>, Block))
    requires v != []
  {
    var last := |v| - 1;
    if v[last].busy + size <= PAGE_SIZE then
      (v[last := v[last].(busy := v[last].busy + size)], Block(v[last].id, v[last].busy, size))
    else if size <= LARGE then (v + [Page(id, PAGE_SIZE, size, 0)], Block(id, 0, size))
    else (v[..last] + [Page(id, size, size, 0)] + [v[last]], Block(id, 0, size))
  }

  function Find(v: seq<Page>, id: nat): (k: nat)
    ensures k <= |v| && (k < |v| ==> v[k].id == id) && forall i :: 0 <= i < k ==> v[i].id != id
  {
    if v == [] || v[0].id == id then 0 else 1 + Find(v[1..], id)
  }

  /** `deallocate_memory` */
  function Freed(v: seq<Page>, k: nat, size: nat): (r: seq<Page>)
    requires k < |v|
  {
    var freed := v[k].freed + size;
    if freed != v[k].busy then v[k := v[k].(freed := freed)]
    else if k == |v| - 1 then v[k := v[k].(busy := 0, freed := 0)]
    else v[..k] + v[k + 1..]
  }

  // ---------------------------------------------------------------- what holds of it

  /** The bytes of a page that are in live blocks. */
  function LiveIn(live: seq<Block>, id: nat): (n: nat) {
    if live == [] then 0 else (if live[0].page == id then live[0].size else 0) + LiveIn(live[1..], id)
  }

  ghost predicate Distinct(v: seq<Page>) {
    forall i, j :: 0 <= i < j < |v| ==> v[i].id != v[j].id
  }

  /** The sentinel holds nothing that can be freed and looks full. */
  ghost predicate Sentinel(v: seq<Page>, live: seq<Block>) {
    v != [] && v[0].busy == PAGE_SIZE && v[0].freed == 0 && LiveIn(live, v[0].id) == 0
  }

  /** Every page accounts for its bytes: handed out, and either given back or live. */
  ghost predicate Accounted(v: seq<Page>, live: seq<Block>) {
    forall i :: 0 < i < |v| ==> v[i].freed + LiveIn(live, v[i].id) == v[i].busy <= v[i].capacity
  }

  /** A page with nothing live in it is the last one, and starts again from nothing. */
  ghost predicate Needed(v: seq<Page>, live: seq<Block>) {
    forall i :: 0 < i < |v| && LiveIn(live, v[i].id) == 0 ==> i == |v| - 1 && v[i].busy == 0
  }

  /** Small blocks share pages of the standard size; larger ones may have a page of their own. */
  ghost predicate Shapes(v: seq<Page>) {
    forall i :: 0 < i < |v| ==> v[i].capacity == PAGE_SIZE || (i < |v| - 1 && v[i].busy == v[i].capacity)
  }

  /** Within what was handed out; on a page of its own a block is all there is. */
  ghost predicate Within(p: Page, b: Block) {
    && p.id == b.page && 0 < b.size && b.offset + b.size <= p.busy
    && (p.capacity == PAGE_SIZE || (b.offset == 0 && b.size == p.busy))
  }

  ghost predicate Lies(v: seq<Page>, b: Block) {
    exists k :: 0 < k < |v| && Within(v[k], b)
  }

  ghost predicate Apart(a: Block, b: Block) {
    a.page != b.page || a.offset + a.size <= b.offset || b.offset + b.size <= a.offset
  }

  ghost predicate Books(v: seq<Page>, live: seq<Block>) {
    Distinct(v) && Sentinel(v, live) && Accounted(v, live) && Needed(v, live) && Shapes(v)
  }

  ghost predicate Blocks(v: seq<Page>, live: seq<Block>) {
    && (forall i :: 0 <= i < |live| ==> Lies(v, live[i]))
    && (forall i, j :: 0 <= i < j < |live| ==> Apart(live[i], live[j]))
  }

  ghost predicate Inv(v: seq<Page>, live: seq<Block>) {
    Books(v, live) && Blocks(v, live)
  }

  // ---------------------------------------------------------------- sums

  lemma {:induction false} LiveConcat(a: seq<Block>, b: seq<Block>, id: nat)
    ensures LiveIn(a + b, id) == LiveIn(a, id) + LiveIn(b, id)
  {
    if a == [] {
      assert a + b == b;
    } else {
      assert (a + b)[1..] == a[1..] + b;
      LiveConcat(a[1..], b, id);
    }
  }

  lemma {:induction false} LiveOne(b: Block, id: nat)
    ensures LiveIn([b], id) == if b.page == id then b.size else 0
  {
  }

  lemma {:induction false} LiveMore(live: seq<Block>, b: Block, id: nat)
    ensures LiveIn(live + [b], id) == LiveIn(live, id) + (if b.page == id then b.size else 0)
  {
    LiveConcat(live, [b], id);
    LiveOne(b, id);
  }

  function Without(live: seq<Block>, i: nat): seq<Block>
    requires i < |live|
  {
    live[..i] + live[i + 1..]
  }

  lemma {:induction false} LiveLess(live: seq<Block>, i: nat, id: nat)
    requires i < |live|
    ensures LiveIn(live, id) == LiveIn(Without(live, i), id) + (if live[i].page == id then live[i].size else 0)
  {
    assert live == (live[..i] + [live[i]]) + live[i + 1..];
    LiveConcat(live[..i] + [live[i]], live[i + 1..], id);
    LiveConcat(live[..i], [live[i]], id);
    LiveConcat(live[..i], live[i + 1..], id);
    LiveOne(live[i], id);
  }

  /** A page with a live block in it has live bytes. */
  lemma {:induction false} SomeLive(live: seq<Block>, id: nat)
    ensures LiveIn(live, id) > 0 ==> exists i :: 0 <= i < |live| && live[i].page == id
    ensures (exists i :: 0 <= i < |live| && live[i].page == id && live[i].size > 0) ==> LiveIn(live, id) > 0
  {
    if live != [] {
      SomeLive(live[1..], id);
      if LiveIn(live[1..], id) > 0 {
        var i :| 0 <= i < |live[1..]| && live[1..][i].page == id;
        assert live[i + 1].page == id;
      }
      if i :| 0 <= i < |live| && live[i].page == id && live[i].size > 0 {
        if i > 0 {
          assert live[1..][i - 1] == live[i];
        }
      }
    }
  }

  lemma {:induction false} NoneLive(live: seq<Block>, id: nat)
    requires forall i :: 0 <= i < |live| ==> live[i].page != id
    ensures LiveIn(live, id) == 0
  {
    if live != [] {
      assert live[0].page != id;
      forall i | 0 <= i < |live[1..]| ensures live[1..][i].page != id {
        assert live[1..][i] == live[i + 1];
      }
      NoneLive(live[1..], id);
    }
  }

  // ---------------------------------------------------------------- allocation

  /** A block at the end of the last page. */
  lemma {:induction false} InLastPage(v: seq<Page>, live: seq<Block>, size: nat)
    requires Inv(v, live) && size > 0 && v[|v| - 1].busy + size <= PAGE_SIZE
    ensures var last := |v| - 1;
            var b := Block(v[last].id, v[last].busy, size);
            && Inv(v[last := v[last].(busy := v[last].busy + size)], live + [b])
            && (forall i :: 0 <= i < |live| ==> Apart(live[i], b))
  {
    var last := |v| - 1;
    var b := Block(v[last].id, v[last].busy, size);
    var u := v[last := v[last].(busy := v[last].busy + size)];
    InLastBooks(v, live, size);
    hide Books, LiveIn;
    forall i | 0 <= i < |live| ensures Apart(live[i], b) && Lies(u, live[i]) {
      var k :| 0 < k < |v| && Within(v[k], live[i]);
      assert Within(u[k], live[i]);
    }
    assert Within(u[last], b);
    Extended(u, live, b);
  }

  lemma {:induction false} InLastBooks(v: seq<Page>, live: seq<Block>, size: nat)
    requires Books(v, live) && size > 0 && v[|v| - 1].busy + size <= PAGE_SIZE
    ensures var last := |v| - 1;
            && last > 0 && v[last].capacity == PAGE_SIZE && (forall i :: 0 <= i < last ==> v[i].id != v[last].id)
            && Books(v[last := v[last].(busy := v[last].busy + size)], live + [Block(v[last].id, v[last].busy, size)])
  {
    var last := |v| - 1;
    var b := Block(v[last].id, v[last].busy, size);
    forall id ensures LiveIn(live + [b], id) == LiveIn(live, id) + (if id == v[last].id then size else 0) {
      LiveMore(live, b, id);
    }
    hide LiveIn;
  }

  /** Blocks that lie apart still do when one more lies apart from all of them. */
  lemma {:induction false} Extended(u: seq<Page>, live: seq<Block>, b: Block)
    requires Lies(u, b) && (forall i :: 0 <= i < |live| ==> Lies(u, live[i]) && Apart(live[i], b))
    requires forall i, j :: 0 <= i < j < |live| ==> Apart(live[i], live[j])
    ensures forall i :: 0 <= i < |live + [b]| ==> Lies(u, (live + [b])[i])
    ensures forall i, j :: 0 <= i < j < |live + [b]| ==> Apart((live + [b])[i], (live + [b])[j])
  {
  }

  ghost predicate NewId(v: seq<Page>, id: nat) {
    forall i :: 0 <= i < |v| ==> v[i].id != id
  }

  lemma {:induction false} NotOnNewPage(v: seq<Page>, live: seq<Block>, id: nat)
    requires Inv(v, live) && NewId(v, id)
    ensures LiveIn(live, id) == 0 && forall i :: 0 <= i < |live| ==> live[i].page != id
  {
    forall i | 0 <= i < |live| ensures live[i].page != id {
      var k :| 0 < k < |v| && Within(v[k], live[i]);
    }
    NoneLive(live, id);
  }

  /** A block on a new last page. */
  lemma {:induction false} OnNewPage(v: seq<Page>, live: seq<Block>, size: nat, id: nat)
    requires Inv(v, live) && NewId(v, id) && 0 < size <= LARGE && v[|v| - 1].busy + size > PAGE_SIZE
    ensures var b := Block(id, 0, size);
            && Inv(v + [Page(id, PAGE_SIZE, size, 0)], live + [b])
            && (forall i :: 0 <= i < |live| ==> Apart(live[i], b))
  {
    var b := Block(id, 0, size);
    var u := v + [Page(id, PAGE_SIZE, size, 0)];
    NotOnNewPage(v, live, id);
    forall x ensures LiveIn(live + [b], x) == LiveIn(live, x) + (if x == id then size else 0) {
      LiveMore(live, b, x);
    }
    hide LiveIn;
    forall i | 0 <= i < |live| ensures Lies(u, live[i]) {
      var k :| 0 < k < |v| && Within(v[k], live[i]);
      assert Within(u[k], live[i]);
    }
    assert Within(u[|v|], b);
    Extended(u, live, b);
  }

  /** A large block on a page of its own, before the last one. */
  lemma {:induction false} OnOwnPage(v: seq<Page>, live: seq<Block>, size: nat, id: nat)
    requires Inv(v, live) && NewId(v, id) && size > 0 && |v| > 1
    ensures var last := |v| - 1;
            var b := Block(id, 0, size);
            && Inv(v[..last] + [Page(id, size, size, 0)] + [v[last]], live + [b])
            && (forall i :: 0 <= i < |live| ==> Apart(live[i], b))
  {
    var last := |v| - 1;
    var b := Block(id, 0, size);
    var u := v[..last] + [Page(id, size, size, 0)] + [v[last]];
    NotOnNewPage(v, live, id);
    forall x ensures LiveIn(live + [b], x) == LiveIn(live, x) + (if x == id then size else 0) {
      LiveMore(live, b, x);
    }
    hide LiveIn;
    assert forall i :: 0 <= i < last ==> u[i] == v[i];
    assert u[last] == Page(id, size, size, 0) && u[last + 1] == v[last];
    OwnPageBooks(v, live, size, id);
    hide Books;
    forall i | 0 <= i < |live| ensures Lies(u, live[i]) {
      var k :| 0 < k < |v| && Within(v[k], live[i]);
      assert Within(u[if k < last then k else last + 1], live[i]);
    }
    assert Within(u[last], b);
    Extended(u, live, b);
  }

  lemma {:induction false} OwnPageBooks(v: seq<Page>, live: seq<Block>, size: nat, id: nat)
    requires Books(v, live) && NewId(v, id) && size > 0 && |v| > 1 && LiveIn(live, id) == 0
    requires forall x :: LiveIn(live + [Block(id, 0, size)], x) == LiveIn(live, x) + (if x == id then size else 0)
    ensures Books(v[..|v| - 1] + [Page(id, size, size, 0)] + [v[|v| - 1]], live + [Block(id, 0, size)])
  {
    hide LiveIn;
    var last := |v| - 1;
    var u := v[..last] + [Page(id, size, size, 0)] + [v[last]];
    assert forall i :: 0 <= i < last ==> u[i] == v[i];
    assert u[last] == Page(id, size, size, 0) && u[last + 1] == v[last];
  }

  /** Every allocation after a small first one keeps the books, and its block lies apart from all live ones. */
  lemma {:induction false} AllocatedKeeps(v: seq<Page>, live: seq<Block>, size: nat, id: nat)
    requires Inv(v, live) && NewId(v, id) && size > 0 && (size <= LARGE || |v| > 1)
    ensures var (u, b) := Allocated(v, size, id);
            && Inv(u, live + [b]) && |u| > 1 && b.size == size
            && (|u| == |v| <==> v[|v| - 1].busy + size <= PAGE_SIZE)
            && (forall i :: 0 <= i < |live| ==> Apart(live[i], b))
  {
    if v[|v| - 1].busy + size <= PAGE_SIZE {
      InLastPage(v, live, size);
    } else if size <= LARGE {
      OnNewPage(v, live, size, id);
    } else {
      OnOwnPage(v, live, size, id);
    }
    hide Inv;
  }

  // ---------------------------------------------------------------- freeing

  /** The page a live block is on. */
  lemma {:induction false} HomeOf(v: seq<Page>, live: seq<Block>, i: nat)
    requires Inv(v, live) && i < |live|
    ensures var k := Find(v, live[i].page); 0 < k < |v| && Within(v[k], live[i])
  {
    var k :| 0 < k < |v| && Within(v[k], live[i]);
    assert Find(v, live[i].page) == k;
  }

  lemma {:induction false} WithoutFacts(live: seq<Block>, i: nat)
    requires i < |live|
    ensures forall j :: 0 <= j < |Without(live, i)| ==> Without(live, i)[j] == live[if j < i then j else j + 1]
    ensures |Without(live, i)| == |live| - 1
  {
  }

  /** What leaving out one block does to the accounts. */
  lemma {:induction false} OneLess(live: seq<Block>, i: nat)
    requires i < |live|
    ensures forall id :: LiveIn(live, id) == LiveIn(Without(live, i), id) + (if live[i].page == id then live[i].size else 0)
  {
    forall id ensures LiveIn(live, id) == LiveIn(Without(live, i), id) + (if live[i].page == id then live[i].size else 0) {
      LiveLess(live, i, id);
    }
  }

  /** Blocks other than the freed one, and where they lie. */
  lemma {:induction false} OthersLie(v: seq<Page>, live: seq<Block>, i: nat)
    requires Inv(v, live) && i < |live|
    ensures var rest := Without(live, i);
            && (forall j :: 0 <= j < |rest| ==> Lies(v, rest[j]))
            && (forall j, k :: 0 <= j < k < |rest| ==> Apart(rest[j], rest[k]))
  {
    WithoutFacts(live, i);
  }

  /** Part of a page comes back. */
  lemma {:induction false} FreedPart(v: seq<Page>, live: seq<Block>, i: nat, k: nat)
    requires Inv(v, live) && i < |live| && 0 < k < |v| && v[k].id == live[i].page && v[k].freed + live[i].size != v[k].busy
    ensures Inv(v[k := v[k].(freed := v[k].freed + live[i].size)], Without(live, i))
  {
    var u := v[k := v[k].(freed := v[k].freed + live[i].size)];
    OneLess(live, i);
    OthersLie(v, live, i);
    hide LiveIn, Without;
    forall j | 0 <= j < |Without(live, i)| ensures Lies(u, Without(live, i)[j]) {
      var m :| 0 < m < |v| && Within(v[m], Without(live, i)[j]);
      assert Within(u[m], Without(live, i)[j]);
    }
  }

  /** When the last block of a page is freed, nothing lives there any more. */
  lemma {:induction false} NobodyLeft(v: seq<Page>, live: seq<Block>, i: nat, k: nat)
    requires Inv(v, live) && i < |live| && 0 < k < |v| && v[k].id == live[i].page && v[k].freed + live[i].size == v[k].busy
    ensures LiveIn(Without(live, i), v[k].id) == 0
    ensures forall j :: 0 <= j < |Without(live, i)| ==> Without(live, i)[j].page != v[k].id
  {
    OneLess(live, i);
    OthersLie(v, live, i);
    SomeLive(Without(live, i), v[k].id);
    hide LiveIn, Without;
    forall j | 0 <= j < |Without(live, i)| ensures Without(live, i)[j].page != v[k].id {
      assert Lies(v, Without(live, i)[j]);
    }
  }

  /** The last page is empty again. */
  lemma {:induction false} FreedLast(v: seq<Page>, live: seq<Block>, i: nat)
    requires Inv(v, live) && i < |live| && |v| > 1
    requires var last := |v| - 1; v[last].id == live[i].page && v[last].freed + live[i].size == v[last].busy
    ensures Inv(v[|v| - 1 := v[|v| - 1].(busy := 0, freed := 0)], Without(live, i))
  {
    var last := |v| - 1;
    var u := v[last := v[last].(busy := 0, freed := 0)];
    NobodyLeft(v, live, i, last);
    OneLess(live, i);
    OthersLie(v, live, i);
    hide LiveIn, Without;
    forall j | 0 <= j < |Without(live, i)| ensures Lies(u, Without(live, i)[j]) {
      var m :| 0 < m < |v| && Within(v[m], Without(live, i)[j]);
      assert Within(u[m], Without(live, i)[j]);
    }
  }

  /** A page before the last is given back. */
  lemma {:induction false} FreedWhole(v: seq<Page>, live: seq<Block>, i: nat, k: nat)
    requires Inv(v, live) && i < |live| && 0 < k < |v| - 1 && v[k].id == live[i].page && v[k].freed + live[i].size == v[k].busy
    ensures Inv(v[..k] + v[k + 1..], Without(live, i))
  {
    var u := v[..k] + v[k + 1..];
    NobodyLeft(v, live, i, k);
    OthersLie(v, live, i);
    RemovedBooks(v, live, i, k);
    hide LiveIn, Without, Books;
    assert forall m :: 0 <= m < |u| ==> u[m] == v[if m < k then m else m + 1];
    forall j | 0 <= j < |Without(live, i)| ensures Lies(u, Without(live, i)[j]) {
      var m :| 0 < m < |v| && Within(v[m], Without(live, i)[j]);
      assert Within(u[if m < k then m else m - 1], Without(live, i)[j]);
    }
  }

  lemma {:induction false} RemovedBooks(v: seq<Page>, live: seq<Block>, i: nat, k: nat)
    requires Books(v, live) && i < |live| && 0 < k < |v| - 1 && v[k].id == live[i].page
    ensures Books(v[..k] + v[k + 1..], Without(live, i))
  {
    var u := v[..k] + v[k + 1..];
    OneLess(live, i);
    hide LiveIn, Without;
    assert forall m :: 0 <= m < |u| ==> u[m] == v[if m < k then m else m + 1];
  }

  /** Freeing any live block keeps the books; what was freed never exceeds what was handed out. */
  lemma {:induction false} FreedKeeps(v: seq<Page>, live: seq<Block>, i: nat)
    requires Inv(v, live) && i < |live|
    ensures var k := Find(v, live[i].page);
            && 0 < k < |v| && v[k].freed + live[i].size <= v[k].busy
            && Inv(Freed(v, k, live[i].size), Without(live, i))
  {
    HomeOf(v, live, i);
    var k := Find(v, live[i].page);
    OneLess(live, i);
    if v[k].freed + live[i].size != v[k].busy {
      FreedPart(v, live, i, k);
    } else if k == |v| - 1 {
      FreedLast(v, live, i);
    } else {
      FreedWhole(v, live, i, k);
    }
  }

  /** A page that is not the last is released exactly when no other live block is on it; no other page ever is. */
  lemma {:induction false} ReleasedExactly(v: seq<Page>, live: seq<Block>, i: nat, m: nat)
    requires Inv(v, live) && i < |live| && m < |v|
    ensures var k := Find(v, live[i].page);
            k < |v| &&
            (NewId(Freed(v, k, live[i].size), v[m].id)
             <==> 0 < m < |v| - 1 && m == k && forall j :: 0 <= j < |live| && j != i ==> live[j].page != v[m].id)
  {
    HomeOf(v, live, i);
    var k, b := Find(v, live[i].page), live[i];
    var u := Freed(v, k, b.size);
    OneLess(live, i);
    WithoutFacts(live, i);
    if v[k].freed + b.size == v[k].busy {
      NobodyLeft(v, live, i, k);
      OthersGone(live, i, v[k].id);
      if k < |v| - 1 {
        assert forall x :: 0 <= x < |u| ==> u[x] == v[if x < k then x else x + 1];
        assert m < k ==> u[m].id == v[m].id;
        assert m > k ==> u[m - 1].id == v[m].id;
      } else {
        assert u[m].id == v[m].id;
      }
    } else {
      assert u[m].id == v[m].id;
      SomeLive(Without(live, i), v[k].id);
      var j :| 0 <= j < |Without(live, i)| && Without(live, i)[j].page == v[k].id;
      assert live[if j < i then j else j + 1].page == v[k].id;
    }
  }

  lemma {:induction false} OthersGone(live: seq<Block>, i: nat, id: nat)
    requires i < |live| && forall j :: 0 <= j < |Without(live, i)| ==> Without(live, i)[j].page != id
    ensures forall j :: 0 <= j < |live| && j != i ==> live[j].page != id
  {
    forall j | 0 <= j < |live| && j != i ensures live[j].page != id {
      assert live[j] == Without(live, i)[if j < i then j else j - 1];
    }
  }

  // ---------------------------------------------------------------- runs

  datatype World = World(pages: seq<Page>, live: seq<Block>)

  datatype Event = Allocate(size: nat, id: nat) | Release(i: nat)

  /** What the program's allocations and frees respect: sizes are not zero, only live blocks are freed, the first block is small. */
  ghost predicate Enabled(w: World, e: Event) {
    match e
    case Allocate(size, id) => w.pages != [] && size > 0 && NewId(w.pages, id) && (size <= LARGE || |w.pages| > 1)
    case Release(i) => i < |w.live| && Find(w.pages, w.live[i].page) < |w.pages|
  }

  ghost function Next(w: World, e: Event): World
    requires Enabled(w, e)
  {
    match e
    case Allocate(size, id) => var (pages, b) := Allocated(w.pages, size, id); World(pages, w.live + [b])
    case Release(i) => World(Freed(w.pages, Find(w.pages, w.live[i].page), w.live[i].size), Without(w.live, i))
  }

  function Start(sentinel: nat): World {
    World([Page(sentinel, 0, PAGE_SIZE, 0)], [])
  }

  ghost predicate IsRun(ws: seq<World>, es: seq<Event>, sentinel: nat) {
    && |ws| == |es| + 1
    && ws[0] == Start(sentinel)
    && forall i :: 0 <= i < |es| ==> Enabled(ws[i], es[i]) && ws[i + 1] == Next(ws[i], es[i])
  }

  lemma {:induction false} RunInv(ws: seq<World>, es: seq<Event>, sentinel: nat, i: nat)
    requires IsRun(ws, es, sentinel) && i < |ws|
    ensures Inv(ws[i].pages, ws[i].live)
  {
    if i > 0 {
      RunInv(ws, es, sentinel, i - 1);
      var w, e := ws[i - 1], es[i - 1];
      hide Inv;
      match e
      case Allocate(size, id) => AllocatedKeeps(w.pages, w.live, size, id);
      case Release(j) => FreedKeeps(w.pages, w.live, j);
    }
  }

  /** In every state of every run, live blocks do not overlap and lie within the memory of their page. */
  lemma {:induction false} LiveBlocksApart(ws: seq<World>, es: seq<Event>, sentinel: nat, i: nat, a: nat, b: nat)
    requires IsRun(ws, es, sentinel) && i < |ws| && a < b < |ws[i].live|
    ensures Apart(ws[i].live[a], ws[i].live[b])
    ensures var k := Find(ws[i].pages, ws[i].live[a].page);
            0 < k < |ws[i].pages| && ws[i].live[a].offset + ws[i].live[a].size <= ws[i].pages[k].capacity
            && ws[i].pages[k].freed <= ws[i].pages[k].busy
  {
    RunInv(ws, es, sentinel, i);
    HomeOf(ws[i].pages, ws[i].live, a);
  }

  /** No page that is not being filled any more is wasted: more than three quarters of it have been used, or it is one large block's own. */
  ghost predicate Filled(v: seq<Page>) {
    forall i :: 0 < i < |v| - 1 ==> v[i].busy > PAGE_SIZE - LARGE || (v[i].busy == v[i].capacity && v[i].capacity > LARGE)
  }

  lemma {:induction false} AllocatedFilled(v: seq<Page>, size: nat, id: nat)
    requires v != [] && size > 0 && (size <= LARGE || |v| > 1) && Filled(v)
    ensures Filled(Allocated(v, size, id).0)
  {
    var u, last := Allocated(v, size, id).0, |v| - 1;
    forall i | 0 < i < |u| - 1 ensures u[i].busy > PAGE_SIZE - LARGE || (u[i].busy == u[i].capacity && u[i].capacity > LARGE) {
      assert i < last ==> u[i] == v[i];
      assert i == last ==> u[i] == if size <= LARGE then v[i] else Page(id, size, size, 0);
    }
  }

  lemma {:induction false} FreedFilled(v: seq<Page>, k: nat, size: nat)
    requires k < |v| && Filled(v)
    ensures Filled(Freed(v, k, size))
  {
    var u := Freed(v, k, size);
    forall i | 0 < i < |u| - 1 ensures u[i].busy > PAGE_SIZE - LARGE || (u[i].busy == u[i].capacity && u[i].capacity > LARGE) {
      assert |u| == |v| ==> u[i].busy == v[i].busy && u[i].capacity == v[i].capacity;
      assert |u| < |v| ==> u[i] == v[if i < k then i else i + 1];
    }
  }

  /** In every state of every run the pages that are full are well used. */
  lemma {:induction false} WellFilled(ws: seq<World>, es: seq<Event>, sentinel: nat, i: nat)
    requires IsRun(ws, es, sentinel) && i < |ws|
    ensures Filled(ws[i].pages)
  {
    if i > 0 {
      WellFilled(ws, es, sentinel, i - 1);
      var w, e := ws[i - 1], es[i - 1];
      hide Filled;
      match e
      case Allocate(size, id) => AllocatedFilled(w.pages, size, id);
      case Release(j) => FreedFilled(w.pages, Find(w.pages, w.live[j].page), w.live[j].size);
    }
  }

  // ---------------------------------------------------------------- strings

  const HEADER_SIZE: nat := 4
  const DATA_OFFSET: nat := 48 // of the data within the page structure, with pointers and sizes of eight bytes

  datatype Header = Header(pageOffset: nat, fullSize: nat)

  /** The size of a string with its header, rounded up to the size of a pointer. */
  function FullSize(length: nat): (n: nat)
    ensures HEADER_SIZE + length <= n < HEADER_SIZE + length + 8 && n % 8 == 0 && n > 0
  {
    (HEADER_SIZE + length + 7) / 8 * 8
  }

  /** What `allocate_string` stores in two 16-bit fields. */
  function HeaderOf(b: Block): Header {
    Header(b.offset % 0x10000, if b.size < 0x10000 then b.size else 0)
  }

  function AddressOf(b: Block): nat {
    b.page + DATA_OFFSET + b.offset
  }

  /** The page that `deallocate_string` computes from the address of a header. */
  function PageAt(address: nat, h: Header): int {
    address - (DATA_OFFSET + h.pageOffset)
  }

  function SizeFrom(v: seq<Page>, k: nat, h: Header): nat
    requires k < |v|
  {
    if h.fullSize == 0 then v[k].busy else h.fullSize
  }

  /** The 16 bits of each field are enough: the header of any live block gives back its page and its full size. */
  lemma {:induction false} HeaderRecovers(v: seq<Page>, live: seq<Block>, i: nat)
    requires Inv(v, live) && i < |live|
    ensures var b, h := live[i], HeaderOf(live[i]);
            var k := Find(v, b.page);
            && k < |v| && PageAt(AddressOf(b), h) == v[k].id && SizeFrom(v, k, h) == b.size
            && (h.fullSize == 0 ==> k < |v| - 1 && b.offset == 0)
  {
    HomeOf(v, live, i);
  }

  // ---------------------------------------------------------------- the allocator as an object

  class XmlAllocator {
    /** The list of pages; the size recorded in the last one is out of date while it is being filled. */
    var pages: seq<Page>
    var busySize: nat

    ghost predicate Valid()
      reads this
    {
      pages != []
    }

    /** The pages with the last one brought up to date. */
    ghost function View(): seq<Page>
      requires Valid()
      reads this
    {
      pages[|pages| - 1 := pages[|pages| - 1].(busy := busySize)]
    }

    constructor (sentinel: nat)
      ensures Valid() && View() == Start(sentinel).pages
    {
      pages := [Page(sentinel, 0, PAGE_SIZE, 0)];
      busySize := PAGE_SIZE;
    }

    /** `allocate_memory`: fails only when a page is needed and there is no memory for it. */
    method AllocateMemory(size: nat, id: nat, memory: bool) returns (b: Block, ok: bool)
      requires Valid() && size > 0 && (size <= LARGE || |pages| > 1)
      modifies this
      ensures Valid()
      ensures !ok <==> !memory && old(View())[|old(pages)| - 1].busy + size > PAGE_SIZE
      ensures if ok then (View(), b) == Allocated(old(View()), size, id) else View() == old(View())
    {
      var last := |pages| - 1;
      if busySize + size > PAGE_SIZE {
        b, ok := AllocateMemoryOob(size, id, memory);
        return;
      }
      ghost var was := View();
      b := Block(pages[last].id, busySize, size);
      busySize := busySize + size;
      ok := true;
      assert View() == was[last := was[last].(busy := was[last].busy + size)];
    }

    /** `allocate_memory_oob` */
    method AllocateMemoryOob(size: nat, id: nat, memory: bool) returns (b: Block, ok: bool)
      requires Valid() && size > 0 && busySize + size > PAGE_SIZE && (size <= LARGE || |pages| > 1)
      modifies this
      ensures Valid() && ok == memory
      ensures if ok then (View(), b) == Allocated(old(View()), size, id) else View() == old(View())
    {
      b := Block(id, 0, size);
      ok := memory;
      if !memory {
        return;
      }
      var last := |pages| - 1;
      ghost var was := View();
      if size <= LARGE {
        pages := pages[last := pages[last].(busy := busySize)];
        assert pages == was;
        pages := pages + [Page(id, PAGE_SIZE, size, 0)];
        busySize := size;
        assert View() == was + [Page(id, PAGE_SIZE, size, 0)];
      } else {
        pages := pages[..last] + [Page(id, size, size, 0)] + [pages[last]];
        assert View() == was[..last] + [Page(id, size, size, 0)] + [was[last]];
      }
    }

    /** `deallocate_memory` for a block of `size` bytes on page number `k`. */
    method DeallocateMemory(k: nat, size: nat)
      requires Valid() && k < |pages| && View()[k].freed + size <= View()[k].busy
      modifies this
      ensures Valid() && View() == Freed(old(View()), k, size)
    {
      ghost var was := View();
      var last := |pages| - 1;
      if k == last {
        pages := pages[k := pages[k].(busy := busySize)];
      }
      pages := pages[k := pages[k].(freed := pages[k].freed + size)];
      if pages[k].freed == pages[k].busy {
        if k == last {
          pages := pages[k := pages[k].(busy := 0, freed := 0)];
          busySize := 0;
        } else {
          pages := pages[..k] + pages[k + 1..];
          assert View() == was[..k] + was[k + 1..];
        }
      }
    }

    /** `allocate_string` */
    method AllocateString(length: nat, id: nat, memory: bool) returns (b: Block, h: Header, ok: bool)
      requires Valid() && (FullSize(length) <= LARGE || |pages| > 1)
      modifies this
      ensures Valid() && (ok ==> (View(), b) == Allocated(old(View()), FullSize(length), id) && h == HeaderOf(b))
      ensures !ok ==> View() == old(View())
    {
      b, ok := AllocateMemory(FullSize(length), id, memory);
      h := Header(b.offset % 0x10000, if b.size < 0x10000 then b.size else 0);
    }

    /** `deallocate_string`: page and size are worked out from the header alone. */
    method DeallocateString(address: nat, h: Header, ghost live: seq<Block>, ghost i: nat)
      requires Valid() && Inv(View(), live) && i < |live| && address == AddressOf(live[i]) && h == HeaderOf(live[i])
      modifies this
      ensures Valid() && Inv(View(), Without(live, i))
      ensures View() == Freed(old(View()), Find(old(View()), live[i].page), live[i].size)
    {
      HeaderRecovers(View(), live, i);
      FreedKeeps(View(), live, i);
      hide Inv;
      var page := address - (DATA_OFFSET + h.pageOffset);
      var k := PageIndex(page);
      var full := if h.fullSize == 0 then pages[k].busy else h.fullSize;
      DeallocateMemory(k, full);
    }

    /** Stands for following the pointer to a page. */
    method PageIndex(id: nat) returns (k: nat)
      requires Valid() && Find(View(), id) < |View()|
      ensures k == Find(View(), id)
    {
      k := 0;
      while pages[k].id != id
        invariant k <= Find(View(), id)
        decreases |pages| - k
      {
        assert View()[k].id == pages[k].id;
        k := k + 1;
      }
      assert View()[k].id == pages[k].id;
    }
  }
}
