/** The free-block index: one circular doubly linked list of free blocks per block size,
    whose links live in the heap words of the blocks themselves, hung on a circular doubly
    linked list of size nodes kept in increasing order of size.
 */
module FreeIndex {
  import opened FreeRings

  /** What a `links` field can point to: the embedded head of a size node, or a block header. */
  datatype Ptr = Sentinel(node: nat) | At(header: nat)

  /** One 8-byte word of the heap.  Sizes in an Info word count 16-byte rows. */
  datatype Word =
    | Info(alloc: bool, prevAlloc: bool, size: nat, requested: nat)
    | Link(to: Ptr)
    | Data(bits: nat)

  /** A size node.  Node 0 is the global list head, which has no blocks and size 0. */
  datatype SizeNode = SizeNode(size: nat, next: nat, prev: nat, headNext: Ptr, headPrev: Ptr)

  /** What the index stands for: idx gives the size, in rows, of every block it holds. */
  datatype Shape = Shape(
    idx: map<nat, nat>,
    next: map<Ptr, Ptr>,
    prev: map<Ptr, Ptr>,
    rings: seq<seq<Ptr>>,
    order: seq<nat>)

  // ----- pointer writes

  predicate Addressable(mem: seq<Word>, nodes: seq<SizeNode>, p: Ptr) {
    match p
    case At(h) => h + 2 < |mem|
    case Sentinel(k) => k < |nodes|
  }

  function MemNext(mem: seq<Word>, p: Ptr, q: Ptr): seq<Word>
    requires p.At? ==> p.header + 2 < |mem|
  {
    if p.At? then mem[p.header + 1 := Link(q)] else mem
  }

  function MemPrev(mem: seq<Word>, p: Ptr, q: Ptr): seq<Word>
    requires p.At? ==> p.header + 2 < |mem|
  {
    if p.At? then mem[p.header + 2 := Link(q)] else mem
  }

  function NodesNext(nodes: seq<SizeNode>, p: Ptr, q: Ptr): seq<SizeNode>
    requires p.Sentinel? ==> p.node < |nodes|
  {
    if p.Sentinel? then nodes[p.node := nodes[p.node].(headNext := q)] else nodes
  }

  function NodesPrev(nodes: seq<SizeNode>, p: Ptr, q: Ptr): seq<SizeNode>
    requires p.Sentinel? ==> p.node < |nodes|
  {
    if p.Sentinel? then nodes[p.node := nodes[p.node].(headPrev := q)] else nodes
  }

  /** The two link words of h hold pointers that can be followed. */
  predicate Readable(mem: seq<Word>, nodes: seq<SizeNode>, h: nat) {
    && h + 2 < |mem|
    && mem[h + 1].Link? && Addressable(mem, nodes, mem[h + 1].to)
    && mem[h + 2].Link? && Addressable(mem, nodes, mem[h + 2].to)
  }

  // ----- the invariant

  ghost predicate LinkWords(mem: seq<Word>, nodes: seq<SizeNode>, x: Shape, p: Ptr)
    requires p in x.next && p in x.prev
  {
    && Addressable(mem, nodes, p)
    && match p
       case At(h) => mem[h + 1] == Link(x.next[p]) && mem[h + 2] == Link(x.prev[p])
       case Sentinel(k) => 1 <= k && nodes[k].headNext == x.next[p] && nodes[k].headPrev == x.prev[p]
  }

  /** The maps next and prev are what the link words say, and no two blocks that have link
      words are close enough for these to overlap. */
  ghost predicate Linked(mem: seq<Word>, nodes: seq<SizeNode>, x: Shape) {
    && x.next.Keys == x.prev.Keys
    && (forall p {:trigger LinkWords(mem, nodes, x, p)} :: p in x.next ==> LinkWords(mem, nodes, x, p))
    && (forall k :: 1 <= k < |nodes| ==> Sentinel(k) in x.next)
    && Spread(x.next)
  }

  ghost predicate Spread(next: map<Ptr, Ptr>) {
    forall g: nat, h: nat :: At(g) in next && At(h) in next && g < h ==> g + 4 <= h
  }

  /** The blocks on ring k are all of its size. */
  ghost predicate RingOf(nodes: seq<SizeNode>, x: Shape, k: nat)
    requires 1 <= k < |nodes| == |x.rings|
  {
    && Ring(x.next, x.prev, x.rings[k])
    && x.rings[k][0] == Sentinel(k)
    && forall i :: 1 <= i < |x.rings[k]| ==>
         x.rings[k][i].At? && x.rings[k][i].header in x.idx && 16 * x.idx[x.rings[k][i].header] == nodes[k].size
  }

  ghost predicate Held(x: Shape, h: nat) {
    exists k :: 1 <= k < |x.rings| && At(h) in x.rings[k]
  }

  ghost predicate Indexed(nodes: seq<SizeNode>, x: Shape) {
    && 1 <= |nodes| == |x.rings|
    && (forall k {:trigger RingOf(nodes, x, k)} :: 1 <= k < |nodes| ==> RingOf(nodes, x, k))
    && (forall h {:trigger Held(x, h)} :: h in x.idx ==> Held(x, h))
    && (forall h :: h in x.idx ==> At(h) in x.next)
  }

  /** The size nodes form a ring in the order given, with strictly increasing sizes. */
  ghost predicate Ordered(nodes: seq<SizeNode>, order: seq<nat>) {
    && |order| == |nodes|
    && 1 <= |order| && order[0] == 0 && nodes[0].size == 0
    && NoDup(order)
    && (forall k :: 0 <= k < |nodes| ==> k in order)
    && (forall i {:trigger NodeAt(nodes, order, i)} :: 0 <= i < |order| ==> NodeAt(nodes, order, i))
    && Increasing(nodes, order)
  }

  ghost predicate Increasing(nodes: seq<SizeNode>, order: seq<nat>) {
    forall i, j :: 0 <= i < j < |order| && order[i] < |nodes| && order[j] < |nodes|
      ==> nodes[order[i]].size < nodes[order[j]].size
  }

  ghost predicate NodeAt(nodes: seq<SizeNode>, order: seq<nat>, i: nat)
    requires i < |order|
  {
    && order[i] < |nodes| && order[Succ(order, i)] < |nodes|
    && nodes[order[i]].next == order[Succ(order, i)]
    && nodes[order[Succ(order, i)]].prev == order[i]
  }

  ghost predicate IndexInv(mem: seq<Word>, nodes: seq<SizeNode>, x: Shape) {
    && Linked(mem, nodes, x)
    && Indexed(nodes, x)
    && Ordered(nodes, x.order)
  }

  // ----- frames

  predicate IsLinkWord(next: map<Ptr, Ptr>, i: nat) {
    (1 <= i && At(i - 1) in next) || (2 <= i && At(i - 2) in next)
  }

  /** Only link words differ. */
  ghost predicate LinkFrame(next: map<Ptr, Ptr>, mem: seq<Word>, mem': seq<Word>) {
    && |mem'| == |mem|
    && forall i :: 0 <= i < |mem| && !IsLinkWord(next, i) ==> mem'[i] == mem[i]
  }

  /** The size nodes are the same, as far as their sizes and their own list go. */
  ghost predicate SameNodes(nodes: seq<SizeNode>, nodes': seq<SizeNode>) {
    && |nodes'| == |nodes|
    && forall k :: 0 <= k < |nodes| ==>
         nodes'[k].size == nodes[k].size && nodes'[k].next == nodes[k].next && nodes'[k].prev == nodes[k].prev
  }

  lemma OrderKept(nodes: seq<SizeNode>, nodes': seq<SizeNode>, order: seq<nat>)
    requires Ordered(nodes, order)
    requires SameNodes(nodes, nodes')
    ensures Ordered(nodes', order)
  {
    forall i | 0 <= i < |order|
      ensures NodeAt(nodes', order, i)
    {
      assert NodeAt(nodes, order, i);
    }
  }

  /** Distinct nodes have distinct sizes. */
  lemma SizesDistinct(nodes: seq<SizeNode>, order: seq<nat>, j: nat, k: nat)
    requires Ordered(nodes, order)
    requires j < |nodes| && k < |nodes| && j != k
    ensures nodes[j].size != nodes[k].size
  {
    assert j in order && k in order;
    var a :| 0 <= a < |order| && order[a] == j;
    var b :| 0 <= b < |order| && order[b] == k;
    assert nodes[order[a]].size == nodes[j].size && nodes[order[b]].size == nodes[k].size;
  }

  // ----- pointer writes keep the link words in step with the maps

  lemma NextWritten(mem: seq<Word>, nodes: seq<SizeNode>, x: Shape, p: Ptr, q: Ptr)
    requires Linked(mem, nodes, x)
    requires p in x.next
    ensures Addressable(mem, nodes, p)
    ensures Linked(MemNext(mem, p, q), NodesNext(nodes, p, q), x.(next := x.next[p := q]))
    ensures LinkFrame(x.next, mem, MemNext(mem, p, q))
    ensures SameNodes(nodes, NodesNext(nodes, p, q))
  {
    assert LinkWords(mem, nodes, x, p);
    var mem', nodes', x' := MemNext(mem, p, q), NodesNext(nodes, p, q), x.(next := x.next[p := q]);
    assert x'.next.Keys == x.next.Keys;
    forall r | r in x'.next
      ensures LinkWords(mem', nodes', x', r)
    {
      assert LinkWords(mem, nodes, x, r);
    }
    if p.At? {
      assert IsLinkWord(x.next, p.header + 1);
    }
  }

  lemma PrevWritten(mem: seq<Word>, nodes: seq<SizeNode>, x: Shape, p: Ptr, q: Ptr)
    requires Linked(mem, nodes, x)
    requires p in x.next
    ensures Addressable(mem, nodes, p)
    ensures Linked(MemPrev(mem, p, q), NodesPrev(nodes, p, q), x.(prev := x.prev[p := q]))
    ensures LinkFrame(x.next, mem, MemPrev(mem, p, q))
    ensures SameNodes(nodes, NodesPrev(nodes, p, q))
  {
    assert LinkWords(mem, nodes, x, p);
    var mem', nodes', x' := MemPrev(mem, p, q), NodesPrev(nodes, p, q), x.(prev := x.prev[p := q]);
    assert x'.prev.Keys == x.prev.Keys;
    forall r | r in x'.next
      ensures LinkWords(mem', nodes', x', r)
    {
      assert LinkWords(mem, nodes, x, r);
    }
    if p.At? {
      assert IsLinkWord(x.next, p.header + 2);
    }
  }

  // ----- unlinking

  /** The links of h still lead to two neighbours that lead to each other: h was taken out
      and nothing has come between since. */
  ghost predicate Bypassed(x: Shape, h: nat) {
    && At(h) in x.next && At(h) in x.prev
    && var n, p := x.next[At(h)], x.prev[At(h)];
       && n != At(h) && p != At(h)
       && p in x.next && x.next[p] == n
       && n in x.prev && x.prev[n] == p
  }

  function UnlinkMem(mem: seq<Word>, nodes: seq<SizeNode>, h: nat): seq<Word>
    requires Readable(mem, nodes, h)
  {
    MemPrev(MemNext(mem, mem[h + 2].to, mem[h + 1].to), mem[h + 1].to, mem[h + 2].to)
  }

  function UnlinkNodes(mem: seq<Word>, nodes: seq<SizeNode>, h: nat): seq<SizeNode>
    requires Readable(mem, nodes, h)
  {
    NodesPrev(NodesNext(nodes, mem[h + 2].to, mem[h + 1].to), mem[h + 1].to, mem[h + 2].to)
  }

  function UnlinkShape(x: Shape, h: nat, k: nat, i: nat): Shape
    requires At(h) in x.next && At(h) in x.prev && k < |x.rings| && i < |x.rings[k]|
  {
    var n, p := x.next[At(h)], x.prev[At(h)];
    x.(idx := x.idx - {h}, next := x.next[p := n], prev := x.prev[n := p],
        rings := x.rings[k := RemoveAt(x.rings[k], i)])
  }

  lemma Where(nodes: seq<SizeNode>, x: Shape, h: nat) returns (k: nat, i: nat)
    requires Indexed(nodes, x)
    requires h in x.idx
    ensures 1 <= k < |nodes| == |x.rings| && 1 <= i < |x.rings[k]| && x.rings[k][i] == At(h)
    ensures RingOf(nodes, x, k)
  {
    assert Held(x, h);
    k :| 1 <= k < |x.rings| && At(h) in x.rings[k];
    assert RingOf(nodes, x, k);
    i :| 0 <= i < |x.rings[k]| && x.rings[k][i] == At(h);
  }

  /** A block is on no ring but that of its own size. */
  lemma OnOneRing(nodes: seq<SizeNode>, x: Shape, k: nat, i: nat, k': nat, i': nat)
    requires Indexed(nodes, x) && Ordered(nodes, x.order)
    requires 1 <= k < |nodes| && i < |x.rings[k]|
    requires 1 <= k' < |nodes| && i' < |x.rings[k']|
    requires x.rings[k][i] == x.rings[k'][i']
    ensures k == k'
  {
    assert RingOf(nodes, x, k) && RingOf(nodes, x, k');
    if k != k' {
      SizesDistinct(nodes, x.order, k, k');
    }
  }

  lemma UnlinkRings(nodes: seq<SizeNode>, x: Shape, h: nat, k: nat, i: nat)
    requires Indexed(nodes, x) && Ordered(nodes, x.order)
    requires 1 <= k < |nodes| == |x.rings| && 1 <= i < |x.rings[k]| && x.rings[k][i] == At(h)
    ensures h in x.idx && At(h) in x.next && At(h) in x.prev
    ensures x.next[At(h)] in x.prev && x.prev[At(h)] in x.next
    ensures Indexed(nodes, UnlinkShape(x, h, k, i))
    ensures Bypassed(UnlinkShape(x, h, k, i), h)
  {
    assert RingOf(nodes, x, k);
    Bypass(x.next, x.prev, x.rings[k], i);
    var x' := UnlinkShape(x, h, k, i);
    var n, p := x.next[At(h)], x.prev[At(h)];
    var s, r := x.rings[k], RemoveAt(x.rings[k], i);
    assert n in s && p in s;
    assert LinkedAt(x.next, x.prev, s, i) && LinkedAt(x.next, x.prev, s, i - 1);
    forall j | 1 <= j < |nodes|
      ensures RingOf(nodes, x', j)
    {
      assert RingOf(nodes, x, j);
      if j != k {
        forall q | q in x.rings[j]
          ensures q != n && q != p && q != At(h)
        {
          NotOnOther(nodes, x, k, j, q);
        }
        Elsewhere(x.next, x.prev, x'.next, x'.prev, x.rings[j]);
      }
    }
    forall g | g in x'.idx
      ensures Held(x', g)
    {
      var k', i' := Where(nodes, x, g);
      assert k' == k ==> r[if i' < i then i' else i' - 1] == At(g);
      assert At(g) in x'.rings[k'];
    }
  }

  lemma NotOnOther(nodes: seq<SizeNode>, x: Shape, k: nat, j: nat, q: Ptr)
    requires Indexed(nodes, x) && Ordered(nodes, x.order)
    requires 1 <= k < |nodes| && 1 <= j < |nodes| && j != k
    requires q in x.rings[j]
    ensures q !in x.rings[k]
  {
    if q in x.rings[k] {
      var i :| 0 <= i < |x.rings[k]| && x.rings[k][i] == q;
      var i' :| 0 <= i' < |x.rings[j]| && x.rings[j][i'] == q;
      OnOneRing(nodes, x, k, i, j, i');
    }
  }

  /** `removeHeader` takes a block out of the index and touches link words only. */
  lemma Unlinks(mem: seq<Word>, nodes: seq<SizeNode>, x: Shape, h: nat) returns (x': Shape)
    requires IndexInv(mem, nodes, x)
    requires h in x.idx
    ensures Readable(mem, nodes, h)
    ensures IndexInv(UnlinkMem(mem, nodes, h), UnlinkNodes(mem, nodes, h), x')
    ensures x'.idx == x.idx - {h} && x'.next.Keys == x.next.Keys && x'.order == x.order
    ensures Bypassed(x', h)
    ensures LinkFrame(x.next, mem, UnlinkMem(mem, nodes, h))
    ensures SameNodes(nodes, UnlinkNodes(mem, nodes, h))
    ensures h + 2 < |mem| && UnlinkMem(mem, nodes, h)[h + 1] == mem[h + 1]
    ensures UnlinkMem(mem, nodes, h)[h + 2] == mem[h + 2]
  {
    var k, i := Where(nodes, x, h);
    UnlinkRings(nodes, x, h, k, i);
    x' := UnlinkShape(x, h, k, i);
    UnlinkWords(mem, nodes, x, h);
    IndexedKept(nodes, UnlinkNodes(mem, nodes, h), x');
    OrderKept(nodes, UnlinkNodes(mem, nodes, h), x.order);
    LinkedSame(UnlinkMem(mem, nodes, h), UnlinkNodes(mem, nodes, h), x.(next := x'.next, prev := x'.prev), x');
    assert LinkWords(mem, nodes, x, At(h))
        && LinkWords(UnlinkMem(mem, nodes, h), UnlinkNodes(mem, nodes, h), x', At(h));
  }

  /** Taking out a block that is already out changes nothing, as long as its stale links
      still name a pair of neighbours. */
  lemma UnlinkTwice(mem: seq<Word>, nodes: seq<SizeNode>, x: Shape, h: nat)
    requires Linked(mem, nodes, x)
    requires Bypassed(x, h)
    ensures Readable(mem, nodes, h)
    ensures UnlinkMem(mem, nodes, h) == mem
    ensures UnlinkNodes(mem, nodes, h) == nodes
  {
    assert LinkWords(mem, nodes, x, At(h));
    assert LinkWords(mem, nodes, x, x.next[At(h)]);
    assert LinkWords(mem, nodes, x, x.prev[At(h)]);
  }

  lemma UnlinkWords(mem: seq<Word>, nodes: seq<SizeNode>, x: Shape, h: nat)
    requires Linked(mem, nodes, x)
    requires At(h) in x.next && At(h) in x.prev
    requires x.next[At(h)] in x.prev && x.prev[At(h)] in x.next
    ensures Readable(mem, nodes, h)
    ensures var n, p := x.next[At(h)], x.prev[At(h)];
            Linked(UnlinkMem(mem, nodes, h), UnlinkNodes(mem, nodes, h),
                x.(next := x.next[p := n], prev := x.prev[n := p]))
    ensures LinkFrame(x.next, mem, UnlinkMem(mem, nodes, h))
    ensures SameNodes(nodes, UnlinkNodes(mem, nodes, h))
  {
    var n, p := x.next[At(h)], x.prev[At(h)];
    assert LinkWords(mem, nodes, x, At(h)) && LinkWords(mem, nodes, x, n) && LinkWords(mem, nodes, x, p);
    NextWritten(mem, nodes, x, p, n);
    var m1, n1, x1 := MemNext(mem, p, n), NodesNext(nodes, p, n), x.(next := x.next[p := n]);
    assert x1.next.Keys == x.next.Keys;
    PrevWritten(m1, n1, x1, n, p);
    assert x1.(prev := x1.prev[n := p]) == x.(next := x.next[p := n], prev := x.prev[n := p]);
  }

  lemma IndexedKept(nodes: seq<SizeNode>, nodes': seq<SizeNode>, x: Shape)
    requires Indexed(nodes, x)
    requires SameNodes(nodes, nodes')
    ensures Indexed(nodes', x)
  {
    forall k | 1 <= k < |nodes'|
      ensures RingOf(nodes', x, k)
    {
      assert RingOf(nodes, x, k);
    }
  }

  /** Linked looks at the maps next and prev only. */
  lemma LinkedSame(mem: seq<Word>, nodes: seq<SizeNode>, x: Shape, x': Shape)
    requires Linked(mem, nodes, x)
    requires x'.next == x.next && x'.prev == x.prev
    ensures Linked(mem, nodes, x')
  {
    forall p | p in x'.next
      ensures LinkWords(mem, nodes, x', p)
    {
      assert LinkWords(mem, nodes, x, p);
    }
  }

  // ----- inserting at the front

  function PushMem(mem: seq<Word>, nodes: seq<SizeNode>, h: nat, k: nat): seq<Word>
    requires h + 2 < |mem| && k < |nodes| && Addressable(mem, nodes, nodes[k].headNext)
  {
    MemPrev(mem[h + 1 := Link(nodes[k].headNext)][h + 2 := Link(Sentinel(k))], nodes[k].headNext, At(h))
  }

  function PushNodes(mem: seq<Word>, nodes: seq<SizeNode>, h: nat, k: nat): seq<SizeNode>
    requires k < |nodes| && Addressable(mem, nodes, nodes[k].headNext)
  {
    NodesNext(NodesPrev(nodes, nodes[k].headNext, At(h)), Sentinel(k), At(h))
  }

  function PushShape(x: Shape, h: nat, size: nat, k: nat, f: Ptr): Shape
    requires k < |x.rings| && 1 <= |x.rings[k]|
  {
    x.(idx := x.idx[h := size],
       next := x.next[At(h) := f][Sentinel(k) := At(h)],
       prev := x.prev[At(h) := Sentinel(k)][f := At(h)],
       rings := x.rings[k := InsertAt(x.rings[k], 1, At(h))])
  }

  /** h has room for link words of its own. */
  ghost predicate Roomy(x: Shape, h: nat) {
    forall g: nat :: At(g) in x.next && g != h ==> g + 4 <= h || h + 4 <= g
  }

  lemma PushWords(mem: seq<Word>, nodes: seq<SizeNode>, x: Shape, h: nat, k: nat, f: Ptr)
    requires Linked(mem, nodes, x)
    requires 1 <= k < |nodes| && Sentinel(k) in x.next && f == x.next[Sentinel(k)] && f in x.next && f != At(h)
    requires h + 2 < |mem| && Roomy(x, h)
    ensures f == nodes[k].headNext && Addressable(mem, nodes, f)
    ensures Linked(PushMem(mem, nodes, h, k), PushNodes(mem, nodes, h, k),
                   x.(next := x.next[At(h) := f][Sentinel(k) := At(h)],
                       prev := x.prev[At(h) := Sentinel(k)][f := At(h)]))
    ensures LinkFrame(x.next[At(h) := f], mem, PushMem(mem, nodes, h, k))
    ensures SameNodes(nodes, PushNodes(mem, nodes, h, k))
  {
    assert LinkWords(mem, nodes, x, Sentinel(k)) && LinkWords(mem, nodes, x, f);
    var m1 := mem[h + 1 := Link(f)][h + 2 := Link(Sentinel(k))];
    var x1 := x.(next := x.next[At(h) := f], prev := x.prev[At(h) := Sentinel(k)]);
    NewKey(mem, nodes, x, h, f, Sentinel(k));
    PrevWritten(m1, nodes, x1, f, At(h));
    var m2, n2, x2 := MemPrev(m1, f, At(h)), NodesPrev(nodes, f, At(h)), x1.(prev := x1.prev[f := At(h)]);
    NextWritten(m2, n2, x2, Sentinel(k), At(h));
  }

  lemma NewKey(mem: seq<Word>, nodes: seq<SizeNode>, x: Shape, h: nat, n: Ptr, p: Ptr)
    requires Linked(mem, nodes, x)
    requires h + 2 < |mem| && Roomy(x, h)
    ensures Linked(mem[h + 1 := Link(n)][h + 2 := Link(p)], nodes,
                   x.(next := x.next[At(h) := n], prev := x.prev[At(h) := p]))
    ensures LinkFrame(x.next[At(h) := n], mem, mem[h + 1 := Link(n)][h + 2 := Link(p)])
  {
    var m1 := mem[h + 1 := Link(n)][h + 2 := Link(p)];
    var x1 := x.(next := x.next[At(h) := n], prev := x.prev[At(h) := p]);
    assert x1.next.Keys == x.next.Keys + {At(h)} == x1.prev.Keys;
    forall q | q in x1.next
      ensures LinkWords(m1, nodes, x1, q)
    {
      if q != At(h) {
        assert LinkWords(mem, nodes, x, q);
      }
    }
    assert IsLinkWord(x1.next, h + 1) && IsLinkWord(x1.next, h + 2);
  }

  lemma PushRings(nodes: seq<SizeNode>, x: Shape, h: nat, size: nat, k: nat)
    requires Indexed(nodes, x) && Ordered(nodes, x.order)
    requires 1 <= k < |nodes| && nodes[k].size == 16 * size
    requires h !in x.idx
    ensures |nodes| == |x.rings| && 1 <= |x.rings[k]|
    ensures Sentinel(k) in x.next && x.next[Sentinel(k)] in x.prev && x.next[Sentinel(k)] != At(h)
    ensures Indexed(nodes, PushShape(x, h, size, k, x.next[Sentinel(k)]))
  {
    assert RingOf(nodes, x, k);
    var s := x.rings[k];
    assert LinkedAt(x.next, x.prev, s, 0);
    assert At(h) !in s;
    LinkIn(x.next, x.prev, s, 0, At(h));
    var f := x.next[Sentinel(k)];
    var x' := PushShape(x, h, size, k, f);
    assert f in s;
    assert x'.rings[k][0] == Sentinel(k);
    forall j | 1 <= j < |nodes|
      ensures RingOf(nodes, x', j)
    {
      assert RingOf(nodes, x, j);
      if j != k {
        forall q | q in x.rings[j]
          ensures q != f && q != Sentinel(k) && q != At(h)
        {
          assert Sentinel(k) in s;
          NotOnOther(nodes, x, k, j, q);
        }
        Elsewhere(x.next, x.prev, x'.next, x'.prev, x.rings[j]);
      } else {
        forall i | 1 <= i < |x'.rings[k]|
          ensures x'.rings[k][i].At? && x'.rings[k][i].header in x'.idx
          ensures 16 * x'.idx[x'.rings[k][i].header] == nodes[k].size
        {
          if i > 1 {
            assert x'.rings[k][i] == s[i - 1];
          }
        }
      }
    }
    forall g | g in x'.idx
      ensures Held(x', g)
    {
      if g == h {
        assert x'.rings[k][1] == At(h);
        assert At(g) in x'.rings[k];
      } else {
        var k', i' := Where(nodes, x, g);
        assert k' == k ==> x'.rings[k][i' + 1] == At(g);
        assert At(g) in x'.rings[k'];
      }
    }
  }

  /** `addHeaderToFreeList` adds a block to the list of its size. */
  lemma Pushes(mem: seq<Word>, nodes: seq<SizeNode>, x: Shape, h: nat, size: nat, k: nat) returns (x': Shape)
    requires IndexInv(mem, nodes, x)
    requires 1 <= k < |nodes| && nodes[k].size == 16 * size
    requires h !in x.idx && h + 2 < |mem| && Roomy(x, h)
    ensures Addressable(mem, nodes, nodes[k].headNext)
    ensures IndexInv(PushMem(mem, nodes, h, k), PushNodes(mem, nodes, h, k), x')
    ensures x'.idx == x.idx[h := size] && x'.next.Keys == x.next.Keys + {At(h)} && x'.order == x.order
    ensures LinkFrame(x'.next, mem, PushMem(mem, nodes, h, k))
    ensures SameNodes(nodes, PushNodes(mem, nodes, h, k))
  {
    PushRings(nodes, x, h, size, k);
    var f := x.next[Sentinel(k)];
    PushWords(mem, nodes, x, h, k, f);
    x' := PushShape(x, h, size, k, f);
    var mem', nodes' := PushMem(mem, nodes, h, k), PushNodes(mem, nodes, h, k);
    LinkedSame(mem', nodes', x.(next := x'.next, prev := x'.prev), x');
    IndexedKept(nodes, nodes', x');
    OrderKept(nodes, nodes', x.order);
    assert x'.next.Keys == x.next.Keys + {At(h)};
  }

  // ----- a new size node

  function AddNode(nodes: seq<SizeNode>, size: nat, at: nat): seq<SizeNode>
    requires at < |nodes| && nodes[at].prev < |nodes|
  {
    var id, before := |nodes|, nodes[at].prev;
    var n1 := nodes[before := nodes[before].(next := id)];
    var n2 := n1[at := n1[at].(prev := id)];
    n2 + [SizeNode(size, at, before, Sentinel(id), Sentinel(id))]
  }

  /** Inserting a node of a new size before the first node of larger size, or before the
      head when there is none, keeps the nodes in order. */
  lemma AddNodeOrdered(nodes: seq<SizeNode>, order: seq<nat>, size: nat, i: nat)
    requires Ordered(nodes, order)
    requires 1 <= i <= |order|
    requires 0 < size
    requires forall j :: 0 <= j < i && order[j] < |nodes| ==> nodes[order[j]].size < size
    requires i < |order| && order[i] < |nodes| ==> size < nodes[order[i]].size
    ensures var at := if i == |order| then 0 else order[i];
            && at < |nodes| && nodes[at].prev < |nodes|
            && Ordered(AddNode(nodes, size, at), InsertAt(order, i, |nodes|))
  {
    hide Increasing, AddNode;
    assert NodeAt(nodes, order, i - 1);
    var at := if i == |order| then 0 else order[i];
    AddNodeRing(nodes, order, size, i);
    InsertAll(order, i, |nodes|);
    assert Increasing(AddNode(nodes, size, at), InsertAt(order, i, |nodes|)) by {
      AddNodeIncreasing(nodes, AddNode(nodes, size, at), order, size, i);
    }
  }

  lemma InsertAll(order: seq<nat>, i: nat, id: nat)
    requires i <= |order| && NoDup(order)
    requires forall j :: 0 <= j < |order| ==> order[j] < id
    requires forall k :: 0 <= k < id ==> k in order
    ensures NoDup(InsertAt(order, i, id))
    ensures forall k :: 0 <= k <= id ==> k in InsertAt(order, i, id)
  {
    var o' := InsertAt(order, i, id);
    forall k | 0 <= k <= id
      ensures k in o'
    {
      if k < id {
        assert k in order;
        var j :| 0 <= j < |order| && order[j] == k;
        assert o'[if j < i then j else j + 1] == k;
      } else {
        assert o'[i] == k;
      }
    }
  }

  lemma AddNodeRing(nodes: seq<SizeNode>, order: seq<nat>, size: nat, i: nat)
    requires Ordered(nodes, order)
    requires 1 <= i <= |order|
    ensures var at := if i == |order| then 0 else order[i];
            && at < |nodes| && nodes[at].prev < |nodes|
            && var n', o' := AddNode(nodes, size, at), InsertAt(order, i, |nodes|);
               && |n'| == |nodes| + 1 == |o'| && o'[0] == 0 && n'[0].size == 0 && n'[|nodes|].size == size
               && (forall j :: 0 <= j < |nodes| ==> n'[j].size == nodes[j].size)
               && (forall j {:trigger order[j]} :: 0 <= j < |order| ==> order[j] < |nodes|)
               && forall j {:trigger NodeAt(n', o', j)} :: 0 <= j < |o'| ==> NodeAt(n', o', j)
  {
    hide Increasing;
    assert NodeAt(nodes, order, i - 1);
    var at := if i == |order| then 0 else order[i];
    forall j | 0 <= j < |order|
      ensures order[j] < |nodes|
    {
      assert NodeAt(nodes, order, j);
    }
    var n', o' := AddNode(nodes, size, at), InsertAt(order, i, |nodes|);
    forall j | 0 <= j < |o'|
      ensures NodeAt(n', o', j)
    {
      if j != i {
        assert NodeAt(nodes, order, if j < i then j else j - 1);
      }
    }
  }

  lemma AddNodeIncreasing(nodes: seq<SizeNode>, n': seq<SizeNode>, order: seq<nat>, size: nat, i: nat)
    requires Increasing(nodes, order)
    requires forall j {:trigger order[j]} :: 0 <= j < |order| ==> order[j] < |nodes|
    requires |n'| == |nodes| + 1 && n'[|nodes|].size == size
    requires forall j :: 0 <= j < |nodes| ==> n'[j].size == nodes[j].size
    requires 1 <= i <= |order|
    requires forall j :: 0 <= j < i ==> nodes[order[j]].size < size
    requires i < |order| ==> size < nodes[order[i]].size
    ensures Increasing(n', InsertAt(order, i, |nodes|))
  {
    var o' := InsertAt(order, i, |nodes|);
    forall a, b | 0 <= a < b < |o'|
      ensures o'[a] < |n'| && o'[b] < |n'| && n'[o'[a]].size < n'[o'[b]].size
    {
      var a' := if a < i then a else a - 1;
      var b' := if b < i then b else b - 1;
      assert a != i ==> o'[a] == order[a'];
      assert b != i ==> o'[b] == order[b'];
      if a == i && i < b' {
        assert nodes[order[i]].size < nodes[order[b']].size;
      }
    }
  }

  function AddNodeShape(x: Shape, id: nat, i: nat): Shape
    requires i <= |x.order|
  {
    x.(next := x.next[Sentinel(id) := Sentinel(id)],
       prev := x.prev[Sentinel(id) := Sentinel(id)],
       rings := x.rings + [[Sentinel(id)]],
       order := InsertAt(x.order, i, id))
  }

  /** `sf_add_free_list` adds an empty list and leaves the others alone. */
  lemma AddsNode(mem: seq<Word>, nodes: seq<SizeNode>, x: Shape, size: nat, i: nat)
    requires IndexInv(mem, nodes, x)
    requires 1 <= i <= |x.order|
    requires 0 < size
    requires forall j :: 0 <= j < i && x.order[j] < |nodes| ==> nodes[x.order[j]].size < size
    requires i < |x.order| && x.order[i] < |nodes| ==> size < nodes[x.order[i]].size
    ensures var at := if i == |x.order| then 0 else x.order[i];
            && at < |nodes| && nodes[at].prev < |nodes|
            && IndexInv(mem, AddNode(nodes, size, at), AddNodeShape(x, |nodes|, i))
  {
    hide Ordered, AddNode;
    AddNodeOrdered(nodes, x.order, size, i);
    var at := if i == |x.order| then 0 else x.order[i];
    AddNodeRing(nodes, x.order, size, i);
    AddNodeLinked(mem, nodes, x, size, at, i);
    AddNodeRings(nodes, AddNode(nodes, size, at), x, i);
  }

  lemma KeyBound(mem: seq<Word>, nodes: seq<SizeNode>, x: Shape)
    requires Linked(mem, nodes, x)
    ensures forall k: nat :: Sentinel(k) in x.next ==> 1 <= k < |nodes|
  {
    forall k: nat | Sentinel(k) in x.next
      ensures 1 <= k < |nodes|
    {
      assert LinkWords(mem, nodes, x, Sentinel(k));
    }
  }

  lemma AddNodeLinked(mem: seq<Word>, nodes: seq<SizeNode>, x: Shape, size: nat, at: nat, i: nat)
    requires Linked(mem, nodes, x)
    requires i <= |x.order| && 1 <= |nodes|
    requires at < |nodes| && nodes[at].prev < |nodes|
    ensures Linked(mem, AddNode(nodes, size, at), AddNodeShape(x, |nodes|, i))
    ensures Sentinel(|nodes|) !in x.next
  {
    KeyBound(mem, nodes, x);
    var id := |nodes|;
    var n', x' := AddNode(nodes, size, at), AddNodeShape(x, id, i);
    assert x'.next.Keys == x.next.Keys + {Sentinel(id)} == x'.prev.Keys;
    forall p | p in x'.next
      ensures LinkWords(mem, n', x', p)
    {
      if p != Sentinel(id) {
        assert LinkWords(mem, nodes, x, p);
      }
    }
  }

  lemma AddNodeRings(nodes: seq<SizeNode>, n': seq<SizeNode>, x: Shape, i: nat)
    requires Indexed(nodes, x)
    requires i <= |x.order|
    requires |n'| == |nodes| + 1
    requires forall j :: 0 <= j < |nodes| ==> n'[j].size == nodes[j].size
    requires Sentinel(|nodes|) !in x.next && x.next.Keys == x.prev.Keys
    ensures Indexed(n', AddNodeShape(x, |nodes|, i))
  {
    var id := |nodes|;
    var x' := AddNodeShape(x, id, i);
    forall k | 1 <= k < |n'|
      ensures RingOf(n', x', k)
    {
      if k < id {
        assert RingOf(nodes, x, k);
        Elsewhere(x.next, x.prev, x'.next, x'.prev, x.rings[k]);
      } else {
        assert LinkedAt(x'.next, x'.prev, x'.rings[k], 0);
      }
    }
    forall h | h in x'.idx
      ensures Held(x', h)
    {
      var k, j := Where(nodes, x, h);
      assert At(h) in x'.rings[k];
    }
  }

  // ----- writes outside the index

  /** Words other than link words can change freely. */
  lemma OtherWords(mem: seq<Word>, mem': seq<Word>, nodes: seq<SizeNode>, x: Shape)
    requires IndexInv(mem, nodes, x)
    requires |mem| <= |mem'|
    requires forall i :: 0 <= i < |mem| && IsLinkWord(x.next, i) ==> mem'[i] == mem[i]
    ensures IndexInv(mem', nodes, x)
  {
    forall p | p in x.next
      ensures LinkWords(mem', nodes, x, p)
    {
      assert LinkWords(mem, nodes, x, p);
      if p.At? {
        assert IsLinkWord(x.next, p.header + 1) && IsLinkWord(x.next, p.header + 2);
      }
    }
  }

  function ForgetShape(x: Shape, h: nat): Shape {
    x.(next := x.next - {At(h)}, prev := x.prev - {At(h)})
  }

  /** The stale links of a block that is out can be given up. */
  lemma Forgets(mem: seq<Word>, nodes: seq<SizeNode>, x: Shape, h: nat)
    requires IndexInv(mem, nodes, x)
    requires h !in x.idx
    ensures IndexInv(mem, nodes, ForgetShape(x, h))
  {
    var x' := ForgetShape(x, h);
    forall p | p in x'.next
      ensures LinkWords(mem, nodes, x', p)
    {
      assert LinkWords(mem, nodes, x, p);
    }
    forall k | 1 <= k < |nodes|
      ensures RingOf(nodes, x', k)
    {
      assert RingOf(nodes, x, k);
      assert At(h) !in x.rings[k];
      Elsewhere(x.next, x.prev, x'.next, x'.prev, x.rings[k]);
    }
    forall g | g in x'.idx
      ensures Held(x', g)
    {
      var k, i := Where(nodes, x, g);
      assert At(g) in x'.rings[k];
    }
  }
}
