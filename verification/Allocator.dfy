/** The allocator: `sf_malloc`, `sf_free` and `sf_realloc` over a heap of 8-byte words. */
module Allocator {
  import opened Integers
  import opened HeapTiling
  import opened FreeIndex
  import opened BoundaryTags
  import opened HeapSteps
  import opened DoubleInsert

  /** What a call returns: NULL, the payload of the block at header, nothing because it
      called `abort`, or nothing that C defines. */
  datatype Outcome = Null | Payload(header: nat) | Aborted | Undefined

  datatype Grab = Got(header: nat) | Nothing | Astray

  class Heap {
    var mem: seq<Word>
    var nodes: seq<SizeNode>
    var enomem: bool
    ghost var blocks: Blocks
    ghost var x: Shape

    ghost predicate Inv(out: set<nat>)
      reads this
    {
      HeapInv(mem, nodes, blocks, x, out)
    }

    ghost predicate Valid()
      reads this
    {
      if Untouched(mem, nodes) then blocks == map[] && x == NO_SHAPE else Inv({})
    }

    constructor ()
      ensures Valid() && Untouched(mem, nodes) && !enomem
    {
      mem, nodes, enomem := [], [HEAD], false;
      blocks, x := map[], NO_SHAPE;
    }

    // ----- the list primitives

    method SetNext(p: Ptr, q: Ptr)
      requires Addressable(mem, nodes, p)
      modifies this`mem, this`nodes
      ensures mem == MemNext(old(mem), p, q) && nodes == NodesNext(old(nodes), p, q)
    {
      match p {
        case At(h) => mem := mem[h + 1 := Link(q)];
        case Sentinel(k) => nodes := nodes[k := nodes[k].(headNext := q)];
      }
    }

    method SetPrev(p: Ptr, q: Ptr)
      requires Addressable(mem, nodes, p)
      modifies this`mem, this`nodes
      ensures mem == MemPrev(old(mem), p, q) && nodes == NodesPrev(old(nodes), p, q)
    {
      match p {
        case At(h) => mem := mem[h + 2 := Link(q)];
        case Sentinel(k) => nodes := nodes[k := nodes[k].(headPrev := q)];
      }
    }

    method RemoveHeader(h: nat)
      requires Readable(mem, nodes, h)
      modifies this`mem, this`nodes
      ensures mem == UnlinkMem(old(mem), old(nodes), h)
      ensures nodes == UnlinkNodes(old(mem), old(nodes), h)
    {
      var next, prev := mem[h + 1].to, mem[h + 2].to;
      SetNext(prev, next);
      SetPrev(next, prev);
    }

    method AddHeaderToFreeList(h: nat, k: nat)
      requires h + 2 < |mem| && k < |nodes| && Addressable(mem, nodes, nodes[k].headNext)
      modifies this`mem, this`nodes
      ensures mem == PushMem(old(mem), old(nodes), h, k)
      ensures nodes == PushNodes(old(mem), old(nodes), h, k)
    {
      var first := nodes[k].headNext;
      mem := mem[h + 1 := Link(first)];
      mem := mem[h + 2 := Link(Sentinel(k))];
      SetPrev(first, At(h));
      SetNext(Sentinel(k), At(h));
    }

    /** The first size node at least as large, or the list head. */
    method GetSizeNode(size: nat) returns (k: nat, ghost i: nat)
      requires Ordered(nodes, x.order)
      ensures 1 <= i <= |x.order|
      ensures k < |nodes| && (if i == |x.order| then k == 0 else k == x.order[i] && k != 0 && size <= nodes[k].size)
      ensures forall j :: 0 <= j < i && x.order[j] < |nodes| && 0 < size ==> nodes[x.order[j]].size < size
    {
      assert NodeAt(nodes, x.order, 0);
      k, i := nodes[0].next, 1;
      while k != 0
        invariant 1 <= i <= |x.order|
        invariant k < |nodes| && k == if i == |x.order| then 0 else x.order[i]
        invariant forall j :: 0 <= j < i && x.order[j] < |nodes| && 0 < size ==> nodes[x.order[j]].size < size
        decreases |x.order| - i
      {
        if nodes[k].size >= size {
          return;
        }
        assert NodeAt(nodes, x.order, i);
        k, i := nodes[k].next, i + 1;
      }
    }

    method SfAddFreeList(size: nat, next: nat) returns (k: nat)
      requires next < |nodes| && nodes[next].prev < |nodes|
      modifies this`nodes
      ensures nodes == AddNode(old(nodes), size, next) && k == |old(nodes)|
    {
      k := |nodes|;
      var before := nodes[next].prev;
      nodes := nodes[before := nodes[before].(next := k)];
      nodes := nodes[next := nodes[next].(prev := k)];
      nodes := nodes + [SizeNode(size, next, before, Sentinel(k), Sentinel(k))];
    }

    /** The node for a size; one is added when there is none. */
    method GetSentinelOfSize(size: nat) returns (k: nat)
      requires 0 < size
      requires IndexInv(mem, nodes, x)
      modifies this`nodes, this`x
      ensures IndexInv(mem, nodes, x)
      ensures 1 <= k < |nodes| && nodes[k].size == size
      ensures x.idx == old(x.idx)
      ensures forall h: nat :: At(h) in x.next <==> At(h) in old(x.next)
      ensures (exists j :: 1 <= j < |old(nodes)| && old(nodes)[j].size == size) ==> nodes == old(nodes) && x == old(x)
    {
      ghost var i;
      k, i := GetSizeNode(size);
      if nodes[k].size != size {
        AddsNode(mem, nodes, x, size, i);
        forall j | 1 <= j < |nodes|
          ensures nodes[j].size != size
        {
          NotThere(nodes, x.order, size, i, j);
        }
        x := AddNodeShape(x, |nodes|, i);
        k := SfAddFreeList(size, k);
      }
    }

    /** `removeHeader` on a block that the index holds. */
    method TakeOut(h: nat)
      requires IndexInv(mem, nodes, x)
      requires h in x.idx
      modifies this`mem, this`nodes, this`x
      ensures IndexInv(mem, nodes, x)
      ensures x.idx == old(x.idx) - {h} && x.next.Keys == old(x.next.Keys) && x.order == old(x.order)
      ensures Bypassed(x, h)
      ensures LinkFrame(old(x.next), old(mem), mem)
      ensures SameNodes(old(nodes), nodes)
      ensures h + 2 < |mem| && mem[h + 1] == old(mem)[h + 1] && mem[h + 2] == old(mem)[h + 2]
    {
      hide IndexInv, Bypassed, LinkFrame, SameNodes, Readable;
      assert |old(mem)| == |mem|;
      x := Unlinks(mem, nodes, x, h);
      RemoveHeader(h);
    }

    /** `addHeaderToFreeList(h, getSentinelOfSize(size))`. */
    method Insert(h: nat, size: nat)
      requires IndexInv(mem, nodes, x)
      requires 0 < size && size % 16 == 0
      requires h !in x.idx && h + 2 < |mem| && Roomy(x, h)
      modifies this`mem, this`nodes, this`x
      ensures IndexInv(mem, nodes, x)
      ensures x.idx == old(x.idx)[h := size / 16]
      ensures forall g: nat :: At(g) in x.next <==> g == h || At(g) in old(x.next)
      ensures LinkFrame(x.next, old(mem), mem)
      ensures Leads(nodes, h)
    {
      hide IndexInv, LinkFrame, SameNodes, PushMem, PushNodes, Addressable, Leads;
      var k := GetSentinelOfSize(size);
      ghost var mem1, nodes1 := mem, nodes;
      ghost var next1 := x.next;
      x := Pushes(mem, nodes, x, h, size / 16, k);
      AddHeaderToFreeList(h, k);
      PushedLeads(mem1, nodes1, h, k);
      assert x.next.Keys == next1.Keys + {At(h)};
    }

    // ----- tag writes

    method SetFreeHeader(h: nat, size: nat)
      requires h < |mem|
      modifies this`mem
      ensures mem == old(mem)[h := Info(false, true, size / 16, 0)]
    {
      mem := mem[h := Info(false, true, size / 16, 0)];
    }

    method SetFooter(f: nat, size: nat)
      requires f < |mem|
      modifies this`mem
      ensures mem == old(mem)[f := Info(false, true, size / 16, 0)]
    {
      mem := mem[f := Info(false, true, size / 16, 0)];
    }

    /** Makes h the header of a free block that is size bytes longer than it was. */
    method Coalesce(h: nat, size: nat)
      requires h < |mem| && mem[h].Info?
      requires size % 16 == 0
      requires var rows := mem[h].size + size / 16; 1 <= rows && h + 2 * rows <= |mem|
      modifies this`mem
      ensures var rows := old(mem)[h].size + size / 16;
              mem == old(mem)[h := Info(false, true, rows, 0)][h + 2 * rows - 1 := Info(false, true, rows, 0)]
    {
      var newSize := 16 * mem[h].size + size;
      SetFreeHeader(h, newSize);
      SetFooter(h + 2 * mem[h].size - 1, newSize);
    }

    /** Takes the free block at n out of the index and adds it to the block at a, which ends
        where it starts. */
    method Absorb(a: nat, n: nat)
      requires IndexInv(mem, nodes, x) && n in x.idx
      requires a + 4 <= n < |mem| && mem[a].Info? && 2 * mem[a].size == n - a
      requires mem[n].Info? && 2 <= mem[n].size && n + 2 * mem[n].size < |mem|
      requires forall g: nat :: At(g) in x.next ==> g + 4 <= a || g == a || n <= g
      requires forall g: nat :: At(g) in x.next ==> g <= n || n + 2 * mem[n].size <= g
      modifies this`mem, this`nodes, this`x
      ensures IndexInv(mem, nodes, x)
      ensures x.idx == old(x.idx) - {n} && x.next.Keys == old(x.next.Keys) - {At(n)}
      ensures var rows := old(mem)[a].size + old(mem)[n].size;
              && a + 2 * rows < |mem| && mem[a] == mem[a + 2 * rows - 1] == Info(false, true, rows, 0)
              && Outside(old(x.next), old(mem), mem, a, a + 2 * rows)
    {
      hide IndexInv, Bypassed, SameNodes;
      ghost var m0 := mem;
      TakeOut(n);
      Forgets(mem, nodes, x, n);
      x := ForgetShape(x, n);
      ghost var m1 := mem;
      assert m1[n] == m0[n] && m1[a] == m0[a];
      Coalesce(a, 16 * mem[n].size);
      OtherWords(m1, mem, nodes, x);
    }

    /** Turns the tail of the block at h, whose header already has its new size, into a free
        block, together with the block behind it if that one is free. */
    method SplitBlock(h: nat, size: nat) returns (f: nat)
      requires 32 <= size && size % 16 == 0
      requires h < |mem| && mem[h].Info? && 0 < mem[h].size
      requires Splittable(mem, x, h + 2 * mem[h].size, h + 2 * mem[h].size + size / 8)
      requires IndexInv(mem, nodes, x)
      modifies this`mem, this`nodes, this`x
      ensures f == h + 2 * old(mem)[h].size
      ensures var e := f + size / 8;
              var rows := size / 16 + if old(mem)[e].alloc then 0 else old(mem)[e].size;
              && f + 2 * rows < |mem| == |old(mem)|
              && mem[f] == mem[f + 2 * rows - 1] == Info(false, true, rows, 0)
              && IndexInv(mem, nodes, x)
              && x.idx == (if old(mem)[e].alloc then old(x.idx) else old(x.idx) - {e})[f := rows]
              && (forall g: nat :: At(g) in x.next ==> g == f || At(g) in old(x.next))
              && (!old(mem)[e].alloc ==> At(e) !in x.next)
              && forall i :: (0 <= i < f || f + 2 * rows <= i < |mem|) && !IsLinkWord(old(x.next), i) ==>
                  mem[i] == old(mem)[i]
    {
      hide IndexInv, Linked, Indexed, Ordered;
      f := h + 2 * mem[h].size;
      var e := f + size / 8;
      ghost var m0, next0 := mem, x.next;
      SetFreeHeader(f, size);
      OtherWords(m0, mem, nodes, x);
      if !mem[e].alloc {
        SplitMerging(f, e);
      } else {
        Insert(f, size);
        ghost var m1 := mem;
        SetFooter(f + 2 * mem[f].size - 1, size);
        OtherWords(m1, mem, nodes, x);
      }
    }

    method SplitMerging(f: nat, e: nat)
      requires f < |mem| && mem[f].Info? && mem[f] == Info(false, true, mem[f].size, 0) && e == f + 2 * mem[f].size
      requires Splittable(mem, x, f, e) && !mem[e].alloc
      requires IndexInv(mem, nodes, x)
      modifies this`mem, this`nodes, this`x
      ensures var rows := old(mem)[f].size + old(mem)[e].size;
              && f + 2 * rows < |mem| == |old(mem)|
              && mem[f] == mem[f + 2 * rows - 1] == Info(false, true, rows, 0)
              && IndexInv(mem, nodes, x)
              && x.idx == (old(x.idx) - {e})[f := rows]
              && (forall g: nat :: At(g) in x.next ==> g == f || At(g) in old(x.next))
              && At(e) !in x.next
              && forall i :: (0 <= i < f || f + 2 * rows <= i < |mem|) && !IsLinkWord(old(x.next), i) ==>
                  mem[i] == old(mem)[i]
    {
      hide IndexInv;
      Absorb(f, e);
      ghost var m1 := mem;
      SetFooter(f + 2 * mem[f].size - 1, 16 * mem[f].size);
      assert mem == m1;
      Insert(f, 16 * mem[f].size);
    }

    // ----- sf_free

    /** `sf_abort` on the payload pointer of a live block. */
    method SfAbort(h: nat) returns (aborts: bool)
      requires Inv({})
      requires h in blocks && blocks[h].alloc
      ensures aborts <==> !Honest(blocks[h])
    {
      hide IndexInv;
      PreviousBlock(mem, blocks, h);
      assert Tagged(mem, blocks, h) && TileOk(blocks, FIRST, |mem| - 1, h);
      var payload := h + 1;
      if payload >= |mem| - 1 || payload < 5 {
        return true;
      }
      var info := mem[h];
      assert (16 * info.size) % 16 == 0;
      if !info.alloc || 16 * info.size < 32 || 16 * info.size % 16 != 0 || 16 * info.size < info.requested + 8 {
        return true;
      }
      if !info.prevAlloc && mem[h - 1].alloc {
        return true;
      }
      return false;
    }

    /** Merges the block at h, which is being freed, into the free block before it, if any. */
    method JoinPrevious(h: nat) returns (a: nat)
      requires Inv({})
      requires h in blocks && blocks[h].alloc
      modifies this`mem, this`nodes, this`x
      ensures IndexInv(mem, nodes, x) && x.next.Keys == old(x.next.Keys)
      ensures x.idx == FreeMap(blocks) - {a}
      ensures a == FreedFrom(blocks, h)
      ensures a <= h < After(blocks, h) < |mem| == |old(mem)|
      ensures Outside(old(x.next), old(mem), mem, a, After(blocks, h))
      ensures mem[h] == old(mem)[h] && mem[a].Info? && 2 * mem[a].size == After(blocks, h) - a
    {
      hide IndexInv, Layout, KeysFree, Bypassed, Linked, Indexed, Ordered, SameNodes, FreedFrom;
      a := h;
      ghost var p := PreviousFacts(mem, blocks, x, h);
      if !mem[h].prevAlloc {
        a := h - 2 * mem[h - 1].size;
        TakeOut(a);
        ghost var m1 := mem;
        Coalesce(a, 16 * mem[h].size);
        OtherWords(m1, mem, nodes, x);
      }
    }

    /** Merges the free block behind h, if any, into the one that starts at a. */
    method JoinNext(a: nat, h: nat) returns (e: nat)
      requires h in blocks && 0 < blocks[h].size && a <= h && After(blocks, h) < |mem|
      requires mem[h].Info? && mem[h].size == blocks[h].size
      requires mem[a].Info? && 2 * mem[a].size == After(blocks, h) - a
      requires IndexInv(mem, nodes, x)
      requires Mergeable(mem, blocks, x, a, After(blocks, h))
      modifies this`mem, this`nodes, this`x
      ensures e == FreedTo(blocks, h) && After(blocks, h) <= e
      ensures IndexInv(mem, nodes, x)
      ensures x.idx == old(x.idx) - {After(blocks, h)}
      ensures forall g: nat :: At(g) in x.next ==> At(g) in old(x.next)
      ensures e > After(blocks, h) ==> At(After(blocks, h)) !in x.next
      ensures a < e < |mem| && Outside(old(x.next), old(mem), mem, a, e)
      ensures mem[a].Info? && mem[a] == mem[e - 1] == Info(false, true, mem[a].size, 0) && 2 * mem[a].size == e - a
    {
      hide IndexInv;
      var n := h + 2 * mem[h].size;
      e := n;
      if !mem[n].alloc {
        e := n + 2 * mem[n].size;
        Absorb(a, n);
      }
      ghost var m1 := mem;
      Coalesce(a, 0);
      OtherWords(m1, mem, nodes, x);
    }

    method Free(h: nat) returns (aborted: bool)
      requires Valid()
      requires h in blocks && blocks[h].alloc
      modifies this`mem, this`nodes, this`x, this`blocks
      ensures Valid()
      ensures aborted <==> !Honest(old(blocks)[h])
      ensures aborted ==> mem == old(mem) && nodes == old(nodes) && blocks == old(blocks)
      ensures !aborted ==> blocks == Freed(old(blocks), h)
      ensures |mem| == |old(mem)|
      ensures !aborted ==> PayloadsKept(old(blocks) - {h}, old(mem), mem)
    {
      aborted := SfAbort(h);
      if !aborted {
        Release(h);
      }
    }

    /** `sf_free` past its checks. */
    method Release(h: nat)
      requires Inv({})
      requires h in blocks && blocks[h].alloc
      modifies this`mem, this`nodes, this`x, this`blocks
      ensures Inv({})
      ensures blocks == Freed(old(blocks), h)
      ensures |mem| == |old(mem)|
      ensures PayloadsKept(old(blocks) - {h}, old(mem), mem)
    {
      hide Layout, KeysFree, IndexInv, Linked, Indexed, Ordered, FreedFrom, FreedTo, Freed, Mergeable, PayloadsKept,
        FreeMap, Outside, LinkFrame, SameAround, IsLinkWord;
      ghost var m0, b0, x0 := mem, blocks, x;
      ghost var a' := PreviousFacts(m0, b0, x0, h);
      var a := JoinPrevious(h);
      NextFacts(m0, mem, b0, x0, x, a, h);
      ghost var m1, x1 := mem, x;
      var e := JoinNext(a, h);
      OutsideBoth(x0.next, m0, m1, x1.next, mem, a, After(b0, h), e);
      ReleaseFacts(m0, b0, x0, x, a, e, h);
      ghost var m2, x2 := mem, x;
      Insert(a, 16 * mem[a].size);
      OutsideLinks(x0.next, m0, m2, x.next, mem, a, e);
      ghost var m3 := mem;
      mem := mem[e := mem[e].(prevAlloc := false)];
      TagWrite(m3, mem, nodes, x, e);
      blocks := Freed(blocks, h);
      OutsideAround(x0.next, m0, m3, mem, a, e);
      ReleaseLayout(m0, mem, b0, x0.next, a, e, h);
      ReleaseIndex(m0, b0, x0, x2, x, a, e, h);
    }

    // ----- sf_malloc

    /** Allocates the front of the free block at h, which has been taken from the index, and
        gives the rest back to it if that makes a block. */
    method Place(h: nat, newSize: nat, size: nat)
      requires Inv({h})
      requires h in blocks && !blocks[h].alloc
      requires 32 <= newSize <= 16 * blocks[h].size && newSize % 16 == 0
      modifies this`mem, this`nodes, this`x, this`blocks
      ensures Inv({})
      ensures blocks == Placed(old(blocks), h, newSize / 16, size)
      ensures |mem| == |old(mem)|
      ensures PayloadsKept(old(blocks), old(mem), mem)
      ensures h in blocks && WordsKept(old(mem), mem, h, After(blocks, h)) && After(blocks, h) <= After(old(blocks), h)
    {
      hide IndexInv, Linked, Indexed, Ordered, Layout, KeysFree, PayloadsKept, FreeMap, Placed, IsLinkWord, WordsKept,
        Splittable;
      ghost var m0, b0, x0 := mem, blocks, x;
      PlaceFacts(m0, b0, x0, h, newSize / 16);
      Forgets(mem, nodes, x, h);
      x := ForgetShape(x, h);
      ghost var next1 := x.next;
      var oldSize := 16 * mem[h].size;
      mem := mem[h := Info(true, true, newSize / 16, size)];
      TagWrite(m0, mem, nodes, x, h);
      if oldSize - newSize < 32 {
        ghost var m1 := mem;
        mem := mem[h := mem[h].(size := oldSize / 16)];
        TagWrite(m1, mem, nodes, x, h);
        ghost var m2 := mem;
        var e := h + 2 * mem[h].size;
        mem := mem[e := mem[e].(prevAlloc := true)];
        TagWrite(m2, mem, nodes, x, e);
        PlaceWhole(m0, mem, b0, x0, h, newSize / 16, size);
        PlaceIndex(m0, b0, x0, x, h, newSize / 16, size);
      } else {
        var f := SplitBlock(h, oldSize - newSize);
        ghost var m2 := mem;
        mem := mem[f := mem[f].(prevAlloc := true)];
        assert mem == m2;
        PlaceFront(m0, mem, b0, x0, h, newSize / 16, size);
        PlaceIndex(m0, b0, x0, x, h, newSize / 16, size);
      }
      blocks := Placed(blocks, h, newSize / 16, size);
    }

    /** The search of `sf_malloc`: the first block of the first non-empty list whose size is
        large enough. */
    method FindFit(newSize: nat) returns (found: bool, h: nat)
      requires Inv({})
      requires 0 < newSize
      ensures found <==> Fits(blocks, newSize)
      ensures found ==> BestFit(blocks, newSize, h) && Leads(nodes, h)
    {
      hide Layout, KeysFree;
      assert NodeAt(nodes, x.order, 0);
      var k := nodes[0].next;
      ghost var i := 1;
      while k != 0
        invariant 1 <= i <= |x.order|
        invariant k < |nodes| && k == if i == |x.order| then 0 else x.order[i]
        invariant forall j :: 1 <= j < i ==> Passed(nodes, x, newSize, x.order[j])
        decreases |x.order| - i
      {
        FirstOn(mem, nodes, x, k);
        if nodes[k].size >= newSize {
          var first := nodes[k].headNext;
          if first != Sentinel(k) {
            FirstFit(nodes, x, newSize, i);
            assert forall g :: g in blocks && !blocks[g].alloc ==> g in x.idx && x.idx[g] == blocks[g].size;
            return true, first.header;
          }
        }
        assert NodeAt(nodes, x.order, i);
        k, i := nodes[k].next, i + 1;
      }
      FirstFit(nodes, x, newSize, |x.order|);
      assert forall g :: g in blocks && !blocks[g].alloc ==> g in x.idx;
      return false, 0;
    }

    method TakeFit(newSize: nat) returns (found: bool, h: nat)
      requires Inv({})
      requires 0 < newSize
      modifies this`mem, this`nodes, this`x
      ensures found <==> Fits(blocks, newSize)
      ensures !found ==> mem == old(mem) && nodes == old(nodes) && x == old(x)
      ensures found ==> BestFit(blocks, newSize, h) && Leads(old(nodes), h) && Inv({h})
      ensures found ==> |mem| == |old(mem)| && PayloadsKept(old(blocks), old(mem), mem)
      ensures found ==> WordsKept(old(mem), mem, h, After(blocks, h))
    {
      hide Layout, KeysFree, IndexInv, PayloadsKept, WordsKept, SameNodes, Bypassed, LinkFrame, Leads;
      found, h := FindFit(newSize);
      if found {
        ghost var m0, next0 := mem, x.next;
        assert h in FreeMap(blocks);
        TakeOut(h);
        LinksOnly(m0, mem, blocks, next0, h);
        KeysSame(blocks, next0, x.next);
        WholeKept(m0, mem, h, After(blocks, h));
      }
    }

    /** `sf_mem_grow`: if it is granted one more page, of which nothing is known except that it
        holds no links. */
    method SfMemGrow(granted: bool) returns (ok: bool)
      modifies this`mem
      ensures ok == granted
      ensures !ok ==> mem == old(mem)
      ensures ok ==> |mem| == |old(mem)| + PAGE && old(mem) <= mem
      ensures ok ==> forall i :: |old(mem)| <= i < |mem| ==> mem[i].Data?
    {
      if !granted {
        return false;
      }
      assert FreshPage(seq(PAGE, _ => Data(0)));
      var page: seq<Word> :| FreshPage(page);
      assert FreshPage(page) && |page| == PAGE;
      mem := mem + page;
      return true;
    }

    method CreateEpilogue()
      requires 0 < |mem|
      modifies this`mem
      ensures |mem| == |old(mem)| && mem == old(mem)[|mem| - 1 := mem[|mem| - 1]]
      ensures var w := mem[|mem| - 1]; w.Info? && w.alloc && !w.prevAlloc && w.size == 0
    {
      var requested: nat := *;
      mem := mem[|mem| - 1 := Info(true, false, 0, requested)];
    }

    /** The part of `mem_grow` that gets hold of the block to be extended: the free block at
        the end of the heap, which it unlinks, or the old epilogue. */
    method GraspTail(e: nat, ghost m0: seq<Word>, ghost out: set<nat>, ghost linked: bool) returns (ok: bool, h: nat)
      requires HeapInv(m0, nodes, blocks, x, out) && Grip(m0, nodes, blocks, x, out, linked)
      requires e == |m0| - 1 && m0 <= mem
      modifies this`mem, this`nodes, this`x
      ensures ok <==> out == {} || linked || |nodes| == 1
      ensures |nodes| == |old(nodes)| && (!ok ==> 1 < |nodes|)
      ensures ok ==>
                && h == TailStart(blocks, e) && |mem| == |old(mem)|
                && IndexInv(mem, nodes, x) && x.next.Keys == old(x.next.Keys) && x.idx == FreeMap(blocks) - {h}
                && (forall i :: 0 <= i < |mem| && !IsLinkWord(x.next, i) ==> mem[i] == old(mem[i]))
                && (h != e ==> |nodes| == 1 || Bypassed(x, h))
                && (h != e ==> h + 4 <= e && mem[h + 1] == old(mem)[h + 1] && mem[h + 2] == old(mem)[h + 2])
    {
      hide Layout, KeysFree, SameNodes, Readable, IsLinkWord, Linked, Indexed, LinkFrame, Bypassed;
      assert Layout(m0, blocks);
      TailFacts(m0, blocks);
      OtherWords(m0, mem, nodes, x);
      assert mem[e] == m0[e] && mem[e - 1] == m0[e - 1];
      ok, h := true, e;
      assert e !in FreeMap(blocks);
      if !mem[e].prevAlloc {
        h := e - 2 * mem[e - 1].size;
        assert NodeAt(nodes, x.order, 0);
        if nodes[0].next != 0 {
          ghost var x1 := x;
          if out == {} {
            x1 := Unlinks(mem, nodes, x, h);
            FrameKeys(x.next, x1.next, mem, UnlinkMem(mem, nodes, h));
          } else if linked {
            UnlinkTwice(mem, nodes, x, h);
          } else {
            NotReadable(mem, nodes, h);
          }
          if !Readable(mem, nodes, h) {
            ok := false;
            return;
          }
          x := x1;
          RemoveHeader(h);
        } else {
          NoNodes(nodes, x);
          assert h in FreeMap(blocks);
        }
      }
    }

    /** `mem_grow` when a page is granted.  Its result is undefined (not ok) exactly when it
        unlinks a block whose links were never set. */
    method MemExtend(ghost out: set<nat>, ghost linked: bool) returns (ok: bool, h: nat, ghost linked': bool)
      requires Inv(out) && Grip(mem, nodes, blocks, x, out, linked)
      modifies this`mem, this`nodes, this`x, this`blocks
      ensures ok <==> out == {} || linked || |nodes| == 1
      ensures |nodes| == |old(nodes)| && (!ok ==> 1 < |nodes|)
      ensures ok ==>
                && var end := |old(mem)| - 1;
                   && h == TailStart(old(blocks), end)
                   && blocks == old(blocks)[h := Block(TailRows(old(blocks), end) + 256, false, 0)]
                   && |mem| == |old(mem)| + PAGE && After(blocks, h) == |mem| - 1
                   && Inv({h}) && Grip(mem, nodes, blocks, x, {h}, linked')
                   && PayloadsKept(old(blocks), old(mem), mem)
                   && (linked' <==> 0 < TailRows(old(blocks), end))
                   && Stale(old(mem), mem, h, |old(mem)|)
    {
      hide Layout, KeysFree, SameNodes, IndexInv, IsLinkWord, Linked, Indexed, Ordered, Bypassed, Grip, FreeMap,
        PayloadsKept, TailStart, TailRows, Stale;
      ghost var m0, b0, x0 := mem, blocks, x;
      TailFacts(m0, b0);
      var e := |mem| - 1;
      var granted := SfMemGrow(true);
      ghost var m1 := mem;
      ok, h := GraspTail(e, m0, out, linked);
      linked' := h != e;
      if !ok {
        return;
      }
      ExtendFacts(m0, m1, mem, b0, x0.next, x.next, h);
      TailStale(m0, b0, x0.next, x.next, m1, mem, h);
      ghost var m2 := mem;
      CreateEpilogue();
      TagWrite(m2, mem, nodes, x, |mem| - 1);
      ghost var m3 := mem;
      Coalesce(h, 4096);
      OtherWords(m3, mem, nodes, x);
      blocks := blocks[h := Block(mem[h].size, false, 0)];
      Extends(m0, mem, b0, x0.next, h, mem[h].size);
      ExtendPayloads(m0, mem, b0, x0.next, h);
      ExtendIndex(b0, h, mem[h].size, x0.next, x.next);
      ExtendGrip(m2, mem, nodes, blocks, x, h, e);
      StaleExtends(m0, m1, m2, mem, h);
    }

    /** `mem_grow` when no page is granted: it takes the word below the epilogue for the footer
        of a free block and inserts the block that it leads to.  The outcome is undefined (not
        ok) exactly if it leads to nothing that looks like a block. */
    method MemRefuse(ghost out: set<nat>, ghost linked: bool) returns (ok: bool)
      requires Inv(out) && Grip(mem, nodes, blocks, x, out, linked)
      modifies this`mem, this`nodes, this`x
      ensures ok <==> !Strays(old(mem))
      ensures out != {} ==> ok && Inv({}) && |mem| == |old(mem)| && PayloadsKept(old(blocks), old(mem), mem)
      ensures ok && out == {} ==> !Sound(mem, nodes)
    {
      hide Layout, KeysFree, SameNodes, IndexInv, IsLinkWord, Linked, Indexed, Ordered, Bypassed, FreeMap, PayloadsKept,
        TailStart, TailRows, Sound, LinkFrame;
      ghost var m0, x0 := mem, x;
      var granted := SfMemGrow(false);
      ghost var t := 0;
      if out != {} {
        t :| out == {t} && FreeTail(blocks, |mem| - 1, t);
        TailLeads(mem, blocks, t);
      }
      if Strays(mem) {
        return false;
      }
      var e := |mem| - 1;
      var h := e - 2 * mem[e - 1].size;
      if out != {} {
        RefuseFacts(mem, nodes, blocks, x, out, h);
      }
      var k := GetSentinelOfSize(16 * mem[h].size);
      if out != {} {
        x := Pushes(mem, nodes, x, h, mem[h].size, k);
        LinksRoom(m0, PushMem(mem, nodes, h, k), blocks, x0.next, x.next, h);
      } else {
        SameKeys(blocks, x0.next, x.next);
        InsertedWrongly(mem, nodes, blocks, x, h, k);
      }
      AddHeaderToFreeList(h, k);
      ok := true;
    }

    method MemInit(granted: bool) returns (ok: bool)
      requires Untouched(mem, nodes) && x == NO_SHAPE
      modifies this`mem, this`blocks
      ensures ok == granted
      ensures !ok ==> mem == old(mem) && blocks == old(blocks)
      ensures ok ==>
                && |mem| == PAGE && blocks == map[FIRST := Block(253, false, 0)]
                && Inv({FIRST}) && Grip(mem, nodes, blocks, x, {FIRST}, true)
                && Prologue(mem) && mem[FIRST] == mem[PAGE - 2] == Info(false, true, 253, 0)
    {
      ok := SfMemGrow(granted);
      if !ok {
        return;
      }
      var requested: nat := *;
      mem := mem[1 := Info(true, false, 3, requested)];
      mem := mem[4 := Info(true, false, 3, requested)];
      CreateEpilogue();
      var freeSize := 8 * |mem| - 40 - 8;
      SetFreeHeader(FIRST, freeSize);
      SetFooter(FIRST + 2 * mem[FIRST].size - 1, freeSize);
      blocks := map[FIRST := Block(253, false, 0)];
      InitLayout(mem);
    }

    /** The growth loop of `sf_malloc`, which has used pages already and can have left more. */
    method GrowUntil(newSize: nat, left0: nat, h0: nat, rows0: nat,
                     ghost m0: seq<Word>, ghost n0: seq<SizeNode>, ghost b0: Blocks, ghost used0: nat,
                         ghost linked0: bool)
      returns (o: Grab, ghost used: nat)
      requires Growing(m0, n0, b0, mem, nodes, blocks, newSize, used0, h0, rows0, linked0)
      requires m0 != [] ==> Layout(m0, b0)
      requires m0 == [] ==> b0 == map[]
      requires 0 < used0 ==> Stale(m0, mem, h0, |m0|)
      requires var out := if used0 == 0 then {} else {h0};
               Inv(out) && Grip(mem, nodes, blocks, x, out, linked0)
      modifies this
      ensures o.Astray? <==> Misreads(m0, n0, b0, newSize, used0 + left0)
      ensures o.Got? ==> Inv({o.header}) && BestFit(blocks, newSize, o.header)
      ensures o.Got? ==> Stale(m0, mem, o.header, |m0|)
      ensures o.Got? ==> 0 < used <= used0 + left0 && LeastPages(m0, b0, newSize, used)
      ensures o.Nothing? ==> used == used0 + left0
      ensures o.Nothing? ==> 16 * RowsAfter(m0 == [], Base(m0, b0), used) < newSize
      ensures o.Nothing? ==> if Reinserts(m0, b0, newSize, used) then !Sound(mem, nodes) else Inv({})
      ensures !o.Astray? ==> blocks == Extended(m0, b0, used)
      ensures !o.Astray? && !(o.Nothing? && Reinserts(m0, b0, newSize, used)) ==> |mem| == |m0| + 512 * used
      ensures !o.Astray? && !(o.Nothing? && Reinserts(m0, b0, newSize, used)) ==> PayloadsKept(b0, m0, mem)
      ensures enomem == (old(enomem) || o.Nothing?)
    {
      hide HeapInv, Growing, Grip, Layout, PayloadsKept, Extended, Misreads, Reinserts, LeastPages, BestFit, TailStart,
        TailRows, RowsAfter, Base, Sound, Stale;
      used := used0;
      var left: nat, h: nat, rows: nat := left0, h0, rows0;
      ghost var out: set<nat>, linked := if used == 0 then {} else {h0}, linked0;
      while 16 * rows < newSize
        invariant used + left == used0 + left0
        invariant out == if used == 0 then {} else {h}
        invariant Growing(m0, n0, b0, mem, nodes, blocks, newSize, used, h, rows, linked)
        invariant Inv(out) && Grip(mem, nodes, blocks, x, out, linked)
        invariant enomem == old(enomem)
        invariant 0 < used ==> Stale(m0, mem, h, |m0|)
        decreases left
      {
        ghost var m1, n1, b1 := mem, nodes, blocks;
        InvParts(mem, nodes, blocks, x, out);
        SameTail(m0, n0, b0, mem, nodes, blocks, newSize, used, h, rows, linked);
        if left == 0 {
          var ok := MemRefuse(out, linked);
          GrowRefused(m0, n0, b0, m1, n1, b1, mem, newSize, used, h, rows, linked);
          if !ok {
            return Astray, used;
          }
          enomem := true;
          return Nothing, used;
        }
        var ok;
        ghost var linked';
        ok, h, linked' := MemExtend(out, linked);
        if !ok {
          GrowAstray(m0, n0, b0, m1, n1, b1, newSize, used, rows, linked, left);
          return Astray, used;
        }
        InvParts(mem, nodes, blocks, x, {h});
        if 0 < used {
          StaleGrows(m0, m1, mem, h);
        }
        GrowStep(m0, n0, b0, m1, n1, b1, mem, nodes, blocks, newSize, used, rows, linked, h, linked');
        used, left, out, linked := used + 1, left - 1, {h}, linked';
        rows := mem[h].size;
      }
      GrowGot(m0, n0, b0, mem, nodes, blocks, newSize, used, h, rows, linked, left);
      o := Got(h);
    }

    /** The part of `sf_malloc` that gets hold of a block of at least newSize bytes; pages is
        how many times `sf_mem_grow` will succeed during this call. */
    method Obtain(newSize: nat, pages: nat) returns (o: Grab, ghost used: nat)
      requires Valid()
      requires 0 < newSize
      modifies this
      ensures o.Astray? <==> Misreads(old(mem), old(nodes), old(blocks), newSize, pages)
      ensures o.Got? ==> Inv({o.header}) && BestFit(blocks, newSize, o.header) && used <= pages
      ensures Reinserts(old(mem), old(blocks), newSize, pages) ==> o.Nothing?
      ensures o.Got? ==>
                if Fits(old(blocks), newSize) then used == 0 else LeastPages(old(mem), old(blocks), newSize, used)
      ensures o.Nothing? ==> used == pages && !Fits(old(blocks), newSize)
      ensures o.Nothing? ==> 16 * RowsAfter(old(mem) == [], Base(old(mem), old(blocks)), pages) < newSize
      ensures o.Nothing? ==> if Reinserts(old(mem), old(blocks), newSize, pages) then !Sound(mem, nodes) else Valid()
      ensures !o.Astray? ==> blocks == Extended(old(mem), old(blocks), used)
      ensures !o.Astray? && !Reinserts(old(mem), old(blocks), newSize, pages) ==> |mem| == |old(mem)| + 512 * used
      ensures !o.Astray? && !Reinserts(old(mem), old(blocks), newSize, pages) ==>
                PayloadsKept(old(blocks), old(mem), mem)
      ensures enomem == (old(enomem) || o.Nothing?)
      ensures o.Got? ==> o.header in blocks && Stale(old(mem), mem, o.header, After(blocks, o.header))
    {
      hide HeapInv, Grip, Layout, PayloadsKept, WordsKept, TailStart, TailRows, Sound, Fits;
      ghost var m0, n0, b0 := mem, nodes, blocks;
      if mem == [] {
        FirstCall(mem, nodes, blocks, x, newSize);
        var ok := MemInit(pages > 0);
        if !ok {
          enomem := true;
          return Nothing, 0;
        }
        NoPayloads(m0, mem, newSize);
        o, used := GrowUntil(newSize, pages - 1, FIRST, mem[FIRST].size, m0, n0, b0, 1, true);
      } else {
        LaterCall(mem, nodes, blocks, x);
        var found, h := TakeFit(newSize);
        if found {
          KeptIsStale(m0, mem, h, After(blocks, h));
          return Got(h), 0;
        }
        o, used := GrowUntil(newSize, pages, 0, 0, m0, n0, b0, 0, false);
      }
    }

    /** Tells before a call whether it would go wrong, from the words and nodes alone. */
    method Foresees(newSize: nat, pages: nat) returns (bad: bool)
      requires Valid()
      requires 0 < newSize
      ensures bad <==> Misreads(mem, nodes, blocks, newSize, pages) || Reinserts(mem, blocks, newSize, pages)
    {
      hide HeapInv, Layout, TailStart, TailRows, Fits;
      if mem == [] {
        return false;
      }
      LaterCall(mem, nodes, blocks, x);
      TailIsThere(mem, blocks);
      var found, h := FindFit(newSize);
      if found {
        return false;
      }
      bad := pages == 0 || (mem[|mem| - 1].prevAlloc && 2 <= pages && 4096 < newSize && 1 < |nodes|);
    }

    /** `sf_malloc`.  A request is refused only if nothing fits and the pages granted are too
        few; otherwise it gets a best-fitting block, after as few pages as will do. */
    method Malloc(size: nat, pages: nat) returns (r: Outcome, ghost used: nat)
      requires Valid()
      requires Computable(size) && SmallHeap(mem, pages)
      modifies this
      ensures !r.Aborted?
      ensures size == 0 ==> r == Null && Valid() && unchanged(this)
      ensures 0 < size ==>
                (r.Undefined? <==> Misreads(old(mem), old(nodes), old(blocks), GetNewSize(size), pages))
      ensures 0 < size && !r.Undefined? ==>
                if Reinserts(old(mem), old(blocks), GetNewSize(size), pages) then r == Null && !Sound(mem, nodes)
                    else Valid()
      ensures 0 < size && !r.Undefined? ==>
                (r.Payload? <==>
                   || Fits(old(blocks), GetNewSize(size))
                   || GetNewSize(size) <= 16 * RowsAfter(old(mem) == [], Base(old(mem), old(blocks)), pages))
      ensures r.Payload? ==>
                && (if Fits(old(blocks), GetNewSize(size)) then used == 0
                    else LeastPages(old(mem), old(blocks), GetNewSize(size), used) && used <= pages)
                && AllocatedFrom(Extended(old(mem), old(blocks), used), blocks, GetNewSize(size), size % 0x1_0000_0000,
                    r.header)
      ensures 0 < size && r == Null ==> used == pages && blocks == Extended(old(mem), old(blocks), used)
      ensures 0 < size && !r.Undefined? && !Reinserts(old(mem), old(blocks), GetNewSize(size), pages) ==>
                |mem| == |old(mem)| + 512 * used && PayloadsKept(old(blocks), old(mem), mem)
      ensures r.Payload? ==> r.header in blocks && Stale(old(mem), mem, r.header, After(blocks, r.header))
      ensures 0 < size ==> enomem == (old(enomem) || r.Null?)
    {
      hide HeapInv, Layout, PayloadsKept, BestFit, TailStart, TailRows, Sound, Fits, Placed, Extended, WordsKept, Wrap,
        Misreads;
      if size == 0 {
        return Null, 0;
      }
      var newSize: int := GetNewSize(size);
      ghost var m0, b0, x0, n0 := mem, blocks, x, nodes;
      var o;
      o, used := Obtain(newSize, pages);
      match o {
        case Astray => r := Undefined;
        case Nothing => r := Null;
        case Got(h) =>
          ghost var m1, b1 := mem, blocks;
          BestIs(blocks, newSize, h);
          Place(h, newSize, size % 0x1_0000_0000);
          MallocPayloads(m0, n0, b0, x0, used, m1, b1, mem);
          StaleAcross(m0, m1, mem, h, After(b1, h), After(blocks, h));
          InvParts(mem, nodes, blocks, x, {});
          NotEmpty(mem, blocks);
          r := Payload(h);
      }
    }

    // ----- sf_realloc

    /** Cuts the block at h, whose requested size is already the new one, to newSize bytes. */
    method CutTail(h: nat, newSize: nat, splitSize: nat, ghost rsize: nat, ghost m0: seq<Word>)
      requires HeapInv(m0, nodes, blocks, x, {})
      requires h in blocks && blocks[h].alloc
      requires 32 <= newSize && newSize % 16 == 0 && 32 <= splitSize && newSize + splitSize == 16 * blocks[h].size
      requires h < |m0| && m0[h].Info? && m0[h].size == blocks[h].size && m0[h].alloc
      requires mem == m0[h := m0[h].(requested := rsize)]
      requires IndexInv(mem, nodes, x)
      modifies this`mem, this`nodes, this`x
      ensures HeapInv(mem, nodes, Shrunk(blocks, h, newSize / 16, rsize), x, {})
      ensures |mem| == |old(mem)|
      ensures PayloadsKept(blocks - {h}, m0, mem)
      ensures h in Shrunk(blocks, h, newSize / 16, rsize)
      ensures WordsKept(m0, mem, h, After(Shrunk(blocks, h, newSize / 16, rsize), h))
    {
      hide IndexInv, Linked, Indexed, Ordered, Layout, KeysFree, PayloadsKept, FreeMap, Shrunk, IsLinkWord, Splittable,
        FreedTo, SameAround, WordsKept;
      ghost var m1, x0 := mem, x;
      mem := mem[h := mem[h].(size := newSize / 16)];
      ShrinkFacts(m0, mem, blocks, x0, h, newSize / 16);
      TagWrite(m1, mem, nodes, x, h);
      ghost var m2 := mem;
      var f := SplitBlock(h, splitSize);
      ghost var m3 := mem;
      var n := f + 2 * mem[f].size;
      ShrinkLinks(x0.next, x.next, f, n);
      mem := mem[n := mem[n].(prevAlloc := false)];
      TagWrite(m3, mem, nodes, x, n);
      ShrinkFrame(m0, m2, m3, mem, blocks, x0.next, h, f, n);
      ShrinkLayout(m0, mem, blocks, x0.next, h, newSize / 16, rsize);
      ShrinkIndex(m0, blocks, x0, x, h, newSize / 16, rsize);
      ShrunkAt(m0, blocks, h, newSize / 16, rsize);
    }

    /** `sf_realloc` to a smaller request. */
    method Shrink(h: nat, rsize: nat)
      requires Inv({})
      requires h in blocks && blocks[h].alloc
      requires rsize < blocks[h].requested && blocks[h].requested + 8 <= 16 * blocks[h].size
      requires Computable(rsize) && 32 <= GetNewSize(rsize) <= 16 * blocks[h].size
      modifies this`mem, this`nodes, this`x, this`blocks
      ensures Inv({})
      ensures blocks == Shrunk(old(blocks), h, GetNewSize(rsize) / 16, rsize)
      ensures |mem| == |old(mem)|
      ensures PayloadsKept(old(blocks) - {h}, old(mem), mem)
      ensures h in blocks && WordsKept(old(mem), mem, h, After(blocks, h))
    {
      hide IndexInv, Linked, Indexed, Ordered, Layout, KeysFree, PayloadsKept, FreeMap, Shrunk, IsLinkWord, Splittable,
        GetNewSize, Computable, FreedTo, SameAround, WordsKept;
      ghost var m0, b0, x0 := mem, blocks, x;
      var newSize := GetNewSize(rsize);
      HeaderSays(mem, blocks, h);
      RetagFacts(mem, blocks, h);
      var splitSize := 16 * mem[h].size - newSize;
      mem := mem[h := mem[h].(requested := rsize)];
      RetagLayout(m0, mem, b0, x0, h, rsize);
      TagWrite(m0, mem, nodes, x, h);
      if splitSize >= 32 {
        CutTail(h, newSize, splitSize, rsize, m0);
      } else {
        ShrunkWhole(b0, h, newSize / 16, rsize);
        LessPayloads(b0, h, m0, mem);
      }
      blocks := Shrunk(blocks, h, newSize / 16, rsize);
    }

    /** `sf_realloc`. */
    method Realloc(h: nat, rsize: nat, pages: nat) returns (r: Outcome, ghost used: nat, ghost middle: seq<Word>)
      requires Valid()
      requires h in blocks && blocks[h].alloc
      requires Computable(rsize) && SmallHeap(mem, pages)
      modifies this
      ensures r.Aborted? <==> !Honest(old(blocks)[h])
      ensures r.Aborted? ==> unchanged(this)
      // A request for nothing frees the block.
      ensures !r.Aborted? && rsize == 0 ==> r == Null && Valid() && blocks == Freed(old(blocks), h)
      // A smaller request is met in place, and so is an equal one.
      ensures !r.Aborted? && 0 < rsize <= old(blocks)[h].requested ==>
                && r == Payload(h) && Valid() && h in blocks && WordsKept(old(mem), mem, h, After(blocks, h))
                && blocks == if rsize == old(blocks)[h].requested then old(blocks)
                             else Shrunk(old(blocks), h, GetNewSize(rsize) / 16, rsize)
      ensures !r.Aborted? && rsize <= old(blocks)[h].requested ==> PayloadsKept(old(blocks) - {h}, old(mem), mem)
      // A larger one is a new allocation, after which the old block is freed.
      ensures r.Undefined? <==>
                && Honest(old(blocks)[h]) && old(blocks)[h].requested < rsize
                && Misreads(old(mem), old(nodes), old(blocks), GetNewSize(rsize), pages)
      ensures !r.Aborted? && !r.Undefined? && old(blocks)[h].requested < rsize ==>
                if Reinserts(old(mem), old(blocks), GetNewSize(rsize), pages) then r == Null && !Sound(mem, nodes)
                else Valid() && PayloadsKept(old(blocks) - {h}, old(mem), mem)
      ensures r == Null && 0 < rsize && !Reinserts(old(mem), old(blocks), GetNewSize(rsize), pages) ==>
                blocks == Extended(old(mem), old(blocks), used) && PayloadsKept(old(blocks), old(mem), mem)
      ensures r.Payload? && old(blocks)[h].requested < rsize ==>
                MovedFrom(Extended(old(mem), old(blocks), used), middle, blocks, GetNewSize(rsize),
                    rsize % 0x1_0000_0000, r.header, h)
      ensures !r.Aborted? && !r.Undefined? && old(blocks)[h].requested < rsize ==>
                (r.Payload? <==>
                   || Fits(old(blocks), GetNewSize(rsize))
                   || GetNewSize(rsize) <= 16 * RowsAfter(false, Base(old(mem), old(blocks)), pages))
      ensures r.Payload? && old(blocks)[h].requested < rsize ==>
                if Fits(old(blocks), GetNewSize(rsize)) then used == 0
                else LeastPages(old(mem), old(blocks), GetNewSize(rsize), used) && used <= pages
      // Nothing is copied: the new payload is what was there before.
      ensures r.Payload? && old(blocks)[h].requested < rsize ==>
                r.header in blocks && Stale(old(mem), mem, r.header, After(blocks, r.header))
      ensures r.Payload? ==> (r.header == h <==> rsize <= old(blocks)[h].requested)
      ensures r.Aborted? || rsize <= old(blocks)[h].requested ==> |mem| == |old(mem)|
      ensures !r.Undefined? && !Reinserts(old(mem), old(blocks), GetNewSize(rsize), pages) ==>
                |mem| <= |old(mem)| + 512 * pages
    {
      hide HeapInv, Layout, PayloadsKept, BestFit, Sound, Placed, Extended, WordsKept, Misreads, Reinserts, Shrunk,
        Freed, GetNewSize, Computable, Fits, Stale, LeastPages, RowsAfter, Base;
      used, middle := 0, mem;
      ghost var m0, n0, b0, x0 := mem, nodes, blocks, x;
      LiveCall(mem, nodes, blocks, x, h);
      var aborts := SfAbort(h);
      if aborts {
        return Aborted, 0, mem;
      }
      if rsize == 0 {
        Release(h);
        InvParts(mem, nodes, blocks, x, {});
        NotEmpty(mem, blocks);
        return Null, 0, mem;
      }
      HeaderSays(mem, blocks, h);
      if mem[h].requested < rsize {
        r, used := Malloc(rsize, pages);
        if !r.Undefined? && !Reinserts(m0, b0, GetNewSize(rsize), pages) {
          LessPayloads(b0, h, m0, mem);
        }
        if r.Payload? {
          BestIs(Extended(m0, b0, used), GetNewSize(rsize), r.header);
          StillLive(m0, b0, used, mem, nodes, blocks, x, h, r.header, GetNewSize(rsize) / 16, rsize % 0x1_0000_0000);
          middle := mem;
          InvParts(mem, nodes, blocks, x, {});
          ghost var m1, b1 := mem, blocks;
          PlacedThere(Extended(m0, b0, used), r.header, GetNewSize(rsize) / 16, rsize % 0x1_0000_0000);
          Release(h);
          StaleMoved(m0, m1, b1, mem, r.header, h);
          InvParts(mem, nodes, blocks, x, {});
          NotEmpty(mem, blocks);
          MovePayloads(m0, b0, m1, b1, mem, h);
        }
        return;
      }
      if mem[h].requested > rsize {
        SmallerSize(mem, blocks, h, rsize, pages);
        Shrink(h, rsize);
        InvParts(mem, nodes, blocks, x, {});
        NotEmpty(mem, blocks);
      }
      r := Payload(h);
    }

    /** What the program does with its memory: it writes a word of a live payload. */
    method Store(h: nat, i: nat, w: Word)
      requires Valid()
      requires h in blocks && blocks[h].alloc && h < i < After(blocks, h)
      modifies this`mem
      ensures Valid()
      ensures i < |old(mem)| && mem == old(mem)[i := w]
    {
      LiveCall(mem, nodes, blocks, x, h);
      StoreLayout(mem, blocks, x.next, h, i, w);
      ghost var m0 := mem;
      mem := mem[i := w];
      TagWrite(m0, mem, nodes, x, i);
    }
  }
}
