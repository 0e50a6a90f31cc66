/** Why inserting a block that the index already holds breaks the index for good. */
module DoubleInsert {
  import opened HeapTiling
  import opened FreeRings
  import opened FreeIndex
  import opened BoundaryTags
  import opened HeapSteps

  /** The words of the heap determine its blocks. */
  lemma {:induction false} SameStarts(mem: seq<Word>, blocks: Blocks, blocks': Blocks, h: nat)
    requires Layout(mem, blocks) && Layout(mem, blocks')
    requires h in blocks
    ensures h in blocks' && blocks'[h] == blocks[h]
    decreases h
  {
    var end := |mem| - 1;
    assert TileOk(blocks, FIRST, end, h) && Tagged(mem, blocks, h);
    if h == FIRST {
      assert FIRST in blocks';
    } else {
      var p := Predecessor(blocks, FIRST, end, h);
      assert TileOk(blocks, FIRST, end, p);
      SameStarts(mem, blocks, blocks', p);
      assert TileOk(blocks', FIRST, end, p);
    }
    assert Tagged(mem, blocks', h);
  }

  lemma SameBlocks(mem: seq<Word>, blocks: Blocks, blocks': Blocks)
    requires Layout(mem, blocks) && Layout(mem, blocks')
    ensures blocks == blocks'
  {
    forall h | h in blocks
      ensures h in blocks' && blocks'[h] == blocks[h]
    {
      SameStarts(mem, blocks, blocks', h);
    }
    forall h | h in blocks'
      ensures h in blocks
    {
      SameStarts(mem, blocks', blocks, h);
    }
  }

  /** In a correct index no block leads back to itself, and whatever block leads to h is the
      one that h leads back to. */
  lemma LeadsBack(mem: seq<Word>, nodes: seq<SizeNode>, x: Shape, h: nat)
    requires IndexInv(mem, nodes, x)
    requires h in x.idx
    ensures h + 2 < |mem| && mem[h + 2].Link? && mem[h + 2].to != At(h)
    ensures forall g :: g in x.idx && g + 1 < |mem| && mem[g + 1] == Link(At(h)) ==> mem[h + 2] == Link(At(g))
  {
    var k, i := Where(nodes, x, h);
    assert LinkWords(mem, nodes, x, At(h));
    assert LinkedAt(x.next, x.prev, x.rings[k], i - 1);
    forall g | g in x.idx && g + 1 < |mem| && mem[g + 1] == Link(At(h))
      ensures mem[h + 2] == Link(At(g))
    {
      var k', i' := Where(nodes, x, g);
      assert LinkWords(mem, nodes, x, At(g));
      assert LinkedAt(x.next, x.prev, x.rings[k'], i');
    }
  }

  lemma PushFacts(mem: seq<Word>, nodes: seq<SizeNode>, x: Shape, h: nat, k: nat)
    requires IndexInv(mem, nodes, x)
    requires h in x.idx && 1 <= k < |nodes|
    ensures h + 2 < |mem| && Addressable(mem, nodes, nodes[k].headNext)
    ensures nodes[k].headNext in x.next
    ensures LinkFrame(x.next, mem, PushMem(mem, nodes, h, k))
    ensures SameNodes(nodes, PushNodes(mem, nodes, h, k))
    ensures PushNodes(mem, nodes, h, k)[k].headNext == At(h)
  {
    assert LinkWords(mem, nodes, x, At(h)) && LinkWords(mem, nodes, x, Sentinel(k));
    assert RingOf(nodes, x, k);
    assert LinkedAt(x.next, x.prev, x.rings[k], 0);
    var f := nodes[k].headNext;
    assert LinkWords(mem, nodes, x, f);
    assert IsLinkWord(x.next, h + 1) && IsLinkWord(x.next, h + 2);
    if f.At? {
      assert IsLinkWord(x.next, f.header + 2);
    }
  }

  /** After a second insertion h leads back to itself if it was first on its list, and
      otherwise to the head, although its old predecessor still leads to it. */
  lemma TwiceFacts(mem: seq<Word>, nodes: seq<SizeNode>, x: Shape, h: nat, k: nat)
    requires IndexInv(mem, nodes, x)
    requires h in x.idx && 1 <= k < |nodes| && nodes[k].size == 16 * x.idx[h]
    ensures h + 2 < |mem| && Addressable(mem, nodes, nodes[k].headNext)
    ensures var mem' := PushMem(mem, nodes, h, k);
            || mem'[h + 2] == Link(At(h))
            || (&& mem'[h + 2] == Link(Sentinel(k))
                && exists g :: g in x.idx && g + 1 < |mem| && mem'[g + 1] == Link(At(h)))
  {
    PushFacts(mem, nodes, x, h, k);
    var mem' := PushMem(mem, nodes, h, k);
    var k', i := Where(nodes, x, h);
    if k' != k {
      SizesDistinct(nodes, x.order, k', k);
    }
    var ring, f := x.rings[k], nodes[k].headNext;
    assert LinkedAt(x.next, x.prev, ring, i - 1) && LinkedAt(x.next, x.prev, ring, 0);
    assert LinkWords(mem, nodes, x, Sentinel(k)) && LinkWords(mem, nodes, x, At(h)) && LinkWords(mem, nodes, x, f);
    if 1 < i {
      var g := ring[i - 1].header;
      assert LinkWords(mem, nodes, x, At(g));
      assert g != h && f != At(h);
      assert mem'[g + 1] == Link(At(h));
    }
  }

  /** No reading of the words makes the heap correct after a second insertion. */
  lemma InsertedTwice(mem: seq<Word>, nodes: seq<SizeNode>, blocks: Blocks, x: Shape, h: nat, k: nat)
    requires HeapInv(mem, nodes, blocks, x, {})
    requires h in x.idx && 1 <= k < |nodes| && nodes[k].size == 16 * x.idx[h]
    ensures h + 2 < |mem| && Addressable(mem, nodes, nodes[k].headNext)
    ensures !Sound(PushMem(mem, nodes, h, k), PushNodes(mem, nodes, h, k))
  {
    PushFacts(mem, nodes, x, h, k);
    TwiceFacts(mem, nodes, x, h, k);
    var mem', nodes' := PushMem(mem, nodes, h, k), PushNodes(mem, nodes, h, k);
    LinksOnly(mem, mem', blocks, x.next, h);
    forall blocks', x'
      ensures !HeapInv(mem', nodes', blocks', x', {})
    {
      if HeapInv(mem', nodes', blocks', x', {}) {
        SameBlocks(mem', blocks, blocks');
        assert x'.idx == x.idx;
        LeadsBack(mem', nodes', x', h);
      }
    }
  }

  /** The words that an insertion of h writes: its own links, and one of an indexed block. */
  lemma PushWrites(mem: seq<Word>, nodes: seq<SizeNode>, x: Shape, h: nat, k: nat)
    requires IndexInv(mem, nodes, x) && h + 2 < |mem| && 1 <= k < |nodes|
    ensures Addressable(mem, nodes, nodes[k].headNext)
    ensures var mem' := PushMem(mem, nodes, h, k);
            && |mem'| == |mem|
            && forall i :: 0 <= i < |mem| && i != h + 1 && i != h + 2 && !IsLinkWord(x.next, i) ==> mem'[i] == mem[i]
    ensures var nodes' := PushNodes(mem, nodes, h, k); k < |nodes'| && nodes'[k].headNext == At(h)
  {
    assert LinkWords(mem, nodes, x, Sentinel(k));
    assert RingOf(nodes, x, k);
    assert LinkedAt(x.next, x.prev, x.rings[k], 0);
    var f := nodes[k].headNext;
    assert LinkWords(mem, nodes, x, f);
    if f.At? {
      assert IsLinkWord(x.next, f.header + 2);
    }
  }

  /** A list leads only to blocks that have links. */
  lemma HeadLeads(mem: seq<Word>, nodes: seq<SizeNode>, x: Shape, h: nat, k: nat)
    requires IndexInv(mem, nodes, x) && 1 <= k < |nodes| && nodes[k].headNext == At(h)
    ensures At(h) in x.next
  {
    assert LinkWords(mem, nodes, x, Sentinel(k));
    assert RingOf(nodes, x, k);
    assert LinkedAt(x.next, x.prev, x.rings[k], 0);
  }

  /** Two readings, of words that differ only behind h and in links, have the same blocks up
      to h. */
  lemma {:induction false} AlikeUpTo(mem: seq<Word>, mem': seq<Word>, blocks: Blocks, blocks': Blocks,
                                     next: map<Ptr, Ptr>, h: nat, a: nat)
    requires Layout(mem, blocks) && KeysFree(blocks, next) && Layout(mem', blocks') && |mem| == |mem'|
    requires forall i :: 0 <= i < |mem| && i != h + 1 && i != h + 2 && !IsLinkWord(next, i) ==> mem'[i] == mem[i]
    requires a in blocks' && a <= h < |mem| - 1
    ensures a in blocks && mem'[a] == mem[a]
    decreases a
  {
    var end := |mem| - 1;
    assert TileOk(blocks', FIRST, end, a);
    if a == FIRST {
      assert FIRST in blocks;
    } else {
      var p := Predecessor(blocks', FIRST, end, a);
      assert TileOk(blocks', FIRST, end, p);
      AlikeUpTo(mem, mem', blocks, blocks', next, h, p);
      assert Tagged(mem, blocks, p) && Tagged(mem', blocks', p) && TileOk(blocks, FIRST, end, p);
    }
    NotLinkWords(blocks, FIRST, end, next, a);
  }

  /** Nor after the insertion of anything else that a refused growth can insert. */
  lemma InsertedWrongly(mem: seq<Word>, nodes: seq<SizeNode>, blocks: Blocks, x: Shape, h: nat, k: nat)
    requires HeapInv(mem, nodes, blocks, x, {})
    requires h + 2 < |mem| && mem[h].Info? && 1 <= k < |nodes| && nodes[k].size == 16 * mem[h].size
    ensures Addressable(mem, nodes, nodes[k].headNext)
    ensures !Sound(PushMem(mem, nodes, h, k), PushNodes(mem, nodes, h, k))
  {
    hide IndexInv, Layout, LooksLikeHeader;
    PushWrites(mem, nodes, x, h, k);
    var mem', nodes' := PushMem(mem, nodes, h, k), PushNodes(mem, nodes, h, k);
    forall blocks', x'
      ensures !HeapInv(mem', nodes', blocks', x', {})
    {
      if HeapInv(mem', nodes', blocks', x', {}) {
        HeadLeads(mem', nodes', x', h, k);
        WasFree(mem, mem', blocks, blocks', x.next, h);
        InsertedTwice(mem, nodes, blocks, x, h, k);
      }
    }
  }

  lemma WasFree(mem: seq<Word>, mem': seq<Word>, blocks: Blocks, blocks': Blocks, next: map<Ptr, Ptr>, h: nat)
    requires Layout(mem, blocks) && KeysFree(blocks, next) && Layout(mem', blocks') && |mem| == |mem'|
    requires forall i :: 0 <= i < |mem| && i != h + 1 && i != h + 2 && !IsLinkWord(next, i) ==> mem'[i] == mem[i]
    requires h in blocks' && !blocks'[h].alloc
    ensures h < |mem| && mem[h].Info? && h in blocks && !blocks[h].alloc && blocks[h].size == mem[h].size
  {
    assert TileOk(blocks', FIRST, |mem| - 1, h);
    AlikeUpTo(mem, mem', blocks, blocks', next, h, h);
    assert Tagged(mem, blocks, h) && Tagged(mem', blocks', h);
  }
}
