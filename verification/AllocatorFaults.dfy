/** Runs from a new heap that go wrong, one for each way in which the allocator departs from
    what it is meant to do.
 */
module AllocatorFaults {
  import opened HeapTiling
  import opened FreeIndex
  import opened BoundaryTags
  import opened HeapSteps
  import opened Allocator
  import opened AllocatorRuns
  import opened AllocatorContents

  // ----- the first blocks

  const PAGE_BLOCK: Blocks := map[FIRST := Block(253, false, 0)]

  lemma FirstPlaced(blocks: Blocks, newSize: nat, requested: nat, h: nat)
    requires AllocatedFrom(PAGE_BLOCK, blocks, newSize, requested, h) && 32 <= newSize <= 4048 && newSize % 16 == 0
    ensures h == FIRST && blocks == Carve(Block(253, false, 0), FIRST, newSize / 16, requested)
  {
    var seg := Carve(Block(253, false, 0), FIRST, newSize / 16, requested);
    SpliceAt(PAGE_BLOCK, FIRST, After(PAGE_BLOCK, FIRST), seg);
    assert blocks == seg;
  }

  /** The first request, which the first page can meet. */
  method Start(size: nat) returns (heap: Heap)
    requires 0 < size && Computable(size) && GetNewSize(size) <= 4048
    ensures fresh(heap) && heap.Valid() && |heap.mem| == PAGE
    ensures heap.blocks == Carve(Block(253, false, 0), FIRST, GetNewSize(size) / 16, size % 0x1_0000_0000)
  {
    hide HeapInv, Layout, PayloadsKept, Stale, GetNewSize, Computable, AllocatedFrom, Carve;
    heap := new Heap();
    ghost var m0, b0 := heap.mem, heap.blocks;
    ghost var used;
    var r;
    r, used := heap.Malloc(size, 1);
    assert used == 1;
    assert Extended(m0, b0, used) == PAGE_BLOCK;
    FirstPlaced(heap.blocks, GetNewSize(size), size % 0x1_0000_0000, r.header);
  }

  lemma SizesAre()
    ensures Computable(1) && GetNewSize(1) == 32
    ensures Computable(100) && GetNewSize(100) == 112
    ensures Computable(4008) && GetNewSize(4008) == 4016
    ensures Computable(4040) && GetNewSize(4040) == 4048
    ensures Computable(5000) && GetNewSize(5000) == 5008
    ensures Computable(0x1_0000_0000) && GetNewSize(0x1_0000_0000) == 32
  {
  }

  const TWO_BLOCKS: Blocks := map[FIRST := Block(2, true, 1), 9 := Block(251, false, 0)]
  const FULL_PAGE: Blocks := map[FIRST := Block(253, true, 4040)]

  method OneByte() returns (heap: Heap)
    ensures fresh(heap) && heap.Valid() && |heap.mem| == PAGE && heap.blocks == TWO_BLOCKS
  {
    hide HeapInv, GetNewSize, Computable;
    SizesAre();
    heap := Start(1);
  }

  lemma TailAllocated(mem: seq<Word>, blocks: Blocks, h: nat)
    requires Layout(mem, blocks) && h in blocks && blocks[h].alloc && After(blocks, h) == |mem| - 1
    ensures TailRows(blocks, |mem| - 1) == 0
  {
    assert Tagged(mem, blocks, h);
    TailFacts(mem, blocks);
  }

  // ----- growth

  /** One byte, then more than is left while no page is granted: the free block at the end is
      inserted twice. */
  method InsertsTwice() returns (heap: Heap, r: Outcome)
    ensures r == Null && !Sound(heap.mem, heap.nodes)
  {
    hide HeapInv, Layout, Sound, GetNewSize, Computable, PayloadsKept, Stale, TailStart, TailRows;
    SizesAre();
    heap := OneByte();
    LiveCall(heap.mem, heap.nodes, heap.blocks, heap.x, FIRST);
    TailLeads(heap.mem, heap.blocks, 9);
    ghost var used;
    r, used := heap.Malloc(5000, 0);
  }

  /** The whole page, with this in its last word. */
  method WholePage(w: Word) returns (heap: Heap)
    ensures fresh(heap) && heap.Valid() && |heap.mem| == PAGE && heap.blocks == FULL_PAGE
    ensures heap.mem[PAGE - 2] == w && heap.mem[FIRST].Info? && heap.mem[FIRST].size == 253
  {
    hide HeapInv, Layout, GetNewSize, Computable;
    SizesAre();
    heap := Start(4040);
    assert heap.blocks == FULL_PAGE;
    LiveCall(heap.mem, heap.nodes, heap.blocks, heap.x, FIRST);
    heap.Store(FIRST, PAGE - 2, w);
    LiveCall(heap.mem, heap.nodes, heap.blocks, heap.x, FIRST);
    HeaderSays(heap.mem, heap.blocks, FIRST);
  }

  /** The whole page, then one byte while no page is granted.  If the last word of the payload
      is a number, it is read as a footer. */
  method ReadsPayload() returns (heap: Heap, r: Outcome)
    ensures r == Undefined
  {
    hide HeapInv, Layout, Sound, GetNewSize, Computable, PayloadsKept, Stale, TailStart, TailRows;
    SizesAre();
    heap := WholePage(Data(0));
    ghost var used;
    r, used := heap.Malloc(1, 0);
  }

  /** If it looks like the footer that was there, the allocated block is put on a free list. */
  method InsertsAllocated() returns (heap: Heap, r: Outcome)
    ensures r == Null && !Sound(heap.mem, heap.nodes)
  {
    hide HeapInv, Layout, Sound, GetNewSize, Computable, PayloadsKept, Stale, TailStart, TailRows;
    SizesAre();
    heap := WholePage(Info(false, true, 253, 0));
    ghost var used;
    r, used := heap.Malloc(1, 0);
  }

  lemma SecondPlaced(blocks: Blocks, h: nat)
    requires AllocatedFrom(TWO_BLOCKS, blocks, 4016, 4008, h)
    ensures h == 9 && blocks == map[FIRST := Block(2, true, 1), 9 := Block(251, true, 4008)]
  {
    var seg := Carve(Block(251, false, 0), 9, 251, 4008);
    SpliceAt(TWO_BLOCKS, 9, After(TWO_BLOCKS, 9), seg);
    assert blocks == map[FIRST := Block(2, true, 1), 9 := Block(251, true, 4008)];
  }

  /** What is free below an allocated block at 9 that reaches to the end. */
  lemma FreeBelow(mem: seq<Word>, nodes: seq<SizeNode>, blocks: Blocks, x: Shape)
    requires HeapInv(mem, nodes, blocks, x, {}) && |mem| == PAGE && LiveSet(blocks) == {9} && blocks[9].size == 251
    ensures !Fits(blocks, 5008) && 1 < |nodes|
  {
    var end := |mem| - 1;
    assert 9 in LiveSet(blocks);
    assert FIRST !in LiveSet(blocks);
    assert TileOk(blocks, FIRST, end, 9);
    forall g | g in blocks && !blocks[g].alloc
      ensures 16 * blocks[g].size < 5008
    {
      assert TileOk(blocks, FIRST, end, g);
    }
    assert FIRST in x.idx;
    var k, i := Where(nodes, x, FIRST);
  }

  /** One byte, the rest of the page, and the first byte freed; then more than a page: the
      second page makes `mem_grow` unlink a block that was never linked. */
  method FollowsNothing() returns (heap: Heap, r: Outcome)
    ensures r == Undefined
  {
    hide HeapInv, Layout, Sound, GetNewSize, Computable, PayloadsKept, Stale, TailStart, TailRows, Freed, Fits, BestFit,
      Extended, LeastPages, AllocatedFrom, Placed, Misreads, Reinserts, RowsAfter, Base;
    SizesAre();
    heap := OneByte();
    ghost var used;
    var r1;
    RestFits(heap.mem, heap.nodes, heap.blocks);
    ghost var m0 := heap.mem;
    r1, used := heap.Malloc(4008, 0);
    ExtendedZero(m0, TWO_BLOCKS);
    SecondPlaced(heap.blocks, r1.header);
    ghost var m1, b1 := heap.mem, heap.blocks;
    LiveCall(heap.mem, heap.nodes, heap.blocks, heap.x, FIRST);
    var aborted := heap.Free(FIRST);
    FreedLive(m1, b1, FIRST);
    assert LiveSet(b1) == {FIRST, 9};
    assert 9 in LiveSet(heap.blocks);
    LiveCall(heap.mem, heap.nodes, heap.blocks, heap.x, 9);
    FreeBelow(heap.mem, heap.nodes, heap.blocks, heap.x);
    TailAllocated(heap.mem, heap.blocks, 9);
    NeverLinked(heap.mem, heap.nodes, heap.blocks);
    r, used := heap.Malloc(5000, 2);
  }

  lemma RestFits(mem: seq<Word>, nodes: seq<SizeNode>, blocks: Blocks)
    requires blocks == TWO_BLOCKS
    ensures Fits(blocks, 4016)
    ensures !Misreads(mem, nodes, blocks, 4016, 0) && !Reinserts(mem, blocks, 4016, 0)
  {
    assert 9 in blocks && !blocks[9].alloc && 4016 <= 16 * blocks[9].size;
  }

  lemma NeverLinked(mem: seq<Word>, nodes: seq<SizeNode>, blocks: Blocks)
    requires mem != [] && !Fits(blocks, 5008) && 1 < |nodes| && TailRows(blocks, |mem| - 1) == 0
    ensures Misreads(mem, nodes, blocks, 5008, 2)
  {
  }

  // ----- sizes

  /** A request for 2^32 bytes gets a block of 32. */
  method GetsTooLittle() returns (heap: Heap)
    ensures FIRST in heap.blocks && heap.blocks[FIRST].alloc && 16 * heap.blocks[FIRST].size == 32
  {
    hide HeapInv, GetNewSize, Computable;
    SizesAre();
    heap := Start(0x1_0000_0000);
  }

  // ----- contents

  lemma OnlyNine(h: nat, newSize: nat)
    requires BestFit(TWO_BLOCKS, newSize, h)
    ensures h == 9
  {
  }

  lemma SmallFits(mem: seq<Word>, nodes: seq<SizeNode>)
    ensures Fits(TWO_BLOCKS, 112)
    ensures !Misreads(mem, nodes, TWO_BLOCKS, 112, 0) && !Reinserts(mem, TWO_BLOCKS, 112, 0)
  {
    assert 9 in TWO_BLOCKS && !TWO_BLOCKS[9].alloc && 112 <= 16 * TWO_BLOCKS[9].size;
  }

  lemma SecondWord(mem: seq<Word>, nodes: seq<SizeNode>, blocks: Blocks, x: Shape, h: nat)
    requires if Untouched(mem, nodes) then blocks == map[] && x == NO_SHAPE else HeapInv(mem, nodes, blocks, x, {})
    requires h in blocks
    ensures h + 1 < After(blocks, h)
  {
    assert TileOk(blocks, FIRST, |mem| - 1, h);
  }

  /** One byte, which is written and then resized to a hundred: it is gone. */
  method LosesData() returns (heap: Heap, h: nat, r: Outcome)
    ensures h + 1 < |heap.mem| && r == Payload(h) && heap.mem[h + 1] != Data(7)
  {
    hide HeapInv, Layout, Sound, GetNewSize, Computable, PayloadsKept, TailStart, TailRows, Freed, Fits, BestFit,
      Extended, LeastPages, AllocatedFrom, Placed, Misreads, Reinserts, RowsAfter, Base, Shrunk;
    SizesAre();
    heap := OneByte();
    LiveCall(heap.mem, heap.nodes, heap.blocks, heap.x, FIRST);
    heap.Store(FIRST, FIRST + 1, Data(7));
    ghost var m0, n0, b0, x0 := heap.mem, heap.nodes, heap.blocks, heap.x;
    LiveCall(m0, n0, b0, x0, FIRST);
    FreeHoldsLinks(m0, n0, b0, x0, 9);
    SmallFits(m0, n0);
    ghost var used, middle;
    r, used, middle := heap.Realloc(FIRST, 100, 0);
    ExtendedZero(m0, b0);
    OnlyNine(r.header, 112);
    SecondWord(heap.mem, heap.nodes, heap.blocks, heap.x, 9);
    h := r.header;
  }
}
