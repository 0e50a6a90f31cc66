/** What the allocator promises its clients over whole runs. */
module AllocatorRuns {
  import opened HeapTiling
  import opened FreeRings
  import opened FreeIndex
  import opened BoundaryTags
  import opened HeapSteps
  import opened Allocator

  // ----- single states

  function LiveSet(blocks: Blocks): set<nat> {
    set h | h in blocks && blocks[h].alloc
  }

  ghost predicate AllHonest(blocks: Blocks) {
    forall h :: h in blocks && blocks[h].alloc ==> Honest(blocks[h])
  }

  /** Payloads start on 16-byte boundaries, lie inside the heap, and do not overlap each
      other, nor any header. */
  lemma PayloadsApart(mem: seq<Word>, blocks: Blocks, g: nat, h: nat)
    requires Layout(mem, blocks)
    requires g in blocks && h in blocks && g != h
    ensures 8 * (h + 1) % 16 == 0
    ensures 48 <= 8 * (h + 1) < 8 * After(blocks, h) <= 8 * (|mem| - 1)
    ensures After(blocks, g) <= h || After(blocks, h) <= g
  {
    assert TileOk(blocks, FIRST, |mem| - 1, h) && TileOk(blocks, FIRST, |mem| - 1, g);
  }

  /** A heap without live blocks is one free block: all of it but the 48 bytes of prologue
      and epilogue. */
  lemma NothingLive(mem: seq<Word>, blocks: Blocks)
    requires Layout(mem, blocks)
    requires LiveSet(blocks) == {}
    ensures blocks.Keys == {FIRST}
    ensures !blocks[FIRST].alloc && 16 * blocks[FIRST].size == 8 * |mem| - 48
  {
    var end := |mem| - 1;
    assert TileOk(blocks, FIRST, end, FIRST);
    assert forall h :: h in blocks ==> !blocks[h].alloc by {
      forall h | h in blocks
        ensures !blocks[h].alloc
      {
        assert h !in LiveSet(blocks);
      }
    }
    assert After(blocks, FIRST) !in blocks;
    assert After(blocks, FIRST) == end;
    forall h | h in blocks
      ensures h == FIRST
    {
      assert TileOk(blocks, FIRST, end, h);
    }
  }

  /** A request gets the room it asked for exactly when it is at most 2^31 - 24 bytes. */
  lemma GetsRoom(grown: Blocks, blocks: Blocks, size: nat, h: nat)
    requires Computable(size)
    requires AllocatedFrom(grown, blocks, GetNewSize(size), size % 0x1_0000_0000, h)
    requires h in blocks ==> 16 * blocks[h].size <= INT_MAX - 15
    ensures h in blocks && blocks[h].alloc
    ensures size + 8 <= 16 * blocks[h].size <==> size <= INT_MAX - 23
    ensures size <= INT_MAX - 23 ==> Honest(blocks[h]) && blocks[h].requested == size
    ensures GetNewSize(size) <= 16 * blocks[h].size < GetNewSize(size) + 32
  {
    hide GetNewSize, Computable, Splice;
    NewSizeFits(size);
    var seg := Carve(grown[h], h, GetNewSize(size) / 16, size % 0x1_0000_0000);
    SpliceAt(grown, h, After(grown, h), seg);
  }

  // ----- what each operation does to the live blocks

  lemma FreedLive(mem: seq<Word>, blocks: Blocks, h: nat)
    requires Layout(mem, blocks)
    requires h in blocks && blocks[h].alloc
    ensures LiveSet(Freed(blocks, h)) == LiveSet(blocks) - {h}
    ensures forall g :: g in blocks && blocks[g].alloc && g != h ==>
              g in Freed(blocks, h) && Freed(blocks, h)[g] == blocks[g]
  {
    hide Layout, Splice;
    SegmentIs(mem, blocks, h);
    FreedIs(blocks, h);
    var a, e := FreedFrom(blocks, h), FreedTo(blocks, h);
    SpliceAt(blocks, a, e, map[a := Block((e - a) / 2, false, 0)]);
    assert forall g :: g in LiveSet(Freed(blocks, h)) ==> g in LiveSet(blocks) - {h};
    assert forall g :: g in LiveSet(blocks) - {h} ==> g in LiveSet(Freed(blocks, h));
  }

  lemma ExtendedLive(mem: seq<Word>, nodes: seq<SizeNode>, blocks: Blocks, x: Shape, used: nat)
    requires if Untouched(mem, nodes) then blocks == map[] && x == NO_SHAPE else HeapInv(mem, nodes, blocks, x, {})
    ensures LiveSet(Extended(mem, blocks, used)) == LiveSet(blocks)
    ensures forall g :: g in blocks && blocks[g].alloc ==>
              g in Extended(mem, blocks, used) && Extended(mem, blocks, used)[g] == blocks[g]
  {
    hide Layout;
    if !Untouched(mem, nodes) {
      NotEmpty(mem, blocks);
    }
    ExtendedKeeps(mem, blocks, used);
  }

  lemma PlacedLive(mem: seq<Word>, nodes: seq<SizeNode>, b0: Blocks, x: Shape, used: nat, blocks: Blocks, newSize: nat,
                   size: nat, h: nat)
    requires if Untouched(mem, nodes) then b0 == map[] && x == NO_SHAPE else HeapInv(mem, nodes, b0, x, {})
    requires 32 <= newSize
    requires AllocatedFrom(Extended(mem, b0, used), blocks, newSize, size, h)
    ensures h !in LiveSet(b0) && LiveSet(blocks) == LiveSet(b0) + {h}
    ensures forall g :: g in b0 && b0[g].alloc ==> g in blocks && blocks[g] == b0[g]
  {
    hide Layout, Splice, Extended;
    ExtendedLive(mem, nodes, b0, x, used);
    var grown := Extended(mem, b0, used);
    if !Untouched(mem, nodes) {
      PlacedKeeps(mem, b0, used, h, newSize / 16, size);
    }
    SpliceAt(grown, h, After(grown, h), Carve(grown[h], h, newSize / 16, size));
    forall g | g in LiveSet(blocks)
      ensures g in LiveSet(b0) + {h}
    {
      assert g == h || g in LiveSet(grown);
    }
    assert h in LiveSet(blocks);
    assert forall g :: g in LiveSet(b0) ==> g in LiveSet(blocks);
    assert h !in LiveSet(grown);
  }

  lemma ShrunkLive(mem: seq<Word>, blocks: Blocks, h: nat, rows: nat, size: nat)
    requires Layout(mem, blocks)
    requires h in blocks && blocks[h].alloc && 2 <= rows <= blocks[h].size
    ensures LiveSet(Shrunk(blocks, h, rows, size)) == LiveSet(blocks)
    ensures forall g :: g in blocks && blocks[g].alloc && g != h ==>
              g in Shrunk(blocks, h, rows, size) && Shrunk(blocks, h, rows, size)[g] == blocks[g]
    ensures h in Shrunk(blocks, h, rows, size)
    ensures Shrunk(blocks, h, rows, size)[h] ==
            Block(if blocks[h].size < rows + 2 then blocks[h].size else rows, true, size)
  {
    hide Layout, Splice;
    if rows + 2 <= blocks[h].size {
      CutFacts(mem, blocks, h, rows);
      SpliceAt(blocks, h, FreedTo(blocks, h), CutSegment(blocks, h, rows, size));
    }
  }

  // ----- freeing everything

  /** Freeing all live blocks, in whatever order, leaves one free block. */
  method FreeAll(heap: Heap, order: seq<nat>)
    requires heap.Valid() && heap.mem != []
    requires AllHonest(heap.blocks)
    requires NoDup(order) && (forall h :: h in order <==> h in LiveSet(heap.blocks))
    modifies heap
    ensures heap.Valid() && |heap.mem| == old(|heap.mem|)
    ensures heap.blocks.Keys == {FIRST}
    ensures !heap.blocks[FIRST].alloc && 16 * heap.blocks[FIRST].size == 8 * |heap.mem| - 48
  {
    hide HeapInv, Layout, Freed, PayloadsKept;
    var i := 0;
    while i < |order|
      invariant i <= |order|
      invariant heap.Valid() && |heap.mem| == old(|heap.mem|)
      invariant AllHonest(heap.blocks)
      invariant forall h :: h in LiveSet(heap.blocks) <==> h in order[i..]
    {
      var h := order[i];
      assert h in order[i..];
      assert h in LiveSet(heap.blocks);
      ghost var m0, b0 := heap.mem, heap.blocks;
      LiveCall(heap.mem, heap.nodes, heap.blocks, heap.x, h);
      var aborted := heap.Free(h);
      FreedLive(m0, b0, h);
      assert order[i..] == [h] + order[i + 1..];
      assert forall g :: g in LiveSet(heap.blocks) ==> g in LiveSet(b0) && heap.blocks[g] == b0[g];
      i := i + 1;
    }
    assert LiveSet(heap.blocks) == {};
    LaterCall(heap.mem, heap.nodes, heap.blocks, heap.x);
    NothingLive(heap.mem, heap.blocks);
  }

  // ----- runs

  /** What the program knows of a block it has: what it asked for, and the words it sees. */
  datatype Piece = Piece(requested: nat, words: seq<Word>)

  /** The program's own picture of its memory. */
  type View = map<nat, Piece>

  /** The state between two operations: the heap is as it should be and of a size that the
      program can compute with, all live pointers are accepted, and every live payload holds
      what the program takes it to hold. */
  ghost predicate Working(heap: Heap, view: View)
    reads heap
  {
    && heap.Valid() && AllHonest(heap.blocks) && SmallHeap(heap.mem, 0)
    && Agrees(heap.mem, heap.blocks, view)
  }

  ghost predicate Agrees(mem: seq<Word>, blocks: Blocks, view: View) {
    && view.Keys == LiveSet(blocks)
    && forall h {:trigger Sees(mem, blocks, view, h)} :: h in view ==> h in blocks && Sees(mem, blocks, view, h)
  }

  ghost predicate Sees(mem: seq<Word>, blocks: Blocks, view: View, h: nat)
    requires h in view && h in blocks
  {
    h < After(blocks, h) <= |mem| && view[h] == Piece(blocks[h].requested, mem[h + 1..After(blocks, h)])
  }

  /** Blocks that an operation leaves alone look as before. */
  lemma StillSeen(m0: seq<Word>, b0: Blocks, view: View, mem: seq<Word>, blocks: Blocks, keep: Blocks, view': View,
                  h: nat)
    requires Agrees(m0, b0, view)
    requires h in view && h in view' && view'[h] == view[h]
    requires h in keep && keep[h] == b0[h] && h in blocks && blocks[h] == b0[h]
    requires PayloadsKept(keep, m0, mem)
    ensures Sees(mem, blocks, view', h)
  {
    assert Sees(m0, b0, view, h);
    assert h in LiveSet(b0);
    assert WordsKept(m0, mem, h, After(keep, h));
  }

  method DoFree(heap: Heap, view: View, h: nat) returns (view': View)
    requires Working(heap, view)
    requires h in view
    modifies heap
    ensures Working(heap, view')
    ensures view' == view - {h}
  {
    hide HeapInv, Layout, Freed, PayloadsKept;
    ghost var m0, b0 := heap.mem, heap.blocks;
    assert h in LiveSet(b0);
    LiveCall(heap.mem, heap.nodes, heap.blocks, heap.x, h);
    var aborted := heap.Free(h);
    view' := view - {h};
    FreedLive(m0, b0, h);
    assert forall g :: g in LiveSet(heap.blocks) ==> g in LiveSet(b0) && heap.blocks[g] == b0[g];
    forall g | g in view'
      ensures g in heap.blocks && Sees(heap.mem, heap.blocks, view', g)
    {
      assert g in LiveSet(heap.blocks);
      StillSeen(m0, b0, view, heap.mem, heap.blocks, b0 - {h}, view', g);
    }
  }

  method DoStore(heap: Heap, view: View, h: nat, i: nat, w: Word) returns (view': View)
    requires Working(heap, view)
    requires h in view && i < |view[h].words|
    modifies heap
    ensures Working(heap, view')
    ensures view' == view[h := Piece(view[h].requested, view[h].words[i := w])]
  {
    ghost var m0, b0 := heap.mem, heap.blocks;
    assert h in LiveSet(b0) && Sees(m0, b0, view, h);
    LiveCall(heap.mem, heap.nodes, heap.blocks, heap.x, h);
    heap.Store(h, h + 1 + i, w);
    view' := view[h := Piece(view[h].requested, view[h].words[i := w])];
    forall g | g in view'
      ensures g in heap.blocks && Sees(heap.mem, heap.blocks, view', g)
    {
      assert g in LiveSet(b0) && Sees(m0, b0, view, g);
      if g != h {
        PayloadsApart(m0, b0, g, h);
      }
    }
  }

  /** The request is one that the code mishandles: it is too large for its arithmetic, or
      growth fails for it in one of the two ways that the code gets wrong. */
  ghost predicate Faulty(mem: seq<Word>, nodes: seq<SizeNode>, blocks: Blocks, size: nat, pages: nat) {
    0 < size && (INT_MAX - 23 < size || Misreads(mem, nodes, blocks, GetNewSize(size), pages)
                 || Reinserts(mem, blocks, GetNewSize(size), pages))
  }

  method DoMalloc(heap: Heap, view: View, size: nat, pages: nat) returns (r: Outcome, view': View)
    requires Working(heap, view)
    requires Computable(size) && SmallHeap(heap.mem, pages)
    modifies heap
    ensures !Faulty(old(heap.mem), old(heap.nodes), old(heap.blocks), size, pages) ==>
              && Working(heap, view')
              && ((r == Null && view' == view) || (0 < size && r.Payload? && Adds(view, view', r.header, size)))
    // What becomes of the others.
    ensures 0 < size ==>
              (r.Undefined? <==> Misreads(old(heap.mem), old(heap.nodes), old(heap.blocks), GetNewSize(size), pages))
    ensures 0 < size && Reinserts(old(heap.mem), old(heap.blocks), GetNewSize(size), pages) ==>
              r == Null && !Sound(heap.mem, heap.nodes)
    ensures INT_MAX - 23 < size && r.Payload? ==> r.header in heap.blocks && 16 * heap.blocks[r.header].size < size + 8
  {
    hide HeapInv, Layout, PayloadsKept, Misreads, Reinserts, Extended, GetNewSize, AllHonest, Agrees, AllocatedFrom,
      Honest, LiveSet, Computable, Stale, Sound;
    ghost var m0, n0, b0, x0 := heap.mem, heap.nodes, heap.blocks, heap.x;
    ghost var used;
    if size == 0 {
      return Null, view;
    }
    OneFault(m0, n0, b0, GetNewSize(size), pages);
    r, used := heap.Malloc(size, pages);
    view' := view;
    if r.Payload? && INT_MAX - 23 < size {
      TooSmall(heap.mem, heap.nodes, heap.blocks, heap.x, Extended(m0, b0, used), size, r.header);
    } else if r.Payload? {
      var h := r.header;
      PlacedLive(m0, n0, b0, x0, used, heap.blocks, GetNewSize(size), size % 0x1_0000_0000, h);
      ghost var e := FreshBlock(heap.mem, heap.nodes, heap.blocks, heap.x, b0, Extended(m0, b0, used), size, h);
      view' := view[h := Piece(size, heap.mem[h + 1..h + 2 * heap.mem[h].size])];
      ViewAdds(m0, b0, view, heap.mem, heap.blocks, view', h);
    } else if !Faulty(m0, n0, b0, size, pages) {
      ExtendedLive(m0, n0, b0, x0, used);
      ViewStays(m0, b0, view, heap.mem, heap.blocks);
    }
  }

  lemma OneFault(mem: seq<Word>, nodes: seq<SizeNode>, blocks: Blocks, newSize: int, pages: nat)
    ensures 0 <= newSize ==> !(Misreads(mem, nodes, blocks, newSize, pages) && Reinserts(mem, blocks, newSize, pages))
  {
  }

  lemma TooSmall(mem: seq<Word>, nodes: seq<SizeNode>, blocks: Blocks, x: Shape, grown: Blocks, size: nat, h: nat)
    requires if Untouched(mem, nodes) then blocks == map[] && x == NO_SHAPE else HeapInv(mem, nodes, blocks, x, {})
    requires Computable(size) && INT_MAX - 23 < size && SmallHeap(mem, 0)
    requires AllocatedFrom(grown, blocks, GetNewSize(size), size % 0x1_0000_0000, h)
    ensures h in blocks && 16 * blocks[h].size < size + 8
  {
    hide Layout, GetNewSize, Computable, Placed;
    BestIs(grown, GetNewSize(size), h);
    PlacedThere(grown, h, GetNewSize(size) / 16, size % 0x1_0000_0000);
    LiveCall(mem, nodes, blocks, x, h);
    RetagFacts(mem, blocks, h);
    GetsRoom(grown, blocks, size, h);
  }

  /** What the program knows of a block that it just got. */
  lemma FreshBlock(mem: seq<Word>, nodes: seq<SizeNode>, blocks: Blocks, x: Shape, b0: Blocks, grown: Blocks,
                   size: nat, h: nat)
    returns (e: nat)
    requires if Untouched(mem, nodes) then blocks == map[] && x == NO_SHAPE else HeapInv(mem, nodes, blocks, x, {})
    requires Computable(size) && size <= INT_MAX - 23 && SmallHeap(mem, 0)
    requires AllocatedFrom(grown, blocks, GetNewSize(size), size % 0x1_0000_0000, h)
    requires h in LiveSet(blocks) && LiveSet(blocks) == LiveSet(b0) + {h}
    requires forall g :: g in b0 && b0[g].alloc ==> g in blocks && blocks[g] == b0[g]
    requires AllHonest(b0)
    ensures h in blocks && e == After(blocks, h)
    ensures AllHonest(blocks)
    ensures h + 1 < e <= |mem| && mem[h].Info? && e == h + 2 * mem[h].size
    ensures size <= 8 * (e - h - 1) && blocks[h].requested == size
  {
    hide Layout, GetNewSize, Computable, AllocatedFrom;
    LiveCall(mem, nodes, blocks, x, h);
    HeaderSays(mem, blocks, h);
    RetagFacts(mem, blocks, h);
    e := After(blocks, h);
    GetsRoom(grown, blocks, size, h);
    forall g | g in blocks && blocks[g].alloc
      ensures Honest(blocks[g])
    {
      assert g in LiveSet(blocks);
      assert g != h ==> g in LiveSet(b0);
    }
  }

  lemma ViewAdds(m0: seq<Word>, b0: Blocks, view: View, mem: seq<Word>, blocks: Blocks, view': View, h: nat)
    requires Agrees(m0, b0, view)
    requires PayloadsKept(b0, m0, mem)
    requires h !in LiveSet(b0) && LiveSet(blocks) == LiveSet(b0) + {h}
    requires forall g :: g in b0 && b0[g].alloc ==> g in blocks && blocks[g] == b0[g]
    requires h in blocks && h < After(blocks, h) <= |mem|
    requires view' == view[h := Piece(blocks[h].requested, mem[h + 1..After(blocks, h)])]
    ensures Agrees(mem, blocks, view') && h !in view
  {
    forall g | g in view'
      ensures g in blocks && Sees(mem, blocks, view', g)
    {
      if g != h {
        assert g in LiveSet(b0);
        StillSeen(m0, b0, view, mem, blocks, b0, view', g);
      }
    }
  }

  lemma ViewStays(m0: seq<Word>, b0: Blocks, view: View, mem: seq<Word>, blocks: Blocks)
    requires Agrees(m0, b0, view)
    requires PayloadsKept(b0, m0, mem)
    requires LiveSet(blocks) == LiveSet(b0)
    requires forall g :: g in b0 && b0[g].alloc ==> g in blocks && blocks[g] == b0[g]
    ensures Agrees(mem, blocks, view)
    ensures AllHonest(b0) ==> AllHonest(blocks)
  {
    forall g | g in view
      ensures g in blocks && Sees(mem, blocks, view, g)
    {
      assert g in LiveSet(b0);
      StillSeen(m0, b0, view, mem, blocks, b0, view, g);
    }
    forall g | g in blocks && blocks[g].alloc && AllHonest(b0)
      ensures Honest(blocks[g])
    {
      assert g in LiveSet(blocks) && g in LiveSet(b0);
    }
  }

  lemma MovedLive(mem: seq<Word>, nodes: seq<SizeNode>, b0: Blocks, x: Shape, used: nat, middle: seq<Word>,
                  blocks: Blocks,
                  newSize: nat, size: nat, h: nat, g: nat)
    requires if Untouched(mem, nodes) then b0 == map[] && x == NO_SHAPE else HeapInv(mem, nodes, b0, x, {})
    requires 32 <= newSize
    requires MovedFrom(Extended(mem, b0, used), middle, blocks, newSize, size, h, g)
    requires g in b0 && b0[g].alloc
    ensures h !in LiveSet(b0) && LiveSet(blocks) == LiveSet(b0) - {g} + {h}
    ensures forall f :: f in b0 && b0[f].alloc && f != g ==> f in blocks && blocks[f] == b0[f]
    ensures var placed := Placed(Extended(mem, b0, used), h, newSize / 16, size);
            && AllocatedFrom(Extended(mem, b0, used), placed, newSize, size, h)
            && h in placed && h in blocks && blocks[h] == placed[h]
  {
    hide Layout, Extended, Placed, Freed, HeapInv, BestFit;
    BestIs(Extended(mem, b0, used), newSize, h);
    var placed := Placed(Extended(mem, b0, used), h, newSize / 16, size);
    PlacedLive(mem, nodes, b0, x, used, placed, newSize, size, h);
    FreedLive(middle, placed, g);
    assert h in LiveSet(placed);
    forall f | f in b0 && b0[f].alloc && f != g
      ensures f in blocks && blocks[f] == b0[f]
    {
      assert f in LiveSet(b0);
    }
  }

  method DoRealloc(heap: Heap, view: View, h: nat, size: nat, pages: nat) returns (r: Outcome, view': View)
    requires Working(heap, view)
    requires h in view && (view[h].requested < size ==> Computable(size) && SmallHeap(heap.mem, pages))
    modifies heap
    ensures size <= view[h].requested ==> Working(heap, view')
    ensures size == 0 ==> r == Null && view' == view - {h}
    ensures 0 < size <= view[h].requested ==> r == Payload(h) && Cuts(view, view', h, size)
    ensures view[h].requested < size && !Faulty(old(heap.mem), old(heap.nodes), old(heap.blocks), size, pages) ==>
              Working(heap, view') && Replaces(view, view', h, r, size)
    ensures view[h].requested < size ==>
              (r.Undefined? <==> Misreads(old(heap.mem), old(heap.nodes), old(heap.blocks), GetNewSize(size), pages))
    ensures view[h].requested < size && Reinserts(old(heap.mem), old(heap.blocks), GetNewSize(size), pages) ==>
              r == Null && !Sound(heap.mem, heap.nodes)
    // Nothing is copied.
    ensures view[h].requested < size <= INT_MAX - 23 && r.Payload? ==>
              r.header in view' && Uncopied(old(heap.mem), r.header, view'[r.header].words)
    ensures view[h].requested < size && r.Payload? ==>
              ChosenFrom(old(heap.mem), old(heap.blocks), GetNewSize(size), r.header)
  {
    hide HeapInv, Layout, PayloadsKept, Misreads, Reinserts, Honest, AllHonest, Computable, GetNewSize, Sound, Replaces,
      Cuts, Uncopied, ChosenFrom;
    ghost var m0, b0 := heap.mem, heap.blocks;
    assert h in LiveSet(b0) && Sees(m0, b0, view, h);
    if size == 0 {
      view' := ReallocNothing(heap, view, h);
      r := Null;
    } else if size <= view[h].requested {
      view' := ReallocHere(heap, view, h, size);
      r := Payload(h);
    } else {
      r, view' := ReallocThere(heap, view, h, size, pages);
    }
  }

  /** The payload at h is what the words behind h were before. */
  ghost predicate Uncopied(mem: seq<Word>, h: nat, words: seq<Word>) {
    forall i :: 0 <= i < |words| && h + 1 + i < |mem| ==> words[i] == mem[h + 1 + i]
  }

  /** The block at h was free, or it starts where the heap ended and was obtained since. */
  ghost predicate ChosenFrom(mem: seq<Word>, blocks: Blocks, newSize: int, h: nat) {
    || (h in blocks && !blocks[h].alloc && 0 <= newSize && (Fits(blocks, newSize) ==> BestFit(blocks, newSize, h)))
    || (h == |mem| - 1 && 0 <= newSize && !Fits(blocks, newSize) && TailRows(blocks, h) == 0)
  }

  lemma MovedChosen(mem: seq<Word>, blocks: Blocks, used: nat, middle: seq<Word>, blocks': Blocks, size: nat, h: nat,
                    g: nat)
    requires Layout(mem, blocks) && Computable(size)
    requires MovedFrom(Extended(mem, blocks, used), middle, blocks', GetNewSize(size), size % 0x1_0000_0000, h, g)
    requires Fits(blocks, GetNewSize(size)) ==> used == 0
    ensures ChosenFrom(mem, blocks, GetNewSize(size), h)
  {
    hide Layout, Fits, BestFit, Extended, ChosenFrom, GetNewSize, Computable;
    Chosen(mem, blocks, used, GetNewSize(size), h);
  }

  lemma Chosen(mem: seq<Word>, blocks: Blocks, used: nat, newSize: nat, h: nat)
    requires Layout(mem, blocks) && 0 < newSize
    requires BestFit(Extended(mem, blocks, used), newSize, h)
    requires Fits(blocks, newSize) ==> used == 0
    ensures ChosenFrom(mem, blocks, newSize, h)
  {
    hide Layout;
    NotEmpty(mem, blocks);
    TailFacts(mem, blocks);
  }

  /** A larger request is refused, or there is another payload in the place of the one at h. */
  ghost predicate Replaces(view: View, view': View, h: nat, r: Outcome, size: nat) {
    (r == Null && view' == view) || (r.Payload? && r.header !in view && Adds(view - {h}, view', r.header, size))
  }

  method ReallocNothing(heap: Heap, view: View, h: nat) returns (view': View)
    requires Working(heap, view) && h in view
    modifies heap
    ensures Working(heap, view') && view' == view - {h}
  {
    hide HeapInv, Layout, Freed, PayloadsKept, Shrunk, Extended, MovedFrom, Misreads, Reinserts, GetNewSize, Computable,
      Honest;
    ghost var m0, b0 := heap.mem, heap.blocks;
    assert h in LiveSet(b0);
    LiveCall(heap.mem, heap.nodes, heap.blocks, heap.x, h);
    FitsInt(0);
    ghost var used, middle;
    var r;
    r, used, middle := heap.Realloc(h, 0, 0);
    view' := view - {h};
    FreedLive(m0, b0, h);
    assert forall g :: g in LiveSet(heap.blocks) ==> g in LiveSet(b0) && heap.blocks[g] == b0[g];
    forall g | g in view'
      ensures g in heap.blocks && Sees(heap.mem, heap.blocks, view', g)
    {
      assert g in LiveSet(heap.blocks);
      StillSeen(m0, b0, view, heap.mem, heap.blocks, b0 - {h}, view', g);
    }
  }

  method ReallocHere(heap: Heap, view: View, h: nat, size: nat) returns (view': View)
    requires Working(heap, view) && h in view && 0 < size <= view[h].requested
    modifies heap
    ensures Working(heap, view') && Cuts(view, view', h, size)
  {
    hide HeapInv, Layout, PayloadsKept, Misreads, Reinserts, Extended, GetNewSize, MovedFrom, Shrunk, Freed, WordsKept,
      AllHonest, Computable, Honest;
    ghost var m0, b0, x0 := heap.mem, heap.blocks, heap.x;
    assert h in LiveSet(b0) && Sees(m0, b0, view, h);
    LiveCall(heap.mem, heap.nodes, heap.blocks, heap.x, h);
    SmallerRequest(m0, b0, h, size);
    ghost var used, middle;
    var r;
    r, used, middle := heap.Realloc(h, size, 0);
    ResizedHere(m0, b0, heap.mem, heap.nodes, heap.blocks, heap.x, h, size, 0);
    view' := view[h := Piece(size, heap.mem[h + 1..h + 2 * heap.mem[h].size])];
    ViewShrinks(m0, b0, view, heap.mem, heap.blocks, view', h);
  }

  /** A request that is not larger than the one before can be computed with. */
  lemma SmallerRequest(mem: seq<Word>, blocks: Blocks, h: nat, size: nat)
    requires Layout(mem, blocks) && AllHonest(blocks) && SmallHeap(mem, 0)
    requires h in blocks && blocks[h].alloc && size <= blocks[h].requested
    ensures size <= INT_MAX - 23 && Computable(size) && Honest(blocks[h])
  {
    assert TileOk(blocks, FIRST, |mem| - 1, h);
    FitsInt(size);
  }

  method ReallocThere(heap: Heap, view: View, h: nat, size: nat, pages: nat) returns (r: Outcome, view': View)
    requires Working(heap, view) && h in view && view[h].requested < size
    requires Computable(size) && SmallHeap(heap.mem, pages)
    modifies heap
    ensures !Faulty(old(heap.mem), old(heap.nodes), old(heap.blocks), size, pages) ==>
              Working(heap, view') && Replaces(view, view', h, r, size)
    ensures r.Undefined? <==> Misreads(old(heap.mem), old(heap.nodes), old(heap.blocks), GetNewSize(size), pages)
    ensures Reinserts(old(heap.mem), old(heap.blocks), GetNewSize(size), pages) ==>
              r == Null && !Sound(heap.mem, heap.nodes)
    ensures size <= INT_MAX - 23 && r.Payload? ==>
              r.header in view' && Uncopied(old(heap.mem), r.header, view'[r.header].words)
    ensures r.Payload? ==> ChosenFrom(old(heap.mem), old(heap.blocks), GetNewSize(size), r.header)
  {
    hide HeapInv, Layout, PayloadsKept, Misreads, Reinserts, Extended, GetNewSize, Honest, MovedFrom, Shrunk, Freed,
      WordsKept, AllHonest, Placed, Computable, Sound, ChosenFrom, Fits, LeastPages;
    ghost var m0, n0, b0, x0 := heap.mem, heap.nodes, heap.blocks, heap.x;
    assert h in LiveSet(b0) && Sees(m0, b0, view, h);
    LiveCall(heap.mem, heap.nodes, heap.blocks, heap.x, h);
    HonestOne(b0, h);
    OneFault(m0, n0, b0, GetNewSize(size), pages);
    ghost var used, middle;
    r, used, middle := heap.Realloc(h, size, pages);
    view' := view;
    if r.Payload? {
      MovedChosen(m0, b0, used, middle, heap.blocks, size, r.header, h);
    }
    if r.Payload? && size <= INT_MAX - 23 {
      var h' := r.header;
      MovedLive(m0, n0, b0, x0, used, middle, heap.blocks, GetNewSize(size), size % 0x1_0000_0000, h', h);
      assert h' in LiveSet(heap.blocks);
      ResizedThere(heap.mem, heap.nodes, heap.blocks, heap.x, b0, Extended(m0, b0, used), size, h', h);
      view' := (view - {h})[h' := Piece(size, heap.mem[h' + 1..h' + 2 * heap.mem[h'].size])];
      ViewMoves(m0, b0, view, heap.mem, heap.blocks, view', h', h);
    } else if !Faulty(m0, n0, b0, size, pages) {
      ExtendedLive(m0, n0, b0, x0, used);
      ViewStays(m0, b0, view, heap.mem, heap.blocks);
    }
  }

  lemma HonestOne(blocks: Blocks, h: nat)
    requires AllHonest(blocks) && h in LiveSet(blocks)
    ensures Honest(blocks[h])
  {
  }

  lemma ResizedHere(m0: seq<Word>, b0: Blocks, mem: seq<Word>, nodes: seq<SizeNode>, blocks: Blocks, x: Shape, h: nat,
                    size: nat, pages: nat)
    requires Layout(m0, b0) && AllHonest(b0) && SmallHeap(m0, pages)
    requires h in b0 && b0[h].alloc && 0 < size <= b0[h].requested && Computable(size)
    requires if Untouched(mem, nodes) then blocks == map[] && x == NO_SHAPE else HeapInv(mem, nodes, blocks, x, {})
    requires blocks == if size == b0[h].requested then b0 else Shrunk(b0, h, GetNewSize(size) / 16, size)
    ensures LiveSet(blocks) == LiveSet(b0) && AllHonest(blocks)
    ensures forall g :: g in b0 && b0[g].alloc && g != h ==> g in blocks && blocks[g] == b0[g]
    ensures h in blocks && After(blocks, h) <= After(b0, h)
    ensures h + 1 < After(blocks, h) <= |mem| && mem[h].Info? && After(blocks, h) == h + 2 * mem[h].size
    ensures size <= 8 * (After(blocks, h) - h - 1) && blocks[h].requested == size
  {
    hide Layout, GetNewSize, Computable, Shrunk;
    if size < b0[h].requested {
      SmallerSize(m0, b0, h, size, pages);
      ShrunkLive(m0, b0, h, GetNewSize(size) / 16, size);
      RoomEnough(m0, b0, h, size, pages);
      forall g | g in blocks && blocks[g].alloc
        ensures Honest(blocks[g])
      {
        assert g in LiveSet(blocks) && g in LiveSet(b0);
      }
    }
    assert h in LiveSet(blocks);
    LiveCall(mem, nodes, blocks, x, h);
    HeaderSays(mem, blocks, h);
    RetagFacts(mem, blocks, h);
    assert Honest(blocks[h]);
  }

  lemma RoomEnough(mem: seq<Word>, blocks: Blocks, h: nat, size: nat, pages: nat)
    requires Layout(mem, blocks)
    requires h in blocks && Honest(blocks[h]) && size < blocks[h].requested
    requires Computable(size) && SmallHeap(mem, pages)
    ensures size + 8 <= GetNewSize(size)
  {
    hide GetNewSize, Computable;
    assert TileOk(blocks, FIRST, |mem| - 1, h);
    NewSizeFits(size);
  }

  lemma ResizedThere(mem: seq<Word>, nodes: seq<SizeNode>, blocks: Blocks, x: Shape, b0: Blocks, grown: Blocks,
                     size: nat, h: nat, g: nat)
    requires if Untouched(mem, nodes) then blocks == map[] && x == NO_SHAPE else HeapInv(mem, nodes, blocks, x, {})
    requires Computable(size) && size <= INT_MAX - 23 && SmallHeap(mem, 0)
    requires h in grown
    requires var placed := Placed(grown, h, GetNewSize(size) / 16, size % 0x1_0000_0000);
             && AllocatedFrom(grown, placed, GetNewSize(size), size % 0x1_0000_0000, h)
             && h in placed && h in blocks && blocks[h] == placed[h]
    requires h in LiveSet(blocks) && LiveSet(blocks) == LiveSet(b0) - {g} + {h}
    requires forall f :: f in b0 && b0[f].alloc && f != g ==> f in blocks && blocks[f] == b0[f]
    requires AllHonest(b0)
    ensures AllHonest(blocks)
    ensures h + 1 < After(blocks, h) <= |mem| && mem[h].Info? && After(blocks, h) == h + 2 * mem[h].size
    ensures size <= 8 * (After(blocks, h) - h - 1) && blocks[h].requested == size
  {
    hide Layout, GetNewSize, Computable, AllocatedFrom, Placed;
    LiveCall(mem, nodes, blocks, x, h);
    HeaderSays(mem, blocks, h);
    RetagFacts(mem, blocks, h);
    GetsRoom(grown, Placed(grown, h, GetNewSize(size) / 16, size % 0x1_0000_0000), size, h);
    forall f | f in blocks && blocks[f].alloc
      ensures Honest(blocks[f])
    {
      assert f in LiveSet(blocks);
      assert f != h ==> f in LiveSet(b0);
    }
  }

  lemma ViewShrinks(m0: seq<Word>, b0: Blocks, view: View, mem: seq<Word>, blocks: Blocks, view': View, h: nat)
    requires Agrees(m0, b0, view)
    requires PayloadsKept(b0 - {h}, m0, mem)
    requires h in view && LiveSet(blocks) == LiveSet(b0)
    requires forall g :: g in b0 && b0[g].alloc && g != h ==> g in blocks && blocks[g] == b0[g]
    requires h in b0 && h in blocks && h < After(blocks, h) <= After(b0, h) && After(blocks, h) <= |mem|
    requires WordsKept(m0, mem, h, After(blocks, h))
    requires view' == view[h := Piece(blocks[h].requested, mem[h + 1..After(blocks, h)])]
    ensures Agrees(mem, blocks, view') && view'[h].words <= view[h].words
  {
    assert Sees(m0, b0, view, h);
    forall g | g in view'
      ensures g in blocks && Sees(mem, blocks, view', g)
    {
      if g != h {
        assert g in LiveSet(b0);
        StillSeen(m0, b0, view, mem, blocks, b0 - {h}, view', g);
      }
    }
  }

  lemma ViewMoves(m0: seq<Word>, b0: Blocks, view: View, mem: seq<Word>, blocks: Blocks, view': View, h: nat, g: nat)
    requires Agrees(m0, b0, view)
    requires PayloadsKept(b0 - {g}, m0, mem)
    requires g in view && h !in LiveSet(b0) && LiveSet(blocks) == LiveSet(b0) - {g} + {h}
    requires forall f :: f in b0 && b0[f].alloc && f != g ==> f in blocks && blocks[f] == b0[f]
    requires h in blocks && h < After(blocks, h) <= |mem|
    requires view' == (view - {g})[h := Piece(blocks[h].requested, mem[h + 1..After(blocks, h)])]
    ensures Agrees(mem, blocks, view') && h !in view
  {
    forall f | f in view'
      ensures f in blocks && Sees(mem, blocks, view', f)
    {
      if f != h {
        assert f in LiveSet(b0);
        StillSeen(m0, b0, view, mem, blocks, b0 - {g}, view', f);
      }
    }
  }

  datatype Op =
    | Alloc(size: nat, pages: nat)
    | Resize(h: nat, size: nat, pages: nat)
    | Dispose(h: nat)
    | Write(h: nat, i: nat, w: Word)

  /** The operation names memory that the program has, and the sizes of new blocks are such
      that no addition overflows and the heap stays below 2^31 bytes. */
  predicate Callable(mem: seq<Word>, view: View, op: Op) {
    match op
    case Alloc(size, pages) => Computable(size) && SmallHeap(mem, pages)
    case Resize(h, size, pages) => h in view && (view[h].requested < size ==> Computable(size) && SmallHeap(mem, pages))
    case Dispose(h) => h in view
    case Write(h, i, w) => h in view && i < |view[h].words|
  }

  /** The operation is a request for a new block that the code mishandles. */
  ghost predicate Faults(mem: seq<Word>, nodes: seq<SizeNode>, blocks: Blocks, view: View, op: Op) {
    match op
    case Alloc(size, pages) => Faulty(mem, nodes, blocks, size, pages)
    case Resize(h, size, pages) => h in view && view[h].requested < size && Faulty(mem, nodes, blocks, size, pages)
    case Dispose(h) => false
    case Write(h, i, w) => false
  }

  /** What an operation does to the program's picture of its memory.  Only a request for a new
      block can be refused. */
  ghost predicate Explains(view: View, op: Op, view': View) {
    match op
    case Alloc(size, pages) => view' == view || (0 < size && exists h :: Adds(view, view', h, size))
    case Resize(h, size, pages) =>
      h in view &&
      if size == 0 then view' == view - {h}
      else if size <= view[h].requested then Cuts(view, view', h, size)
      else view' == view || exists h' :: Adds(view - {h}, view', h', size) && h' !in view
    case Dispose(h) => view' == view - {h}
    case Write(h, i, w) =>
      h in view && i < |view[h].words| && view' == view[h := Piece(view[h].requested, view[h].words[i := w])]
  }

  /** There is one more payload, with room for what was requested. */
  ghost predicate Adds(view: View, view': View, h: nat, size: nat) {
    h !in view && h in view' && view' == view[h := Piece(size, view'[h].words)] && size <= 8 * |view'[h].words|
  }

  /** The payload at h is a prefix of what it was, with room for what is requested now. */
  ghost predicate Cuts(view: View, view': View, h: nat, size: nat) {
    && h in view && h in view' && view' == view[h := Piece(size, view'[h].words)]
    && view'[h].words <= view[h].words && size <= 8 * |view'[h].words|
  }

  /** One operation of a run.  The program sees only what its own operations explain: no
      other payload changes. */
  method Step(heap: Heap, view: View, op: Op) returns (r: Outcome, view': View)
    requires Working(heap, view)
    requires Callable(heap.mem, view, op)
    modifies heap
    ensures !Faults(old(heap.mem), old(heap.nodes), old(heap.blocks), view, op) ==>
              Working(heap, view') && Explains(view, op, view')
    ensures Faults(old(heap.mem), old(heap.nodes), old(heap.blocks), view, op) && op.size <= INT_MAX - 23 ==>
              r.Undefined? || (r == Null && !Sound(heap.mem, heap.nodes))
  {
    hide HeapInv, Misreads, Reinserts, GetNewSize, AllHonest, Agrees, Cuts, Adds, Computable, Sound;
    r := Null;
    match op {
      case Alloc(size, pages) =>
        r, view' := DoMalloc(heap, view, size, pages);
        assert r.Payload? && Adds(view, view', r.header, size) ==> exists h :: Adds(view, view', h, size);
      case Resize(h, size, pages) =>
        r, view' := DoRealloc(heap, view, h, size, pages);
        assert r.Payload? && Adds(view - {h}, view', r.header, size) && r.header !in view ==>
            exists h' :: Adds(view - {h}, view', h', size) && h' !in view;
      case Dispose(h) =>
        view' := DoFree(heap, view, h);
      case Write(h, i, w) =>
        view' := DoStore(heap, view, h, i, w);
    }
  }

  /** Whether an operation is mishandled can be told before the call. */
  method Foretells(heap: Heap, view: View, op: Op) returns (bad: bool)
    requires heap.Valid() && Callable(heap.mem, view, op)
    ensures bad <==> Faults(heap.mem, heap.nodes, heap.blocks, view, op)
  {
    hide HeapInv, Faulty, Computable;
    bad := false;
    match op {
      case Alloc(size, pages) =>
        bad := ForetellsSize(heap, size, pages);
      case Resize(h, size, pages) =>
        if view[h].requested < size {
          bad := ForetellsSize(heap, size, pages);
        }
      case Dispose(h) =>
      case Write(h, i, w) =>
    }
  }

  method ForetellsSize(heap: Heap, size: nat, pages: nat) returns (bad: bool)
    requires heap.Valid() && Computable(size)
    ensures bad <==> Faulty(heap.mem, heap.nodes, heap.blocks, size, pages)
  {
    hide HeapInv, Misreads, Reinserts, GetNewSize, Computable;
    if size == 0 || INT_MAX - 23 < size {
      return 0 < size;
    }
    FitsInt(size);
    bad := heap.Foresees(GetNewSize(size), pages);
  }

  lemma FitsInt(size: nat)
    requires size <= INT_MAX - 23
    ensures Computable(size) && 0 < GetNewSize(size)
  {
    NewSizeFits(size);
  }

  /** How a run ends: all operations are done, or the next one is not callable, or it was
      carried out and mishandled. */
  datatype Ending = Finished | Misused | Broken(r: Outcome)

  /** Every run, from the first call on, until an operation that is mishandled: after each
      operation the heap is as it should be, all live pointers are accepted, and every live
      payload holds what the program last put there. */
  method Run(heap: Heap, ops: seq<Op>) returns (views: seq<View>, ending: Ending,
             ghost last: (seq<Word>, seq<SizeNode>, Blocks))
    requires heap.Valid() && Untouched(heap.mem, heap.nodes)
    modifies heap
    ensures 1 <= |views| <= |ops| + 1 && views[0] == map[]
    ensures forall i :: 0 <= i < |views| - 1 ==> Explains(views[i], ops[i], views[i + 1])
    ensures ending == Finished <==> |views| == |ops| + 1
    ensures !ending.Broken? ==> Working(heap, views[|views| - 1])
    ensures ending == Misused ==> !Callable(heap.mem, views[|views| - 1], ops[|views| - 1])
    // last is the heap before the operation that broke it.
    ensures ending.Broken? ==>
              var view, op := views[|views| - 1], ops[|views| - 1];
              && Agrees(last.0, last.2, view) && Callable(last.0, view, op) && Faults(last.0, last.1, last.2, view, op)
              && (op.size <= INT_MAX - 23 ==> ending.r.Undefined? || (ending.r == Null && !Sound(heap.mem, heap.nodes)))
  {
    hide HeapInv, Callable, Explains, Faults, Sound;
    views := [map[]];
    last := (heap.mem, heap.nodes, heap.blocks);
    var i := 0;
    while i < |ops|
      invariant 0 <= i <= |ops| && |views| == i + 1 && views[0] == map[]
      invariant forall j :: 0 <= j < i ==> Explains(views[j], ops[j], views[j + 1])
      invariant Working(heap, views[i])
    {
      if !Callable(heap.mem, views[i], ops[i]) {
        return views, Misused, last;
      }
      last := (heap.mem, heap.nodes, heap.blocks);
      var bad := Foretells(heap, views[i], ops[i]);
      var r, view := Step(heap, views[i], ops[i]);
      if bad {
        SizeOf(last.0, last.1, last.2, views[i], ops[i]);
        return views, Broken(r), last;
      }
      views := views + [view];
      i := i + 1;
    }
    return views, Finished, last;
  }

  lemma SizeOf(mem: seq<Word>, nodes: seq<SizeNode>, blocks: Blocks, view: View, op: Op)
    requires Faults(mem, nodes, blocks, view, op)
    ensures op.Alloc? || op.Resize?
  {
  }
}
