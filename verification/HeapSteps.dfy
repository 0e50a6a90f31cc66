/** What the steps of the allocator do to the heap as a whole: the invariant, the effect of
    each operation on the blocks, and the lemmas that carry the invariant across. */
module HeapSteps {
  import opened Integers
  import opened HeapTiling
  import opened FreeRings
  import opened FreeIndex
  import opened BoundaryTags

  const HEAD: SizeNode := SizeNode(0, 0, 0, Sentinel(0), Sentinel(0))
  const NO_SHAPE: Shape := Shape(map[], map[], map[], [[]], [0])

  /** The heap is laid out correctly, and the index holds exactly its free blocks except
      those in out, which the operation in progress has taken from the index. */
  ghost predicate HeapInv(mem: seq<Word>, nodes: seq<SizeNode>, blocks: Blocks, x: Shape, out: set<nat>) {
    && Layout(mem, blocks)
    && IndexInv(mem, nodes, x)
    && KeysFree(blocks, x.next)
    && x.idx == FreeMap(blocks) - out
  }

  /** No page has been obtained yet. */
  predicate Untouched(mem: seq<Word>, nodes: seq<SizeNode>) {
    mem == [] && nodes == [HEAD]
  }

  /** Some reading of the words is a correct heap, with every free block in the index. */
  ghost predicate Sound(mem: seq<Word>, nodes: seq<SizeNode>) {
    Untouched(mem, nodes) || exists blocks, x :: HeapInv(mem, nodes, blocks, x, {})
  }

  /** What `mem_grow` relies on once it has hold of the block at h. */
  lemma ExtendFacts(m0: seq<Word>, m1: seq<Word>, mem: seq<Word>, blocks: Blocks, next0: map<Ptr, Ptr>,
                    next: map<Ptr, Ptr>, h: nat)
    requires Layout(m0, blocks) && KeysFree(blocks, next0)
    requires |m1| == |m0| + PAGE && m0 <= m1 && |mem| == |m1|
    requires next.Keys == next0.Keys
    requires h == TailStart(blocks, |m0| - 1)
    requires forall i :: 0 <= i < |mem| && !IsLinkWord(next, i) ==> mem[i] == m1[i]
    requires forall i :: |m0| <= i < |m1| ==> m1[i].Data?
    ensures FIRST <= h < |m0| && h % 2 == 1
    ensures mem[h].Info? && mem[h] == m0[h]
    ensures mem[h].size == TailRows(blocks, |m0| - 1) && h + 2 * mem[h].size == |m0| - 1
    ensures h == |m0| - 1 ==> mem[h].prevAlloc && At(h) !in next
    ensures h != |m0| - 1 ==> h in blocks && !blocks[h].alloc && After(blocks, h) == |m0| - 1
    ensures h == |m0| - 1 <==> TailRows(blocks, |m0| - 1) == 0
    ensures !IsLinkWord(next, h)
    ensures forall i :: |m0| - 1 <= i < |mem| ==> !IsLinkWord(next, i)
    ensures forall i :: |m0| <= i < |mem| ==> mem[i].Data?
    ensures forall i :: 0 <= i < |m0| && !IsLinkWord(next0, i) ==> mem[i] == m0[i]
  {
    var end := |m0| - 1;
    TailFacts(m0, blocks);
    InRange(blocks, FIRST, end);
    assert forall p :: p in next <==> p in next0;
    forall g: nat | At(g) in next0
      ensures g + 4 <= end
    {
      assert TileOk(blocks, FIRST, end, g);
    }
    if h in blocks {
      assert Tagged(m0, blocks, h) && TileOk(blocks, FIRST, end, h);
      NotLinkWords(blocks, FIRST, end, next0, h);
    } else {
      var p := Predecessor(blocks, FIRST, end, end);
      assert TileOk(blocks, FIRST, end, p);
    }
  }

  lemma ExtendPayloads(m0: seq<Word>, mem: seq<Word>, blocks: Blocks, next: map<Ptr, Ptr>, a: nat)
    requires Layout(m0, blocks) && KeysFree(blocks, next)
    requires a == TailStart(blocks, |m0| - 1)
    requires |m0| <= |mem|
    requires forall i :: 0 <= i < |m0| && i < a && !IsLinkWord(next, i) ==> mem[i] == m0[i]
    ensures PayloadsKept(blocks, m0, mem)
  {
    var end := |m0| - 1;
    TailFacts(m0, blocks);
    forall h | h in blocks && blocks[h].alloc
      ensures WordsKept(m0, mem, h, After(blocks, h))
    {
      assert TileOk(blocks, FIRST, end, h);
      NotLinkWords(blocks, FIRST, end, next, h);
    }
  }

  lemma ExtendIndex(blocks: Blocks, h: nat, rows: nat, next0: map<Ptr, Ptr>, next: map<Ptr, Ptr>)
    requires KeysFree(blocks, next0) && next.Keys == next0.Keys
    ensures KeysFree(blocks[h := Block(rows, false, 0)], next)
    ensures FreeMap(blocks[h := Block(rows, false, 0)]) - {h} == FreeMap(blocks) - {h}
  {
    KeysSame(blocks, next0, next);
  }

  lemma ExtendGrip(m: seq<Word>, mem: seq<Word>, nodes: seq<SizeNode>, blocks: Blocks, x: Shape, h: nat, e: nat)
    requires FreeTail(blocks, |mem| - 1, h)
    requires |m| == |mem| && h + 4 < |mem| && mem[h + 1] == m[h + 1]
    requires if h != e then |nodes| == 1 || Bypassed(x, h) else !m[h + 1].Link? && At(h) !in x.next
    ensures Grip(mem, nodes, blocks, x, {h}, h != e)
  {
    assert FreeTail(blocks, |mem| - 1, h) && Gripped(mem, nodes, x, h, h != e);
  }

  lemma RefuseFacts(mem: seq<Word>, nodes: seq<SizeNode>, blocks: Blocks, x: Shape, out: set<nat>, h: nat)
    requires HeapInv(mem, nodes, blocks, x, out)
    requires FreeTail(blocks, |mem| - 1, h)
    requires out == {} || out == {h}
    ensures h + 4 < |mem| && mem[h].Info? && mem[h].size == blocks[h].size && 2 <= mem[h].size
    ensures h in x.idx <==> out == {}
    ensures h in x.idx ==>
              x.idx[h] == blocks[h].size && exists j :: 1 <= j < |nodes| && nodes[j].size == 16 * mem[h].size
    ensures Roomy(x, h)
    ensures 0 < TailRows(blocks, |mem| - 1)
    ensures (FreeMap(blocks) - {h})[h := blocks[h].size] == FreeMap(blocks) - {}
  {
    var end := |mem| - 1;
    assert Tagged(mem, blocks, h) && TileOk(blocks, FIRST, end, h);
    forall g: nat | At(g) in x.next && g != h
      ensures g + 4 <= h || h + 4 <= g
    {
      assert TileOk(blocks, FIRST, end, g);
    }
    if out == {} {
      var k, i := Where(nodes, x, h);
      assert nodes[k].size == 16 * mem[h].size;
    }
    TailFacts(mem, blocks);
  }

  /** Giving h link words, beside those that there are, leaves the heap laid out as it is. */
  lemma LinksRoom(mem: seq<Word>, mem': seq<Word>, blocks: Blocks, next: map<Ptr, Ptr>, next': map<Ptr, Ptr>, h: nat)
    requires Layout(mem, blocks) && KeysFree(blocks, next)
    requires h in blocks && !blocks[h].alloc
    requires forall g: nat :: At(g) in next' ==> g == h || At(g) in next
    requires LinkFrame(next', mem, mem')
    ensures Layout(mem', blocks) && KeysFree(blocks, next') && PayloadsKept(blocks, mem, mem') && |mem'| == |mem|
  {
    LinksOnly(mem, mem', blocks, next', h);
  }

  /** The first page: prologue, one free block, epilogue. */
  lemma InitLayout(mem: seq<Word>)
    requires |mem| == PAGE && Prologue(mem)
    requires mem[FIRST] == mem[PAGE - 2] == Info(false, true, 253, 0)
    requires var w := mem[PAGE - 1]; w.Info? && w.alloc && !w.prevAlloc && w.size == 0
    ensures HeapInv(mem, [HEAD], map[FIRST := Block(253, false, 0)], NO_SHAPE, {FIRST})
    ensures Grip(mem, [HEAD], map[FIRST := Block(253, false, 0)], NO_SHAPE, {FIRST}, true)
  {
    var blocks := map[FIRST := Block(253, false, 0)];
    OneTile(FIRST, blocks[FIRST]);
    assert Tagged(mem, blocks, FIRST);
    assert NodeAt([HEAD], NO_SHAPE.order, 0);
    assert FreeTail(blocks, |mem| - 1, FIRST);
    assert Gripped(mem, [HEAD], NO_SHAPE, FIRST, true);
  }

  /** The block grown so far is the end of the heap, and one more page makes it as long as
      the plan says. */
  lemma ExtendedNext(m0: seq<Word>, b0: Blocks, mem: seq<Word>, blocks: Blocks, j: nat)
    requires m0 != [] ==> Layout(m0, b0)
    requires Layout(mem, blocks)
    requires 0 < j || m0 != []
    requires blocks == Extended(m0, b0, j) && |mem| == |m0| + 512 * j
    ensures var t := TailStart(blocks, |mem| - 1);
            && t == (if m0 == [] then FIRST else TailStart(b0, |m0| - 1))
            && TailRows(blocks, |mem| - 1) == RowsAfter(m0 == [], Base(m0, b0), j)
            && blocks[t := Block(TailRows(blocks, |mem| - 1) + 256, false, 0)] == Extended(m0, b0, j + 1)
  {
    hide Layout;
    TailFacts(mem, blocks);
    if m0 != [] {
      TailFacts(m0, b0);
    }
    if 0 < j {
      var t := if m0 == [] then FIRST else TailStart(b0, |m0| - 1);
      if m0 != [] && t != |m0| - 1 {
        assert FreeTail(b0, |m0| - 1, t);
      }
      assert FreeTail(blocks, |mem| - 1, t);
    }
  }

  /** What the growth loop of `sf_malloc` has reached after used pages: the block at the end
      of the heap is as long as they make it, and the page before was not enough. */
  ghost predicate Growing(m0: seq<Word>, n0: seq<SizeNode>, b0: Blocks, mem: seq<Word>, nodes: seq<SizeNode>,
                          blocks: Blocks,
                          newSize: nat, used: nat, h: nat, rows: nat, linked: bool) {
    && !Fits(b0, newSize) && |nodes| == |n0| && 0 < newSize
    && |mem| == |m0| + 512 * used && blocks == Extended(m0, b0, used)
    && PayloadsKept(b0, m0, mem)
    && (used == 0 ==> m0 != [] && rows == 0 && mem == m0 && nodes == n0)
    && (0 < used ==>
          && h == (if m0 == [] then FIRST else TailStart(b0, |m0| - 1))
          && rows == RowsAfter(m0 == [], Base(m0, b0), used)
          && 16 * RowsAfter(m0 == [], Base(m0, b0), used - 1) < newSize
          && (linked <==> m0 == [] || 0 < Base(m0, b0) || 2 <= used)
          && (2 <= used ==> m0 == [] || 0 < Base(m0, b0) || |n0| == 1)
          && (m0 == [] ==> |n0| == 1))
  }

  lemma PayloadsChain(b0: Blocks, b1: Blocks, m0: seq<Word>, m1: seq<Word>, m2: seq<Word>)
    requires PayloadsKept(b0, m0, m1) && PayloadsKept(b1, m1, m2)
    requires forall g :: g in b0 && b0[g].alloc ==> g in b1 && b1[g] == b0[g]
    ensures PayloadsKept(b0, m0, m2)
  {
    forall g | g in b0 && b0[g].alloc
      ensures WordsKept(m0, m2, g, After(b0, g))
    {
      assert WordsKept(m0, m1, g, After(b0, g));
      assert WordsKept(m1, m2, g, After(b1, g));
    }
  }

  lemma HeaderSays(mem: seq<Word>, blocks: Blocks, h: nat)
    requires Layout(mem, blocks)
    requires h in blocks
    ensures h < |mem| && mem[h].Info? && mem[h].size == blocks[h].size && mem[h].alloc == blocks[h].alloc
    ensures mem[h].requested == blocks[h].requested
  {
    assert Tagged(mem, blocks, h);
  }

  lemma TailTooSmall(mem: seq<Word>, blocks: Blocks, newSize: nat)
    requires Layout(mem, blocks)
    requires !Fits(blocks, newSize) && 0 < newSize
    ensures 16 * TailRows(blocks, |mem| - 1) < newSize
  {
  }

  lemma FirstCall(mem: seq<Word>, nodes: seq<SizeNode>, blocks: Blocks, x: Shape, newSize: nat)
    requires mem == []
    requires if Untouched(mem, nodes) then blocks == map[] && x == NO_SHAPE else HeapInv(mem, nodes, blocks, x, {})
    ensures Untouched(mem, nodes) && blocks == map[] && x == NO_SHAPE
    ensures !Fits(blocks, newSize) && PayloadsKept(blocks, mem, mem)
  {
  }

  lemma LaterCall(mem: seq<Word>, nodes: seq<SizeNode>, blocks: Blocks, x: Shape)
    requires mem != []
    requires if Untouched(mem, nodes) then blocks == map[] && x == NO_SHAPE else HeapInv(mem, nodes, blocks, x, {})
    ensures HeapInv(mem, nodes, blocks, x, {}) && Layout(mem, blocks) && Grip(mem, nodes, blocks, x, {}, false)
    ensures PayloadsKept(blocks, mem, mem)
  {
    forall h | h in blocks
      ensures WordsKept(mem, mem, h, After(blocks, h))
    {
      assert TileOk(blocks, FIRST, |mem| - 1, h);
    }
  }

  lemma BestIs(blocks: Blocks, newSize: nat, h: nat)
    requires BestFit(blocks, newSize, h)
    ensures h in blocks && !blocks[h].alloc && newSize <= 16 * blocks[h].size
  {
  }

  lemma MallocPayloads(m0: seq<Word>, n0: seq<SizeNode>, b0: Blocks, x0: Shape, used: nat, m1: seq<Word>, b1: Blocks,
                       mem: seq<Word>)
    requires if Untouched(m0, n0) then b0 == map[] && x0 == NO_SHAPE else HeapInv(m0, n0, b0, x0, {})
    requires b1 == Extended(m0, b0, used)
    requires PayloadsKept(b0, m0, m1) && PayloadsKept(b1, m1, mem)
    ensures PayloadsKept(b0, m0, mem)
  {
    hide PayloadsKept;
    ExtendedKeeps(m0, b0, used);
    PayloadsChain(b0, b1, m0, m1, mem);
  }

  lemma NotEmpty(mem: seq<Word>, blocks: Blocks)
    requires Layout(mem, blocks)
    ensures mem != []
  {
  }

  lemma NoPayloads(m0: seq<Word>, mem: seq<Word>, newSize: nat)
    ensures PayloadsKept(map[], m0, mem)
    ensures !Fits(map[], newSize)
  {
  }

  lemma ExtendedKeeps(m0: seq<Word>, b0: Blocks, j: nat)
    requires m0 != [] ==> Layout(m0, b0)
    requires m0 == [] ==> b0 == map[]
    ensures forall g :: g in b0 && b0[g].alloc ==> g in Extended(m0, b0, j) && Extended(m0, b0, j)[g] == b0[g]
  {
    hide Layout;
    if m0 != [] {
      TailFacts(m0, b0);
    }
  }

  lemma GrownFit(m0: seq<Word>, b0: Blocks, blocks: Blocks, newSize: nat, used: nat, h: nat, rows: nat)
    requires m0 != [] ==> Layout(m0, b0)
    requires m0 == [] ==> b0 == map[]
    requires !Fits(b0, newSize) && 0 < used && blocks == Extended(m0, b0, used)
    requires h == (if m0 == [] then FIRST else TailStart(b0, |m0| - 1))
    requires rows == RowsAfter(m0 == [], Base(m0, b0), used)
    ensures h in blocks && blocks[h] == Block(rows, false, 0)
    ensures newSize <= 16 * rows ==> BestFit(blocks, newSize, h)
  {
  }

  lemma InvParts(mem: seq<Word>, nodes: seq<SizeNode>, blocks: Blocks, x: Shape, out: set<nat>)
    requires HeapInv(mem, nodes, blocks, x, out)
    ensures Layout(mem, blocks)
  {
  }

  /** One more page takes the loop one step on. */
  lemma GrowStep(m0: seq<Word>, n0: seq<SizeNode>, b0: Blocks, m1: seq<Word>, n1: seq<SizeNode>, b1: Blocks,
                 mem: seq<Word>, nodes: seq<SizeNode>, blocks: Blocks,
                 newSize: nat, used: nat, rows: nat, linked: bool, h: nat, linked': bool)
    requires m0 != [] ==> Layout(m0, b0)
    requires m0 == [] ==> b0 == map[]
    requires Layout(m1, b1) && Layout(mem, blocks)
    requires exists h1 :: Growing(m0, n0, b0, m1, n1, b1, newSize, used, h1, rows, linked)
    requires used == 0 || linked || |n1| == 1
    requires 16 * rows < newSize
    requires |mem| == |m1| + 512 && |nodes| == |n1| && PayloadsKept(b1, m1, mem)
    requires h == TailStart(b1, |m1| - 1)
    requires blocks == b1[h := Block(TailRows(b1, |m1| - 1) + 256, false, 0)]
    requires linked' <==> 0 < TailRows(b1, |m1| - 1)
    ensures h < |mem| && mem[h].Info?
    ensures Growing(m0, n0, b0, mem, nodes, blocks, newSize, used + 1, h, mem[h].size, linked')
  {
    hide Layout, PayloadsKept, TailStart, TailRows, Fits, Extended;
    ExtendedNext(m0, b0, m1, b1, used);
    ExtendedKeeps(m0, b0, used);
    PayloadsChain(b0, b1, m0, m1, mem);
    GrownFit(m0, b0, blocks, newSize, used + 1, h, RowsAfter(m0 == [], Base(m0, b0), used + 1));
    HeaderSays(mem, blocks, h);
    if used == 0 {
      TailTooSmall(m0, b0, newSize);
    }
  }

  lemma GrowRefused(m0: seq<Word>, n0: seq<SizeNode>, b0: Blocks, m1: seq<Word>, n1: seq<SizeNode>, b1: Blocks,
                    mem: seq<Word>,
                    newSize: nat, used: nat, h: nat, rows: nat, linked: bool)
    requires m0 != [] ==> Layout(m0, b0)
    requires m0 == [] ==> b0 == map[]
    requires Layout(m1, b1)
    requires Growing(m0, n0, b0, m1, n1, b1, newSize, used, h, rows, linked)
    requires 16 * rows < newSize
    ensures Strays(m1) <==> Misreads(m0, n0, b0, newSize, used)
    ensures Reinserts(m0, b0, newSize, used) <==> used == 0 && !Strays(m1)
    ensures 16 * RowsAfter(m0 == [], Base(m0, b0), used) < newSize
    ensures |m1| == |m0| + 512 * used && b1 == Extended(m0, b0, used)
    ensures PayloadsKept(b1, m1, mem) ==> PayloadsKept(b0, m0, mem)
  {
    hide Layout, PayloadsKept, TailStart, TailRows, Fits, Extended;
    ExtendedNext(m0, b0, m1, b1, used);
    ExtendedKeeps(m0, b0, used);
    if PayloadsKept(b1, m1, mem) {
      PayloadsChain(b0, b1, m0, m1, mem);
    }
    if used == 0 {
      ExtendedZero(m0, b0);
      TailTooSmall(m0, b0, newSize);
    } else {
      GrownFit(m0, b0, b1, newSize, used, h, rows);
      GrownTail(m0, b0, m1, b1, used, h, rows);
      TailLeads(m1, b1, h);
    }
  }

  lemma GrownTail(m0: seq<Word>, b0: Blocks, m1: seq<Word>, b1: Blocks, used: nat, h: nat, rows: nat)
    requires m0 != [] ==> Layout(m0, b0)
    requires 0 < used && b1 == Extended(m0, b0, used) && |m1| == |m0| + 512 * used
    requires h == (if m0 == [] then FIRST else TailStart(b0, |m0| - 1)) && h in b1 && b1[h] == Block(rows, false, 0)
    requires rows == RowsAfter(m0 == [], Base(m0, b0), used)
    ensures FreeTail(b1, |m1| - 1, h)
  {
    hide Layout;
    if m0 != [] {
      TailFacts(m0, b0);
    }
  }

  lemma ExtendedZero(mem: seq<Word>, blocks: Blocks)
    ensures Extended(mem, blocks, 0) == blocks
  {
  }

  lemma GrowAstray(m0: seq<Word>, n0: seq<SizeNode>, b0: Blocks, m1: seq<Word>, n1: seq<SizeNode>, b1: Blocks,
                   newSize: nat, used: nat, rows: nat, linked: bool, left: nat)
    requires exists h1 :: Growing(m0, n0, b0, m1, n1, b1, newSize, used, h1, rows, linked)
    requires used != 0 && !linked && 1 < |n1| && 0 < left
    requires 16 * rows < newSize
    ensures Misreads(m0, n0, b0, newSize, used + left)
  {
    hide Layout, PayloadsKept, TailStart, TailRows, Fits, Extended;
  }

  lemma GrowGot(m0: seq<Word>, n0: seq<SizeNode>, b0: Blocks, mem: seq<Word>, nodes: seq<SizeNode>, blocks: Blocks,
                newSize: nat, used: nat, h: nat, rows: nat, linked: bool, left: nat)
    requires m0 != [] ==> Layout(m0, b0)
    requires m0 == [] ==> b0 == map[]
    requires Growing(m0, n0, b0, mem, nodes, blocks, newSize, used, h, rows, linked)
    requires newSize <= 16 * rows
    ensures 0 < used && BestFit(blocks, newSize, h) && LeastPages(m0, b0, newSize, used)
    ensures !Misreads(m0, n0, b0, newSize, used + left)
    ensures |mem| == |m0| + 512 * used && blocks == Extended(m0, b0, used) && PayloadsKept(b0, m0, mem)
  {
    hide Layout, PayloadsKept, TailStart, TailRows, Fits, Extended, BestFit;
    GrownFit(m0, b0, blocks, newSize, used, h, rows);
  }

  // ----- requests and growth

  const INT_MAX: int := 0x7fff_ffff

  /** `getNewSize`: the block size for a request, computed in an int. */
  function GetNewSize(size: nat): (newSize: int)
    ensures Computable(size) ==> 32 <= newSize <= INT_MAX && newSize % 16 == 0
  {
    RoundUp(Wrap(8 + size))
  }

  function RoundUp(n: int): int {
    if n > 32 then
      if n % 16 != 0 then Wrap(n + (16 - n % 16)) else n
    else 32
  }

  /** The addition in `getNewSize` that rounds up does not overflow. */
  predicate Computable(size: nat) {
    Wrap(8 + size) <= INT_MAX - 15
  }

  /** The block is large enough for the request exactly when the request is below the
      point where 8 + size no longer fits an int; then it is the least such block. */
  lemma NewSizeFits(size: nat)
    requires Computable(size)
    ensures GetNewSize(size) >= size + 8 <==> size <= INT_MAX - 23
    ensures size <= INT_MAX - 23 ==>
              forall n :: n % 16 == 0 && 32 <= n && size + 8 <= n ==> GetNewSize(size) <= n
  {
    if size <= INT_MAX - 23 {
      assert Wrap(8 + size) == 8 + size;
      assert GetNewSize(size) == 32 || (size + 8 <= GetNewSize(size) < size + 24);
      forall n | n % 16 == 0 && 32 <= n && size + 8 <= n
        ensures GetNewSize(size) <= n
      {
        LeastMultiple(size + 8, GetNewSize(size), n);
      }
    }
  }

  lemma LeastMultiple(w: int, r: int, n: int)
    requires r % 16 == 0 && n % 16 == 0 && w <= n && 32 <= n
    requires r == 32 || r < w + 16
    ensures r <= n
  {
    assert n == 16 * (n / 16) && r == 16 * (r / 16);
  }

  /** Rows of the block at the end of the heap after j more pages. */
  function RowsAfter(untouched: bool, base: nat, j: nat): nat {
    if !untouched then base + 256 * j else if j == 0 then 0 else 256 * j - 3
  }

  ghost function Base(mem: seq<Word>, blocks: Blocks): nat {
    if mem == [] then 0 else TailRows(blocks, |mem| - 1)
  }

  /** The heap after j more pages. */
  ghost function Extended(mem: seq<Word>, blocks: Blocks, j: nat): Blocks {
    if j == 0 then blocks
    else if mem == [] then map[FIRST := Block(256 * j - 3, false, 0)]
    else blocks[TailStart(blocks, |mem| - 1) := Block(TailRows(blocks, |mem| - 1) + 256 * j, false, 0)]
  }

  /** j pages are enough for newSize bytes at the end of the heap, and fewer are not. */
  ghost predicate LeastPages(mem: seq<Word>, blocks: Blocks, newSize: nat, j: nat) {
    && newSize <= 16 * RowsAfter(mem == [], Base(mem, blocks), j)
    && (0 < j ==> 16 * RowsAfter(mem == [], Base(mem, blocks), j - 1) < newSize)
  }

  /** The word below the epilogue, taken for a footer, does not lead to a word that can be
      taken for the header of a block. */
  predicate Strays(mem: seq<Word>) {
    |mem| < 2 || !mem[|mem| - 2].Info? || |mem| - 1 < 2 * mem[|mem| - 2].size
        || !LooksLikeHeader(mem, |mem| - 1 - 2 * mem[|mem| - 2].size)
  }

  predicate LooksLikeHeader(mem: seq<Word>, h: nat) {
    h + 2 < |mem| && mem[h].Info? && 0 < mem[h].size
  }

  /** Nothing fits.  If no page is granted, the code takes the word below the epilogue for a
      footer, which may lead nowhere; if it asks for a second page behind an allocated block
      while some size node exists, it follows links that were never set. */
  ghost predicate Misreads(mem: seq<Word>, nodes: seq<SizeNode>, blocks: Blocks, newSize: nat, pages: nat) {
    && mem != [] && !Fits(blocks, newSize)
    && ((pages == 0 && Strays(mem))
        || (TailRows(blocks, |mem| - 1) == 0 && 2 <= pages && 4096 < newSize && 1 < |nodes|))
  }

  /** Nothing fits, no page is granted, and the word below the epilogue leads to what looks
      like a header.  The code then inserts that, be it a free block that the index holds
      already, an allocated block, or no block at all. */
  ghost predicate Reinserts(mem: seq<Word>, blocks: Blocks, newSize: nat, pages: nat) {
    mem != [] && !Fits(blocks, newSize) && pages == 0 && !Strays(mem)
  }

  lemma TailLeads(mem: seq<Word>, blocks: Blocks, h: nat)
    requires Layout(mem, blocks) && FreeTail(blocks, |mem| - 1, h)
    ensures !Strays(mem) && mem[|mem| - 2].Info? && |mem| - 1 - 2 * mem[|mem| - 2].size == h
  {
    assert Tagged(mem, blocks, h) && TileOk(blocks, FIRST, |mem| - 1, h);
  }

  predicate FreshPage(page: seq<Word>) {
    |page| == PAGE && forall i :: 0 <= i < |page| ==> page[i].Data?
  }

  /** What a growing call has hold of: nothing yet, or the free block at the end of the heap,
      whose links are stale when linked holds and were never set otherwise. */
  ghost predicate Grip(mem: seq<Word>, nodes: seq<SizeNode>, blocks: Blocks, x: Shape, out: set<nat>, linked: bool) {
    && (out == {} ==> !linked)
    && (out != {} ==>
          exists t: nat :: out == {t} && FreeTail(blocks, |mem| - 1, t) && Gripped(mem, nodes, x, t, linked))
  }

  ghost predicate Gripped(mem: seq<Word>, nodes: seq<SizeNode>, x: Shape, t: nat, linked: bool) {
    if linked then |nodes| == 1 || Bypassed(x, t)
    else At(t) !in x.next && t + 1 < |mem| && !mem[t + 1].Link?
  }

  ghost predicate FreeTail(blocks: Blocks, end: int, t: nat) {
    t in blocks && !blocks[t].alloc && After(blocks, t) == end
  }

  /** Where the block that `mem_grow` returns starts, and how long it is already. */
  ghost function TailStart(blocks: Blocks, end: nat): nat {
    if exists t: nat :: FreeTail(blocks, end, t) then
      var t: nat :| FreeTail(blocks, end, t);
      t
    else end
  }

  ghost function TailRows(blocks: Blocks, end: nat): nat {
    var t := TailStart(blocks, end);
    if FreeTail(blocks, end, t) then blocks[t].size else 0
  }

  lemma TailFacts(mem: seq<Word>, blocks: Blocks)
    requires Layout(mem, blocks)
    ensures var end := |mem| - 1;
            && 0 < end && mem[end].Info? && end !in blocks
            && (mem[end].prevAlloc ==>
                TailStart(blocks, end) == end && TailRows(blocks, end) == 0
                    && forall t: nat :: !FreeTail(blocks, end, t))
            && (!mem[end].prevAlloc ==>
                  && mem[end - 1].Info? && 2 * mem[end - 1].size <= end
                  && var t := end - 2 * mem[end - 1].size;
                     && FreeTail(blocks, end, t) && t == TailStart(blocks, end) && t + 4 <= end
                     && blocks[t].size == mem[end - 1].size == TailRows(blocks, end)
                     && forall t': nat :: FreeTail(blocks, end, t') ==> t' == t)
  {
    var end := |mem| - 1;
    PreviousBlock(mem, blocks, end);
    InRange(blocks, FIRST, end);
    if !mem[end].prevAlloc {
      var t := end - 2 * mem[end - 1].size;
      assert FreeTail(blocks, end, t) && TileOk(blocks, FIRST, end, t);
    }
    forall t: nat, t': nat | FreeTail(blocks, end, t) && FreeTail(blocks, end, t')
      ensures t == t'
    {
      assert TileOk(blocks, FIRST, end, t) && TileOk(blocks, FIRST, end, t');
    }
  }

  lemma TailIsThere(mem: seq<Word>, blocks: Blocks)
    requires Layout(mem, blocks)
    ensures 0 < |mem| && mem[|mem| - 1].Info? && (mem[|mem| - 1].prevAlloc <==> TailRows(blocks, |mem| - 1) == 0)
  {
    TailFacts(mem, blocks);
    var end := |mem| - 1;
    if !mem[end].prevAlloc {
      assert TileOk(blocks, FIRST, end, TailStart(blocks, end));
    }
  }

  lemma NoNodes(nodes: seq<SizeNode>, x: Shape)
    requires Indexed(nodes, x) && Ordered(nodes, x.order)
    requires nodes[0].next == 0
    ensures |nodes| == 1 && x.idx == map[]
  {
    assert NodeAt(nodes, x.order, 0);
    if x.idx != map[] {
      var h :| h in x.idx;
      var k, i := Where(nodes, x, h);
    }
  }

  lemma NotReadable(mem: seq<Word>, nodes: seq<SizeNode>, h: nat)
    requires h + 1 < |mem| && !mem[h + 1].Link?
    ensures !Readable(mem, nodes, h)
  {
  }

  lemma FrameKeys(next: map<Ptr, Ptr>, next': map<Ptr, Ptr>, mem: seq<Word>, mem': seq<Word>)
    requires LinkFrame(next, mem, mem') && next'.Keys == next.Keys
    ensures |mem'| == |mem|
    ensures forall i :: 0 <= i < |mem| && !IsLinkWord(next', i) ==> mem'[i] == mem[i]
  {
    assert forall p :: p in next' <==> p in next;
  }

  ghost predicate Fits(blocks: Blocks, newSize: nat) {
    exists h :: h in blocks && !blocks[h].alloc && newSize <= 16 * blocks[h].size
  }

  /** h is a smallest free block that is large enough. */
  ghost predicate BestFit(blocks: Blocks, newSize: nat, h: nat) {
    && h in blocks && !blocks[h].alloc && newSize <= 16 * blocks[h].size
    && forall g :: g in blocks && !blocks[g].alloc && newSize <= 16 * blocks[g].size ==>
        blocks[h].size <= blocks[g].size
  }

  /** h is the first block on its list. */
  ghost predicate Leads(nodes: seq<SizeNode>, h: nat) {
    exists k :: 1 <= k < |nodes| && nodes[k].headNext == At(h)
  }

  lemma PushedLeads(mem: seq<Word>, nodes: seq<SizeNode>, h: nat, k: nat)
    requires 1 <= k < |nodes| && Addressable(mem, nodes, nodes[k].headNext)
    ensures Leads(PushNodes(mem, nodes, h, k), h)
  {
    var nodes' := PushNodes(mem, nodes, h, k);
    assert nodes'[k].headNext == At(h);
  }

  /** No block on the list of node k is large enough. */
  ghost predicate Passed(nodes: seq<SizeNode>, x: Shape, newSize: nat, k: nat) {
    k < |nodes| == |x.rings| && (nodes[k].size < newSize || |x.rings[k]| == 1)
  }

  lemma FirstOn(mem: seq<Word>, nodes: seq<SizeNode>, x: Shape, k: nat)
    requires IndexInv(mem, nodes, x)
    requires 1 <= k < |nodes|
    ensures |nodes| == |x.rings| && 1 <= |x.rings[k]|
    ensures nodes[k].headNext == if |x.rings[k]| == 1 then Sentinel(k) else x.rings[k][1]
    ensures 1 < |x.rings[k]| ==>
              var p := x.rings[k][1]; p.At? && p.header in x.idx && 16 * x.idx[p.header] == nodes[k].size
  {
    assert RingOf(nodes, x, k);
    assert LinkedAt(x.next, x.prev, x.rings[k], 0);
    assert LinkWords(mem, nodes, x, Sentinel(k));
  }

  /** Every block that fits is on a list not yet passed. */
  lemma FirstFit(nodes: seq<SizeNode>, x: Shape, newSize: nat, i: nat)
    requires Indexed(nodes, x) && Ordered(nodes, x.order)
    requires 1 <= i <= |x.order|
    requires forall j :: 1 <= j < i ==> Passed(nodes, x, newSize, x.order[j])
    ensures forall g :: g in x.idx && newSize <= 16 * x.idx[g] ==>
              i < |x.order| && x.order[i] < |nodes| && nodes[x.order[i]].size <= 16 * x.idx[g]
  {
    forall g | g in x.idx && newSize <= 16 * x.idx[g]
      ensures i < |x.order| && x.order[i] < |nodes| && nodes[x.order[i]].size <= 16 * x.idx[g]
    {
      var k, r := Where(nodes, x, g);
      assert k in x.order;
      var j :| 0 <= j < |x.order| && x.order[j] == k;
      assert 1 <= j < i ==> Passed(nodes, x, newSize, k);
      assert i <= j;
      assert NodeAt(nodes, x.order, i);
      if i < j {
        assert nodes[x.order[i]].size < nodes[x.order[j]].size;
      }
    }
  }

  lemma SameKeys(blocks: Blocks, next: map<Ptr, Ptr>, next': map<Ptr, Ptr>)
    requires KeysFree(blocks, next) && forall h: nat :: At(h) in next' <==> At(h) in next
    ensures KeysFree(blocks, next')
  {
  }

  lemma KeysSame(blocks: Blocks, next: map<Ptr, Ptr>, next': map<Ptr, Ptr>)
    requires KeysFree(blocks, next) && next'.Keys == next.Keys
    ensures KeysFree(blocks, next')
  {
    assert forall p :: p in next' ==> p in next;
  }

  /** Writing link words leaves the tags, the payloads and the inside of free blocks beyond
      their links as they are. */
  lemma LinksOnly(mem: seq<Word>, mem': seq<Word>, blocks: Blocks, next: map<Ptr, Ptr>, f: nat)
    requires Layout(mem, blocks) && KeysFree(blocks, next)
    requires LinkFrame(next, mem, mem')
    ensures Layout(mem', blocks) && |mem'| == |mem|
    ensures PayloadsKept(blocks, mem, mem')
    ensures f in blocks ==> WordsKept(mem, mem', f + 2, After(blocks, f))
  {
    var end := |mem| - 1;
    assert TileOk(blocks, FIRST, end, FIRST);
    NotLinkWords(blocks, FIRST, end, next, FIRST);
    var p := Predecessor(blocks, FIRST, end, end);
    NotLinkWords(blocks, FIRST, end, next, p);
    PrologueKept(mem, mem', blocks, next, |mem|);
    forall h | h in blocks
      ensures Tagged(mem', blocks, h)
      ensures blocks[h].alloc ==> WordsKept(mem, mem', h, After(blocks, h))
    {
      assert Tagged(mem, blocks, h) && TileOk(blocks, FIRST, end, h);
      NotLinkWords(blocks, FIRST, end, next, h);
    }
    if f in blocks {
      assert TileOk(blocks, FIRST, end, f);
      forall g: nat | At(g) in next
        ensures g <= f || After(blocks, f) <= g
        ensures g < f ==> g + 4 <= f
      {
        assert TileOk(blocks, FIRST, end, g);
      }
    }
  }

  /** Allocating rows rows of the free block at h. */
  function Carve(b: Block, h: nat, rows: nat, requested: nat): Blocks {
    if b.size < rows + 2 then
      map[h := Block(b.size, true, requested)]
    else
      map[h := Block(rows, true, requested), h + 2 * rows := Block(b.size - rows, false, 0)]
  }

  function Placed(blocks: Blocks, h: nat, rows: nat, requested: nat): Blocks
    requires h in blocks
  {
    Splice(blocks, h, After(blocks, h), Carve(blocks[h], h, rows, requested))
  }

  /** The heap after a best-fitting block of grown, the one at h, was allocated. */
  ghost predicate AllocatedFrom(grown: Blocks, blocks: Blocks, newSize: nat, requested: nat, h: nat) {
    BestFit(grown, newSize, h) && blocks == Placed(grown, h, newSize / 16, requested)
  }

  /** The same, which gave the words middle, and then the block at g was freed. */
  ghost predicate MovedFrom(grown: Blocks, middle: seq<Word>, blocks: Blocks, newSize: nat, requested: nat, h: nat,
                            g: nat) {
    && BestFit(grown, newSize, h) && g != h
    && var placed := Placed(grown, h, newSize / 16, requested);
       Layout(middle, placed) && g in placed && placed[g].alloc && blocks == Freed(placed, g)
  }

  lemma PlaceFacts(mem: seq<Word>, blocks: Blocks, x: Shape, h: nat, rows: nat)
    requires Layout(mem, blocks) && KeysFree(blocks, x.next) && x.idx == FreeMap(blocks) - {h}
    requires h in blocks && !blocks[h].alloc && 2 <= rows <= blocks[h].size
    ensures h !in x.idx
    ensures var e := After(blocks, h);
            && h + 4 <= e < |mem| && mem[h].Info? && mem[h].size == blocks[h].size
            && mem[e].Info? && mem[e].alloc && !mem[e].prevAlloc
            && !IsLinkWord(x.next, h) && !IsLinkWord(x.next, e)
            && !IsLinkWord(ForgetShape(x, h).next, h) && !IsLinkWord(ForgetShape(x, h).next, e)
            && forall m: seq<Word> :: |m| == |mem| && m[e] == mem[e] && rows + 2 <= blocks[h].size ==>
                 Splittable(m, ForgetShape(x, h), h + 2 * rows, e)
  {
    var e, end := After(blocks, h), |mem| - 1;
    assert Tagged(mem, blocks, h) && TileOk(blocks, FIRST, end, h);
    NotLinkWords(blocks, FIRST, end, x.next, h);
    if e in blocks {
      assert Tagged(mem, blocks, e);
    }
    forall g: nat | At(g) in x.next
      ensures g == h || g + 4 <= h || e <= g
    {
      assert TileOk(blocks, FIRST, end, g);
    }
  }

  lemma PlaceWhole(m0: seq<Word>, mem: seq<Word>, blocks: Blocks, x0: Shape, h: nat, rows: nat, size: nat)
    requires Layout(m0, blocks) && KeysFree(blocks, x0.next)
    requires h in blocks && !blocks[h].alloc && 2 <= rows <= blocks[h].size < rows + 2
    requires var e := After(blocks, h);
             && h + 4 <= e < |m0| && m0[e].Info?
             && mem == m0[h := Info(true, true, blocks[h].size, size)][e := m0[e].(prevAlloc := true)]
    ensures Layout(mem, Placed(blocks, h, rows, size))
    ensures PayloadsKept(blocks, m0, mem)
    ensures h in Placed(blocks, h, rows, size) && After(Placed(blocks, h, rows, size), h) <= After(blocks, h)
    ensures WordsKept(m0, mem, h, After(Placed(blocks, h, rows, size), h))
  {
    var e := After(blocks, h);
    var seg := Carve(blocks[h], h, rows, size);
    OneTile(h, seg[h]);
    assert Tagged(mem, seg, h);
    assert AllTagged(mem, seg);
    PlaceLayout(m0, mem, blocks, x0.next, h, seg);
    SpliceAt(blocks, h, e, seg);
  }

  lemma PlaceFront(m0: seq<Word>, mem: seq<Word>, blocks: Blocks, x0: Shape, h: nat, rows: nat, size: nat)
    requires Layout(m0, blocks) && KeysFree(blocks, x0.next)
    requires h in blocks && !blocks[h].alloc && 2 <= rows && rows + 2 <= blocks[h].size
    requires var e, f := After(blocks, h), h + 2 * rows;
             && h + 4 <= e < |m0| == |mem| && m0[e].Info? && !m0[e].prevAlloc
             && mem[h] == Info(true, true, rows, size)
             && mem[f] == mem[e - 1] == Info(false, true, blocks[h].size - rows, 0)
             && forall i :: 0 <= i < |mem| && (i < f || e <= i) && i != h && !IsLinkWord(ForgetShape(x0, h).next, i) ==>
                  mem[i] == m0[i]
    ensures Layout(mem, Placed(blocks, h, rows, size))
    ensures PayloadsKept(blocks, m0, mem)
    ensures h in Placed(blocks, h, rows, size) && After(Placed(blocks, h, rows, size), h) <= After(blocks, h)
    ensures WordsKept(m0, mem, h, After(Placed(blocks, h, rows, size), h))
  {
    hide NoAdjacentFree, Tags, AllTagged, KeysFree, PayloadsKept, Tiling, Splice;
    var e, f := After(blocks, h), h + 2 * rows;
    var seg := Carve(blocks[h], h, rows, size);
    TwoTiles(h, seg[h], seg[f]);
    FrontFrame(m0, mem, blocks, x0, h, f, e);
    assert AllTagged(mem, seg) by { FrontTags(mem, seg, h, f, e); }
    PlaceLayout(m0, mem, blocks, x0.next, h, seg);
    SpliceAt(blocks, h, e, seg);
  }

  lemma FrontTags(mem: seq<Word>, seg: Blocks, h: nat, f: nat, e: nat)
    requires h < f < e < |mem| && seg.Keys == {h, f} && After(seg, h) == f && After(seg, f) == e
    requires seg[h].alloc && !seg[f].alloc && seg[f].requested == 0
    requires mem[h] == Info(true, true, seg[h].size, seg[h].requested)
    requires mem[f] == mem[e - 1] == Info(false, true, seg[f].size, 0)
    requires mem[e].Info? && !mem[e].prevAlloc
    ensures AllTagged(mem, seg)
  {
    assert Tagged(mem, seg, h) && Tagged(mem, seg, f);
  }

  lemma FrontFrame(m0: seq<Word>, mem: seq<Word>, blocks: Blocks, x0: Shape, h: nat, f: nat, e: nat)
    requires Layout(m0, blocks) && KeysFree(blocks, x0.next)
    requires h in blocks && h < f < e == After(blocks, h) < |m0| == |mem| && m0[e].Info?
    requires forall i :: 0 <= i < |mem| && (i < f || e <= i) && i != h && !IsLinkWord(ForgetShape(x0, h).next, i) ==>
               mem[i] == m0[i]
    ensures mem[e] == m0[e]
    ensures SameAround(x0.next, m0, mem, h, e)
    ensures WordsKept(m0, mem, h, f)
  {
    hide NoAdjacentFree, Tags;
    var end := |m0| - 1;
    NotLinkWords(blocks, FIRST, end, x0.next, h);
    forall g: nat | At(g) in ForgetShape(x0, h).next
      ensures g + 4 <= h || e <= g
    {
      assert TileOk(blocks, FIRST, end, g);
    }
  }

  lemma PlaceLayout(m0: seq<Word>, mem: seq<Word>, blocks: Blocks, next: map<Ptr, Ptr>, h: nat, seg: Blocks)
    requires Layout(m0, blocks) && KeysFree(blocks, next)
    requires h in blocks && !blocks[h].alloc
    requires SameAround(next, m0, mem, h, After(blocks, h))
    requires h in seg && Tiling(seg, h, After(blocks, h)) && NoAdjacentFree(seg) && AllTagged(mem, seg)
    requires mem[h].Info? && mem[h].prevAlloc
    ensures Layout(mem, Splice(blocks, h, After(blocks, h), seg))
    ensures PayloadsKept(blocks, m0, mem)
  {
    hide Tags, AllTagged, Tagged, PayloadsKept, Splice;
    var e, end := After(blocks, h), |m0| - 1;
    BelowFree(m0, blocks, h);
    assert TileOk(blocks, FIRST, end, h);
    Settles(m0, mem, blocks, next, h, e, seg);
    SettlesPayloads(m0, mem, blocks, next, h, e);
    PayloadsSplit(blocks, blocks, m0, mem, h, e);
  }

  lemma PlaceIndex(m0: seq<Word>, blocks: Blocks, x0: Shape, x: Shape, h: nat, rows: nat, size: nat)
    requires Layout(m0, blocks) && KeysFree(blocks, x0.next) && x0.idx == FreeMap(blocks) - {h}
    requires h in blocks && !blocks[h].alloc && 2 <= rows <= blocks[h].size
    requires var f := h + 2 * rows;
             if blocks[h].size < rows + 2 then x.idx == x0.idx else x.idx == x0.idx[f := blocks[h].size - rows]
    requires forall g: nat :: At(g) in x.next ==>
               (blocks[h].size >= rows + 2 && g == h + 2 * rows) || At(g) in ForgetShape(x0, h).next
    ensures KeysFree(Placed(blocks, h, rows, size), x.next)
    ensures x.idx == FreeMap(Placed(blocks, h, rows, size)) - {}
  {
    hide Splice, NoAdjacentFree, Tags, Carve;
    var e, end := After(blocks, h), |m0| - 1;
    assert TileOk(blocks, FIRST, end, h);
    assert forall g :: g in blocks && h <= g < e ==> g == h;
    CarveKeys(blocks, x0, x, h, rows, size);
    CarveFree(blocks, h, rows, size);
  }

  lemma CarveKeys(blocks: Blocks, x0: Shape, x: Shape, h: nat, rows: nat, size: nat)
    requires KeysFree(blocks, x0.next)
    requires h in blocks && !blocks[h].alloc && 2 <= rows <= blocks[h].size
    requires forall g :: g in blocks && h <= g < After(blocks, h) ==> g == h
    requires forall g: nat :: At(g) in x.next ==>
               (blocks[h].size >= rows + 2 && g == h + 2 * rows) || At(g) in ForgetShape(x0, h).next
    ensures KeysFree(Placed(blocks, h, rows, size), x.next)
  {
    hide Splice;
    SpliceAt(blocks, h, After(blocks, h), Carve(blocks[h], h, rows, size));
  }

  lemma CarveFree(blocks: Blocks, h: nat, rows: nat, size: nat)
    requires h in blocks && !blocks[h].alloc && 2 <= rows <= blocks[h].size
    requires forall g :: g in blocks && h <= g < After(blocks, h) ==> g == h
    ensures var rest := FreeMap(blocks) - {h};
            FreeMap(Placed(blocks, h, rows, size))
            == if blocks[h].size < rows + 2 then rest else rest[h + 2 * rows := blocks[h].size - rows]
  {
    hide Splice;
    SpliceAt(blocks, h, After(blocks, h), Carve(blocks[h], h, rows, size));
    var all, rest := FreeMap(Placed(blocks, h, rows, size)), FreeMap(blocks) - {h};
    if blocks[h].size < rows + 2 {
      assert all == rest;
    } else {
      assert all == rest[h + 2 * rows := blocks[h].size - rows];
    }
  }

  // ----- shrinking in place

  /** The heap after the block at h was cut to rows rows, if that leaves enough for a block,
      with what is left joined to a free block behind it. */
  ghost function Shrunk(blocks: Blocks, h: nat, rows: nat, requested: nat): Blocks
    requires h in blocks
  {
    if blocks[h].size < rows + 2 then
      blocks[h := Block(blocks[h].size, true, requested)]
    else
      Splice(blocks, h, FreedTo(blocks, h), CutSegment(blocks, h, rows, requested))
  }

  ghost function CutSegment(blocks: Blocks, h: nat, rows: nat, requested: nat): Blocks
    requires h in blocks && rows <= blocks[h].size
  {
    var f, e := h + 2 * rows, FreedTo(blocks, h);
    map[h := Block(rows, true, requested), f := Block((e - f) / 2, false, 0)]
  }

  lemma ShrinkFacts(mem: seq<Word>, mem': seq<Word>, blocks: Blocks, x: Shape, h: nat, rows: nat)
    requires Layout(mem, blocks) && KeysFree(blocks, x.next) && x.idx == FreeMap(blocks)
    requires h in blocks && blocks[h].alloc && 2 <= rows && rows + 2 <= blocks[h].size
    requires |mem'| == |mem| && forall i :: 0 <= i < |mem| && i != h ==> mem'[i] == mem[i]
    ensures !IsLinkWord(x.next, h)
    ensures var e, f := After(blocks, h), h + 2 * rows;
            && Splittable(mem', x, f, e)
            && FreedTo(blocks, h) == e + (if mem'[e].alloc then 0 else 2 * mem'[e].size)
            && !IsLinkWord(x.next, FreedTo(blocks, h)) && FreedTo(blocks, h) < |mem| && mem[FreedTo(blocks, h)].Info?
            && (mem'[e].alloc ==> e !in FreeMap(blocks))
  {
    var e, f, end := After(blocks, h), h + 2 * rows, |mem| - 1;
    assert Tagged(mem, blocks, h) && TileOk(blocks, FIRST, end, h);
    NotLinkWords(blocks, FIRST, end, x.next, h);
    if e in blocks {
      assert Tagged(mem, blocks, e) && TileOk(blocks, FIRST, end, e);
      NotLinkWords(blocks, FIRST, end, x.next, e);
    }
    forall g: nat | At(g) in x.next
      ensures g + 4 <= f || e <= g
      ensures e in blocks && !blocks[e].alloc ==> g <= e || After(blocks, e) <= g
    {
      assert TileOk(blocks, FIRST, end, g);
    }
  }

  /** What lies between h and the end of the free block that its tail becomes. */
  lemma CutFacts(mem: seq<Word>, blocks: Blocks, h: nat, rows: nat)
    requires Layout(mem, blocks)
    requires h in blocks && blocks[h].alloc && 2 <= rows && rows + 2 <= blocks[h].size
    ensures var e, f := FreedTo(blocks, h), h + 2 * rows;
            && h + 4 <= f && f + 4 <= e < |mem| && After(blocks, h) <= e && (e - f) % 2 == 0
                && (e in blocks || e == |mem| - 1)
            && (e in blocks ==> blocks[e].alloc)
            && (forall g :: g in blocks && h <= g < e ==> g == h || g == After(blocks, h))
            && (After(blocks, h) < e ==> After(blocks, h) in blocks && !blocks[After(blocks, h)].alloc)
            && f !in blocks
  {
    var n, end := After(blocks, h), |mem| - 1;
    assert TileOk(blocks, FIRST, end, h);
    if n in blocks {
      assert TileOk(blocks, FIRST, end, n);
    }
  }

  lemma ShrinkLayout(m0: seq<Word>, mem: seq<Word>, blocks: Blocks, next: map<Ptr, Ptr>, h: nat, rows: nat, size: nat)
    requires Layout(m0, blocks) && KeysFree(blocks, next)
    requires h in blocks && blocks[h].alloc && 2 <= rows && rows + 2 <= blocks[h].size
    requires var e, f := FreedTo(blocks, h), h + 2 * rows;
             && f < e < |m0|
             && SameAround(next, m0, mem, h, e) && |mem| == |m0| && mem[e].Info? && !mem[e].prevAlloc
             && m0[h].Info? && mem[h] == Info(true, m0[h].prevAlloc, rows, size)
             && mem[f] == mem[e - 1] == Info(false, true, (e - f) / 2, 0)
    ensures Layout(mem, Shrunk(blocks, h, rows, size))
    ensures PayloadsKept(blocks - {h}, m0, mem)
  {
    hide Layout, KeysFree, PayloadsKept, NoAdjacentFree, Tiling, AllTagged, SameAround;
    var e, f := FreedTo(blocks, h), h + 2 * rows;
    CutFacts(m0, blocks, h, rows);
    var seg := CutSegment(blocks, h, rows, size);
    TwoTiles(h, seg[h], seg[f]);
    assert AllTagged(mem, seg) by { CutTags(mem, seg, h, f, e); }
    Settles(m0, mem, blocks, next, h, e, seg);
    SettlesPayloads(m0, mem, blocks, next, h, e);
    PayloadsSplit(blocks, blocks - {h}, m0, mem, h, e);
  }

  lemma CutTags(mem: seq<Word>, seg: Blocks, h: nat, f: nat, e: nat)
    requires h < f < e < |mem| && seg.Keys == {h, f} && After(seg, h) == f && After(seg, f) == e
    requires seg[h].alloc && !seg[f].alloc && seg[f].requested == 0
    requires mem[h].Info? && mem[h] == Info(true, mem[h].prevAlloc, seg[h].size, seg[h].requested)
    requires mem[f] == mem[e - 1] == Info(false, true, seg[f].size, 0)
    requires mem[e].Info? && !mem[e].prevAlloc
    ensures AllTagged(mem, seg)
  {
    assert Tagged(mem, seg, h) && Tagged(mem, seg, f);
  }

  lemma ShrinkIndex(m0: seq<Word>, blocks: Blocks, x0: Shape, x: Shape, h: nat, rows: nat, size: nat)
    requires Layout(m0, blocks) && KeysFree(blocks, x0.next)
    requires h in blocks && blocks[h].alloc && 2 <= rows && rows + 2 <= blocks[h].size
    requires var e, f, n := FreedTo(blocks, h), h + 2 * rows, After(blocks, h);
             && f < e
             && x.idx == (FreeMap(blocks) - {n})[f := (e - f) / 2]
             && (forall g: nat :: At(g) in x.next ==> g == f || At(g) in x0.next)
             && (n < e ==> At(n) !in x.next)
    ensures KeysFree(Shrunk(blocks, h, rows, size), x.next)
    ensures x.idx == FreeMap(Shrunk(blocks, h, rows, size)) - {}
  {
    hide Layout, Splice, FreeMap, KeysFree, CutSegment, FreedTo;
    CutFacts(m0, blocks, h, rows);
    CutKeys(blocks, x0.next, x.next, h, rows, size, FreedTo(blocks, h));
    CutFree(blocks, h, rows, size, FreedTo(blocks, h));
  }

  lemma CutKeys(blocks: Blocks, next0: map<Ptr, Ptr>, next: map<Ptr, Ptr>, h: nat, rows: nat, size: nat, e: nat)
    requires h in blocks && blocks[h].alloc && rows <= blocks[h].size && e == FreedTo(blocks, h) && h < h + 2 * rows < e
    requires KeysFree(blocks, next0)
    requires forall g :: g in blocks && h <= g < e ==> g == h || g == After(blocks, h)
    requires forall g: nat :: At(g) in next ==> g == h + 2 * rows || At(g) in next0
    requires After(blocks, h) < e ==> At(After(blocks, h)) !in next
    ensures KeysFree(Splice(blocks, h, e, CutSegment(blocks, h, rows, size)), next)
  {
    hide Splice, FreedTo;
    SpliceAt(blocks, h, e, CutSegment(blocks, h, rows, size));
  }

  lemma CutFree(blocks: Blocks, h: nat, rows: nat, size: nat, e: nat)
    requires h in blocks && blocks[h].alloc && rows <= blocks[h].size && e == FreedTo(blocks, h) && h < h + 2 * rows < e
    requires forall g :: g in blocks && h <= g < e ==> g == h || g == After(blocks, h)
    requires After(blocks, h) == e && e in blocks ==> blocks[e].alloc
    requires After(blocks, h) <= e
    ensures var f := h + 2 * rows;
            FreeMap(Splice(blocks, h, e, CutSegment(blocks, h, rows, size)))
            == (FreeMap(blocks) - {After(blocks, h)})[f := (e - f) / 2]
  {
    hide Splice, FreedTo;
    SpliceAt(blocks, h, e, CutSegment(blocks, h, rows, size));
  }

  /** Only the requested size changed. */
  lemma RetagLayout(m0: seq<Word>, mem: seq<Word>, blocks: Blocks, x: Shape, h: nat, size: nat)
    requires Layout(m0, blocks) && KeysFree(blocks, x.next)
    requires h in blocks && blocks[h].alloc
    requires h < |m0| && m0[h].Info? && mem == m0[h := m0[h].(requested := size)]
    ensures Layout(mem, blocks[h := Block(blocks[h].size, true, size)])
    ensures KeysFree(blocks[h := Block(blocks[h].size, true, size)], x.next)
    ensures FreeMap(blocks[h := Block(blocks[h].size, true, size)]) == FreeMap(blocks)
    ensures PayloadsKept(blocks, m0, mem)
    ensures !IsLinkWord(x.next, h)
  {
    hide Layout, KeysFree, PayloadsKept, FreeMap;
    RetagTags(m0, mem, blocks, x.next, h, size);
    RetagSplice(m0, blocks, h, Block(blocks[h].size, true, size));
    RetagIndex(blocks, x.next, h, size);
    RetagPayloads(m0, mem, blocks, h);
  }

  lemma RetagTags(m0: seq<Word>, mem: seq<Word>, blocks: Blocks, next: map<Ptr, Ptr>, h: nat, size: nat)
    requires Layout(m0, blocks) && KeysFree(blocks, next)
    requires h in blocks && blocks[h].alloc
    requires h < |m0| && m0[h].Info? && mem == m0[h := m0[h].(requested := size)]
    ensures Layout(mem, Splice(blocks, h, After(blocks, h), map[h := Block(blocks[h].size, true, size)]))
    ensures !IsLinkWord(next, h)
  {
    hide AllTagged, NoAdjacentFree, Splice, Tiling;
    var e, end := After(blocks, h), |m0| - 1;
    var seg := map[h := Block(blocks[h].size, true, size)];
    NotLinkWords(blocks, FIRST, end, next, h);
    RetagFacts(m0, blocks, h);
    OneTile(h, seg[h]);
    assert AllTagged(mem, seg) by { RetagSegment(m0, mem, blocks, h, size); }
    Settles(m0, mem, blocks, next, h, e, seg);
  }

  lemma RetagFacts(m0: seq<Word>, blocks: Blocks, h: nat)
    requires Layout(m0, blocks)
    requires h in blocks
    ensures var e := After(blocks, h);
            && h + 4 <= e < |m0| && (e in blocks || e == |m0| - 1) && m0[e].Info?
            && forall g :: g in blocks && h <= g < e ==> g == h
    ensures 2 <= blocks[h].size
  {
    assert Tagged(m0, blocks, h) && TileOk(blocks, FIRST, |m0| - 1, h);
  }

  lemma RetagSegment(m0: seq<Word>, mem: seq<Word>, blocks: Blocks, h: nat, size: nat)
    requires Layout(m0, blocks)
    requires h in blocks && blocks[h].alloc
    requires h < |m0| && m0[h].Info? && mem == m0[h := m0[h].(requested := size)]
    ensures AllTagged(mem, map[h := Block(blocks[h].size, true, size)])
  {
    assert Tagged(m0, blocks, h);
    assert Tagged(mem, map[h := Block(blocks[h].size, true, size)], h);
  }

  lemma RetagSplice(m0: seq<Word>, blocks: Blocks, h: nat, b: Block)
    requires Layout(m0, blocks)
    requires h in blocks
    ensures Splice(blocks, h, After(blocks, h), map[h := b]) == blocks[h := b]
  {
    hide Layout, Splice;
    RetagFacts(m0, blocks, h);
    SpliceAt(blocks, h, After(blocks, h), map[h := b]);
  }

  lemma RetagIndex(blocks: Blocks, next: map<Ptr, Ptr>, h: nat, size: nat)
    requires KeysFree(blocks, next)
    requires h in blocks && blocks[h].alloc
    ensures KeysFree(blocks[h := Block(blocks[h].size, true, size)], next)
    ensures FreeMap(blocks[h := Block(blocks[h].size, true, size)]) == FreeMap(blocks)
  {
  }

  lemma RetagPayloads(m0: seq<Word>, mem: seq<Word>, blocks: Blocks, h: nat)
    requires Layout(m0, blocks)
    requires h in blocks && h < |m0| == |mem| && mem == m0[h := mem[h]]
    ensures PayloadsKept(blocks, m0, mem)
  {
    forall g | g in blocks && blocks[g].alloc
      ensures WordsKept(m0, mem, g, After(blocks, g))
    {
      assert TileOk(blocks, FIRST, |m0| - 1, g) && TileOk(blocks, FIRST, |m0| - 1, h);
    }
  }

  lemma ShrinkLinks(next0: map<Ptr, Ptr>, next: map<Ptr, Ptr>, f: nat, n: nat)
    requires forall g: nat :: At(g) in next ==> g == f || At(g) in next0
    requires !IsLinkWord(next0, n) && f + 4 <= n
    ensures !IsLinkWord(next, n)
  {
  }

  lemma ShrinkFrame(m0: seq<Word>, m2: seq<Word>, m3: seq<Word>, mem: seq<Word>, blocks: Blocks, next: map<Ptr, Ptr>,
                    h: nat, f: nat, e: nat)
    requires Layout(m0, blocks) && KeysFree(blocks, next)
    requires h in blocks && blocks[h].alloc && h < f < After(blocks, h) <= e < |m0|
    requires |m2| == |m0| && (forall i :: 0 <= i < |m0| && i != h ==> m2[i] == m0[i])
    requires |m3| == |m0| && (forall i :: (0 <= i < f || e <= i < |m0|) && !IsLinkWord(next, i) ==> m3[i] == m2[i])
    requires m0[e].Info? && !IsLinkWord(next, e)
    requires m3[e].Info? && mem == m3[e := m3[e].(prevAlloc := false)]
    ensures SameAround(next, m0, mem, h, e)
    ensures WordsKept(m0, mem, h, f)
    ensures !IsLinkWord(next, h) && m3[h] == m2[h]
  {
    NotLinkWords(blocks, FIRST, |m0| - 1, next, h);
  }

  lemma ShrunkAt(m0: seq<Word>, blocks: Blocks, h: nat, rows: nat, size: nat)
    requires Layout(m0, blocks)
    requires h in blocks && blocks[h].alloc && 2 <= rows && rows + 2 <= blocks[h].size
    ensures h in Shrunk(blocks, h, rows, size) && After(Shrunk(blocks, h, rows, size), h) == h + 2 * rows
  {
    hide Layout, Splice;
    CutFacts(m0, blocks, h, rows);
    SpliceAt(blocks, h, FreedTo(blocks, h), CutSegment(blocks, h, rows, size));
  }

  lemma ShrunkWhole(blocks: Blocks, h: nat, rows: nat, size: nat)
    requires h in blocks && blocks[h].size < rows + 2
    ensures Shrunk(blocks, h, rows, size) == blocks[h := Block(blocks[h].size, true, size)]
  {
  }

  lemma LessPayloads(blocks: Blocks, h: nat, m0: seq<Word>, mem: seq<Word>)
    requires PayloadsKept(blocks, m0, mem)
    requires h in blocks && blocks[h].alloc
    ensures PayloadsKept(blocks - {h}, m0, mem)
    ensures WordsKept(m0, mem, h, After(blocks, h))
  {
    forall g | g in blocks - {h} && blocks[g].alloc
      ensures WordsKept(m0, mem, g, After(blocks - {h}, g))
    {
      assert WordsKept(m0, mem, g, After(blocks, g));
    }
    assert WordsKept(m0, mem, h, After(blocks, h));
  }

  /** The new payload is what the free block held. */
  lemma StaleAcross(m0: seq<Word>, m1: seq<Word>, mem: seq<Word>, h: nat, e: nat, e': nat)
    requires Stale(m0, m1, h, e) && WordsKept(m1, mem, h, e')
    requires e' <= e
    ensures Stale(m0, mem, h, e')
  {
  }

  lemma WholeKept(m0: seq<Word>, mem: seq<Word>, h: nat, e: nat)
    requires WordsKept(m0, mem, h + 2, e)
    requires h + 2 < |m0| == |mem| && mem[h + 1] == m0[h + 1] && mem[h + 2] == m0[h + 2]
    ensures WordsKept(m0, mem, h, e)
  {
  }

  lemma KeptIsStale(m0: seq<Word>, mem: seq<Word>, h: nat, e: nat)
    requires WordsKept(m0, mem, h, e)
    ensures Stale(m0, mem, h, e)
  {
  }

  /** Unlinking the block at the end of the heap writes nothing behind its header. */
  lemma TailStale(m0: seq<Word>, blocks: Blocks, next0: map<Ptr, Ptr>, next: map<Ptr, Ptr>, mem: seq<Word>,
                  mem': seq<Word>, h: nat)
    requires Layout(m0, blocks) && KeysFree(blocks, next0) && next.Keys == next0.Keys
    requires h == TailStart(blocks, |m0| - 1)
    requires |mem| == |mem'| && forall i :: 0 <= i < |mem| && !IsLinkWord(next, i) ==> mem'[i] == mem[i]
    requires h != |m0| - 1 ==> h + 2 < |mem| && mem'[h + 1] == mem[h + 1] && mem'[h + 2] == mem[h + 2]
    ensures Stale(mem, mem', h, |mem|)
  {
    hide Layout, TailStart;
    var end := |m0| - 1;
    TailFacts(m0, blocks);
    assert forall p :: p in next <==> p in next0;
    KeysBelow(m0, blocks, next0, h);
    forall i | h < i < |mem|
      ensures mem'[i] == mem[i]
    {
      assert i != h + 1 && i != h + 2 ==> !IsLinkWord(next, i);
    }
  }

  lemma KeysBelow(mem: seq<Word>, blocks: Blocks, next: map<Ptr, Ptr>, h: nat)
    requires Layout(mem, blocks) && KeysFree(blocks, next)
    requires FreeTail(blocks, |mem| - 1, h) || h == |mem| - 1
    ensures forall g: nat :: At(g) in next ==> g + 4 <= h || g == h
    ensures h == |mem| - 1 ==> At(h) !in next
  {
    InRange(blocks, FIRST, |mem| - 1);
    forall g: nat | At(g) in next
      ensures g + 4 <= h || g == h
    {
      assert TileOk(blocks, FIRST, |mem| - 1, g);
    }
  }

  /** Neither the page nor its tags touch what was behind the header at h. */
  lemma StaleExtends(m0: seq<Word>, m1: seq<Word>, m2: seq<Word>, mem: seq<Word>, h: nat)
    requires m0 <= m1 && |m1| == |m2| == |mem| && Stale(m1, m2, h, |m1|)
    requires forall i :: h < i < |m0| ==> mem[i] == m2[i]
    ensures Stale(m0, mem, h, |m0|)
  {
    forall i | h < i < |m0|
      ensures mem[i] == m0[i]
    {
    }
  }

  lemma PlacedThere(blocks: Blocks, h: nat, rows: nat, size: nat)
    requires h in blocks && 2 <= rows <= blocks[h].size
    ensures h in Placed(blocks, h, rows, size) && Placed(blocks, h, rows, size)[h].alloc
  {
    SpliceAt(blocks, h, After(blocks, h), Carve(blocks[h], h, rows, size));
  }

  /** Freeing one block leaves the words of another allocated one alone. */
  lemma StaleMoved(m0: seq<Word>, m1: seq<Word>, blocks: Blocks, mem: seq<Word>, h: nat, g: nat)
    requires Layout(m1, blocks) && g in blocks && blocks[g].alloc && h in blocks && blocks[h].alloc && h != g
    requires Stale(m0, m1, h, After(blocks, h)) && PayloadsKept(blocks - {g}, m1, mem)
    ensures h in Freed(blocks, g) && Freed(blocks, g)[h] == blocks[h]
    ensures Stale(m0, mem, h, After(blocks, h))
  {
    hide Layout, Splice;
    SegmentIs(m1, blocks, g);
    FreedIs(blocks, g);
    var a, e := FreedFrom(blocks, g), FreedTo(blocks, g);
    SpliceAt(blocks, a, e, map[a := Block((e - a) / 2, false, 0)]);
    assert WordsKept(m1, mem, h, After(blocks - {g}, h));
  }

  lemma StaleGrows(m0: seq<Word>, m1: seq<Word>, mem: seq<Word>, h: nat)
    requires Stale(m0, m1, h, |m0|) && Stale(m1, mem, h, |m1|) && |m0| <= |m1| <= |mem|
    ensures Stale(m0, mem, h, |m0|)
  {
    forall i | h < i < |m0|
      ensures mem[i] == m0[i]
    {
      assert m1[i] == m0[i];
    }
  }

  /** The block at the end of the heap is the same after every page. */
  lemma SameTail(m0: seq<Word>, n0: seq<SizeNode>, b0: Blocks, m1: seq<Word>, n1: seq<SizeNode>, b1: Blocks,
                 newSize: nat, used: nat, h: nat, rows: nat, linked: bool)
    requires m0 != [] ==> Layout(m0, b0)
    requires Layout(m1, b1)
    requires Growing(m0, n0, b0, m1, n1, b1, newSize, used, h, rows, linked)
    ensures |m0| <= |m1|
    ensures 0 < used ==> TailStart(b1, |m1| - 1) == h
    ensures used == 0 ==> m1 == m0
  {
    hide Layout, PayloadsKept, TailStart, TailRows, Fits, Extended;
    if 0 < used {
      ExtendedNext(m0, b0, m1, b1, used);
    }
  }

  /** The heap stays below 2^31 bytes, so that every block size fits an int. */
  predicate SmallHeap(mem: seq<Word>, pages: nat) {
    8 * (|mem| + 512 * pages) <= INT_MAX
  }

  /** The block has room for its header and what was requested. */
  predicate Honest(b: Block) {
    b.requested + 8 <= 16 * b.size
  }

  lemma LiveCall(mem: seq<Word>, nodes: seq<SizeNode>, blocks: Blocks, x: Shape, h: nat)
    requires if Untouched(mem, nodes) then blocks == map[] && x == NO_SHAPE else HeapInv(mem, nodes, blocks, x, {})
    requires h in blocks && blocks[h].alloc
    ensures HeapInv(mem, nodes, blocks, x, {}) && Layout(mem, blocks)
    ensures PayloadsKept(blocks - {h}, mem, mem) && WordsKept(mem, mem, h, After(blocks, h))
    ensures mem != []
  {
    forall g | g in blocks
      ensures WordsKept(mem, mem, g, After(blocks, g))
    {
      assert TileOk(blocks, FIRST, |mem| - 1, g);
    }
    forall g | g in blocks - {h} && blocks[g].alloc
      ensures WordsKept(mem, mem, g, After(blocks - {h}, g))
    {
      assert WordsKept(mem, mem, g, After(blocks, g));
    }
  }

  /** A live block is still there, unchanged, after another one was allocated. */
  lemma StillLive(m0: seq<Word>, b0: Blocks, used: nat, mem: seq<Word>, nodes: seq<SizeNode>, blocks: Blocks, x: Shape,
                  h: nat, h': nat, rows: nat, size: nat)
    requires Layout(m0, b0)
    requires if Untouched(mem, nodes) then blocks == map[] && x == NO_SHAPE else HeapInv(mem, nodes, blocks, x, {})
    requires var grown := Extended(m0, b0, used);
             h' in grown && !grown[h'].alloc && blocks == Placed(grown, h', rows, size)
    requires 2 <= rows <= Extended(m0, b0, used)[h'].size
    requires h in b0 && b0[h].alloc
    ensures HeapInv(mem, nodes, blocks, x, {})
    ensures forall g :: g in b0 && b0[g].alloc ==> g in blocks && blocks[g] == b0[g]
    ensures h != h'
  {
    hide Layout, Extended;
    NotEmpty(m0, b0);
    ExtendedKeeps(m0, b0, used);
    PlacedKeeps(m0, b0, used, h', rows, size);
  }

  lemma PlacedKeeps(m0: seq<Word>, b0: Blocks, used: nat, h': nat, rows: nat, size: nat)
    requires Layout(m0, b0)
    requires var grown := Extended(m0, b0, used); h' in grown && !grown[h'].alloc && 2 <= rows <= grown[h'].size
    ensures forall g :: g in b0 && b0[g].alloc ==>
              g in Placed(Extended(m0, b0, used), h', rows, size)
                  && Placed(Extended(m0, b0, used), h', rows, size)[g] == b0[g]
  {
    hide Splice;
    var grown, end := Extended(m0, b0, used), |m0| - 1;
    TailFacts(m0, b0);
    NotEmpty(m0, b0);
    ExtendedKeeps(m0, b0, used);
    var seg := Carve(grown[h'], h', rows, size);
    SpliceAt(grown, h', After(grown, h'), seg);
    forall g | g in b0 && b0[g].alloc
      ensures g < h' || After(grown, h') <= g
    {
      assert TileOk(b0, FIRST, end, g);
      if h' in b0 {
        assert TileOk(b0, FIRST, end, h');
      }
    }
  }

  lemma MovePayloads(m0: seq<Word>, b0: Blocks, m1: seq<Word>, b1: Blocks, mem: seq<Word>, h: nat)
    requires PayloadsKept(b0, m0, m1) && PayloadsKept(b1 - {h}, m1, mem)
    requires h in b0 && b0[h].alloc
    requires forall g :: g in b0 && b0[g].alloc ==> g in b1 && b1[g] == b0[g]
    ensures PayloadsKept(b0 - {h}, m0, mem)
  {
    LessPayloads(b0, h, m0, m1);
    PayloadsChain(b0 - {h}, b1 - {h}, m0, m1, mem);
  }

  lemma SmallerSize(mem: seq<Word>, blocks: Blocks, h: nat, rsize: nat, pages: nat)
    requires Layout(mem, blocks)
    requires h in blocks && Honest(blocks[h]) && rsize < blocks[h].requested
    requires Computable(rsize) && SmallHeap(mem, pages)
    ensures 32 <= GetNewSize(rsize) <= 16 * blocks[h].size
  {
    assert TileOk(blocks, FIRST, |mem| - 1, h);
    NewSizeFits(rsize);
    assert (16 * blocks[h].size) % 16 == 0;
  }

  lemma StoreLayout(mem: seq<Word>, blocks: Blocks, next: map<Ptr, Ptr>, h: nat, i: nat, w: Word)
    requires Layout(mem, blocks) && KeysFree(blocks, next)
    requires h in blocks && blocks[h].alloc && h < i < After(blocks, h)
    ensures i < |mem| && Layout(mem[i := w], blocks) && !IsLinkWord(next, i)
  {
    var end := |mem| - 1;
    assert TileOk(blocks, FIRST, end, h) && TileOk(blocks, FIRST, end, FIRST);
    NotLinkWords(blocks, FIRST, end, next, h);
    forall g | g in blocks
      ensures Tagged(mem[i := w], blocks, g)
    {
      assert TileOk(blocks, FIRST, end, g) && Tagged(mem, blocks, g);
    }
  }

  /** Outside [a, e) only link words differ. */
  ghost predicate Outside(next: map<Ptr, Ptr>, mem: seq<Word>, mem': seq<Word>, a: nat, e: nat) {
    && |mem'| == |mem|
    && forall i :: 0 <= i < |mem| && (i < a || e <= i) && !IsLinkWord(next, i) ==> mem'[i] == mem[i]
  }

  lemma OutsideBoth(next: map<Ptr, Ptr>, m0: seq<Word>, m1: seq<Word>, next1: map<Ptr, Ptr>, m2: seq<Word>, a: nat,
                    n: nat, e: nat)
    requires Outside(next, m0, m1, a, n) && Outside(next1, m1, m2, a, e)
    requires n <= e
    requires forall g: nat :: At(g) in next1 ==> At(g) in next
    ensures Outside(next, m0, m2, a, e)
  {
  }

  lemma OutsideLinks(next: map<Ptr, Ptr>, m0: seq<Word>, m1: seq<Word>, next1: map<Ptr, Ptr>, m2: seq<Word>, a: nat,
                     e: nat)
    requires Outside(next, m0, m1, a, e) && LinkFrame(next1, m1, m2)
    requires a + 4 <= e <= |m0|
    requires forall g: nat :: At(g) in next1 ==> g == a || At(g) in next
    requires forall g: nat :: At(g) in next1 && g != a ==> g + 4 <= a || e <= g
    ensures Outside(next, m0, m2, a, e)
    ensures m2[a] == m1[a] && m2[e - 1] == m1[e - 1]
    ensures !IsLinkWord(next, e) ==> !IsLinkWord(next1, e)
  {
  }

  lemma TagWrite(m: seq<Word>, m': seq<Word>, nodes: seq<SizeNode>, x: Shape, i: nat)
    requires IndexInv(m, nodes, x)
    requires i < |m| == |m'| && !IsLinkWord(x.next, i)
    requires m' == m[i := m'[i]]
    ensures IndexInv(m', nodes, x)
  {
    hide IndexInv, IsLinkWord;
    OtherWords(m, m', nodes, x);
  }

  lemma OutsideAround(next: map<Ptr, Ptr>, m0: seq<Word>, m: seq<Word>, m': seq<Word>, a: nat, e: nat)
    requires Outside(next, m0, m, a, e)
    requires a <= e < |m0| && m0[e].Info? && !IsLinkWord(next, e)
    requires |m'| == |m| && m[e].Info? && m'[e].Info? && m' == m[e := m[e].(prevAlloc := m'[e].prevAlloc)]
    ensures SameAround(next, m0, m', a, e)
  {
  }

  /** Where the free block that h becomes part of starts and ends. */
  ghost function FreedFrom(blocks: Blocks, h: nat): nat
    requires h in blocks
  {
    if exists p :: p in blocks && !blocks[p].alloc && After(blocks, p) == h then
      var p :| p in blocks && !blocks[p].alloc && After(blocks, p) == h;
      p
    else h
  }

  ghost function FreedTo(blocks: Blocks, h: nat): nat
    requires h in blocks
  {
    var n := After(blocks, h);
    if n in blocks && !blocks[n].alloc then After(blocks, n) else n
  }

  /** The heap after h is freed: h and its free neighbours become one free block. */
  ghost function Freed(blocks: Blocks, h: nat): Blocks
    requires h in blocks
  {
    var a, e := FreedFrom(blocks, h), FreedTo(blocks, h);
    Splice(blocks, a, e, map[a := Block(if a <= e then (e - a) / 2 else 0, false, 0)])
  }

  lemma FreedFromIs(blocks: Blocks, start: nat, end: nat, h: nat)
    requires Tiling(blocks, start, end)
    requires h in blocks
    ensures forall p :: p in blocks && !blocks[p].alloc && After(blocks, p) == h ==> FreedFrom(blocks, h) == p
  {
    forall p | p in blocks && !blocks[p].alloc && After(blocks, p) == h
      ensures FreedFrom(blocks, h) == p
    {
      var q := FreedFrom(blocks, h);
      assert TileOk(blocks, start, end, p) && TileOk(blocks, start, end, q);
    }
  }

  /** The words [a, n) carry no links but those of a, and if the block at n is free, the
      index holds it and its words carry no other links. */
  ghost predicate Mergeable(mem: seq<Word>, blocks: Blocks, x: Shape, a: nat, n: nat) {
    && a + 4 <= n < |mem|
    && mem[n].Info?
    && (forall g: nat :: At(g) in x.next ==> g + 4 <= a || g == a || n <= g)
    && (mem[n].alloc <==> !(n in blocks && !blocks[n].alloc))
    && (mem[n].alloc ==> n !in x.idx)
    && (!mem[n].alloc ==>
          && n in x.idx && mem[n].size == blocks[n].size && 2 <= mem[n].size && n + 2 * mem[n].size < |mem|
          && forall g: nat :: At(g) in x.next ==> g <= n || n + 2 * mem[n].size <= g)
  }

  lemma PreviousFacts(mem: seq<Word>, blocks: Blocks, x: Shape, h: nat) returns (a: nat)
    requires Layout(mem, blocks) && KeysFree(blocks, x.next) && x.idx == FreeMap(blocks)
    requires h in blocks && blocks[h].alloc
    ensures 0 < h && a <= h < After(blocks, h) < |mem|
    ensures mem[h].Info? && mem[h].size == blocks[h].size && !IsLinkWord(x.next, h)
    ensures a == FreedFrom(blocks, h)
    ensures forall g :: g in blocks && After(blocks, g) == a ==> blocks[g].alloc
    ensures a in blocks && mem[a].Info? && mem[a].prevAlloc && (a == h || After(blocks, a) == h)
    ensures mem[h].prevAlloc ==> a == h
    ensures h !in FreeMap(blocks)
    ensures !mem[h].prevAlloc ==>
              && mem[h - 1].Info? && a == h - 2 * mem[h - 1].size && a < h
              && a in x.idx && mem[a].Info? && 2 * mem[a].size == h - a
              && !IsLinkWord(x.next, a) && !IsLinkWord(x.next, After(blocks, h) - 1)
  {
    PreviousBlock(mem, blocks, h);
    assert Tagged(mem, blocks, h) && TileOk(blocks, FIRST, |mem| - 1, h);
    NotLinkWords(blocks, FIRST, |mem| - 1, x.next, h);
    a := h;
    FreedFromIs(blocks, FIRST, |mem| - 1, h);
    if !mem[h].prevAlloc {
      a := h - 2 * mem[h - 1].size;
      BelowFree(mem, blocks, a);
      assert Tagged(mem, blocks, a) && TileOk(blocks, FIRST, |mem| - 1, a);
      NotLinkWords(blocks, FIRST, |mem| - 1, x.next, a);
    }
  }

  lemma NextFacts(m0: seq<Word>, mem: seq<Word>, blocks: Blocks, x0: Shape, x: Shape, a: nat, h: nat)
    requires Layout(m0, blocks) && KeysFree(blocks, x0.next)
    requires h in blocks && blocks[h].alloc && a in blocks && (a == h || After(blocks, a) == h)
    requires Outside(x0.next, m0, mem, a, After(blocks, h))
    requires x.next.Keys == x0.next.Keys && x.idx == FreeMap(blocks) - {a}
    ensures Mergeable(mem, blocks, x, a, After(blocks, h))
  {
    var n, end := After(blocks, h), |m0| - 1;
    assert Tagged(m0, blocks, h) && TileOk(blocks, FIRST, end, h);
    NotLinkWords(blocks, FIRST, end, x0.next, h);
    assert TileOk(blocks, FIRST, end, a);
    forall g: nat | At(g) in x.next
      ensures g + 4 <= a || g == a || n <= g
      ensures n in blocks && !blocks[n].alloc ==> g <= n || After(blocks, n) <= g
    {
      assert TileOk(blocks, FIRST, end, g);
      assert At(g) in x0.next;
      assert a < g < n ==> g == h;
    }
    if n in blocks {
      assert Tagged(m0, blocks, n) && TileOk(blocks, FIRST, end, n);
    }
  }

  lemma ReleaseFacts(m0: seq<Word>, blocks: Blocks, x0: Shape, x: Shape, a: nat, e: nat, h: nat)
    requires Layout(m0, blocks) && KeysFree(blocks, x0.next)
    requires h in blocks && blocks[h].alloc
    requires a == FreedFrom(blocks, h) && e == FreedTo(blocks, h)
    requires forall g: nat :: At(g) in x.next ==> At(g) in x0.next
    requires e > After(blocks, h) ==> At(After(blocks, h)) !in x.next
    ensures a in blocks && a + 4 <= e < |m0| && m0[e].Info?
    ensures !IsLinkWord(x0.next, e) && !IsLinkWord(x0.next, a)
    ensures forall g: nat :: At(g) in x.next && g != a ==> g + 4 <= a || e <= g
  {
    var n, end := After(blocks, h), |m0| - 1;
    FreedFromIs(blocks, FIRST, end, h);
    assert TileOk(blocks, FIRST, end, h) && TileOk(blocks, FIRST, end, a) && Tagged(m0, blocks, h);
    NotLinkWords(blocks, FIRST, end, x0.next, h);
    NotLinkWords(blocks, FIRST, end, x0.next, a);
    if e != n {
      assert TileOk(blocks, FIRST, end, n) && Tagged(m0, blocks, n);
      NotLinkWords(blocks, FIRST, end, x0.next, n);
    }
    forall g: nat | At(g) in x.next && g != a
      ensures g + 4 <= a || e <= g
    {
      assert TileOk(blocks, FIRST, end, g) && At(g) in x0.next;
    }
  }

  lemma ReleaseLayout(m0: seq<Word>, mem: seq<Word>, blocks: Blocks, next: map<Ptr, Ptr>, a: nat, e: nat, h: nat)
    requires Layout(m0, blocks) && KeysFree(blocks, next)
    requires h in blocks && blocks[h].alloc
    requires a == FreedFrom(blocks, h) && e == FreedTo(blocks, h)
    requires a + 4 <= e < |m0|
    requires SameAround(next, m0, mem, a, e) && mem[e].Info? && !mem[e].prevAlloc
    requires mem[a] == mem[e - 1] == Info(false, true, (e - a) / 2, 0) && (e - a) % 2 == 0
    ensures Layout(mem, Freed(blocks, h))
    ensures PayloadsKept(blocks - {h}, m0, mem)
  {
    hide Layout, KeysFree;
    var seg := map[a := Block((e - a) / 2, false, 0)];
    SegmentIs(m0, blocks, h);
    OneTile(a, seg[a]);
    assert Tagged(mem, seg, a);
    assert AllTagged(mem, seg);
    Settles(m0, mem, blocks, next, a, e, seg);
    SettlesPayloads(m0, mem, blocks, next, a, e);
    PayloadsSplit(blocks, blocks - {h}, m0, mem, a, e);
  }

  lemma PayloadsSplit(blocks: Blocks, keep: Blocks, m0: seq<Word>, mem: seq<Word>, a: nat, e: nat)
    requires PayloadsKept(From(blocks, e), m0, mem) && PayloadsKept(Below(blocks, a), m0, mem)
    requires forall g :: g in keep ==> g in blocks && keep[g] == blocks[g]
    requires forall g :: g in keep && keep[g].alloc ==> g < a || e <= g
    ensures PayloadsKept(keep, m0, mem)
  {
    forall g | g in keep && keep[g].alloc
      ensures WordsKept(m0, mem, g, After(keep, g))
    {
      if e <= g {
        assert WordsKept(m0, mem, g, After(From(blocks, e), g));
      } else {
        assert WordsKept(m0, mem, g, After(Below(blocks, a), g));
      }
    }
  }

  lemma ReleaseIndex(m0: seq<Word>, blocks: Blocks, x0: Shape, x2: Shape, x: Shape, a: nat, e: nat, h: nat)
    requires Layout(m0, blocks) && KeysFree(blocks, x0.next)
    requires h in blocks && blocks[h].alloc
    requires a == FreedFrom(blocks, h) && e == FreedTo(blocks, h)
    requires a <= e
    requires x2.idx == FreeMap(blocks) - {a} - {After(blocks, h)} && x.idx == x2.idx[a := (e - a) / 2]
    requires forall g: nat :: At(g) in x.next ==> g == a || At(g) in x2.next
    requires forall g: nat :: At(g) in x2.next ==> At(g) in x0.next
    requires forall g: nat :: At(g) in x2.next && g != a ==> g + 4 <= a || e <= g
    ensures KeysFree(Freed(blocks, h), x.next)
    ensures x.idx == FreeMap(Freed(blocks, h)) - {}
  {
    hide Layout, KeysFree, Freed, FreeMap, Splice;
    SegmentIs(m0, blocks, h);
    FreedIs(blocks, h);
    OneFree(blocks, a, e, (e - a) / 2, {a, After(blocks, h)});
    OneFreeKeys(blocks, a, e, (e - a) / 2, x0.next, x2.next, x.next);
    assert FreeMap(blocks) - {a} - {After(blocks, h)} == FreeMap(blocks) - {a, After(blocks, h)};
  }

  lemma OneFreeKeys(blocks: Blocks, a: nat, e: nat, rows: nat, next0: map<Ptr, Ptr>, next2: map<Ptr, Ptr>,
                    next: map<Ptr, Ptr>)
    requires KeysFree(blocks, next0) && a < e
    requires forall g: nat :: At(g) in next ==> g == a || At(g) in next2
    requires forall g: nat :: At(g) in next2 ==> At(g) in next0
    requires forall g: nat :: At(g) in next2 && g != a ==> g + 4 <= a || e <= g
    ensures KeysFree(Splice(blocks, a, e, map[a := Block(rows, false, 0)]), next)
  {
    hide Splice;
    SpliceAt(blocks, a, e, map[a := Block(rows, false, 0)]);
  }

  lemma FreedIs(blocks: Blocks, h: nat)
    requires h in blocks && FreedFrom(blocks, h) <= FreedTo(blocks, h)
    ensures var a, e := FreedFrom(blocks, h), FreedTo(blocks, h);
            Freed(blocks, h) == Splice(blocks, a, e, map[a := Block((e - a) / 2, false, 0)])
  {
  }

  lemma OneFree(blocks: Blocks, a: nat, e: nat, rows: nat, cut: set<nat>)
    requires a < e && a in cut
    requires forall g :: g in blocks && a <= g < e ==> g in cut || blocks[g].alloc
    requires forall g :: g in blocks && g in cut ==> a <= g < e || blocks[g].alloc
    ensures FreeMap(Splice(blocks, a, e, map[a := Block(rows, false, 0)])) == (FreeMap(blocks) - cut)[a := rows]
  {
    hide Splice;
    SpliceAt(blocks, a, e, map[a := Block(rows, false, 0)]);
  }

  /** Between the ends of the block that h will be part of there are only h and its free
      neighbours, and what lies beyond on either side is allocated. */
  lemma SegmentIs(m0: seq<Word>, blocks: Blocks, h: nat)
    requires Layout(m0, blocks)
    requires h in blocks && blocks[h].alloc
    ensures var a, e := FreedFrom(blocks, h), FreedTo(blocks, h);
            && a in blocks && a <= h < e < |m0| && (e in blocks || e == |m0| - 1)
            && (forall g :: g in blocks && a <= g < e ==> g == a || g == h || g == After(blocks, h))
            && (forall g :: g in blocks && a <= g < e && blocks[g].alloc ==> g == h)
            && (After(blocks, h) < e ==> After(blocks, h) in blocks)
            && (forall g :: g in blocks && After(blocks, g) == a ==> blocks[g].alloc)
            && m0[a].Info? && m0[a].prevAlloc
            && (e in blocks ==> blocks[e].alloc)
  {
    var a, e, n, end := FreedFrom(blocks, h), FreedTo(blocks, h), After(blocks, h), |m0| - 1;
    FreedFromIs(blocks, FIRST, end, h);
    PreviousBlock(m0, blocks, h);
    assert TileOk(blocks, FIRST, end, h) && TileOk(blocks, FIRST, end, a);
    if a != h {
      BelowFree(m0, blocks, a);
    }
    if n in blocks {
      assert TileOk(blocks, FIRST, end, n);
    }
  }

  /** The words [f, e) carry no links, and if the block at e is free, the index holds it
      and the words up to its end carry no other links. */
  ghost predicate Splittable(mem: seq<Word>, x: Shape, f: nat, e: nat) {
    && f + 4 <= e < |mem|
    && mem[e].Info?
    && f !in x.idx
    && (forall g: nat :: At(g) in x.next ==> g + 4 <= f || e <= g)
    && (!mem[e].alloc ==>
          && e in x.idx && x.idx[e] == mem[e].size && 2 <= mem[e].size && e + 2 * mem[e].size < |mem|
          && forall g: nat :: At(g) in x.next ==> g <= e || e + 2 * mem[e].size <= g)
  }

  lemma NotThere(nodes: seq<SizeNode>, order: seq<nat>, size: nat, i: nat, j: nat)
    requires Ordered(nodes, order)
    requires 1 <= i <= |order| && j < |nodes| && 0 < size
    requires forall a :: 0 <= a < i && order[a] < |nodes| ==> nodes[order[a]].size < size
    requires i < |order| && order[i] < |nodes| ==> size < nodes[order[i]].size
    ensures nodes[j].size != size
  {
    assert j in order;
    var b :| 0 <= b < |order| && order[b] == j;
    if i < b {
      assert NodeAt(nodes, order, i);
      assert nodes[order[i]].size < nodes[order[b]].size;
    }
  }
}
