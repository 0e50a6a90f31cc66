/** The heap seen as a set of blocks, keyed by the word address of their headers.

    Addresses count 8-byte words.  Block sizes count 16-byte rows, as the 28-bit
    `block_size` field does, so a block of size n covers 2*n words.
 */
module HeapTiling {

  datatype Block = Block(size: nat, alloc: bool, requested: nat)

  type Blocks = map<nat, Block>

  /** The address just past the block at h: the next header, or the epilogue. */
  function After(blocks: Blocks, h: nat): nat
    requires h in blocks
  {
    h + 2 * blocks[h].size
  }

  /** The blocks cover the words [start, end) exactly, without gap or overlap, and each
      of them is at least 32 bytes long. */
  ghost predicate Tiling(blocks: Blocks, start: nat, end: nat) {
    && start <= end
    && (start < end ==> start in blocks)
    && (forall h {:trigger TileOk(blocks, start, end, h)} :: h in blocks ==> TileOk(blocks, start, end, h))
    && (forall g, h {:trigger g in blocks, h in blocks} :: g in blocks && h in blocks && g < h ==>
        After(blocks, g) <= h)
  }

  ghost predicate TileOk(blocks: Blocks, start: nat, end: nat, h: nat)
    requires h in blocks
  {
    && start <= h
    && h % 2 == start % 2
    && 2 <= blocks[h].size
    && After(blocks, h) <= end
    && (After(blocks, h) == end || After(blocks, h) in blocks)
  }

  ghost predicate NoAdjacentFree(blocks: Blocks) {
    forall h {:trigger After(blocks, h)} :: h in blocks && !blocks[h].alloc && After(blocks, h) in blocks
      ==> blocks[After(blocks, h)].alloc
  }

  function Below(blocks: Blocks, m: nat): Blocks {
    map h | h in blocks && h < m :: blocks[h]
  }

  function From(blocks: Blocks, m: nat): Blocks {
    map h | h in blocks && m <= h :: blocks[h]
  }

  /** Replaces the blocks that start in [a, e) by those of seg. */
  function Splice(blocks: Blocks, a: nat, e: nat, seg: Blocks): Blocks {
    Below(blocks, a) + seg + From(blocks, e)
  }

  lemma SpliceAt(blocks: Blocks, a: nat, e: nat, seg: Blocks)
    requires forall h :: h in seg ==> a <= h < e
    ensures forall g :: g in Splice(blocks, a, e, seg) <==> (g in blocks && (g < a || e <= g)) || g in seg
    ensures forall g :: g in Splice(blocks, a, e, seg) ==>
              Splice(blocks, a, e, seg)[g] == if g in seg then seg[g] else blocks[g]
  {
  }

  lemma {:induction false} Predecessor(blocks: Blocks, start: nat, end: nat, m: nat) returns (p: nat)
    requires Tiling(blocks, start, end)
    requires m in blocks || m == end
    requires start < m
    ensures p in blocks && After(blocks, p) == m
  {
    if m in blocks {
      assert TileOk(blocks, start, end, m);
    }
    p := LastBelow(blocks, start, m);
    assert TileOk(blocks, start, end, p);
    if After(blocks, p) in blocks && After(blocks, p) < m {
      assert false;
    }
  }

  /** The last block that starts below m. */
  lemma {:induction false} LastBelow(blocks: Blocks, start: nat, m: nat) returns (p: nat)
    requires start in blocks && start < m
    ensures p in blocks && p < m && forall h :: h in blocks && h < m ==> h <= p
    decreases m
  {
    if m - 1 in blocks {
      p := m - 1;
    } else {
      p := LastBelow(blocks, start, m - 1);
    }
  }

  lemma OneTile(a: nat, b: Block)
    requires 2 <= b.size
    ensures Tiling(map[a := b], a, a + 2 * b.size)
    ensures NoAdjacentFree(map[a := b])
  {
    assert TileOk(map[a := b], a, a + 2 * b.size, a);
  }

  /** An allocated block followed by a free one. */
  lemma TwoTiles(a: nat, b: Block, c: Block)
    requires 2 <= b.size && 2 <= c.size && b.alloc
    ensures var m, e := a + 2 * b.size, a + 2 * b.size + 2 * c.size;
            Tiling(map[a := b, m := c], a, e) && NoAdjacentFree(map[a := b, m := c])
  {
    var m, e := a + 2 * b.size, a + 2 * b.size + 2 * c.size;
    var seg := map[a := b, m := c];
    assert TileOk(seg, a, e, a) && TileOk(seg, a, e, m);
  }

  lemma InRange(blocks: Blocks, start: nat, end: nat)
    requires Tiling(blocks, start, end)
    ensures forall h :: h in blocks ==> start <= h < end
  {
    forall h | h in blocks
      ensures start <= h < end
    {
      assert TileOk(blocks, start, end, h);
    }
  }

  lemma CutBelow(blocks: Blocks, start: nat, end: nat, m: nat)
    requires Tiling(blocks, start, end)
    requires m in blocks || m == end
    ensures Tiling(Below(blocks, m), start, m)
  {
    InRange(blocks, start, end);
    forall h | h in Below(blocks, m)
      ensures TileOk(Below(blocks, m), start, m, h)
    {
      assert TileOk(blocks, start, end, h);
    }
  }

  lemma CutFrom(blocks: Blocks, start: nat, end: nat, m: nat)
    requires Tiling(blocks, start, end)
    requires m in blocks || m == end
    ensures Tiling(From(blocks, m), m, end)
  {
    InRange(blocks, start, end);
    if m in blocks {
      assert TileOk(blocks, start, end, m);
    }
    forall h | h in From(blocks, m)
      ensures TileOk(From(blocks, m), m, end, h)
    {
      assert TileOk(blocks, start, end, h);
    }
  }

  lemma Join(left: Blocks, right: Blocks, start: nat, m: nat, end: nat)
    requires Tiling(left, start, m)
    requires Tiling(right, m, end)
    ensures Tiling(left + right, start, end)
  {
    hide TileOk;
    JoinTiles(left, right, start, m, end);
    JoinOrder(left, right, start, m, end);
  }

  lemma JoinTiles(left: Blocks, right: Blocks, start: nat, m: nat, end: nat)
    requires Tiling(left, start, m)
    requires Tiling(right, m, end)
    ensures forall h {:trigger TileOk(left + right, start, end, h)} :: h in left + right ==>
              TileOk(left + right, start, end, h)
  {
    var both := left + right;
    InRange(left, start, m);
    InRange(right, m, end);
    forall h | h in both
      ensures TileOk(both, start, end, h)
    {
      if h in left {
        assert TileOk(left, start, m, h);
      } else {
        assert TileOk(right, m, end, h);
        if start < m {
          var p := Predecessor(left, start, m, m);
          assert TileOk(left, start, m, p);
        }
      }
    }
  }

  lemma JoinOrder(left: Blocks, right: Blocks, start: nat, m: nat, end: nat)
    requires Tiling(left, start, m)
    requires Tiling(right, m, end)
    ensures forall g, h {:trigger g in left + right, h in left + right} ::
              g in left + right && h in left + right && g < h ==> After(left + right, g) <= h
  {
    var both := left + right;
    InRange(left, start, m);
    InRange(right, m, end);
    forall g, h | g in both && h in both && g < h
      ensures After(both, g) <= h
    {
      if g in left {
        assert TileOk(left, start, m, g);
      }
    }
  }

  /** Exchanging the blocks of a segment for another tiling of the same words, possibly
      moving the end of the heap, leaves the heap tiled. */
  lemma SpliceTiles(blocks: Blocks, start: nat, end: nat, a: nat, e: nat, seg: Blocks)
    requires Tiling(blocks, start, end)
    requires a in blocks || a == end
    requires e in blocks || e == end
    requires a <= e
    requires Tiling(seg, a, e)
    ensures Tiling(Splice(blocks, a, e, seg), start, end)
  {
    hide *;
    CutBelow(blocks, start, end, a);
    CutFrom(blocks, start, end, e);
    Join(Below(blocks, a), seg, start, a, e);
    Join(Below(blocks, a) + seg, From(blocks, e), start, e, end);
    assert Splice(blocks, a, e, seg) == Below(blocks, a) + seg + From(blocks, e) by { SpliceIs(blocks, a, e, seg); }
  }

  lemma SpliceIs(blocks: Blocks, a: nat, e: nat, seg: Blocks)
    ensures Splice(blocks, a, e, seg) == Below(blocks, a) + seg + From(blocks, e)
  {
  }
}
