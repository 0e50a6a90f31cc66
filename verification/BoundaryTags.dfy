/** Headers, footers and `prev_allocated` bits: how the words of the heap describe its
    blocks, and when they still do after some of them were rewritten.
 */
module BoundaryTags {
  import opened HeapTiling
  import opened FreeIndex

  /** Words in a page, and the address of the first header, just past the prologue. */
  const PAGE: nat := 512
  const FIRST: nat := 5

  /** The header of h, the bit after it, and its footer if it is free, tell the truth. */
  ghost predicate Tagged(mem: seq<Word>, blocks: Blocks, h: nat)
    requires h in blocks
  {
    var next := After(blocks, h);
    && h < next < |mem|
    && mem[h].Info? && mem[h].alloc == blocks[h].alloc
    && mem[h].size == blocks[h].size && mem[h].requested == blocks[h].requested
    && mem[next].Info? && mem[next].prevAlloc == blocks[h].alloc
    && (!blocks[h].alloc ==> mem[next - 1].Info? && !mem[next - 1].alloc && mem[next - 1].size == blocks[h].size)
  }

  ghost predicate AllTagged(mem: seq<Word>, blocks: Blocks) {
    forall h {:trigger Tagged(mem, blocks, h)} :: h in blocks ==> Tagged(mem, blocks, h)
  }

  /** An allocated block of 48 bytes, whose header and footer frame the words 1 to 4. */
  predicate Prologue(mem: seq<Word>) {
    && FIRST <= |mem|
    && mem[1].Info? && mem[1].alloc && !mem[1].prevAlloc && mem[1].size == 3
    && mem[4].Info? && mem[4].alloc && !mem[4].prevAlloc && mem[4].size == 3
  }

  ghost predicate Tags(mem: seq<Word>, blocks: Blocks) {
    && FIRST < |mem| - 1
    && Prologue(mem)
    && AllTagged(mem, blocks)
    && mem[FIRST].Info? && mem[FIRST].prevAlloc
    && mem[|mem| - 1].Info? && mem[|mem| - 1].alloc && mem[|mem| - 1].size == 0
  }

  /** The heap is tiled from the prologue to the epilogue by correctly tagged blocks, and
      no two free blocks are neighbours. */
  ghost predicate Layout(mem: seq<Word>, blocks: Blocks) {
    && PAGE <= |mem| && |mem| % PAGE == 0
    && Tiling(blocks, FIRST, |mem| - 1)
    && NoAdjacentFree(blocks)
    && Tags(mem, blocks)
  }

  function FreeMap(blocks: Blocks): map<nat, nat> {
    map h | h in blocks && !blocks[h].alloc :: blocks[h].size
  }

  /** Only free blocks have link words. */
  ghost predicate KeysFree(blocks: Blocks, next: map<Ptr, Ptr>) {
    forall h: nat :: At(h) in next ==> h in blocks && !blocks[h].alloc
  }

  /** The payload words of the allocated blocks among these are the same. */
  ghost predicate PayloadsKept(blocks: Blocks, mem: seq<Word>, mem': seq<Word>) {
    forall h {:trigger WordsKept(mem, mem', h, After(blocks, h))} :: h in blocks && blocks[h].alloc ==>
      WordsKept(mem, mem', h, After(blocks, h))
  }

  /** The words strictly between lo and hi are the same. */
  ghost predicate WordsKept(mem: seq<Word>, mem': seq<Word>, lo: nat, hi: nat) {
    hi <= |mem| && hi <= |mem'| && forall i :: lo < i < hi ==> mem'[i] == mem[i]
  }

  /** Of the words strictly between lo and hi, those that mem has are still the same. */
  ghost predicate Stale(mem: seq<Word>, mem': seq<Word>, lo: nat, hi: nat) {
    forall i :: lo < i < hi && i < |mem| ==> i < |mem'| && mem'[i] == mem[i]
  }

  // ----- link words are never tags or payload

  lemma NotLinkWords(blocks: Blocks, start: nat, end: nat, next: map<Ptr, Ptr>, h: nat)
    requires Tiling(blocks, start, end)
    requires KeysFree(blocks, next)
    requires h in blocks
    ensures !IsLinkWord(next, h)
    ensures 0 < After(blocks, h)
    ensures !IsLinkWord(next, After(blocks, h) - 1)
    ensures !IsLinkWord(next, After(blocks, h))
    ensures blocks[h].alloc ==> forall i :: h < i < After(blocks, h) ==> !IsLinkWord(next, i)
  {
    assert TileOk(blocks, start, end, h);
    forall g: nat | At(g) in next
      ensures h != g + 1 && h != g + 2
      ensures After(blocks, h) - 1 != g + 1 && After(blocks, h) - 1 != g + 2
      ensures After(blocks, h) != g + 1 && After(blocks, h) != g + 2
      ensures blocks[h].alloc ==> !(h < g + 1 < After(blocks, h)) && !(h < g + 2 < After(blocks, h))
    {
      assert TileOk(blocks, start, end, g);
      assert g < h ==> After(blocks, g) <= h;
      assert h < g ==> After(blocks, h) <= g;
    }
  }

  /** The block below a free block, or below the epilogue when its bit is set, is allocated. */
  lemma BelowFree(mem: seq<Word>, blocks: Blocks, h: nat)
    requires Layout(mem, blocks)
    requires h in blocks && !blocks[h].alloc
    ensures h < |mem| && mem[h].Info? && mem[h].prevAlloc
    ensures forall g :: g in blocks && After(blocks, g) == h ==> blocks[g].alloc
  {
    assert Tagged(mem, blocks, h);
    if h != FIRST {
      assert TileOk(blocks, FIRST, |mem| - 1, h);
      var p := Predecessor(blocks, FIRST, |mem| - 1, h);
      assert Tagged(mem, blocks, p);
    }
  }

  /** A clear `prev_allocated` bit leads, through the footer below, to the free block below. */
  lemma PreviousBlock(mem: seq<Word>, blocks: Blocks, m: nat)
    requires Layout(mem, blocks)
    requires m in blocks || m == |mem| - 1
    ensures FIRST <= m < |mem| && mem[m].Info?
    ensures !mem[m].prevAlloc ==>
              && mem[m - 1].Info? && !mem[m - 1].alloc && 2 * mem[m - 1].size <= m
              && var p := m - 2 * mem[m - 1].size;
                 p in blocks && !blocks[p].alloc && After(blocks, p) == m && p < m
    ensures forall g :: g in blocks && After(blocks, g) == m ==> blocks[g].alloc == mem[m].prevAlloc
  {
    if m in blocks {
      assert TileOk(blocks, FIRST, |mem| - 1, m) && Tagged(mem, blocks, m);
    }
    if m != FIRST {
      var p := Predecessor(blocks, FIRST, |mem| - 1, m);
      assert Tagged(mem, blocks, p) && TileOk(blocks, FIRST, |mem| - 1, p);
      forall g | g in blocks && After(blocks, g) == m
        ensures g == p
      {
        assert TileOk(blocks, FIRST, |mem| - 1, g);
      }
    } else {
      forall g | g in blocks
        ensures After(blocks, g) != FIRST
      {
        assert TileOk(blocks, FIRST, |mem| - 1, g);
      }
    }
  }

  // ----- rewriting a segment

  /** Outside the words [a, e] only link words differ, and the word at e keeps everything
      but its `prev_allocated` bit. */
  ghost predicate SameAround(next: map<Ptr, Ptr>, mem: seq<Word>, mem': seq<Word>, a: nat, e: nat) {
    && |mem'| == |mem|
    && a <= e < |mem|
    && (forall i :: (0 <= i < a || e < i < |mem|) && !IsLinkWord(next, i) ==> mem'[i] == mem[i])
    && mem[e].Info? && mem'[e].Info? && mem'[e] == mem[e].(prevAlloc := mem'[e].prevAlloc)
  }

  /** The prologue lies below everything that is ever rewritten. */
  lemma PrologueKept(mem: seq<Word>, mem': seq<Word>, blocks: Blocks, next: map<Ptr, Ptr>, a: nat)
    requires Layout(mem, blocks) && KeysFree(blocks, next)
    requires FIRST <= a <= |mem| && a <= |mem'|
    requires forall i :: 0 <= i < a && !IsLinkWord(next, i) ==> mem'[i] == mem[i]
    ensures Prologue(mem')
  {
    forall g: nat | At(g) in next
      ensures FIRST <= g
    {
      assert TileOk(blocks, FIRST, |mem| - 1, g);
    }
    assert !IsLinkWord(next, 1) && !IsLinkWord(next, 4);
  }

  lemma TagsBelow(mem: seq<Word>, mem': seq<Word>, blocks: Blocks, next: map<Ptr, Ptr>, a: nat)
    requires Layout(mem, blocks) && KeysFree(blocks, next)
    requires a in blocks || a == |mem| - 1
    requires a < |mem| <= |mem'|
    requires forall i :: 0 <= i < a && !IsLinkWord(next, i) ==> mem'[i] == mem[i]
    requires mem[a].Info? && mem'[a].Info? && mem'[a].prevAlloc == mem[a].prevAlloc
    ensures AllTagged(mem', Below(blocks, a))
  {
    var low := Below(blocks, a);
    forall h | h in low
      ensures Tagged(mem', low, h)
    {
      assert Tagged(mem, blocks, h) && TileOk(blocks, FIRST, |mem| - 1, h);
      NotLinkWords(blocks, FIRST, |mem| - 1, next, h);
      assert After(blocks, h) <= a;
    }
  }

  lemma TagsFrom(mem: seq<Word>, mem': seq<Word>, blocks: Blocks, next: map<Ptr, Ptr>, a: nat, e: nat)
    requires Layout(mem, blocks) && KeysFree(blocks, next)
    requires SameAround(next, mem, mem', a, e)
    ensures AllTagged(mem', From(blocks, e))
  {
    var high := From(blocks, e);
    forall h | h in high
      ensures Tagged(mem', high, h)
    {
      assert Tagged(mem, blocks, h) && TileOk(blocks, FIRST, |mem| - 1, h);
      NotLinkWords(blocks, FIRST, |mem| - 1, next, h);
    }
  }

  lemma TagsTogether(mem: seq<Word>, left: Blocks, right: Blocks)
    requires AllTagged(mem, left) && AllTagged(mem, right)
    ensures AllTagged(mem, left + right)
  {
    forall h | h in left + right
      ensures Tagged(mem, left + right, h)
    {
      if h in right {
        assert Tagged(mem, right, h);
      } else {
        assert Tagged(mem, left, h);
      }
    }
  }

  lemma SpliceNoAdjacent(blocks: Blocks, start: nat, end: nat, a: nat, e: nat, seg: Blocks)
    requires Tiling(blocks, start, end) && NoAdjacentFree(blocks)
    requires Tiling(seg, a, e) && NoAdjacentFree(seg)
    requires a in blocks && a < e && (e in blocks || e == end) && a in seg
    requires forall g :: g in blocks && After(blocks, g) == a ==> blocks[g].alloc || seg[a].alloc
    requires forall g :: g in seg && After(seg, g) == e && e in blocks ==> seg[g].alloc || blocks[e].alloc
    ensures NoAdjacentFree(Splice(blocks, a, e, seg))
  {
    var all := Splice(blocks, a, e, seg);
    InRange(seg, a, e);
    forall h | h in all && !all[h].alloc && After(all, h) in all
      ensures all[After(all, h)].alloc
    {
      if h in seg && h < e {
        assert TileOk(seg, a, e, h);
        assert After(all, h) == After(seg, h);
      } else {
        assert TileOk(blocks, start, end, h);
        assert After(all, h) == After(blocks, h);
        assert h < a ==> After(blocks, h) <= a;
      }
    }
  }

  /** Rewriting the tags of a segment so that they describe another tiling of it gives a
      correct heap again. */
  lemma Settles(mem: seq<Word>, mem': seq<Word>, blocks: Blocks, next: map<Ptr, Ptr>, a: nat, e: nat, seg: Blocks)
    requires Layout(mem, blocks) && KeysFree(blocks, next)
    requires a in blocks && a < e && (e in blocks || e == |mem| - 1)
    requires SameAround(next, mem, mem', a, e)
    requires Tiling(seg, a, e) && NoAdjacentFree(seg) && AllTagged(mem', seg) && a in seg
    requires forall g :: g in blocks && After(blocks, g) == a ==> blocks[g].alloc || seg[a].alloc
    requires mem[a].Info? && mem'[a].Info? && mem'[a].prevAlloc == mem[a].prevAlloc
    requires forall g :: g in seg && After(seg, g) == e && e in blocks ==> seg[g].alloc || blocks[e].alloc
    ensures Layout(mem', Splice(blocks, a, e, seg))
  {
    hide Tiling, NoAdjacentFree, AllTagged, Prologue;
    SpliceTiles(blocks, FIRST, |mem| - 1, a, e, seg);
    SpliceNoAdjacent(blocks, FIRST, |mem| - 1, a, e, seg);
    TagsBelow(mem, mem', blocks, next, a);
    TagsFrom(mem, mem', blocks, next, a, e);
    TagsTogether(mem', Below(blocks, a), seg);
    TagsTogether(mem', Below(blocks, a) + seg, From(blocks, e));
    SettlesEnds(mem, mem', blocks, next, a, e);
  }

  lemma SettlesEnds(mem: seq<Word>, mem': seq<Word>, blocks: Blocks, next: map<Ptr, Ptr>, a: nat, e: nat)
    requires Layout(mem, blocks) && KeysFree(blocks, next)
    requires a in blocks && a < e && (e in blocks || e == |mem| - 1)
    requires SameAround(next, mem, mem', a, e)
    requires mem[a].Info? && mem'[a].Info? && mem'[a].prevAlloc == mem[a].prevAlloc
    ensures Prologue(mem') && mem'[FIRST].Info? && mem'[FIRST].prevAlloc
    ensures var w := mem'[|mem| - 1]; w.Info? && w.alloc && w.size == 0
  {
    assert TileOk(blocks, FIRST, |mem| - 1, a);
    assert TileOk(blocks, FIRST, |mem| - 1, FIRST);
    NotLinkWords(blocks, FIRST, |mem| - 1, next, FIRST);
    var p := Predecessor(blocks, FIRST, |mem| - 1, |mem| - 1);
    NotLinkWords(blocks, FIRST, |mem| - 1, next, p);
    PrologueKept(mem, mem', blocks, next, a);
  }

  lemma SettlesPayloads(mem: seq<Word>, mem': seq<Word>, blocks: Blocks, next: map<Ptr, Ptr>, a: nat, e: nat)
    requires Layout(mem, blocks) && KeysFree(blocks, next)
    requires SameAround(next, mem, mem', a, e)
    ensures PayloadsKept(From(blocks, e), mem, mem')
    ensures a in blocks ==> PayloadsKept(Below(blocks, a), mem, mem')
  {
    forall h | h in blocks && blocks[h].alloc && (e <= h || (h < a && a in blocks))
      ensures WordsKept(mem, mem', h, After(blocks, h))
    {
      NotLinkWords(blocks, FIRST, |mem| - 1, next, h);
      assert TileOk(blocks, FIRST, |mem| - 1, h);
      assert h < a && a in blocks ==> After(blocks, h) <= a;
    }
    forall h | h in From(blocks, e) && blocks[h].alloc
      ensures WordsKept(mem, mem', h, After(From(blocks, e), h))
    {
      assert WordsKept(mem, mem', h, After(blocks, h));
    }
    if a in blocks {
      forall h | h in Below(blocks, a) && blocks[h].alloc
        ensures WordsKept(mem, mem', h, After(Below(blocks, a), h))
      {
        assert WordsKept(mem, mem', h, After(blocks, h));
      }
    }
  }

  // ----- growth

  /** The free block at the end of the heap, or the new block that starts at the old
      epilogue, absorbs a new page. */
  lemma Extends(mem: seq<Word>, mem': seq<Word>, blocks: Blocks, next: map<Ptr, Ptr>, a: nat, rows: nat)
    requires Layout(mem, blocks) && KeysFree(blocks, next)
    requires (a in blocks && !blocks[a].alloc && After(blocks, a) == |mem| - 1) || a == |mem| - 1
    requires a == |mem| - 1 ==> mem[a].Info? && mem[a].prevAlloc
    requires |mem'| == |mem| + PAGE
    requires a + 2 * rows == |mem'| - 1
    requires forall i :: 0 <= i < a && !IsLinkWord(next, i) ==> mem'[i] == mem[i]
    requires mem'[a] == Info(false, true, rows, 0)
    requires var f := mem'[|mem'| - 2]; f.Info? && !f.alloc && f.size == rows
    requires var w := mem'[|mem'| - 1]; w.Info? && w.alloc && !w.prevAlloc && w.size == 0
    ensures Layout(mem', blocks[a := Block(rows, false, 0)])
  {
    hide Tags, Tagged, AllTagged, NoAdjacentFree;
    var end := |mem| - 1;
    LastOne(blocks, FIRST, end, a);
    assert forall g :: g in blocks && After(blocks, g) == a ==> blocks[g].alloc by {
      if a != end {
        BelowFree(mem, blocks, a);
      } else {
        PreviousBlock(mem, blocks, a);
      }
    }
    GrownNoAdjacent(blocks, FIRST, end, a, rows);
    GrownTiling(blocks, FIRST, end, a, rows);
    ExtendsTags(mem, mem', blocks, next, a, rows);
  }

  lemma ExtendsTags(mem: seq<Word>, mem': seq<Word>, blocks: Blocks, next: map<Ptr, Ptr>, a: nat, rows: nat)
    requires Layout(mem, blocks) && KeysFree(blocks, next)
    requires (a in blocks && !blocks[a].alloc && After(blocks, a) == |mem| - 1) || a == |mem| - 1
    requires a == |mem| - 1 ==> mem[a].Info? && mem[a].prevAlloc
    requires |mem'| == |mem| + PAGE
    requires a < a + 2 * rows == |mem'| - 1
    requires forall i :: 0 <= i < a && !IsLinkWord(next, i) ==> mem'[i] == mem[i]
    requires mem'[a] == Info(false, true, rows, 0)
    requires var f := mem'[|mem'| - 2]; f.Info? && !f.alloc && f.size == rows
    requires var w := mem'[|mem'| - 1]; w.Info? && w.alloc && !w.prevAlloc && w.size == 0
    ensures Tags(mem', blocks[a := Block(rows, false, 0)])
  {
    hide NoAdjacentFree;
    var end := |mem| - 1;
    var seg := map[a := Block(rows, false, 0)];
    if a != end {
      BelowFree(mem, blocks, a);
    }
    TagsBelow(mem, mem', blocks, next, a);
    assert Tagged(mem', seg, a);
    TagsTogether(mem', Below(blocks, a), seg);
    LastOne(blocks, FIRST, end, a);
    assert Below(blocks, a) + seg == blocks[a := Block(rows, false, 0)];
    assert TileOk(blocks, FIRST, end, FIRST);
    NotLinkWords(blocks, FIRST, end, next, FIRST);
    if a != end {
      assert TileOk(blocks, FIRST, end, a);
    }
    PrologueKept(mem, mem', blocks, next, a);
  }

  lemma GrownTiling(blocks: Blocks, start: nat, end: nat, a: nat, rows: nat)
    requires Tiling(blocks, start, end)
    requires (a in blocks && After(blocks, a) == end) || a == end
    requires a % 2 == start % 2 && 2 <= rows
    ensures Tiling(blocks[a := Block(rows, false, 0)], start, a + 2 * rows)
  {
    hide Tiling;
    var seg := map[a := Block(rows, false, 0)];
    OneTile(a, Block(rows, false, 0));
    CutBelow(blocks, start, end, a);
    Join(Below(blocks, a), seg, start, a, a + 2 * rows);
    LastOne(blocks, start, end, a);
    assert Below(blocks, a) + seg == blocks[a := Block(rows, false, 0)];
  }

  lemma LastOne(blocks: Blocks, start: nat, end: nat, a: nat)
    requires Tiling(blocks, start, end)
    requires (a in blocks && After(blocks, a) == end) || a == end
    ensures forall h :: h in blocks ==> h <= a
  {
    forall h | h in blocks
      ensures h <= a
    {
      assert TileOk(blocks, start, end, h);
    }
  }

  lemma GrownNoAdjacent(blocks: Blocks, start: nat, end: nat, a: nat, rows: nat)
    requires Tiling(blocks, start, end) && NoAdjacentFree(blocks)
    requires (a in blocks && After(blocks, a) == end) || a == end
    requires forall g :: g in blocks && After(blocks, g) == a ==> blocks[g].alloc
    requires 0 < rows
    ensures NoAdjacentFree(blocks[a := Block(rows, false, 0)])
  {
    LastOne(blocks, start, end, a);
    var all := blocks[a := Block(rows, false, 0)];
    assert After(all, a) !in all;
    forall h | h in all && !all[h].alloc && After(all, h) in all
      ensures all[After(all, h)].alloc
    {
      assert After(blocks, h) == After(all, h);
    }
  }
}
