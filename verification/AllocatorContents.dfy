/** What becomes of the contents of a block that is resized.  A smaller or equal request keeps
    them; a larger one copies nothing.
 */
module AllocatorContents {
  import opened HeapTiling
  import opened FreeIndex
  import opened BoundaryTags
  import opened HeapSteps
  import opened Allocator
  import opened AllocatorRuns

  /** The number of words that hold so many bytes. */
  function WordsFor(bytes: nat): nat {
    (bytes + 7) / 8
  }

  /** The words that hold the first so many bytes are the same. */
  ghost predicate Kept(words: seq<Word>, words': seq<Word>, bytes: nat) {
    forall k :: 0 <= k < WordsFor(bytes) ==> k < |words| && k < |words'| && words'[k] == words[k]
  }

  /** The words behind g are already those. */
  ghost predicate Held(mem: seq<Word>, g: nat, words: seq<Word>, bytes: nat) {
    forall k :: 0 <= k < WordsFor(bytes) && g + 1 + k < |mem| ==> k < |words| && mem[g + 1 + k] == words[k]
  }

  /** The payload has room for what was requested. */
  lemma HasRoom(mem: seq<Word>, blocks: Blocks, view: View, h: nat)
    requires AllHonest(blocks) && Agrees(mem, blocks, view) && h in view
    ensures WordsFor(view[h].requested) <= |view[h].words|
  {
    assert h in LiveSet(blocks) && Sees(mem, blocks, view, h);
  }

  /** A request that is not larger keeps the contents, whatever they are. */
  lemma CutKeeps(mem: seq<Word>, blocks: Blocks, view: View, view': View, h: nat, size: nat)
    requires AllHonest(blocks) && Agrees(mem, blocks, view) && h in view && size <= view[h].requested
    requires Cuts(view, view', h, size)
    ensures Kept(view[h].words, view'[h].words, size)
  {
    var words, words' := view[h].words, view'[h].words;
    assert WordsFor(size) <= |words'| && words' == words[..|words'|];
    forall k | 0 <= k < WordsFor(size)
      ensures k < |words| && k < |words'| && words'[k] == words[k]
    {
    }
  }

  /** A larger one keeps them if and only if the chosen words held the same already. */
  lemma GrowthKeeps(words: seq<Word>, words': seq<Word>, mem: seq<Word>, g: nat, bytes: nat)
    requires WordsFor(bytes) <= |words| && WordsFor(bytes) <= |words'| && Uncopied(mem, g, words')
    ensures Kept(words, words', bytes) ==> Held(mem, g, words, bytes)
    ensures g + WordsFor(bytes) < |mem| && Held(mem, g, words, bytes) ==> Kept(words, words', bytes)
  {
  }

  /** The first words of a free block are its links. */
  lemma FreeHoldsLinks(mem: seq<Word>, nodes: seq<SizeNode>, blocks: Blocks, x: Shape, g: nat)
    requires HeapInv(mem, nodes, blocks, x, {}) && g in blocks && !blocks[g].alloc
    ensures g + 2 < |mem| && mem[g + 1].Link? && mem[g + 2].Link?
  {
    assert g in x.idx;
    var k, i := Where(nodes, x, g);
    assert LinkWords(mem, nodes, x, At(g));
  }

  /** `sf_realloc` and the contents.  They are kept if the request is not larger, and then
      always; if it is larger and met, exactly if the chosen block held them already (as far
      as it lay within the heap); and never if they begin with a word of data and the chosen
      block was free before. */
  method Resize(heap: Heap, view: View, h: nat, size: nat, pages: nat) returns (r: Outcome, view': View)
    requires Working(heap, view) && h in view && 0 < view[h].requested && 0 < size <= INT_MAX - 23
    requires SmallHeap(heap.mem, pages)
    requires view[h].requested < size ==> !Faulty(heap.mem, heap.nodes, heap.blocks, size, pages)
    modifies heap
    ensures Working(heap, view')
    ensures size <= view[h].requested ==> r == Payload(h) && h in view' && Kept(view[h].words, view'[h].words, size)
    ensures view[h].requested < size && r.Payload? ==>
              && r.header in view'
              && (Kept(view[h].words, view'[r.header].words, view[h].requested) ==>
                    Held(old(heap.mem), r.header, view[h].words, view[h].requested))
              && (r.header + WordsFor(view[h].requested) < |old(heap.mem)| ==>
                    Held(old(heap.mem), r.header, view[h].words, view[h].requested) ==>
                    Kept(view[h].words, view'[r.header].words, view[h].requested))
    ensures (&& view[h].requested < size && r.Payload? && r.header != |old(heap.mem)| - 1
             && |view[h].words| > 0 && view[h].words[0].Data?) ==>
              r.header in view' && !Kept(view[h].words, view'[r.header].words, view[h].requested)
  {
    hide HeapInv, Layout, Faulty, Misreads, Reinserts, GetNewSize, Computable, Kept, Held, AllHonest, Agrees, Uncopied,
      Sound;
    FitsInt(size);
    ghost var m0, n0, b0, x0 := heap.mem, heap.nodes, heap.blocks, heap.x;
    HasRoom(m0, b0, view, h);
    r, view' := DoRealloc(heap, view, h, size, pages);
    if size <= view[h].requested {
      CutKeeps(m0, b0, view, view', h, size);
    } else if r.Payload? {
      var words' := view'[r.header].words;
      RoomForMore(view[h].requested, size, |words'|);
      GrowthKeeps(view[h].words, words', m0, r.header, view[h].requested);
      if r.header != |m0| - 1 {
        LiveState(m0, n0, b0, x0, view, h);
        FreeHoldsLinks(m0, n0, b0, x0, r.header);
        DataLost(m0, r.header, view[h].words, view[h].requested);
      }
    }
  }

  lemma LiveState(mem: seq<Word>, nodes: seq<SizeNode>, blocks: Blocks, x: Shape, view: View, h: nat)
    requires if Untouched(mem, nodes) then blocks == map[] && x == NO_SHAPE else HeapInv(mem, nodes, blocks, x, {})
    requires Agrees(mem, blocks, view) && h in view
    ensures HeapInv(mem, nodes, blocks, x, {})
  {
  }

  lemma RoomForMore(bytes: nat, size: nat, words: nat)
    requires bytes < size <= 8 * words
    ensures WordsFor(bytes) <= words
  {
  }

  lemma DataLost(mem: seq<Word>, g: nat, words: seq<Word>, bytes: nat)
    requires 0 < bytes && g + 2 < |mem| && mem[g + 1].Link?
    ensures |words| > 0 && words[0].Data? ==> !Held(mem, g, words, bytes)
  {
    assert 0 < WordsFor(bytes);
    assert g + 1 + 0 < |mem|;
  }
}
