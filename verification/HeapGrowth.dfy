/** How far a request makes the heap grow, in closed form. */
module HeapGrowth {
  import opened Collections
  import opened KernelWords
  import opened HeapModel

  ghost function GrowBy(h: Heap, pages: nat): Heap
    decreases pages
  {
    if pages == 0 then h else GrowBy(Grow(h), pages - 1)
  }

  /** The size of the free block at the heap's end, or 0 if the last block is in use. */
  ghost function Trailing(h: Heap): nat {
    match FreeBefore(h.blocks, h.end)
    case Some(t) => h.blocks[t].size
    case None => 0
  }

  /** Where the free block at the heap's end starts, or would start. */
  ghost function TrailingStart(h: Heap): nat {
    match FreeBefore(h.blocks, h.end)
    case Some(t) => t
    case None => h.end
  }

  /** The least number of pages that makes a trailing block of t words as long as needed. */
  function PagesFor(t: nat, need: nat): (k: nat)
    ensures t + 1024 * k >= need
    ensures k > 0 ==> t + 1024 * (k - 1) < need
  {
    if need <= t then 0 else (need - t + WORDS_IN_PAGE - 1) / WORDS_IN_PAGE
  }

  /** The pages the heap can still get, from the physical allocator and under its own limit. */
  function Obtainable(h: Heap, frames: nat): nat
    requires h.end <= MAX_HEAP_WORDS
  {
    var room := (MAX_HEAP_WORDS - h.end) / WORDS_IN_PAGE;
    if frames < room then frames else room
  }

  /** One more page: the trailing block is a page longer, and no other block has changed. */
  lemma GrowTrailing(h: Heap)
    requires Inv(h) && h.end < MAX_HEAP_WORDS
    ensures Trailing(Grow(h)) == Trailing(h) + 1024
    ensures TrailingStart(Grow(h)) == TrailingStart(h)
    ensures IsFree(Grow(h).blocks, TrailingStart(h))
    ensures forall b :: b in h.blocks && b != TrailingStart(h) ==>
      b in Grow(h).blocks && Grow(h).blocks[b] == h.blocks[b]
    ensures Grow(h).blocks.Keys == h.blocks.Keys + {TrailingStart(h)}
  {
    GrowInv(h);
    assert Followed(h.end, h.blocks, h.end);
    FreeBeforeIs(Grow(h).end, Grow(h).blocks, TrailingStart(h));
  }

  /** After one more page the request fits only if it fits in the trailing block. */
  lemma GrowFit(h: Heap, need: nat)
    requires Inv(h) && h.end < MAX_HEAP_WORDS && FirstFit(h, need, 0).None? && need > 0
    ensures var fit := FirstFit(Grow(h), need, 0);
      if Trailing(h) + WORDS_IN_PAGE < need then fit.None?
      else fit.Some? && Grow(h).free[fit.value] == TrailingStart(h)
  {
    GrowInv(h);
    GrowTrailing(h);
    var h', t := Grow(h), TrailingStart(h);
    forall k: nat | k < |h'.free| && h'.free[k] != t ensures !Fits(h', k, need) {
      assert h'.free[k] in h'.free;
      assert h'.free[k] in h.free;
      var i := Position(h.free, h'.free[k]);
      assert !Fits(h, i, need);
    }
    var k := Position(h'.free, t);
    assert Fits(h', k, need) <==> Trailing(h) + WORDS_IN_PAGE >= need by {
      assert h'.blocks[t].size == Trailing(h');
    }
  }

  /** After k more pages the request is served from the trailing block, which is then k pages longer. */
  ghost predicate ServedAfter(h: Heap, need: nat, frames: nat, k: nat)
    requires Inv(h)
  {
    var grown, t := GrowBy(h, k), TrailingStart(h);
    && k <= frames && Inv(grown)
    && t in grown.free && t in grown.blocks && need <= grown.blocks[t].size == Trailing(h) + WORDS_IN_PAGE * k
    && Malloc(h, need, frames) == (Take(grown, Position(grown.free, t), need), Some(t), frames - k)
  }

  /** The request fails once the heap has grown by k pages. */
  ghost predicate FailsAfter(h: Heap, need: nat, frames: nat, k: nat)
    requires Inv(h)
  {
    k <= frames && Malloc(h, need, frames) == (GrowBy(h, k), None, frames - k)
  }

  lemma FailsAfterOneMore(h: Heap, need: nat, frames: nat, k: nat)
    requires Inv(h) && h.end < MAX_HEAP_WORDS && FirstFit(h, need, 0).None? && frames > 0
    requires Inv(Grow(h)) && FailsAfter(Grow(h), need, frames - 1, k)
    ensures FailsAfter(h, need, frames, k + 1)
  {
    assert GrowBy(h, k + 1) == GrowBy(Grow(h), k);
  }

  /** One page more leaves one page fewer to be needed, and one fewer to be had. */
  lemma CountsAfterGrow(h: Heap, need: nat, frames: nat)
    requires Inv(h) && h.end < MAX_HEAP_WORDS && frames > 0 && Trailing(h) + WORDS_IN_PAGE < need
    ensures Inv(Grow(h))
    ensures PagesFor(Trailing(h), need) == PagesFor(Trailing(Grow(h)), need) + 1
    ensures Obtainable(h, frames) == Obtainable(Grow(h), frames - 1) + 1
  {
    GrowInv(h);
    GrowTrailing(h);
  }

  lemma ServedAfterOneMore(h: Heap, need: nat, frames: nat, k: nat)
    requires Inv(h) && h.end < MAX_HEAP_WORDS && FirstFit(h, need, 0).None? && frames > 0
    requires Inv(Grow(h)) && ServedAfter(Grow(h), need, frames - 1, k)
    ensures ServedAfter(h, need, frames, k + 1)
  {
    GrowTrailing(h);
    assert GrowBy(h, k + 1) == GrowBy(Grow(h), k);
  }

  /**
   When no free block fits, the heap grows by the least number of pages that makes the trailing block
   long enough, and the request is served from there; if so many pages are not to be had, the heap
   takes all it can get and the request fails.
   */
  lemma {:induction false} MallocGrowsLeast(h: Heap, need: nat, frames: nat)
    requires Inv(h) && need >= BOOKKEEPING_WORDS && FirstFit(h, need, 0).None?
    ensures var k, most := PagesFor(Trailing(h), need), Obtainable(h, frames);
      && k > 0
      && if k <= most then ServedAfter(h, need, frames, k)
         else FailsAfter(h, need, frames, most)
    decreases frames
  {
    TrailingTooShort(h, need);
    if frames > 0 && h.end < MAX_HEAP_WORDS {
      GrowFit(h, need);
      if Trailing(h) + WORDS_IN_PAGE < need {
        CountsAfterGrow(h, need, frames);
        MallocGrowsLeast(Grow(h), need, frames - 1);
        var k, most := PagesFor(Trailing(Grow(h)), need), Obtainable(Grow(h), frames - 1);
        if k <= most {
          ServedAfterOneMore(h, need, frames, k);
        } else {
          FailsAfterOneMore(h, need, frames, most);
        }
      } else {
        OnePageServes(h, need, frames);
      }
    } else {
      NoPageToBeHad(h, need, frames);
    }
  }

  lemma NoPageToBeHad(h: Heap, need: nat, frames: nat)
    requires Inv(h) && FirstFit(h, need, 0).None? && (frames == 0 || h.end == MAX_HEAP_WORDS)
    ensures Obtainable(h, frames) == 0 && FailsAfter(h, need, frames, 0)
  {
  }

  lemma OnePageServes(h: Heap, need: nat, frames: nat)
    requires Inv(h) && need > 0 && FirstFit(h, need, 0).None? && frames > 0 && h.end < MAX_HEAP_WORDS
    requires Trailing(h) < need <= Trailing(h) + WORDS_IN_PAGE
    ensures PagesFor(Trailing(h), need) == 1 <= Obtainable(h, frames) && ServedAfter(h, need, frames, 1)
  {
    GrowInv(h);
    GrowTrailing(h);
    GrowFit(h, need);
    var h1 := Grow(h);
    assert GrowBy(h, 1) == GrowBy(h1, 0);
    var i := FirstFit(h1, need, 0).value;
    assert h1.free[i] in h1.free;
  }

  lemma TrailingTooShort(h: Heap, need: nat)
    requires Inv(h) && need > 0 && FirstFit(h, need, 0).None?
    ensures Trailing(h) < need
  {
    var t := FreeBefore(h.blocks, h.end);
    if t.Some? {
      var i := Position(h.free, t.value);
      assert !Fits(h, i, need);
    }
  }

  /** A request fails exactly when no free block fits and the pages it would take are not to be had. */
  lemma MallocFails(h: Heap, need: nat, frames: nat)
    requires Inv(h) && need >= BOOKKEEPING_WORDS
    ensures Malloc(h, need, frames).1.None? <==>
      FirstFit(h, need, 0).None? && PagesFor(Trailing(h), need) > Obtainable(h, frames)
  {
    if FirstFit(h, need, 0).None? {
      MallocGrowsLeast(h, need, frames);
    }
  }
}
