/**
 What a caller of the allocator may rely on: the heap refines a plain map from payloads to
 their lengths, a request is served first fit, and freeing what was just allocated undoes it.
 */
module HeapContract {
  import opened Collections
  import opened KernelWords
  import opened HeapModel

  // ---- the plain allocator ----

  /** The first word of a block's payload. */
  function Payload(b: nat): nat {
    b + 3
  }

  /** The blocks in use, with the number of words in their payloads. */
  ghost function Live(h: Heap): map<nat, int> {
    map b | b in h.blocks && h.blocks[b].used :: h.blocks[b].size - BOOKKEEPING_WORDS
  }

  /** Payloads lie inside the heap, and no two of them share a word. */
  lemma PayloadsDisjoint(h: Heap, b: nat, c: nat)
    requires Inv(h) && b in Live(h) && c in Live(h)
    ensures 0 <= Live(h)[b] && Payload(b) + Live(h)[b] < h.end
    ensures b < c ==> Payload(b) + Live(h)[b] < c
  {
    assert Followed(h.end, h.blocks, b) && Apart(h.blocks, b, c);
  }

  lemma {:induction false} MallocKeepsInv(h: Heap, need: nat, frames: nat)
    requires Inv(h) && BOOKKEEPING_WORDS <= need
    ensures Inv(Malloc(h, need, frames).0)
    decreases frames
  {
    match FirstFit(h, need, 0)
    case Some(i) => TakeInv(h, i, need);
    case None =>
      if frames > 0 && h.end < MAX_HEAP_WORDS {
        GrowInv(h);
        MallocKeepsInv(Grow(h), need, frames - 1);
      }
  }

  lemma GrowLive(h: Heap)
    requires Inv(h)
    ensures Live(Grow(h)) == Live(h)
  {
    assert Followed(h.end, h.blocks, h.end);
  }

  lemma TakeLive(h: Heap, i: nat, need: nat)
    requires Inv(h) && Fits(h, i, need) && BOOKKEEPING_WORDS <= need
    ensures h.free[i] !in Live(h)
    ensures var b, live := h.free[i], Live(Take(h, i, need));
      && b in live && live == Live(h)[b := live[b]]
      && need - 4 <= live[b] <= need + 12
  {
    var b := h.free[i];
    assert b in h.free;
    var h' := Take(h, i, need);
    if h.blocks[b].size > need + 2 * MIN_BLOCK_SIZE {
      CutTiled(h.end, h.blocks, b, need, true, false);
    }
    assert Live(h') == Live(h)[b := h'.blocks[b].size - BOOKKEEPING_WORDS];
  }

  /**
   A request adds one payload, of at least the requested length and at most 16 words more, or
   changes no payload at all.
   */
  lemma {:induction false} MallocRefines(h: Heap, need: nat, frames: nat)
    requires Inv(h) && BOOKKEEPING_WORDS <= need
    ensures var (h', served, left) := Malloc(h, need, frames);
      match served
      case None => Live(h') == Live(h)
      case Some(b) =>
        && b !in Live(h) && b in Live(h') && Live(h') == Live(h)[b := Live(h')[b]]
        && need - 4 <= Live(h')[b] <= need + 12
    decreases frames
  {
    match FirstFit(h, need, 0)
    case Some(i) => TakeLive(h, i, need);
    case None =>
      if frames > 0 && h.end < MAX_HEAP_WORDS {
        GrowInv(h);
        GrowLive(h);
        MallocRefines(Grow(h), need, frames - 1);
      }
  }

  /**
   Every block listed before the one served was too short. If the block served is longer than 16 words
   over, more than 16 words of it stay free, in its place on the list; and no size reaches the allocated bit.
   */
  lemma ServesFirstFit(h: Heap, need: nat, frames: nat)
    requires Inv(h) && BOOKKEEPING_WORDS <= need && FirstFit(h, need, 0).Some?
    ensures var i := FirstFit(h, need, 0).value; var b := h.free[i];
      var (h', served, left) := Malloc(h, need, frames);
      && served == Some(b) && left == frames && b in h.blocks && b in h'.blocks
      && (forall k :: 0 <= k < i ==> h.free[k] in h.blocks && h.blocks[h.free[k]].size < need)
      && if h.blocks[b].size <= need + 16 then
           h'.blocks[b].size == h.blocks[b].size && h'.free == RemoveAt(h.free, i)
         else
           && h'.blocks[b].size == need && |h'.free| == |h.free| && h'.free[i] == End(h'.blocks, b)
           && h'.free[i] in h'.blocks && End(h'.blocks, h'.free[i]) == End(h.blocks, b)
           && h'.blocks[h'.free[i]].size >= 17
           && forall k :: 0 <= k < |h.free| && k != i ==> h'.free[k] == h.free[k]
    ensures forall x :: x in Malloc(h, need, frames).0.blocks ==>
      Malloc(h, need, frames).0.blocks[x].size < 0x8000_0000
  {
    var i := FirstFit(h, need, 0).value;
    TakeInv(h, i, need);
    forall k | 0 <= k < i ensures h.free[k] in h.blocks && h.blocks[h.free[k]].size < need {
      assert h.free[k] in h.free && !Fits(h, k, need);
    }
    var h' := Take(h, i, need);
    forall x | x in h'.blocks ensures h'.blocks[x].size < ALLOCATED_BIT {
      assert Followed(h'.end, h'.blocks, x);
    }
  }

  /** A release takes away one payload. */
  lemma ReleaseRefines(h: Heap, b: nat)
    requires Inv(h) && IsLive(h.blocks, b)
    ensures Live(Release(h, b)) == Live(h) - {b}
  {
    assert Followed(h.end, h.blocks, b);
  }

  /** When nothing is in use, the heap is one free block. */
  lemma AllGivenBack(h: Heap)
    requires Inv(h) && Live(h) == map[]
    ensures h == Heap(h.end, map[0 := Block(h.end, false)], [0])
  {
    assert |h.free| > 1 ==> h.free[0] != h.free[1];
    forall b | b in h.blocks ensures IsFree(h.blocks, b) {
      assert b !in Live(h);
    }
    assert Followed(h.end, h.blocks, 0);
    assert End(h.blocks, 0) == h.end;
    forall b | b in h.blocks ensures b == 0 {
      assert Apart(h.blocks, 0, b) && Followed(h.end, h.blocks, b);
    }
    assert h.blocks == map[0 := Block(h.end, false)];
    forall i | 0 <= i < |h.free| ensures h.free[i] == 0 {
      assert h.free[i] in h.free;
    }
    assert 0 in h.free;
  }

  // ---- allocate, then free ----

  lemma JoinUndoesCut(blocks: Blocks, b: nat, n: nat)
    requires b in blocks && 0 < n < blocks[b].size && b + n !in blocks && !blocks[b].used
    ensures Join(Cut(blocks, b, n, true, false), b, b + n, false) == blocks
  {
  }

  /**
   A request served without growth, followed by the release of what it got, restores every block.
   The free list is restored too if the block was split; if it was taken whole it moves to the front.
   */
  lemma FreeUndoesMalloc(h: Heap, need: nat, frames: nat)
    requires Inv(h) && BOOKKEEPING_WORDS <= need && FirstFit(h, need, 0).Some?
    ensures var i := FirstFit(h, need, 0).value; var b := h.free[i];
      var (h', served, left) := Malloc(h, need, frames);
      && served == Some(b) && IsLive(h'.blocks, b) && Inv(h') && left == frames
      && Release(h', b).blocks == h.blocks && Release(h', b).end == h.end
      && Release(h', b).free ==
         if h.blocks[b].size <= need + 16 then [b] + RemoveAt(h.free, i) else h.free
  {
    var i := FirstFit(h, need, 0).value;
    var b := h.free[i];
    assert b in h.free;
    TakeInv(h, i, need);
    var h' := Take(h, i, need);
    assert FreeBefore(h'.blocks, b).None? by { NothingFreeBefore(h, i, need); }
    if h.blocks[b].size <= need + 2 * MIN_BLOCK_SIZE {
      forall x: nat | IsFree(h'.blocks, x) ensures x != End(h.blocks, b) {
        assert IsFree(h.blocks, x);
      }
      assert Mark(h'.blocks, b, false) == h.blocks;
    } else {
      CutTiled(h.end, h.blocks, b, need, true, false);
      JoinUndoesCut(h.blocks, b, need);
      assert h'.free[i] == b + need && Position(h'.free, b + need) == i;
      assert h.free[i := b + need][i := b] == h.free;
    }
  }

  lemma NothingFreeBefore(h: Heap, i: nat, need: nat)
    requires Inv(h) && Fits(h, i, need) && BOOKKEEPING_WORDS <= need
    ensures FreeBefore(Take(h, i, need).blocks, h.free[i]).None?
  {
    var b := h.free[i];
    assert b in h.free;
    var blocks' := Take(h, i, need).blocks;
    forall l: nat | IsFree(blocks', l) ensures End(blocks', l) != b {
      assert l != b && l != b + need ==> IsFree(h.blocks, l) && End(h.blocks, l) != b;
    }
  }
}
