/** The writes of the allocator's calls refine the heap's steps: the memory after them shows the heap after them. */
module HeapRefinement {
  import opened Collections
  import opened KernelWords
  import opened HeapModel
  import opened HeapWords
  import opened HeapSteps
  import opened HeapShrink
  import opened HeapWrites

  // ---- kmalloc ----

  /** The walk visits the listed blocks in order, and has passed only blocks that are too short. */
  lemma {:induction false} WalkFollowsList(s: Memory, h: Heap, need: nat, path: seq<Word>, i: nat)
    requires Encodes(s.words, s.head, h) && Walk(s, need, path) && i < |path|
    ensures i <= |h.free| && path[i] == LinkAt(h.free, i)
    ensures FirstFit(h, need, 0) == FirstFit(h, need, i)
  {
    if i > 0 {
      WalkFollowsList(s, h, need, path, i - 1);
      assert WalkStep(s.words, need, path, i - 1);
      ListPosition(s.words, s.head, h, i - 1);
    }
  }

  /** So it ends at the first block that fits, or finds out that none does. */
  lemma WalkFindsFirstFit(s: Memory, h: Heap, need: nat, path: seq<Word>, p: Word)
    requires Encodes(s.words, s.head, h) && WalkEnds(s, need, path, p)
    ensures p == NULL <==> FirstFit(h, need, 0).None?
    ensures p != NULL ==> var i := |path| - 1;
      FirstFit(h, need, 0) == Some(i) && Fits(h, i, need) && p == LinkAt(h.free, i) && Index(p) == h.free[i]
  {
    var i := |path| - 1;
    WalkFollowsList(s, h, need, path, i);
    if i < |h.free| { ListPosition(s.words, s.head, h, i); }
  }

  lemma OneStepOn(s: Memory, need: nat, path: seq<Word>, p: Word) returns (longer: seq<Word>)
    requires Walk(s, need, path)
    requires var last := path[|path| - 1];
      IsBlockAddress(s.words, last) && GetSize(s.words[Index(last)]) < need && p == s.words[Index(last) + 2]
    ensures longer == path + [p] && Walk(s, need, longer)
  {
    longer := path + [p];
    forall i | 0 <= i < |longer| - 1 ensures WalkStep(s.words, need, longer, i) {
      assert i < |path| - 1 ==> WalkStep(s.words, need, path, i);
    }
  }

  lemma AllocatedRight(s: Memory, s': Memory, h: Heap, i: nat, need: nat)
    requires Shows(s, h) && Fits(h, i, need) && BOOKKEEPING_WORDS <= need
    requires Allocated(s, s', h.free[i], need)
    ensures Shows(s', Take(h, i, need))
    ensures LiveUntouched(s.words, s'.words, h.blocks) && SameBehind(s.words, s'.words, h.end)
  {
    NeighbourPositions(s.words, s.head, h, i);
    if h.blocks[h.free[i]].size <= need + 2 * MIN_BLOCK_SIZE {
      TakenRepresents(s.words, s'.words, s.head, s'.head, h, i, need);
    } else {
      SplitRepresents(s.words, s'.words, s.head, s'.head, h, i, need);
    }
  }

  lemma StretchedRight(s: Memory, s': Memory, h: Heap)
    requires Shows(s, h) && h.end < MAX_HEAP_WORDS && FreeBefore(h.blocks, h.end).Some? && Stretched(s, s')
    ensures Shows(s', Grow(h))
    ensures LiveUntouched(s.words, s'.words, h.blocks) && SameBehind(s.words, s'.words, s'.end)
  {
    var t := FreeBefore(h.blocks, h.end).value;
    assert Tagged(s.words, h.blocks, t);
    StretchRepresents(s.words, s'.words, s.head, h, t);
  }

  lemma AppendedRight(s: Memory, s': Memory, h: Heap)
    requires Shows(s, h) && h.end < MAX_HEAP_WORDS && FreeBefore(h.blocks, h.end).None? && Appended(s, s')
    ensures Shows(s', Grow(h))
    ensures LiveUntouched(s.words, s'.words, h.blocks) && SameBehind(s.words, s'.words, s'.end)
  {
    if h.free != [] { ListPosition(s.words, s.head, h, 0); }
    AppendRepresents(s.words, s'.words, s.head, s'.head, h);
  }

  lemma GrownRight(s: Memory, s': Memory, h: Heap)
    requires Shows(s, h) && Grown(s, s')
    ensures Shows(s', Grow(h))
    ensures LiveUntouched(s.words, s'.words, h.blocks) && SameBehind(s.words, s'.words, s'.end)
  {
    var l := TagBefore(s.words, s.head, h, h.end);
    if GetAllocatedBit(s.words[s.end - 1]) {
      AppendedRight(s, s', h);
    } else {
      StretchedRight(s, s', h);
    }
  }

  /** What a request leaves: the heap of the model's request, its answer, and every block in use as it was. */
  ghost predicate RightRequest(s: Memory, h: Heap, need: nat, frames: nat, s': Memory, p: Word, left: nat)
    requires Inv(h)
  {
    var (h', served, f) := Malloc(h, need, frames);
    && Shows(s', h') && left == f && p == (if served.Some? then PayloadPtr(served.value) else NULL)
    && LiveUntouched(s.words, s'.words, h.blocks) && SameBehind(s.words, s'.words, s'.end)
  }

  lemma GrownThenRight(s: Memory, s1: Memory, h: Heap, need: nat, frames: nat, s': Memory, p: Word, left: nat)
    requires Shows(s, h) && Grown(s, s1) && FirstFit(h, need, 0).None? && frames > 0
    requires Inv(Grow(h)) && RightRequest(s1, Grow(h), need, frames - 1, s', p, left)
    ensures RightRequest(s, h, need, frames, s', p, left)
  {
    GrownRight(s, s1, h);
    GrowKeepsLive(h);
    LiveUntouchedTwice(s.words, s1.words, s'.words, h.blocks, Grow(h).blocks);
    MallocGrowsOnly(Grow(h), need, frames - 1);
  }

  lemma {:induction false} MallocGrowsOnly(h: Heap, need: nat, frames: nat)
    requires Inv(h)
    ensures h.end <= Malloc(h, need, frames).0.end
    decreases frames
  {
    if FirstFit(h, need, 0).None? && frames > 0 && h.end < MAX_HEAP_WORDS {
      GrowInv(h);
      MallocGrowsOnly(Grow(h), need, frames - 1);
    }
  }

  lemma ServesRight(s: Memory, h: Heap, need: nat, frames: nat, s': Memory, p: Word)
    requires Shows(s, h) && BOOKKEEPING_WORDS <= need && Serves(s, need, s', p)
    ensures FirstFit(h, need, 0).Some? && RightRequest(s, h, need, frames, s', p, frames)
  {
    var path, q: Word :|
      WalkEnds(s, need, path, q) && q != NULL && Allocated(s, s', Index(q), need) && p == q + 3 * BYTES_IN_WORD;
    WalkFindsFirstFit(s, h, need, path, q);
    AllocatedRight(s, s', h, |path| - 1, need);
  }

  lemma FindsNothingRight(s: Memory, h: Heap, need: nat)
    requires Shows(s, h) && FindsNothing(s, need)
    ensures FirstFit(h, need, 0).None?
  {
    var path :| WalkEnds(s, need, path, NULL);
    WalkFindsFirstFit(s, h, need, path, NULL);
  }

  /** The writes of kmalloc, however often it grows the heap, are those of a request. */
  lemma {:induction false} MallocsRight(s: Memory, h: Heap, need: nat, frames: nat, s': Memory, p: Word, left: nat)
    requires Shows(s, h) && BOOKKEEPING_WORDS <= need && Mallocs(s, need, frames, s', p, left)
    ensures RightRequest(s, h, need, frames, s', p, left)
    decreases frames
  {
    if Serves(s, need, s', p) && left == frames {
      ServesRight(s, h, need, frames, s', p);
    } else {
      FindsNothingRight(s, h, need);
      if frames > 0 && s.end < MAX_HEAP_WORDS {
        var s1 :| Grown(s, s1) && Mallocs(s1, need, frames - 1, s', p, left);
        GrownRight(s, s1, h);
        MallocsRight(s1, Grow(h), need, frames - 1, s', p, left);
        GrownThenRight(s, s1, h, need, frames, s', p, left);
      }
    }
  }

  /** From s on, a request ends as it would from s0 on. */
  ghost predicate Onward(s0: Memory, need: nat, frames: nat, s: Memory, left: nat) {
    forall s', p: Word, l: nat :: Mallocs(s, need, left, s', p, l) ==> Mallocs(s0, need, frames, s', p, l)
  }

  lemma OnwardGrown(s0: Memory, need: nat, frames: nat, s: Memory, left: nat, s1: Memory)
    requires Onward(s0, need, frames, s, left + 1) && FindsNothing(s, need) && Grown(s, s1)
    ensures Onward(s0, need, frames, s1, left)
  {
    forall s', p: Word, l: nat | Mallocs(s1, need, left, s', p, l) ensures Mallocs(s0, need, frames, s', p, l) {
      assert Mallocs(s, need, left + 1, s', p, l);
    }
  }

  // ---- kfree ----

  /** Block b of h has lost its allocated bit, is not listed, and its links are null. */
  ghost predicate ShowsUnmarked(s: Memory, h: Heap, b: nat) {
    && Inv(h) && IsLive(h.blocks, b) && s.end == h.end
    && Encodes(s.words, s.head, h.(blocks := Mark(h.blocks, b, false))) && b !in h.free
    && b + BOOKKEEPING_WORDS <= End(h.blocks, b) <= h.end && s.words[b] == h.blocks[b].size
    && s.words[b + 1] == s.words[b + 2] == NULL
  }

  lemma UnmarkedRight(s: Memory, s': Memory, h: Heap, b: nat)
    requires Shows(s, h) && IsLive(h.blocks, b) && Unmarked(s, s', b)
    ensures ShowsUnmarked(s', h, b)
    ensures OthersUntouched(s.words, s'.words, h.blocks, b) && SameBehind(s.words, s'.words, h.end)
  {
    assert Tagged(s.words, h.blocks, b) && Followed(h.end, h.blocks, b);
    UnmarkEncodes(s.words, s'.words, s.head, h, b);
  }

  /** The tag behind the block tells whether a free block follows, unless it is a false one behind the heap. */
  lemma FreeBehindIs(s: Memory, h: Heap, b: nat)
    requires ShowsUnmarked(s, h, b) && NextTagUsable(s.words, h, b)
    ensures FreeBehind(s, b) <==> IsFree(h.blocks, End(h.blocks, b))
  {
    var marked := Mark(h.blocks, b, false);
    assert Tagged(s.words, marked, End(h.blocks, b)) && Followed(h.end, h.blocks, b);
  }

  /** Where the block behind b and its neighbours on the list lie, so that b can take it in. */
  lemma RightPositions(s: Memory, h: Heap, b: nat) returns (i: nat)
    requires ShowsUnmarked(s, h, b) && IsFree(h.blocks, End(h.blocks, b))
    ensures i < |h.free| && i == Position(h.free, End(h.blocks, b))
    ensures MergeableRight(s.words, b) && b + s.words[b] == h.free[i]
    ensures h.free[i] + BOOKKEEPING_WORDS <= End(h.blocks, h.free[i]) <= h.end
    ensures s.words[h.free[i]] == h.blocks[h.free[i]].size
    ensures s.words[h.free[i] + 1] != NULL ==> Index(s.words[h.free[i] + 1]) + 2 < h.end
    ensures s.words[h.free[i] + 2] != NULL ==> Index(s.words[h.free[i] + 2]) + 1 < h.end
  {
    var g := h.(blocks := Mark(h.blocks, b, false));
    i := Position(h.free, End(h.blocks, b));
    NeighbourPositions(s.words, s.head, g, i);
    if i > 0 { ListedApart(g, b, h.free[i], i - 1); }
    if i + 1 < |h.free| { ListedApart(g, b, h.free[i], i + 1); }
  }

  lemma RightStepRight(s: Memory, s': Memory, h: Heap, b: nat)
    requires ShowsUnmarked(s, h, b) && NextTagUsable(s.words, h, b) && RightStep(s, s', b)
    ensures Encodes(s'.words, s'.head, ReleaseRight(h, b))
    ensures LiveUntouched(s.words, s'.words, Mark(h.blocks, b, false)) && SameBehind(s.words, s'.words, h.end)
    ensures !FreeBehind(s, b) ==> s'.words[b + 1] == s'.words[b + 2] == NULL
  {
    FreeBehindIs(s, h, b);
    if FreeBehind(s, b) {
      var i := RightPositions(s, h, b);
      RightMergedEncodes(s.words, s'.words, s.head, s'.head, h.(blocks := Mark(h.blocks, b, false)), b, i);
    }
  }

  /** The block that has taken in the one behind is not linked to itself. */
  lemma MergedNotSelfLinked(s: Memory, s': Memory, h: Heap, b: nat)
    requires ShowsUnmarked(s, h, b) && NextTagUsable(s.words, h, b) && RightStep(s, s', b) && FreeBehind(s, b)
    ensures b + 2 < |s'.words| && s'.words[b + 1] != LinkAt([b], 0) && s'.words[b + 2] != LinkAt([b], 0)
  {
    FreeBehindIs(s, h, b);
    RightStepRight(s, s', h, b);
    NoSelfLink(s'.words, s'.head, ReleaseRight(h, b), Position(h.free, End(h.blocks, b)));
  }

  /** Block b of g is free, and listed at position i or not at all; every other free block is listed. */
  ghost predicate ShowsHalf(s: Memory, g: Heap, b: nat, i: Option<nat>) {
    && Encodes(s.words, s.head, g) && s.end == g.end
    && IsFree(g.blocks, b) && (forall l :: IsFree(g.blocks, l) && l != b ==> l in g.free)
    && b + BOOKKEEPING_WORDS <= End(g.blocks, b) <= g.end && s.words[b] == g.blocks[b].size
    && if i.Some? then i.value < |g.free| && g.free[i.value] == b
       else b !in g.free && s.words[b + 1] == s.words[b + 2] == NULL
  }

  lemma HalfReleased(s: Memory, s': Memory, h: Heap, b: nat) returns (i: Option<nat>)
    requires ShowsUnmarked(s, h, b) && NextTagUsable(s.words, h, b) && RightStep(s, s', b)
    ensures ShowsHalf(s', ReleaseRight(h, b), b, i) && i.Some? == FreeBehind(s, b)
    ensures Release(h, b) == ReleaseLeft(ReleaseRight(h, b), b, i)
  {
    RightStepRight(s, s', h, b);
    FreeBehindIs(s, h, b);
    ReleaseByHalves(h, b);
    ReleaseRightLists(h, b);
    var after := End(h.blocks, b);
    i := if IsFree(h.blocks, after) then Some(Position(h.free, after)) else None;
    var g := ReleaseRight(h, b);
    assert Tagged(s'.words, g.blocks, b) && Followed(h.end, h.blocks, b) && Followed(h.end, g.blocks, b);
  }

  /** The block before b and the links of b lie so that that block can take b in. */
  lemma LeftPositions(s: Memory, g: Heap, b: nat, i: Option<nat>) returns (j: nat)
    requires ShowsHalf(s, g, b, i) && b > 0 && !GetAllocatedBit(s.words[b - 1])
    ensures j < |g.free| && FreeBefore(g.blocks, b) == Some(g.free[j]) && g.free[j] in g.blocks
    ensures End(g.blocks, g.free[j]) == b && s.words[b - 1] <= b && g.free[j] == b - s.words[b - 1]
    ensures MergeableLeft(s.words, b)
    ensures s.words[b + 1] != NULL ==> Index(s.words[b + 1]) + 2 < g.end
    ensures s.words[b + 2] != NULL ==> Index(s.words[b + 2]) + 1 < g.end
  {
    FreeBeforeTag(s.words, s.head, g, b);
    var before := FreeBefore(g.blocks, b).value;
    assert Followed(g.end, g.blocks, before) && Tagged(s.words, g.blocks, b);
    j := Position(g.free, before);
    NeighbourPositions(s.words, s.head, g, j);
    if i.Some? {
      ListedMergeable(s.words, s.head, g, i.value, j);
      NeighbourPositions(s.words, s.head, g, i.value);
    }
  }

  lemma LeftStepRight(s: Memory, s': Memory, g: Heap, b: nat, i: Option<nat>)
    requires ShowsHalf(s, g, b, i) && LeftStep(s, s', b, i.Some?)
    ensures Encodes(s'.words, s'.head, ReleaseLeft(g, b, i))
    ensures LiveUntouched(s.words, s'.words, g.blocks) && SameBehind(s.words, s'.words, g.end)
  {
    FreeBeforeTag(s.words, s.head, g, b);
    if b > 0 && !GetAllocatedBit(s.words[b - 1]) {
      var j := LeftPositions(s, g, b, i);
      if i.Some? {
        LeftMergedListed(s.words, s'.words, s.head, s'.head, g, g.free[j], i.value, j);
      } else {
        LeftMergedUnlisted(s.words, s'.words, s.head, s'.head, g, g.free[j], b, j);
      }
    } else if i.None? {
      PushedRight(s, s', g, b);
    }
  }

  /** The block that has taken b in is not linked to itself. */
  lemma NotSelfLinked(s: Memory, s': Memory, g: Heap, b: nat, i: Option<nat>, l: nat)
    requires ShowsHalf(s, g, b, i) && LeftStep(s, s', b, i.Some?)
    requires b > 0 && !GetAllocatedBit(s.words[b - 1]) && l == b - s.words[b - 1]
    ensures l + 2 < |s'.words|
    ensures s'.words[l + 1] != LinkAt([l], 0) && s'.words[l + 2] != LinkAt([l], 0)
  {
    var j := LeftPositions(s, g, b, i);
    LeftStepRight(s, s', g, b, i);
    var k := if i.Some? && i.value < j then j - 1 else j;
    assert ReleaseLeft(g, b, i).free[k] == l;
    NoSelfLink(s'.words, s'.head, ReleaseLeft(g, b, i), k);
  }

  /** The first listed block is another one than b. */
  lemma HeadElsewhere(s: Memory, g: Heap, b: nat)
    requires Encodes(s.words, s.head, g) && IsFree(g.blocks, b) && b !in g.free
    ensures b < MAX_HEAP_WORDS
    ensures s.head != NULL ==>
      0 <= Index(s.head) < |s.words| - 2 && (Index(s.head) < b || b + 2 <= Index(s.head))
  {
    assert Tagged(s.words, g.blocks, b) && Followed(g.end, g.blocks, b);
    if g.free != [] {
      ListPosition(s.words, s.head, g, 0);
      assert Apart(g.blocks, g.free[0], b) && Apart(g.blocks, b, g.free[0]);
    }
  }

  lemma PushedRight(s: Memory, s': Memory, g: Heap, b: nat)
    requires Encodes(s.words, s.head, g) && IsFree(g.blocks, b) && b !in g.free && Pushed(s, s', b)
    ensures Encodes(s'.words, s'.head, g.(free := [b] + g.free))
    ensures LiveUntouched(s.words, s'.words, g.blocks) && SameBehind(s.words, s'.words, g.end)
  {
    assert Tagged(s.words, g.blocks, b) && Followed(g.end, g.blocks, b);
    if g.free != [] {
      ListPosition(s.words, s.head, g, 0);
      assert Apart(g.blocks, g.free[0], b) && Apart(g.blocks, b, g.free[0]);
    }
    PushEncodes(s.words, s'.words, s.head, s'.head, g, b);
  }

  lemma BothStepsRight(s: Memory, s1: Memory, s': Memory, h: Heap, b: nat)
    requires ShowsUnmarked(s, h, b) && NextTagUsable(s.words, h, b)
    requires RightStep(s, s1, b) && LeftStep(s1, s', b, FreeBehind(s, b))
    ensures Encodes(s'.words, s'.head, Release(h, b))
    ensures LiveUntouched(s.words, s'.words, Mark(h.blocks, b, false)) && SameBehind(s.words, s'.words, h.end)
  {
    RightStepRight(s, s1, h, b);
    var i := HalfReleased(s, s1, h, b);
    LeftStepRight(s1, s', ReleaseRight(h, b), b, i);
    LiveUntouchedTwice(s.words, s1.words, s'.words, Mark(h.blocks, b, false), ReleaseRight(h, b).blocks);
  }

  // ---- krealloc ----

  lemma CutInTwoRight(s: Memory, s': Memory, h: Heap, b: nat, n: nat)
    requires Shows(s, h) && IsLive(h.blocks, b) && BOOKKEEPING_WORDS <= n && WorthCutting(h, b, n)
    requires CutInTwo(s, s', b, n)
    ensures Encodes(s'.words, s'.head, h.(blocks := Cut(h.blocks, b, n, true, false))) && b + n !in h.free
    ensures OthersUntouched(s.words, s'.words, h.blocks, b) && PrefixKept(s.words, s'.words, b, n)
    ensures SameBehind(s.words, s'.words, h.end)
  {
    assert Tagged(s.words, h.blocks, b) && Followed(h.end, h.blocks, b);
    CutEncodes(s.words, s'.words, s.head, h, b, n);
  }

  /** Behind block b there is a block in use, or the heap's end. */
  lemma CutAndPushedRight(s: Memory, s1: Memory, s': Memory, h: Heap, b: nat, n: nat)
    requires Shows(s, h) && IsLive(h.blocks, b) && BOOKKEEPING_WORDS <= n && WorthCutting(h, b, n)
    requires !IsFree(h.blocks, End(h.blocks, b)) && CutAndPushed(s, s1, b, n, s')
    ensures Shows(s', Shrink(h, b, n))
    ensures OthersUntouched(s.words, s'.words, h.blocks, b) && PrefixKept(s.words, s'.words, b, n)
    ensures SameBehind(s.words, s'.words, h.end)
  {
    CutInTwoRight(s, s1, h, b, n);
    PushedRight(s1, s', h.(blocks := Cut(h.blocks, b, n, true, false)), b + n);
    CutThenPushed(s.words, s1.words, s'.words, h, b, n);
    ShrinkInv(h, b, n);
  }

  /** Whether a shrink finds a free block behind the block. */
  lemma FreeAfterIs(s: Memory, h: Heap, b: nat)
    requires Shows(s, h) && IsLive(h.blocks, b)
    ensures b + BOOKKEEPING_WORDS <= End(h.blocks, b) <= h.end < |s.words|
    ensures s.words[b] == h.blocks[b].size + ALLOCATED_BIT && GetSize(s.words[b]) == h.blocks[b].size
    ensures var after := End(h.blocks, b);
      IsFree(h.blocks, after) <==> after < s.end && !GetAllocatedBit(s.words[after])
  {
    assert Tagged(s.words, h.blocks, b) && Followed(h.end, h.blocks, b);
    assert Tagged(s.words, h.blocks, End(h.blocks, b)) && Followed(h.end, h.blocks, End(h.blocks, b));
  }

  /** The writes of krealloc are those of a shrink, wherever that is safe. */
  lemma ShrinksRight(s: Memory, s': Memory, h: Heap, b: nat, n: nat)
    requires Shows(s, h) && IsLive(h.blocks, b) && BOOKKEEPING_WORDS <= n <= h.blocks[b].size
    requires ShrinksSafely(h, b, n) && Shrinks(s, b, n, s')
    ensures Shows(s', Shrink(h, b, n))
    ensures OthersUntouched(s.words, s'.words, h.blocks, b) && PrefixKept(s.words, s'.words, b, n)
    ensures SameBehind(s.words, s'.words, h.end)
    ensures !WorthCutting(h, b, n) ==> s' == s
  {
    FreeAfterIs(s, h, b);
    var after := End(h.blocks, b);
    if WorthCutting(h, b, n) {
      if IsFree(h.blocks, after) {
        assert Tagged(s.words, h.blocks, after) && Followed(h.end, h.blocks, after);
        FedForwardAlone(s.words, s'.words, s.head, s'.head, h, b, n);
      } else {
        var s1 :| CutAndPushed(s, s1, b, n, s');
        CutAndPushedRight(s, s1, s', h, b, n);
      }
    }
  }

  /** Where it is not safe, the memory that krealloc leaves shows no heap. */
  lemma ShrinksWrong(s: Memory, s': Memory, h: Heap, b: nat, n: nat, g: Heap)
    requires Shows(s, h) && IsLive(h.blocks, b) && BOOKKEEPING_WORDS <= n <= h.blocks[b].size
    requires !ShrinksSafely(h, b, n) && Shrinks(s, b, n, s')
    ensures !Represents(s'.words, s'.head, g)
  {
    FreeAfterIs(s, h, b);
    var i := Position(h.free, End(h.blocks, b));
    assert h.free == [h.free[0]] || |h.free| > 1;
    FedForwardBroken(s.words, s'.words, s.head, s'.head, h, b, n, i, g);
  }
}
