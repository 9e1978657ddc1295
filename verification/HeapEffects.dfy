/**
 What each call of the allocator does to the heap's blocks and its list, with the numbers themselves, and said without
 the functions that compute it. What is said determines the heap after the call, and it is the one those functions
 lead to.
 */
module HeapEffects {
  import opened Collections
  import opened KernelWords
  import opened HeapModel
  import opened HeapShrink

  /** Where they are not named, the blocks are as they were. */
  ghost predicate SameExcept(blocks: Blocks, blocks': Blocks, but: set<nat>) {
    && (forall x :: x in blocks && x !in but ==> x in blocks' && blocks'[x] == blocks[x])
    && (forall x :: x in blocks' && x !in but ==> x in blocks)
  }

  ghost predicate FreeOf(blocks: Blocks, b: nat, size: nat) {
    b in blocks && blocks[b] == Block(size, false)
  }

  ghost predicate InUse(blocks: Blocks, b: nat, size: nat) {
    b in blocks && blocks[b] == Block(size, true)
  }

  // ---- kmalloc ----

  /** The block at list position i is the first on the list that has at least need words. */
  ghost predicate FirstThatFits(h: Heap, i: nat, need: nat) {
    && i < |h.free| && h.free[i] in h.blocks && h.blocks[h.free[i]].size >= need
    && forall k :: 0 <= k < i ==> h.free[k] in h.blocks && h.blocks[h.free[k]].size < need
  }

  /**
   A block of at most 16 words more than needed is taken whole, and leaves the list. Of a longer one, the first need
   words are taken, and the rest, 17 words or more, takes its place on the list.
   */
  ghost predicate TakeEffect(h: Heap, i: nat, need: nat, h': Heap) {
    && i < |h.free| && h.free[i] in h.blocks && h'.end == h.end
    && var b := h.free[i]; var size, y := h.blocks[b].size, b + need;
    if size <= need + 16 then
      && SameExcept(h.blocks, h'.blocks, {b}) && InUse(h'.blocks, b, size)
      && h'.free == h.free[..i] + h.free[i + 1..]
    else
      && SameExcept(h.blocks, h'.blocks, {b, y}) && InUse(h'.blocks, b, need) && FreeOf(h'.blocks, y, size - need)
      && h'.free == h.free[..i] + [y] + h.free[i + 1..]
  }

  /** Block t is free, and stops where position stop starts. */
  ghost predicate FreeUpTo(blocks: Blocks, t: nat, stop: nat) {
    t in blocks && !blocks[t].used && t + blocks[t].size == stop
  }

  ghost predicate NoneUpTo(blocks: Blocks, stop: nat) {
    forall t: nat :: !FreeUpTo(blocks, t, stop)
  }

  /** A free block at the heap's end becomes 1024 words longer; if there is none, a new one comes first on the list. */
  ghost predicate GrowEffect(h: Heap, h': Heap) {
    && h'.end == h.end + 1024
    && (forall t: nat :: FreeUpTo(h.blocks, t, h.end) ==>
          SameExcept(h.blocks, h'.blocks, {t}) && FreeOf(h'.blocks, t, h'.end - t) && h'.free == h.free)
    && (NoneUpTo(h.blocks, h.end) ==>
          && SameExcept(h.blocks, h'.blocks, {h.end}) && FreeOf(h'.blocks, h.end, 1024)
          && h'.free == [h.end] + h.free)
  }

  /** A request: the first listed block that fits serves it; as long as there is none, the heap grows if it can. */
  ghost predicate RequestEffect(h: Heap, need: nat, frames: nat, h': Heap, served: Option<nat>, left: nat)
    decreases frames
  {
    if exists i: nat :: FirstThatFits(h, i, need) then
      && left == frames
      && exists i: nat :: FirstThatFits(h, i, need) && TakeEffect(h, i, need, h') && served == Some(h.free[i])
    else if frames > 0 && h.end < 0x400_0000 then
      exists g :: GrowEffect(h, g) && RequestEffect(g, need, frames - 1, h', served, left)
    else
      h' == h && served == None && left == frames
  }

  // ---- kfree ----

  /** From m up to stop there is one free block, and the blocks that stood there are gone. */
  ghost predicate Joined(blocks: Blocks, blocks': Blocks, m: nat, stop: nat, gone: set<nat>) {
    && m <= stop && SameExcept(blocks, blocks', {m} + gone) && FreeOf(blocks', m, stop - m)
    && forall x :: x in gone ==> x !in blocks'
  }

  predicate Without(s: seq<nat>, x: nat, s': seq<nat>) {
    exists i :: 0 <= i < |s| && s[i] == x && s' == s[..i] + s[i + 1..]
  }

  predicate Replaced(s: seq<nat>, x: nat, y: nat, s': seq<nat>) {
    exists i :: 0 <= i < |s| && s[i] == x && s' == s[..i] + [y] + s[i + 1..]
  }

  /**
   Block b and the free blocks that touch it become one free block. It stands on the list where the block before b
   stands, if that is free; else where the block behind b stood, if that is free; and else in front.
   */
  ghost predicate ReleaseEffect(h: Heap, b: nat, h': Heap)
    requires b in h.blocks
  {
    var after := b + h.blocks[b].size;
    var freeBehind := after in h.blocks && !h.blocks[after].used;
    && h'.end == h.end
    && (forall l: nat :: FreeUpTo(h.blocks, l, b) ==>
          if freeBehind then
            && Joined(h.blocks, h'.blocks, l, after + h.blocks[after].size, {b, after})
            && Without(h.free, after, h'.free)
          else
            Joined(h.blocks, h'.blocks, l, after, {b}) && h'.free == h.free)
    && (NoneUpTo(h.blocks, b) ==>
          if freeBehind then
            && Joined(h.blocks, h'.blocks, b, after + h.blocks[after].size, {after})
            && Replaced(h.free, after, b, h'.free)
          else
            Joined(h.blocks, h'.blocks, b, after, {}) && h'.free == [b] + h.free)
  }

  // ---- krealloc, for a size that is no larger ----

  /**
   Unless more than 16 words are spare nothing changes. If there are, block b keeps its first n, and the rest joins
   the free block behind, in its place on the list, or becomes a free block in front of the list.
   */
  ghost predicate ShrinkEffect(h: Heap, b: nat, n: nat, h': Heap)
    requires b in h.blocks
  {
    var size, after, y := h.blocks[b].size, b + h.blocks[b].size, b + n;
    if size <= n + 16 then
      h' == h
    else
      && h'.end == h.end && InUse(h'.blocks, b, n)
      && if after in h.blocks && !h.blocks[after].used then
           && SameExcept(h.blocks, h'.blocks, {b, y, after}) && after !in h'.blocks
           && FreeOf(h'.blocks, y, after + h.blocks[after].size - y) && Replaced(h.free, after, y, h'.free)
         else
           && SameExcept(h.blocks, h'.blocks, {b, y}) && FreeOf(h'.blocks, y, after - y)
           && h'.free == [y] + h.free
  }

  // ---- the functions do that ----

  lemma TakeMeans(h: Heap, i: nat, need: nat)
    requires Inv(h) && Fits(h, i, need) && BOOKKEEPING_WORDS <= need
    ensures TakeEffect(h, i, need, Take(h, i, need))
  {
  }

  lemma GrowMeans(h: Heap)
    requires Inv(h)
    ensures GrowEffect(h, Grow(h))
  {
    assert Followed(h.end, h.blocks, h.end);
    forall t: nat | FreeUpTo(h.blocks, t, h.end) ensures FreeBefore(h.blocks, h.end) == Some(t) {
      FreeBeforeIs(h.end, h.blocks, t);
    }
  }

  lemma {:induction false} RequestMeans(h: Heap, need: nat, frames: nat)
    requires Inv(h) && BOOKKEEPING_WORDS <= need
    ensures var (h', served, left) := Malloc(h, need, frames); RequestEffect(h, need, frames, h', served, left)
    decreases frames
  {
    match FirstFit(h, need, 0)
    case Some(i) =>
      TakeMeans(h, i, need);
      forall k | 0 <= k < i ensures h.free[k] in h.blocks && h.blocks[h.free[k]].size < need {
        assert h.free[k] in h.free && !Fits(h, k, need);
      }
      assert FirstThatFits(h, i, need);
    case None =>
      forall i: nat ensures !FirstThatFits(h, i, need) {
        assert i < |h.free| ==> !Fits(h, i, need);
      }
      if frames > 0 && h.end < MAX_HEAP_WORDS {
        GrowInv(h);
        GrowMeans(h);
        RequestMeans(Grow(h), need, frames - 1);
      }
  }

  lemma ReleaseAlone(h: Heap, b: nat)
    requires Inv(h) && IsLive(h.blocks, b) && FreeBefore(h.blocks, b).None?
    ensures ReleaseEffect(h, b, Release(h, b))
  {
    var after := End(h.blocks, b);
    assert Followed(h.end, h.blocks, b);
    assert forall l: nat :: FreeUpTo(h.blocks, l, b) ==> IsFree(h.blocks, l) && End(h.blocks, l) == b;
    if IsFree(h.blocks, after) {
      var i := Position(h.free, after);
      assert h.free[i := b] == h.free[..i] + [b] + h.free[i + 1..];
      assert Joined(h.blocks, Release(h, b).blocks, b, after + h.blocks[after].size, {after});
    }
  }

  lemma ReleaseIntoLeft(h: Heap, b: nat)
    requires Inv(h) && IsLive(h.blocks, b) && FreeBefore(h.blocks, b).Some?
    ensures ReleaseEffect(h, b, Release(h, b))
  {
    var after, f := End(h.blocks, b), FreeBefore(h.blocks, b).value;
    assert FreeUpTo(h.blocks, f, b);
    forall l: nat | FreeUpTo(h.blocks, l, b) ensures l == f {
      FreeBeforeIs(h.end, h.blocks, l);
    }
    if IsFree(h.blocks, after) {
      ReleaseBetween(h, b, f);
    } else {
      ReleaseBehind(h, b, f);
    }
  }

  lemma ReleaseBehind(h: Heap, b: nat, f: nat)
    requires Inv(h) && IsLive(h.blocks, b) && FreeBefore(h.blocks, b) == Some(f) && !IsFree(h.blocks, End(h.blocks, b))
    ensures Joined(h.blocks, Release(h, b).blocks, f, End(h.blocks, b), {b}) && Release(h, b).free == h.free
  {
    assert Followed(h.end, h.blocks, b) && Followed(h.end, h.blocks, f);
  }

  lemma ReleaseBetween(h: Heap, b: nat, f: nat)
    requires Inv(h) && IsLive(h.blocks, b) && FreeBefore(h.blocks, b) == Some(f) && IsFree(h.blocks, End(h.blocks, b))
    ensures var after := End(h.blocks, b);
      && Joined(h.blocks, Release(h, b).blocks, f, End(h.blocks, after), {b, after})
      && Without(h.free, after, Release(h, b).free)
  {
    assert Followed(h.end, h.blocks, b) && Followed(h.end, h.blocks, f);
  }

  lemma ReleaseMeans(h: Heap, b: nat)
    requires Inv(h) && IsLive(h.blocks, b)
    ensures ReleaseEffect(h, b, Release(h, b))
  {
    if FreeBefore(h.blocks, b).None? {
      ReleaseAlone(h, b);
    } else {
      ReleaseIntoLeft(h, b);
    }
  }

  lemma ShrinkMeans(h: Heap, b: nat, n: nat)
    requires Inv(h) && IsLive(h.blocks, b) && BOOKKEEPING_WORDS <= n
    ensures ShrinkEffect(h, b, n, Shrink(h, b, n))
  {
    assert Followed(h.end, h.blocks, b);
    if WorthCutting(h, b, n) { ShrinkTiled(h, b, n); }
    var after := End(h.blocks, b);
    if IsFree(h.blocks, after) {
      var i := Position(h.free, after);
      assert h.free[i := b + n] == h.free[..i] + [b + n] + h.free[i + 1..];
    }
  }

  // ---- what is said leaves no doubt ----

  lemma SameBlocks(blocks: Blocks, blocks1: Blocks, blocks2: Blocks, but: set<nat>)
    requires SameExcept(blocks, blocks1, but) && SameExcept(blocks, blocks2, but)
    requires forall x :: x in but ==> (x in blocks1 <==> x in blocks2)
    requires forall x :: x in but && x in blocks1 ==> blocks1[x] == blocks2[x]
    ensures blocks1 == blocks2
  {
    forall x | x in blocks1 ensures x in blocks2 && blocks1[x] == blocks2[x] {}
    forall x | x in blocks2 ensures x in blocks1 {}
  }

  /** A block is taken from the list if and only if the heap afterwards is the model's. */
  lemma TakeIsEffect(h: Heap, i: nat, need: nat, h': Heap)
    requires Inv(h) && Fits(h, i, need) && BOOKKEEPING_WORDS <= need
    ensures TakeEffect(h, i, need, h') <==> h' == Take(h, i, need)
  {
    TakeMeans(h, i, need);
    if TakeEffect(h, i, need, h') {
      var b := h.free[i];
      SameBlocks(h.blocks, h'.blocks, Take(h, i, need).blocks,
                 if h.blocks[b].size <= need + 16 then {b} else {b, b + need});
    }
  }

  lemma GrowIsEffect(h: Heap, h': Heap)
    requires Inv(h)
    ensures GrowEffect(h, h') <==> h' == Grow(h)
  {
    GrowMeans(h);
    if GrowEffect(h, h') {
      var t := FreeBefore(h.blocks, h.end);
      if t.Some? { assert FreeUpTo(h.blocks, t.value, h.end); }
      SameBlocks(h.blocks, h'.blocks, Grow(h).blocks, {if t.Some? then t.value else h.end});
    }
  }

  lemma FirstThatFitsIs(h: Heap, need: nat)
    requires Inv(h)
    ensures forall i: nat :: FirstThatFits(h, i, need) <==> FirstFit(h, need, 0) == Some(i)
  {
    forall i: nat ensures FirstThatFits(h, i, need) <==> FirstFit(h, need, 0) == Some(i) {
      forall k | 0 <= k < |h.free|
        ensures h.free[k] in h.blocks && (Fits(h, k, need) <==> h.blocks[h.free[k]].size >= need)
      {
        assert h.free[k] in h.free;
      }
      if FirstThatFits(h, i, need) { assert Fits(h, i, need); }
    }
  }

  lemma {:induction false} RequestIsEffect(h: Heap, need: nat, frames: nat, h': Heap, served: Option<nat>, left: nat)
    requires Inv(h) && BOOKKEEPING_WORDS <= need
    ensures RequestEffect(h, need, frames, h', served, left) <==> (h', served, left) == Malloc(h, need, frames)
    decreases frames
  {
    RequestMeans(h, need, frames);
    FirstThatFitsIs(h, need);
    match FirstFit(h, need, 0)
    case Some(i) => TakeIsEffect(h, i, need, h');
    case None =>
      if frames > 0 && h.end < MAX_HEAP_WORDS {
        GrowInv(h);
        forall g ensures GrowEffect(h, g) <==> g == Grow(h) { GrowIsEffect(h, g); }
        RequestIsEffect(Grow(h), need, frames - 1, h', served, left);
      }
  }

  lemma ListsSame(s: seq<nat>, x: nat, y: nat, s1: seq<nat>, s2: seq<nat>)
    requires NoDuplicates(s)
    ensures Without(s, x, s1) && Without(s, x, s2) ==> s1 == s2
    ensures Replaced(s, x, y, s1) && Replaced(s, x, y, s2) ==> s1 == s2
  {
  }

  lemma ReleaseAloneUnique(h: Heap, b: nat, g: Heap, h': Heap)
    requires Inv(h) && IsLive(h.blocks, b) && NoneUpTo(h.blocks, b)
    requires ReleaseEffect(h, b, g) && ReleaseEffect(h, b, h')
    ensures g == h'
  {
    var after := End(h.blocks, b);
    ListsSame(h.free, after, b, h'.free, g.free);
    SameBlocks(h.blocks, h'.blocks, g.blocks, {b} + if IsFree(h.blocks, after) then {after} else {});
  }

  lemma ReleaseIntoLeftUnique(h: Heap, b: nat, l: nat, g: Heap, h': Heap)
    requires Inv(h) && IsLive(h.blocks, b) && FreeUpTo(h.blocks, l, b)
    requires ReleaseEffect(h, b, g) && ReleaseEffect(h, b, h')
    ensures g == h'
  {
    var after := End(h.blocks, b);
    ListsSame(h.free, after, b, h'.free, g.free);
    SameBlocks(h.blocks, h'.blocks, g.blocks, {l} + if IsFree(h.blocks, after) then {b, after} else {b});
  }

  lemma ReleaseIsEffect(h: Heap, b: nat, h': Heap)
    requires Inv(h) && IsLive(h.blocks, b)
    ensures ReleaseEffect(h, b, h') <==> h' == Release(h, b)
  {
    ReleaseMeans(h, b);
    if ReleaseEffect(h, b, h') {
      if l: nat :| FreeUpTo(h.blocks, l, b) {
        ReleaseIntoLeftUnique(h, b, l, Release(h, b), h');
      } else {
        ReleaseAloneUnique(h, b, Release(h, b), h');
      }
    }
  }

  lemma ShrinkIsEffect(h: Heap, b: nat, n: nat, h': Heap)
    requires Inv(h) && IsLive(h.blocks, b) && BOOKKEEPING_WORDS <= n
    ensures ShrinkEffect(h, b, n, h') <==> h' == Shrink(h, b, n)
  {
    ShrinkMeans(h, b, n);
    if ShrinkEffect(h, b, n, h') && h.blocks[b].size > n + 16 {
      var g, after := Shrink(h, b, n), End(h.blocks, b);
      ListsSame(h.free, after, b + n, h'.free, g.free);
      SameBlocks(h.blocks, h'.blocks, g.blocks,
                 if IsFree(h.blocks, after) then {b, b + n, after} else {b, b + n});
    }
  }
}
