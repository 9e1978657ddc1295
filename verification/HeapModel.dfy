/**
 The allocator as a caller sees it once the words are forgotten: which blocks there are,
 which of them are in use, and in what order the free ones stand on the free list.
 */
module HeapModel {
  import opened Collections
  import opened KernelWords

  datatype Block = Block(size: nat, used: bool)

  /** The blocks of a heap, by the index of their first word. */
  type Blocks = map<nat, Block>

  /** The heap is end words long; free is the free list, in list order. */
  datatype Heap = Heap(end: nat, blocks: Blocks, free: seq<nat>)

  ghost predicate IsFree(blocks: Blocks, b: nat) {
    b in blocks && !blocks[b].used
  }

  ghost predicate IsLive(blocks: Blocks, b: nat) {
    b in blocks && blocks[b].used
  }

  /** The index of the first word behind block b. */
  function End(blocks: Blocks, b: nat): nat
    requires b in blocks
  {
    b + blocks[b].size
  }

  // ---- the invariant ----

  /** Block b is long enough for its own bookkeeping, and another block or the heap's end follows it. */
  ghost predicate Followed(end: nat, blocks: Blocks, b: nat) {
    b in blocks ==>
      && blocks[b].size >= BOOKKEEPING_WORDS
      && (End(blocks, b) == end || (End(blocks, b) < end && End(blocks, b) in blocks))
  }

  ghost predicate Apart(blocks: Blocks, b: nat, c: nat) {
    b in blocks && c in blocks && b < c ==> End(blocks, b) <= c
  }

  /** The blocks cover the words below end, without gap or overlap. */
  ghost predicate Tiled(end: nat, blocks: Blocks) {
    && end > 0
    && 0 in blocks
    && (forall b {:trigger Followed(end, blocks, b)} :: Followed(end, blocks, b))
    && (forall b, c {:trigger Apart(blocks, b, c)} :: Apart(blocks, b, c))
  }

  /** The free list holds exactly the free blocks, each once. */
  ghost predicate Listed(blocks: Blocks, free: seq<nat>) {
    && NoDuplicates(free)
    && (forall b :: b in free <==> IsFree(blocks, b))
  }

  /** No two neighbouring blocks are both free. */
  ghost predicate Coalesced(blocks: Blocks) {
    forall b, c :: IsFree(blocks, b) && IsFree(blocks, c) ==> End(blocks, b) != c
  }

  ghost predicate Inv(h: Heap) {
    && Tiled(h.end, h.blocks)
    && Listed(h.blocks, h.free)
    && Coalesced(h.blocks)
    && h.end % WORDS_IN_PAGE == 0
    && h.end <= MAX_HEAP_WORDS
  }

  // ---- the steps ----

  function Init(): Heap {
    Heap(WORDS_IN_PAGE, map[0 := Block(WORDS_IN_PAGE, false)], [0])
  }

  function RemoveAt<T>(s: seq<T>, i: nat): seq<T>
    requires i < |s|
  {
    s[..i] + s[i + 1..]
  }

  /** Block b becomes two: its first n words and the rest. */
  function Cut(blocks: Blocks, b: nat, n: nat, used: bool, restUsed: bool): Blocks
    requires b in blocks && n <= blocks[b].size
  {
    blocks[b := Block(n, used)][b + n := Block(blocks[b].size - n, restUsed)]
  }

  /** Block b and block c behind it become one. */
  function Join(blocks: Blocks, b: nat, c: nat, used: bool): Blocks
    requires b in blocks && c in blocks
  {
    (blocks - {c})[b := Block(blocks[b].size + blocks[c].size, used)]
  }

  function Mark(blocks: Blocks, b: nat, used: bool): Blocks
    requires b in blocks
  {
    blocks[b := blocks[b].(used := used)]
  }

  /** The block at list position i has at least need words. */
  predicate Fits(h: Heap, i: nat, need: nat) {
    i < |h.free| && h.free[i] in h.blocks && h.blocks[h.free[i]].size >= need
  }

  /** The least list position from i on whose block fits. */
  function FirstFit(h: Heap, need: nat, i: nat): (r: Option<nat>)
    requires i <= |h.free|
    ensures r.Some? ==> i <= r.value && Fits(h, r.value, need)
    ensures forall k :: i <= k < (if r.Some? then r.value else |h.free|) ==> !Fits(h, k, need)
    decreases |h.free| - i
  {
    if i == |h.free| then None
    else if Fits(h, i, need) then Some(i)
    else FirstFit(h, need, i + 1)
  }

  /** Serve a request for need words from the free block at list position i. */
  function Take(h: Heap, i: nat, need: nat): Heap
    requires i < |h.free| && h.free[i] in h.blocks
    requires h.blocks[h.free[i]].size >= need
  {
    var b := h.free[i];
    if h.blocks[b].size <= need + 2 * MIN_BLOCK_SIZE then
      Heap(h.end, Mark(h.blocks, b, true), RemoveAt(h.free, i))
    else
      Heap(h.end, Cut(h.blocks, b, need, true, false), h.free[i := b + need])
  }

  /** The free block, if any, that stops where position b starts. */
  ghost function FreeBefore(blocks: Blocks, b: nat): (r: Option<nat>)
    ensures r.Some? ==> IsFree(blocks, r.value) && End(blocks, r.value) == b
    ensures r.None? ==> forall l :: IsFree(blocks, l) ==> End(blocks, l) != b
  {
    if l :| IsFree(blocks, l) && End(blocks, l) == b then Some(l) else None
  }

  /** Make the heap one page longer. */
  ghost function Grow(h: Heap): Heap {
    match FreeBefore(h.blocks, h.end)
    case Some(t) =>
      Heap(h.end + WORDS_IN_PAGE, h.blocks[t := Block(h.blocks[t].size + WORDS_IN_PAGE, false)], h.free)
    case None =>
      Heap(h.end + WORDS_IN_PAGE, h.blocks[h.end := Block(WORDS_IN_PAGE, false)], [h.end] + h.free)
  }

  ghost function Position<T>(s: seq<T>, x: T): (i: nat)
    requires x in s
    ensures i < |s| && s[i] == x
  {
    var i :| 0 <= i < |s| && s[i] == x; i
  }

  /** Give a block in use back, merging it with the free blocks on either side. */
  ghost function Release(h: Heap, b: nat): Heap
    requires IsLive(h.blocks, b) && Listed(h.blocks, h.free)
  {
    var after := End(h.blocks, b);
    match FreeBefore(h.blocks, b)
    case None =>
      if IsFree(h.blocks, after) then
        Heap(h.end, Join(h.blocks, b, after, false), h.free[Position(h.free, after) := b])
      else
        Heap(h.end, Mark(h.blocks, b, false), [b] + h.free)
    case Some(l) =>
      if IsFree(h.blocks, after) then
        Heap(h.end,
             Join(Join(h.blocks, b, after, false), l, b, false),
             RemoveAt(h.free, Position(h.free, after)))
      else
        Heap(h.end, Join(h.blocks, l, b, false), h.free)
  }

  /** The heap once block b is marked free and merged with a free block behind it, but not with one before it. */
  ghost function ReleaseRight(h: Heap, b: nat): Heap
    requires IsLive(h.blocks, b) && Listed(h.blocks, h.free)
  {
    var after := End(h.blocks, b);
    if IsFree(h.blocks, after) then
      Heap(h.end, Join(Mark(h.blocks, b, false), b, after, false), h.free[Position(h.free, after) := b])
    else
      h.(blocks := Mark(h.blocks, b, false))
  }

  // ---- lists ----

  lemma RemoveAtElements<T>(s: seq<T>, i: nat)
    requires i < |s| && NoDuplicates(s)
    ensures NoDuplicates(RemoveAt(s, i))
    ensures forall x :: x in RemoveAt(s, i) <==> x in s && x != s[i]
  {
    var r := RemoveAt(s, i);
    forall x | x in s && x != s[i] ensures x in r {
      var k := Position(s, x);
      assert r[if k < i then k else k - 1] == x;
    }
  }

  lemma ReplaceElements<T>(s: seq<T>, i: nat, y: T)
    requires i < |s| && NoDuplicates(s) && y !in s
    ensures NoDuplicates(s[i := y])
    ensures forall x :: x in s[i := y] <==> x == y || (x in s && x != s[i])
  {
    var r := s[i := y];
    assert r[i] == y;
    forall x | x in s && x != s[i] ensures x in r {
      var k := Position(s, x);
      assert r[k] == x;
    }
  }

  lemma FrontElements<T>(s: seq<T>, y: T)
    requires NoDuplicates(s) && y !in s
    ensures NoDuplicates([y] + s)
    ensures forall x :: x in [y] + s <==> x == y || x in s
  {
  }

  // ---- cutting and joining keep the tiling ----

  lemma CutTiled(end: nat, blocks: Blocks, b: nat, n: nat, used: bool, restUsed: bool)
    requires Tiled(end, blocks) && b in blocks
    requires BOOKKEEPING_WORDS <= n <= blocks[b].size - BOOKKEEPING_WORDS
    ensures b + n !in blocks
    ensures Tiled(end, Cut(blocks, b, n, used, restUsed))
  {
    assert Followed(end, blocks, b + n) && Apart(blocks, b, b + n);
    var cut := Cut(blocks, b, n, used, restUsed);
    forall x ensures Followed(end, cut, x) {
      assert Followed(end, blocks, x) && Followed(end, blocks, b);
    }
    forall x, y ensures Apart(cut, x, y) {
      assert Apart(blocks, x, y) && Apart(blocks, b, y) && Apart(blocks, x, b) && Apart(blocks, b, x);
      assert Followed(end, blocks, b);
    }
  }

  lemma JoinTiled(end: nat, blocks: Blocks, b: nat, c: nat, used: bool)
    requires Tiled(end, blocks) && b in blocks && c in blocks && End(blocks, b) == c
    ensures Tiled(end, Join(blocks, b, c, used))
  {
    var joined := Join(blocks, b, c, used);
    assert Followed(end, blocks, b) && Followed(end, blocks, c);
    forall x ensures Followed(end, joined, x) {
      assert Followed(end, blocks, x) && Apart(blocks, x, b) && Apart(blocks, b, x);
    }
    forall x, y ensures Apart(joined, x, y) {
      assert Apart(blocks, x, y) && Apart(blocks, c, y);
    }
  }

  lemma MarkTiled(end: nat, blocks: Blocks, b: nat, used: bool)
    requires Tiled(end, blocks) && b in blocks
    ensures Tiled(end, Mark(blocks, b, used))
  {
    var marked := Mark(blocks, b, used);
    forall x ensures Followed(end, marked, x) {
      assert Followed(end, blocks, x);
    }
    forall x, y ensures Apart(marked, x, y) {
      assert Apart(blocks, x, y);
    }
  }

  lemma StretchTiled(end: nat, blocks: Blocks, t: nat, used: bool)
    requires Tiled(end, blocks) && t in blocks && End(blocks, t) == end
    ensures Tiled(end + WORDS_IN_PAGE, blocks[t := Block(blocks[t].size + WORDS_IN_PAGE, used)])
  {
    var newEnd := end + WORDS_IN_PAGE;
    var stretched := blocks[t := Block(blocks[t].size + WORDS_IN_PAGE, used)];
    forall x ensures Followed(newEnd, stretched, x) {
      assert Followed(end, blocks, x) && Followed(end, blocks, t) && Apart(blocks, x, t) && Apart(blocks, t, x);
    }
    forall x, y ensures Apart(stretched, x, y) {
      assert Apart(blocks, x, y) && Followed(end, blocks, y);
    }
  }

  lemma AppendTiled(end: nat, blocks: Blocks)
    requires Tiled(end, blocks)
    ensures end !in blocks
    ensures Tiled(end + WORDS_IN_PAGE, blocks[end := Block(WORDS_IN_PAGE, false)])
  {
    assert Followed(end, blocks, end);
    var newEnd := end + WORDS_IN_PAGE;
    var longer := blocks[end := Block(WORDS_IN_PAGE, false)];
    forall x ensures Followed(newEnd, longer, x) {
      assert Followed(end, blocks, x);
    }
    forall x, y ensures Apart(longer, x, y) {
      assert Apart(blocks, x, y) && Followed(end, blocks, x) && Followed(end, blocks, y);
    }
  }

  // ---- the invariant holds at the start and every step keeps it ----

  lemma InitInv()
    ensures Inv(Init())
  {
    var h := Init();
    forall x ensures Followed(h.end, h.blocks, x) {}
    forall x, y ensures Apart(h.blocks, x, y) {}
    assert h.free[0] == 0;
  }

  lemma CutListed(blocks: Blocks, free: seq<nat>, i: nat, n: nat)
    requires Listed(blocks, free) && i < |free| && free[i] in blocks && n <= blocks[free[i]].size
    requires n > 0 && free[i] + n !in blocks
    ensures Listed(Cut(blocks, free[i], n, true, false), free[i := free[i] + n])
  {
    ReplaceElements(free, i, free[i] + n);
    var cut := Cut(blocks, free[i], n, true, false);
    forall x: nat ensures x in free[i := free[i] + n] <==> IsFree(cut, x) {
      assert x in free <==> IsFree(blocks, x);
    }
  }

  lemma CutCoalesced(end: nat, blocks: Blocks, b: nat, n: nat)
    requires Tiled(end, blocks) && Coalesced(blocks) && IsFree(blocks, b)
    requires 0 < n < blocks[b].size
    ensures Coalesced(Cut(blocks, b, n, true, false))
  {
    var cut := Cut(blocks, b, n, true, false);
    forall x, y | IsFree(cut, x) && IsFree(cut, y) ensures End(cut, x) != y {
      assert x != b + n ==> IsFree(blocks, x);
      assert y != b + n ==> IsFree(blocks, y);
      assert Apart(blocks, x, b) && Apart(blocks, b, x) && Followed(end, blocks, x);
    }
  }

  lemma TakeInv(h: Heap, i: nat, need: nat)
    requires Inv(h) && i < |h.free| && need >= BOOKKEEPING_WORDS
    requires h.free[i] in h.blocks && h.blocks[h.free[i]].size >= need
    ensures Inv(Take(h, i, need))
  {
    var b := h.free[i];
    assert IsFree(h.blocks, b);
    if h.blocks[b].size <= need + 2 * MIN_BLOCK_SIZE {
      MarkTiled(h.end, h.blocks, b, true);
      RemoveAtElements(h.free, i);
    } else {
      CutTiled(h.end, h.blocks, b, need, true, false);
      CutListed(h.blocks, h.free, i, need);
      CutCoalesced(h.end, h.blocks, b, need);
    }
  }

  lemma GrowInv(h: Heap)
    requires Inv(h) && h.end < MAX_HEAP_WORDS
    ensures Inv(Grow(h))
  {
    match FreeBefore(h.blocks, h.end)
    case Some(t) =>
      StretchTiled(h.end, h.blocks, t, false);
      forall x: nat | IsFree(h.blocks, x) ensures x < h.end { assert Followed(h.end, h.blocks, x); }
    case None =>
      AppendTiled(h.end, h.blocks);
      FrontElements(h.free, h.end);
      forall x: nat | IsFree(h.blocks, x) ensures x < h.end { assert Followed(h.end, h.blocks, x); }
  }

  lemma JoinAfterListed(blocks: Blocks, free: seq<nat>, b: nat, i: nat)
    requires Listed(blocks, free) && IsLive(blocks, b) && i < |free| && free[i] in blocks
    ensures Listed(Join(blocks, b, free[i], false), free[i := b])
  {
    ReplaceElements(free, i, b);
    var joined := Join(blocks, b, free[i], false);
    forall x: nat ensures x in free[i := b] <==> IsFree(joined, x) {
      assert x in free <==> IsFree(blocks, x);
    }
  }

  lemma ReleaseTiled(h: Heap, b: nat)
    requires Inv(h) && IsLive(h.blocks, b)
    ensures Tiled(h.end, Release(h, b).blocks)
  {
    var after := End(h.blocks, b);
    match FreeBefore(h.blocks, b)
    case None =>
      if IsFree(h.blocks, after) {
        JoinTiled(h.end, h.blocks, b, after, false);
      } else {
        MarkTiled(h.end, h.blocks, b, false);
      }
    case Some(l) =>
      if IsFree(h.blocks, after) {
        assert Followed(h.end, h.blocks, b) && Followed(h.end, h.blocks, l);
        JoinTiled(h.end, h.blocks, b, after, false);
        JoinTiled(h.end, Join(h.blocks, b, after, false), l, b, false);
      } else {
        JoinTiled(h.end, h.blocks, l, b, false);
      }
  }

  lemma ReleaseListed(h: Heap, b: nat)
    requires Inv(h) && IsLive(h.blocks, b)
    ensures Listed(Release(h, b).blocks, Release(h, b).free)
  {
    var after := End(h.blocks, b);
    match FreeBefore(h.blocks, b)
    case None =>
      if IsFree(h.blocks, after) {
        JoinAfterListed(h.blocks, h.free, b, Position(h.free, after));
      } else {
        FrontElements(h.free, b);
      }
    case Some(l) =>
      if IsFree(h.blocks, after) {
        RemoveAtElements(h.free, Position(h.free, after));
      }
  }

  /** Where the block that a release leaves behind starts and stops. */
  ghost function Merged(blocks: Blocks, b: nat): (m: (nat, nat))
    requires b in blocks
  {
    var l := FreeBefore(blocks, b);
    var after := End(blocks, b);
    (if l.Some? then l.value else b, if IsFree(blocks, after) then End(blocks, after) else after)
  }

  lemma ReleaseShape(h: Heap, b: nat)
    requires Inv(h) && IsLive(h.blocks, b)
    ensures var (m, stop) := Merged(h.blocks, b); var r := Release(h, b).blocks;
      && IsFree(r, m) && End(r, m) == stop
      && (forall x :: x in r && x != m ==> x in h.blocks && r[x] == h.blocks[x] && x != b)
  {
    assert Followed(h.end, h.blocks, b);
  }

  lemma ReleaseCoalesced(h: Heap, b: nat)
    requires Inv(h) && IsLive(h.blocks, b)
    ensures Coalesced(Release(h, b).blocks)
  {
    var r := Release(h, b).blocks;
    var (m, stop) := Merged(h.blocks, b);
    ReleaseShape(h, b);
    ReleaseTiled(h, b);
    assert Followed(h.end, r, m);
    forall x, y | IsFree(r, x) && IsFree(r, y) ensures End(r, x) != y {
      assert x != m ==> IsFree(h.blocks, x) && End(r, x) == End(h.blocks, x);
      assert y != m ==> IsFree(h.blocks, y);
    }
  }

  lemma ReleaseInv(h: Heap, b: nat)
    requires Inv(h) && IsLive(h.blocks, b)
    ensures Inv(Release(h, b))
  {
    ReleaseTiled(h, b);
    ReleaseListed(h, b);
    ReleaseCoalesced(h, b);
  }

  /** A block stops wherever another one starts, and where the heap stops. */
  lemma BlockBefore(end: nat, blocks: Blocks, b: nat)
    requires Tiled(end, blocks) && 0 < b && (b in blocks || b == end)
    ensures exists l :: l in blocks && End(blocks, l) == b
  {
    var l := 0;
    assert Followed(end, blocks, b);
    while End(blocks, l) < b
      invariant l in blocks && l < b
      invariant Followed(end, blocks, l) && Apart(blocks, l, b)
      decreases b - l
    {
      l := End(blocks, l);
      assert Followed(end, blocks, l) && Apart(blocks, l, b);
    }
  }

  /** At most one block stops at a given place. */
  lemma BlockBeforeUnique(end: nat, blocks: Blocks, k: nat, l: nat)
    requires Tiled(end, blocks) && k in blocks && l in blocks && End(blocks, k) == End(blocks, l)
    ensures k == l
  {
    assert Apart(blocks, k, l) && Apart(blocks, l, k);
    assert Followed(end, blocks, k) && Followed(end, blocks, l);
  }

  lemma FreeBeforeIs(end: nat, blocks: Blocks, l: nat)
    requires Tiled(end, blocks) && l in blocks
    ensures FreeBefore(blocks, End(blocks, l)) == if blocks[l].used then None else Some(l)
  {
    var f := FreeBefore(blocks, End(blocks, l));
    if f.Some? { BlockBeforeUnique(end, blocks, f.value, l); }
  }

  /** What is left of a release once the block has met the block behind it. */
  ghost function ReleaseLeft(g: Heap, b: nat, listedAt: Option<nat>): Heap
    requires b in g.blocks && (listedAt.Some? ==> listedAt.value < |g.free|)
  {
    match FreeBefore(g.blocks, b)
    case Some(l) =>
      Heap(g.end, Join(g.blocks, l, b, false), if listedAt.Some? then RemoveAt(g.free, listedAt.value) else g.free)
    case None =>
      if listedAt.Some? then g else g.(free := [b] + g.free)
  }

  lemma ReleaseByHalves(h: Heap, b: nat)
    requires Inv(h) && IsLive(h.blocks, b)
    ensures var after := End(h.blocks, b);
      var i := if IsFree(h.blocks, after) then Some(Position(h.free, after)) else None;
      && Release(h, b) == ReleaseLeft(ReleaseRight(h, b), b, i)
      && FreeBefore(h.blocks, b) == FreeBefore(ReleaseRight(h, b).blocks, b)
  {
    SameFreeBefore(h, b);
  }

  /** What is behind b does not matter to which free block stands before it. */
  lemma SameFreeBefore(h: Heap, b: nat)
    requires Inv(h) && IsLive(h.blocks, b)
    ensures FreeBefore(h.blocks, b) == FreeBefore(ReleaseRight(h, b).blocks, b)
  {
    var g := ReleaseRight(h, b);
    assert Followed(h.end, h.blocks, b);
    var before := FreeBefore(h.blocks, b);
    assert before.Some? ==> IsFree(g.blocks, before.value) && End(g.blocks, before.value) == b;
    if FreeBefore(g.blocks, b).Some? {
      FreeBeforeIs(h.end, h.blocks, FreeBefore(g.blocks, b).value);
    }
  }

  lemma ReleaseRightLists(h: Heap, b: nat)
    requires Inv(h) && IsLive(h.blocks, b)
    ensures var g := ReleaseRight(h, b); forall l :: IsFree(g.blocks, l) && l != b ==> l in g.free
  {
    var after := End(h.blocks, b);
    if IsFree(h.blocks, after) {
      ReplaceElements(h.free, Position(h.free, after), b);
      forall l: nat | IsFree(ReleaseRight(h, b).blocks, l) && l != b ensures l in h.free && l != after {
        assert IsFree(h.blocks, l);
      }
    }
  }

  // ---- a request, with page growth ----

  /**
   A request for need words when the physical allocator still has the given number of pages:
   the heap afterwards, the block served if any, and the pages left.
   */
  ghost function Malloc(h: Heap, need: nat, frames: nat): (Heap, Option<nat>, nat)
    requires Inv(h)
    decreases frames
  {
    match FirstFit(h, need, 0)
    case Some(i) => (Take(h, i, need), Some(h.free[i]), frames)
    case None =>
      if frames > 0 && h.end < MAX_HEAP_WORDS then
        GrowInv(h);
        Malloc(Grow(h), need, frames - 1)
      else
        (h, None, frames)
  }

  /** Every block in use stays in use, as long as it was. */
  ghost predicate KeepsLive(blocks: Blocks, blocks': Blocks) {
    forall x {:trigger IsLive(blocks, x)} :: IsLive(blocks, x) ==> IsLive(blocks', x) && blocks'[x] == blocks[x]
  }

  lemma GrowKeepsLive(h: Heap)
    requires Inv(h)
    ensures KeepsLive(h.blocks, Grow(h).blocks)
  {
    assert Followed(h.end, h.blocks, h.end);
  }

  /** The words a request takes up: the payload's and the bookkeeping ones. */
  function Need(bytes: Word): nat {
    BytesToWords(bytes) + BOOKKEEPING_WORDS
  }
}
