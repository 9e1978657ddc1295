/**
 How the words of the heap represent its blocks and its free list: tags at both ends of
 every block, and the list links in the second and third word of every free block.
 */
module HeapWords {
  import opened Collections
  import opened KernelWords
  import opened HeapModel

  /** The number of words behind the heap's range that a release may look at. */
  const GUARD_WORDS: nat := 3

  function Tag(block: Block): int {
    if block.used then block.size + ALLOCATED_BIT else block.size
  }

  /** The link word that leads to list position i. */
  function LinkAt(free: seq<nat>, i: int): int {
    if 0 <= i < |free| then HEAP_START_ADDR + BYTES_IN_WORD * free[i] else NULL
  }

  /** The address of the payload of block b. */
  function PayloadPtr(b: nat): int {
    HEAP_START_ADDR + BYTES_IN_WORD * (b + 3)
  }

  /** Block b carries its tag at both ends, and two null links if it is in use. */
  ghost predicate Tagged(m: seq<Word>, blocks: Blocks, b: nat) {
    b in blocks ==>
      && blocks[b].size >= BOOKKEEPING_WORDS && End(blocks, b) <= |m|
      && m[b] == Tag(blocks[b])
      && m[End(blocks, b) - 1] == Tag(blocks[b])
      && (blocks[b].used ==> m[b + 1] == NULL && m[b + 2] == NULL)
  }

  /** The links at list position i lead to the positions before and behind it. */
  ghost predicate LinkedAt(m: seq<Word>, free: seq<nat>, i: nat) {
    i < |free| ==>
      && free[i] + 2 < |m|
      && m[free[i] + 1] == LinkAt(free, i - 1)
      && m[free[i] + 2] == LinkAt(free, i + 1)
  }

  ghost predicate Linked(m: seq<Word>, head: Word, free: seq<nat>) {
    && head == LinkAt(free, 0)
    && forall i {:trigger LinkedAt(m, free, i)} :: LinkedAt(m, free, i)
  }

  ghost predicate AllTagged(m: seq<Word>, blocks: Blocks) {
    forall b {:trigger Tagged(m, blocks, b)} :: Tagged(m, blocks, b)
  }

  /**
   The words m and the list head show the blocks of h and the list of h. A free block may be
   missing from the list, and two free blocks may be neighbours.
   */
  ghost predicate Encodes(m: seq<Word>, head: Word, h: Heap) {
    && |m| == MAX_HEAP_WORDS + GUARD_WORDS
    && h.end <= MAX_HEAP_WORDS
    && Tiled(h.end, h.blocks)
    && NoDuplicates(h.free)
    && (forall i :: 0 <= i < |h.free| ==> IsFree(h.blocks, h.free[i]))
    && AllTagged(m, h.blocks)
    && Linked(m, head, h.free)
  }

  /** The words m and the list head represent the heap h. */
  ghost predicate Represents(m: seq<Word>, head: Word, h: Heap) {
    Encodes(m, head, h) && Inv(h)
  }

  // ---- the same in numbers ----

  /** The address of the block at a list position, and 0 in front of the list and behind it. */
  function AddressAt(free: seq<nat>, i: int): int {
    if 0 <= i < |free| then 0xC003_0000 + 4 * free[i] else 0
  }

  /** The first and the last word of block b hold its size, with bit 31 set and two zero links if it is in use. */
  ghost predicate BlockInWords(m: seq<Word>, block: Block, b: nat) {
    && 4 <= block.size <= |m| - b
    && m[b] == m[b + block.size - 1] == (if block.used then 0x8000_0000 else 0) + block.size
    && (block.used ==> m[b + 1] == m[b + 2] == 0)
  }

  ghost predicate LinksInWords(m: seq<Word>, free: seq<nat>, i: nat)
    requires i < |free|
  {
    free[i] + 2 < |m| && m[free[i] + 1] == AddressAt(free, i - 1) && m[free[i] + 2] == AddressAt(free, i + 1)
  }

  /** The words that represent a heap: tags at both ends of each block, and links in both directions. */
  lemma RepresentsInNumbers(m: seq<Word>, head: Word, h: Heap)
    requires Inv(h)
    ensures Represents(m, head, h) <==>
      && |m| == 0x400_0003 && head == AddressAt(h.free, 0)
      && (forall b :: b in h.blocks ==> BlockInWords(m, h.blocks[b], b))
      && (forall i: nat :: i < |h.free| ==> LinksInWords(m, h.free, i))
  {
    assert forall i :: 0 <= i < |h.free| ==> h.free[i] in h.free;
    forall i: int ensures AddressAt(h.free, i) == LinkAt(h.free, i) {}
    if Represents(m, head, h) {
      forall b | b in h.blocks ensures BlockInWords(m, h.blocks[b], b) { assert Tagged(m, h.blocks, b); }
      forall i: nat | i < |h.free| ensures LinksInWords(m, h.free, i) { assert LinkedAt(m, h.free, i); }
    } else {
      if forall b :: b in h.blocks ==> BlockInWords(m, h.blocks[b], b) {
        forall b ensures Tagged(m, h.blocks, b) {}
      }
      if forall i: nat :: i < |h.free| ==> LinksInWords(m, h.free, i) {
        forall i: nat ensures LinkedAt(m, h.free, i) { assert i < |h.free| ==> LinksInWords(m, h.free, i); }
      }
    }
  }

  /** Every word of block b is as before. */
  ghost predicate Untouched(m: seq<Word>, m': seq<Word>, blocks: Blocks, b: nat) {
    b in blocks && End(blocks, b) <= |m| && |m| == |m'| ==> m[b..End(blocks, b)] == m'[b..End(blocks, b)]
  }

  /** What a list position's words say, and where it lies. */
  lemma ListPosition(m: seq<Word>, head: Word, h: Heap, i: nat)
    requires Encodes(m, head, h) && i < |h.free|
    ensures IsFree(h.blocks, h.free[i]) && h.blocks[h.free[i]].size >= BOOKKEEPING_WORDS
    ensures End(h.blocks, h.free[i]) <= h.end <= MAX_HEAP_WORDS
    ensures LinkAt(h.free, i) == Ptr(h.free[i]) != NULL && Index(LinkAt(h.free, i)) == h.free[i]
    ensures m[h.free[i]] == m[End(h.blocks, h.free[i]) - 1] == h.blocks[h.free[i]].size
    ensures m[h.free[i] + 1] == LinkAt(h.free, i - 1) && m[h.free[i] + 2] == LinkAt(h.free, i + 1)
  {
    assert Tagged(m, h.blocks, h.free[i]) && LinkedAt(m, h.free, i) && Followed(h.end, h.blocks, h.free[i]);
  }

  /** No listed block is linked to itself. */
  lemma NoSelfLink(m: seq<Word>, head: Word, h: Heap, i: nat)
    requires Encodes(m, head, h) && i < |h.free|
    ensures h.free[i] + 2 < |m|
    ensures m[h.free[i] + 1] != LinkAt(h.free, i) && m[h.free[i] + 2] != LinkAt(h.free, i)
  {
    assert LinkedAt(m, h.free, i);
  }

  /** The words at a list position, and where the blocks listed next to it lie. */
  lemma NeighbourPositions(m: seq<Word>, head: Word, h: Heap, i: nat)
    requires Encodes(m, head, h) && i < |h.free|
    ensures var b := h.free[i]; var stop := End(h.blocks, b);
      && b + BOOKKEEPING_WORDS <= stop <= h.end <= MAX_HEAP_WORDS
      && m[b] == m[stop - 1] == h.blocks[b].size
      && m[b + 1] == LinkAt(h.free, i - 1) && m[b + 2] == LinkAt(h.free, i + 1)
    ensures i > 0 ==> var p := h.free[i - 1];
      && p < MAX_HEAP_WORDS && LinkAt(h.free, i - 1) == Ptr(p) && Index(Ptr(p)) == p
      && (p + BOOKKEEPING_WORDS <= h.free[i] || End(h.blocks, h.free[i]) <= p <= h.end - BOOKKEEPING_WORDS)
    ensures i + 1 < |h.free| ==> var n := h.free[i + 1];
      && n < MAX_HEAP_WORDS && LinkAt(h.free, i + 1) == Ptr(n) && Index(Ptr(n)) == n
      && (n + BOOKKEEPING_WORDS <= h.free[i] || End(h.blocks, h.free[i]) <= n <= h.end - BOOKKEEPING_WORDS)
    ensures 0 < i < |h.free| - 1 ==> var p, n := h.free[i - 1], h.free[i + 1];
      p + BOOKKEEPING_WORDS <= n || n + BOOKKEEPING_WORDS <= p
  {
    ListPosition(m, head, h, i);
    ListSpaced(h.end, h.blocks, h.free);
    if i > 0 {
      ListPosition(m, head, h, i - 1);
      assert Apart(h.blocks, h.free[i], h.free[i - 1]);
    }
    if i + 1 < |h.free| {
      ListPosition(m, head, h, i + 1);
      assert Apart(h.blocks, h.free[i], h.free[i + 1]);
    }
  }

  /** The word before a block, or before the heap's end, tells whether the block before it is free. */
  lemma TagBefore(m: seq<Word>, head: Word, h: Heap, b: nat) returns (l: nat)
    requires Encodes(m, head, h) && 0 < b && (b in h.blocks || b == h.end)
    ensures l in h.blocks && End(h.blocks, l) == b <= |m| && m[b - 1] == Tag(h.blocks[l])
    ensures h.blocks[l].size <= h.end && BOOKKEEPING_WORDS <= h.blocks[l].size
    ensures FreeBefore(h.blocks, b) == if GetAllocatedBit(m[b - 1]) then None else Some(l)
  {
    assert Followed(h.end, h.blocks, b);
    BlockBefore(h.end, h.blocks, b);
    l :| l in h.blocks && End(h.blocks, l) == b;
    FreeBeforeIs(h.end, h.blocks, l);
    assert Tagged(m, h.blocks, l) && Followed(h.end, h.blocks, l);
  }

  lemma FreeBeforeTag(m: seq<Word>, head: Word, h: Heap, b: nat)
    requires Encodes(m, head, h) && b in h.blocks
    ensures b <= |m|
    ensures FreeBefore(h.blocks, b).Some? <==> b > 0 && !GetAllocatedBit(m[b - 1])
  {
    var before := FreeBefore(h.blocks, b);
    assert before.Some? ==> Followed(h.end, h.blocks, before.value);
    assert Followed(h.end, h.blocks, b);
    if b > 0 {
      var l := TagBefore(m, head, h, b);
    }
  }

  /** If b is the heap's last block, the word behind the heap has its allocated bit set. */
  ghost predicate NextTagUsable(m: seq<Word>, h: Heap, b: nat) {
    b in h.blocks && End(h.blocks, b) == h.end < |m| ==> GetAllocatedBit(m[h.end])
  }

  // ---- frames ----

  /** m' differs from m at most in [lo, hi), in the next link at p and in the previous link at n. */
  ghost predicate ChangedWithin(m: seq<Word>, m': seq<Word>, lo: nat, hi: nat, p: nat, n: nat) {
    && |m| == |m'|
    && forall j :: 0 <= j < |m| ==> m'[j] == m[j] || lo <= j < hi || j == p + 2 || j == n + 1
  }

  /** A block outside [lo, hi) keeps its tags, and all its words if it is in use. */
  lemma Kept(m: seq<Word>, m': seq<Word>, end: nat, blocks: Blocks, lo: nat, hi: nat, p: nat, n: nat, x: nat)
    requires Tiled(end, blocks) && AllTagged(m, blocks) && ChangedWithin(m, m', lo, hi, p, n)
    requires lo + BOOKKEEPING_WORDS <= hi
    requires (p == lo || IsFree(blocks, p)) && (n == lo || IsFree(blocks, n))
    requires x in blocks && (End(blocks, x) <= lo || hi <= x)
    ensures Tagged(m', blocks, x)
    ensures blocks[x].used ==> Untouched(m, m', blocks, x)
  {
    assert Tagged(m, blocks, x) && Followed(end, blocks, x);
    assert Apart(blocks, x, p) && Apart(blocks, p, x) && Apart(blocks, x, n) && Apart(blocks, n, x);
    assert p != lo ==> Followed(end, blocks, p);
    assert n != lo ==> Followed(end, blocks, n);
  }

  // ---- the free list ----

  ghost predicate Spaced(free: seq<nat>) {
    forall j, k | 0 <= j < |free| && 0 <= k < |free| && j != k ::
      free[j] + BOOKKEEPING_WORDS <= free[k] || free[k] + BOOKKEEPING_WORDS <= free[j]
  }

  lemma ListSpaced(end: nat, blocks: Blocks, free: seq<nat>)
    requires Tiled(end, blocks) && NoDuplicates(free)
    requires forall i :: 0 <= i < |free| ==> IsFree(blocks, free[i])
    ensures Spaced(free)
  {
    forall j, k | 0 <= j < |free| && 0 <= k < |free| && j != k
      ensures free[j] + BOOKKEEPING_WORDS <= free[k] || free[k] + BOOKKEEPING_WORDS <= free[j]
    {
      assert IsFree(blocks, free[j]) && IsFree(blocks, free[k]);
      assert Followed(end, blocks, free[j]) && Followed(end, blocks, free[k]);
      assert Apart(blocks, free[j], free[k]) && Apart(blocks, free[k], free[j]);
    }
  }

  /** The links at position k are as before, but lead to back and on where those are given. */
  ghost predicate Relinked(m: seq<Word>, m': seq<Word>, f: nat, back: Option<int>, on: Option<int>) {
    && f + 2 < |m| && |m| == |m'|
    && m'[f + 1] == (if back.Some? then back.value else m[f + 1])
    && m'[f + 2] == (if on.Some? then on.value else m[f + 2])
  }

  /** Position i leaves the list. */
  lemma UnlinkLinked(m: seq<Word>, m': seq<Word>, head: Word, head': Word, free: seq<nat>, i: nat)
    requires Linked(m, head, free) && i < |free|
    requires head' == if i == 0 then LinkAt(free, 1) else head
    requires forall k | 0 <= k < |free| && k != i ::
      Relinked(m, m', free[k],
               if k == i + 1 then Some(LinkAt(free, i - 1)) else None,
               if k == i - 1 then Some(LinkAt(free, i + 1)) else None)
    ensures Linked(m', head', RemoveAt(free, i))
  {
    var shorter := RemoveAt(free, i);
    forall k: nat ensures LinkedAt(m', shorter, k) {
      var old_k := if k < i then k else k + 1;
      assert LinkedAt(m, free, old_k);
      if k < |shorter| { assert shorter[k] == free[old_k]; }
    }
  }

  /** The block at position i makes way for block y. */
  lemma ReplaceLinked(m: seq<Word>, m': seq<Word>, head: Word, head': Word, free: seq<nat>, i: nat, y: nat)
    requires Linked(m, head, free) && i < |free|
    requires head' == if i == 0 then LinkAt([y], 0) else head
    requires forall k | 0 <= k < |free| && k != i ::
      Relinked(m, m', free[k],
               if k == i + 1 then Some(LinkAt([y], 0)) else None,
               if k == i - 1 then Some(LinkAt([y], 0)) else None)
    requires y + 2 < |m'| && m'[y + 1] == LinkAt(free, i - 1) && m'[y + 2] == LinkAt(free, i + 1)
    ensures Linked(m', head', free[i := y])
  {
    var replaced := free[i := y];
    forall k: nat ensures LinkedAt(m', replaced, k) {
      assert LinkedAt(m, free, k);
    }
  }

  /** Block y comes to the front of the list. */
  lemma PushLinked(m: seq<Word>, m': seq<Word>, head: Word, head': Word, free: seq<nat>, y: nat)
    requires Linked(m, head, free)
    requires head' == LinkAt([y], 0)
    requires forall k | 0 <= k < |free| ::
      Relinked(m, m', free[k], if k == 0 then Some(LinkAt([y], 0)) else None, None)
    requires y + 2 < |m'| && m'[y + 1] == NULL && m'[y + 2] == head
    ensures Linked(m', head', [y] + free)
  {
    forall k: nat ensures LinkedAt(m', [y] + free, k) {
      if k > 0 { assert LinkedAt(m, free, k - 1); }
    }
  }
}
