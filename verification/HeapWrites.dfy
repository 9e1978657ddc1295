/**
 What the allocator's calls write, in terms of the words, the list head and the heap's length alone; and
 that these writes take the words of one heap to the words of the next.
 */
module HeapWrites {
  import opened KernelWords
  import opened HeapModel
  import opened HeapWords
  import opened HeapSteps
  import opened HeapShrink

  /** The state that the code has: the heap's words, the list head, and where the heap ends. */
  datatype Memory = Memory(words: seq<Word>, head: Word, end: nat)

  /** The memory is the image of heap h. */
  ghost predicate Shows(s: Memory, h: Heap) {
    Represents(s.words, s.head, h) && s.end == h.end
  }

  /** The words from position end on are as before. */
  ghost predicate SameBehind(m: seq<Word>, m': seq<Word>, end: nat) {
    |m'| == |m| && forall j :: end <= j < |m| ==> m'[j] == m[j]
  }

  // ---- kmalloc ----

  ghost predicate IsBlockAddress(m: seq<Word>, p: Word) {
    p != NULL && 0 <= Index(p) < |m| - 2
  }

  /** The addresses that the walk along the list visits: all blocks but the last one visited are too short. */
  ghost predicate Walk(s: Memory, need: nat, path: seq<Word>) {
    && path != [] && path[0] == s.head
    && forall i {:trigger WalkStep(s.words, need, path, i)} :: 0 <= i < |path| - 1 ==> WalkStep(s.words, need, path, i)
  }

  ghost predicate WalkStep(m: seq<Word>, need: nat, path: seq<Word>, i: nat) {
    && i + 1 < |path| && IsBlockAddress(m, path[i])
    && GetSize(m[Index(path[i])]) < need && path[i + 1] == m[Index(path[i]) + 2]
  }

  /** The walk ends at a block that is long enough, or at the end of the list. */
  ghost predicate WalkEnds(s: Memory, need: nat, path: seq<Word>, p: Word) {
    && Walk(s, need, path) && path[|path| - 1] == p
    && (p != NULL ==> IsBlockAddress(s.words, p) && GetSize(s.words[Index(p)]) >= need)
  }

  /** allocate_block takes need words from block b. */
  ghost predicate Allocated(s: Memory, s': Memory, b: nat, need: nat) {
    && b < |s.words| && s'.end == s.end
    && if GetSize(s.words[b]) <= need + 2 * MIN_BLOCK_SIZE then
         Taken(s.words, s'.words, s.head, s'.head, b)
       else
         Split(s.words, s'.words, s.head, s'.head, b, need)
  }

  /** The heap's last block becomes a page longer. */
  ghost predicate Stretched(s: Memory, s': Memory) {
    var m, m', last := s.words, s'.words, s.end;
    && |m'| == |m| && 0 < last <= |m| && m[last - 1] <= last
    && var b := last - m[last - 1];
    && b < |m| && b + m[b] + WORDS_IN_PAGE <= |m|
    && m'[b] == m'[b + m[b] + WORDS_IN_PAGE - 1] == m[b] + WORDS_IN_PAGE
    && (forall j | 0 <= j < |m| :: m'[j] == m[j] || j == b || j == b + m[b] + WORDS_IN_PAGE - 1)
    && s'.head == s.head && s'.end == last + WORDS_IN_PAGE
  }

  /** The new page becomes a block in front of the list. */
  ghost predicate Appended(s: Memory, s': Memory) {
    var m, m', last := s.words, s'.words, s.end;
    && |m'| == |m| && last + WORDS_IN_PAGE <= |m|
    && m'[last] == m'[last + WORDS_IN_PAGE - 1] == WORDS_IN_PAGE
    && m'[last + 1] == NULL && m'[last + 2] == s.head
    && (s.head != NULL ==> IsBlockAddress(m, s.head) && m'[Index(s.head) + 1] == LinkAt([last], 0))
    && (forall j | 0 <= j < |m| ::
          || m'[j] == m[j] || last <= j <= last + 2 || j == last + WORDS_IN_PAGE - 1
          || (s.head != NULL && j == Index(s.head) + 1))
    && s'.head == LinkAt([last], 0) && s'.end == last + WORDS_IN_PAGE
  }

  /** increase_memory_pool. */
  ghost predicate Grown(s: Memory, s': Memory) {
    && 0 < s.end <= |s.words| && s.end < MAX_HEAP_WORDS
    && if GetAllocatedBit(s.words[s.end - 1]) then Appended(s, s') else Stretched(s, s')
  }

  /** One round of kmalloc that finds a block. */
  ghost predicate Serves(s: Memory, need: nat, s': Memory, p: Word) {
    exists path, q: Word ::
      WalkEnds(s, need, path, q) && q != NULL && Allocated(s, s', Index(q), need) && p == q + 3 * BYTES_IN_WORD
  }

  /** One round that does not. */
  ghost predicate FindsNothing(s: Memory, need: nat) {
    exists path :: WalkEnds(s, need, path, NULL)
  }

  /** kmalloc, for need words and while the given number of pages is to be had. */
  ghost predicate Mallocs(s: Memory, need: nat, frames: nat, s': Memory, p: Word, left: nat)
    decreases frames
  {
    || (Serves(s, need, s', p) && left == frames)
    || (FindsNothing(s, need) &&
        if frames > 0 && s.end < MAX_HEAP_WORDS then
          exists s1 :: Grown(s, s1) && Mallocs(s1, need, frames - 1, s', p, left)
        else
          s' == s && p == NULL && left == frames)
  }

  // ---- kfree ----

  /** Both tags of block b lose the allocated bit. */
  ghost predicate Unmarked(s: Memory, s': Memory, b: nat) {
    var m, m' := s.words, s'.words;
    && |m'| == |m| && b < |m| && 0 < GetSize(m[b]) <= |m| - b
    && m'[b] == GetSize(m[b]) && m'[b + GetSize(m[b]) - 1] == GetSize(m[b + GetSize(m[b]) - 1])
    && (forall j | 0 <= j < |m| :: m'[j] == m[j] || j == b || j == b + GetSize(m[b]) - 1)
    && s'.head == s.head && s'.end == s.end
  }

  /** Block b, whose allocated bit is clear, stands before a block that is free by its tag. */
  predicate FreeBehind(s: Memory, b: nat) {
    b < |s.words| && b + s.words[b] < |s.words| && !GetAllocatedBit(s.words[b + s.words[b]])
  }

  ghost predicate RightStep(s: Memory, s': Memory, b: nat) {
    && b < |s.words| && b + s.words[b] < |s.words| && s'.end == s.end
    && if FreeBehind(s, b) then RightMerged(s.words, s'.words, s.head, s'.head, b, b + s.words[b]) else s' == s
  }

  /** Block b comes to the front of the list. */
  ghost predicate Pushed(s: Memory, s': Memory, b: nat) {
    var m, m' := s.words, s'.words;
    && |m'| == |m| && b + 2 < |m|
    && m'[b + 1] == NULL && m'[b + 2] == s.head
    && (s.head != NULL ==> IsBlockAddress(m, s.head) && m'[Index(s.head) + 1] == LinkAt([b], 0))
    && (forall j | 0 <= j < |m| ::
          m'[j] == m[j] || j == b + 1 || j == b + 2 || (s.head != NULL && j == Index(s.head) + 1))
    && s'.head == LinkAt([b], 0) && s'.end == s.end
  }

  ghost predicate LeftStep(s: Memory, s': Memory, b: nat, inFreelist: bool) {
    && b < |s.words| && s'.end == s.end
    && if b > 0 && !GetAllocatedBit(s.words[b - 1]) then
         s.words[b - 1] <= b && LeftMerged(s.words, s'.words, s.head, s'.head, b - s.words[b - 1], b)
       else if !inFreelist then
         Pushed(s, s', b)
       else
         s' == s
  }

  /** kfree, for the payload of block b. */
  ghost predicate Frees(s: Memory, b: nat, s': Memory) {
    exists s1, s2 :: FreesBy(s, s1, s2, b, s')
  }

  ghost predicate FreesBy(s: Memory, s1: Memory, s2: Memory, b: nat, s': Memory) {
    Unmarked(s, s1, b) && RightStep(s1, s2, b) && LeftStep(s2, s', b, FreeBehind(s1, b))
  }

  // ---- krealloc, for a size that is no larger ----

  /** The tags of block b once it has been cut down to n words, and those of the words given back. */
  ghost predicate CutInTwo(s: Memory, s': Memory, b: nat, n: nat) {
    var m, m' := s.words, s'.words;
    && |m'| == |m| && b < |m| && BOOKKEEPING_WORDS <= n && n + 2 < GetSize(m[b]) <= |m| - b
    && var stop := b + GetSize(m[b]);
    && m'[b] == m'[b + n - 1] == n + ALLOCATED_BIT
    && m'[b + n] == m'[stop - 1] == stop - b - n
    && (forall j | 0 <= j < |m| :: m'[j] == m[j] || j == b || j == b + n - 1 || j == b + n || j == stop - 1)
    && s'.head == s.head && s'.end == s.end
  }

  ghost predicate Shrinks(s: Memory, b: nat, n: nat, s': Memory) {
    && b < |s.words| && n <= GetSize(s.words[b])
    && var after := b + GetSize(s.words[b]);
    if GetSize(s.words[b]) - n <= 2 * MIN_BLOCK_SIZE then
      s' == s
    else if after < s.end && after < |s.words| && !GetAllocatedBit(s.words[after]) then
      FedForward(s.words, s'.words, s'.head, b, n) && s'.end == s.end
    else
      CutsAndPushes(s, b, n, s')
  }

  ghost predicate CutsAndPushes(s: Memory, b: nat, n: nat, s': Memory) {
    exists s1 :: CutAndPushed(s, s1, b, n, s')
  }

  ghost predicate CutAndPushed(s: Memory, s1: Memory, b: nat, n: nat, s': Memory) {
    CutInTwo(s, s1, b, n) && Pushed(s1, s', b + n)
  }
}
