/**
 The words determine the heap; and what a release of the heap's last block does when the word
 behind the heap does not look like the tag of a block in use.
 */
module HeapEdge {
  import opened Collections
  import opened KernelWords
  import opened HeapModel
  import opened HeapWords
  import opened HeapSteps
  import opened HeapWrites
  import opened HeapRefinement

  // ---- one representation, one heap ----

  lemma {:induction false} SameBlock(m: seq<Word>, end: nat, a: Blocks, b: Blocks, x: nat)
    requires Tiled(end, a) && AllTagged(m, a) && Tiled(end, b) && AllTagged(m, b) && end <= MAX_HEAP_WORDS
    requires x in a
    ensures x in b && b[x] == a[x]
    decreases x
  {
    assert Followed(end, a, x);
    if x > 0 {
      BlockBefore(end, a, x);
      var l :| l in a && End(a, l) == x;
      assert Followed(end, a, l) && Followed(end, b, l);
      SameBlock(m, end, a, b, l);
    }
    assert Tagged(m, a, x) && Tagged(m, b, x) && Followed(end, b, x);
  }

  lemma SameBlocks(m: seq<Word>, end: nat, a: Blocks, b: Blocks)
    requires Tiled(end, a) && AllTagged(m, a) && Tiled(end, b) && AllTagged(m, b) && end <= MAX_HEAP_WORDS
    ensures a == b
  {
    forall x | x in a ensures x in b && b[x] == a[x] { SameBlock(m, end, a, b, x); }
    forall x | x in b ensures x in a { SameBlock(m, end, b, a, x); }
  }

  lemma {:induction false} SameList(m: seq<Word>, head: Word, g: Heap, h: Heap, i: nat)
    requires Encodes(m, head, g) && Encodes(m, head, h) && i < |g.free|
    ensures i < |h.free| && h.free[i] == g.free[i]
  {
    ListPosition(m, head, g, i);
    if i > 0 {
      SameList(m, head, g, h, i - 1);
      assert LinkedAt(m, g.free, i - 1) && LinkedAt(m, h.free, i - 1);
    }
  }

  /** The words, the list head and the heap's length leave no doubt about the heap. */
  lemma RepresentsOneHeap(m: seq<Word>, head: Word, g: Heap, h: Heap)
    requires Represents(m, head, g) && Represents(m, head, h) && g.end == h.end
    ensures g == h
  {
    SameBlocks(m, h.end, g.blocks, h.blocks);
    if g.free != [] { SameList(m, head, g, h, |g.free| - 1); }
    if h.free != [] { SameList(m, head, h, g, |h.free| - 1); }
    forall i | 0 <= i < |g.free| ensures i < |h.free| && h.free[i] == g.free[i] { SameList(m, head, g, h, i); }
  }

  /** What lies behind the heap does not matter to what its words show. */
  lemma BehindIrrelevant(m: seq<Word>, m': seq<Word>, head: Word, h: Heap)
    requires Encodes(m, head, h) && |m'| == |m| && forall j :: 0 <= j < h.end ==> m'[j] == m[j]
    ensures Encodes(m', head, h)
  {
    forall b ensures Tagged(m', h.blocks, b) {
      assert Tagged(m, h.blocks, b) && Followed(h.end, h.blocks, b);
    }
    forall i: nat ensures LinkedAt(m', h.free, i) {
      assert LinkedAt(m, h.free, i);
      if i < |h.free| { ListPosition(m, head, h, i); }
    }
  }

  // ---- the last block, in front of a word that does not look like the tag of a block in use ----

  /** There is a heap of the given length that the words represent. */
  ghost predicate IsHeap(m: seq<Word>, head: Word, end: nat) {
    exists g :: Represents(m, head, g) && g.end == end
  }

  /** A link that is null, or leads elsewhere. */
  predicate Stray(m: seq<Word>, p: Word) {
    p == NULL || Elsewhere(m, p)
  }

  /**
   Block b is the last, and the word behind the heap has its allocated bit clear. What would be the links of a
   block there do not lead into the heap's range, and neither does the index of the footer that kfree computes.
   */
  ghost predicate FalseTag(m: seq<Word>, h: Heap, b: nat) {
    && b in h.blocks && End(h.blocks, b) == h.end && 0 < h.end && h.end + 2 < |m|
    && !GetAllocatedBit(m[h.end]) && (m[h.end] > 0 ==> Wrapped(h.end + m[h.end] - 1) >= h.end)
    && Stray(m, m[h.end + 1]) && Stray(m, m[h.end + 2])
  }

  /**
   The false tags that do no harm: zero, in front of two null links if the free list is empty, or in front of
   a first link that is not null if there is a free block before b to take b in.
   */
  ghost predicate Harmless(m: seq<Word>, h: Heap, b: nat)
    requires FalseTag(m, h, b)
  {
    && m[h.end] == 0
    && if m[h.end + 1] == NULL then m[h.end + 2] == NULL && h.free == [] else FreeBefore(h.blocks, b).Some?
  }

  /** Block b is the last of the heap, in front of a false tag, and its own tags have just been cleared. */
  ghost predicate AtFalseTag(m: seq<Word>, head: Word, h: Heap, b: nat) {
    && Inv(h) && IsLive(h.blocks, b) && FalseTag(m, h, b)
    && Encodes(m, head, h.(blocks := Mark(h.blocks, b, false))) && b !in h.free
    && BOOKKEEPING_WORDS <= m[b] == h.end - b && m[b + 1] == m[b + 2] == NULL
  }

  lemma UnmarkedAtFalseTag(s: Memory, s1: Memory, h: Heap, b: nat)
    requires Shows(s, h) && IsLive(h.blocks, b) && FalseTag(s.words, h, b) && Unmarked(s, s1, b)
    ensures AtFalseTag(s1.words, s1.head, h, b) && FreeBehind(s1, b) && MergeableRight(s1.words, b)
    ensures SameBehind(s.words, s1.words, h.end) && OthersUntouched(s.words, s1.words, h.blocks, b)
    ensures Harmless(s1.words, h, b) <==> Harmless(s.words, h, b)
  {
    UnmarkedRight(s, s1, h, b);
    assert Followed(h.end, h.blocks, b);
  }

  /** What the merge with the words behind leaves alone, and what it makes of block b. */
  lemma FalselyMerged(m: seq<Word>, m': seq<Word>, head: Word, head': Word, h: Heap, b: nat)
    requires AtFalseTag(m, head, h, b) && RightMerged(m, m', head, head', b, h.end)
    ensures |m'| == |m| && forall j | 0 <= j < h.end - 1 && !(b <= j <= b + 2) :: m'[j] == m[j]
    ensures m'[b] == (h.end - b) + m[h.end] && (m[h.end] == 0 ==> m'[h.end - 1] == h.end - b)
    ensures m'[b + 1] == m[h.end + 1] && m'[b + 2] == m[h.end + 2]
    ensures head' == if m[h.end + 1] == NULL then LinkAt([b], 0) else head
  {
  }

  /** The blocks before b are as they were. */
  lemma TaggedBefore(m: seq<Word>, m': seq<Word>, head: Word, head': Word, h: Heap, b: nat, x: nat)
    requires AtFalseTag(m, head, h, b) && RightMerged(m, m', head, head', b, h.end)
    requires x in h.blocks && x < b
    ensures Tagged(m', h.blocks, x) && Untouched(m, m', h.blocks, x)
  {
    var marked := Mark(h.blocks, b, false);
    FalselyMerged(m, m', head, head', h, b);
    assert Tagged(m, marked, x) && Apart(marked, x, b) && Followed(h.end, marked, x);
  }

  /** Where the blocks before x have kept their tags, any heap that the words show has a block starting at x. */
  lemma {:induction false} SameStart(m: seq<Word>, end: nat, a: Blocks, b: Blocks, x: nat)
    requires Tiled(end, a) && Tiled(end, b) && AllTagged(m, b) && end <= MAX_HEAP_WORDS && x in a
    requires forall y {:trigger Tagged(m, a, y)} :: y in a && y < x ==> Tagged(m, a, y)
    ensures x in b
    decreases x
  {
    assert Followed(end, a, x);
    if x > 0 {
      BlockBefore(end, a, x);
      var l :| l in a && End(a, l) == x;
      assert Followed(end, a, l) && Followed(end, b, l) && Apart(a, l, x);
      forall y | y in a && y < l ensures Tagged(m, a, y) {}
      SameStart(m, end, a, b, l);
      assert Tagged(m, a, l) && Tagged(m, b, l);
    }
  }

  /** A tag that says more, or less, than a block can hold is the tag of no block. */
  lemma NoSuchBlock(m: seq<Word>, head: Word, g: Heap, x: nat)
    requires Represents(m, head, g) && x < |m|
    requires !(BOOKKEEPING_WORDS <= GetSize(m[x]) <= g.end - x)
    ensures x !in g.blocks
  {
    assert Tagged(m, g.blocks, x) && Followed(g.end, g.blocks, x);
  }

  /** Any such heap has a block at b, if the merge to the left has not taken place. */
  lemma BlockAtB(m: seq<Word>, m': seq<Word>, head: Word, head': Word, h: Heap, b: nat, g: Heap)
    requires AtFalseTag(m, head, h, b) && RightMerged(m, m', head, head', b, h.end)
    requires Represents(m', head', g) && g.end == h.end
    ensures b in g.blocks
  {
    forall y | y in h.blocks && y < b ensures Tagged(m', h.blocks, y) {
      TaggedBefore(m, m', head, head', h, b, y);
    }
    SameStart(m', h.end, h.blocks, g.blocks, b);
  }

  /** A tag other than zero makes b longer than the heap has room for. */
  lemma FalseTagTooLong(m: seq<Word>, m': seq<Word>, head: Word, head': Word, h: Heap, b: nat)
    requires AtFalseTag(m, head, h, b) && RightMerged(m, m', head, head', b, h.end) && m[h.end] > 0
    ensures !IsHeap(m', head', h.end)
  {
    FalselyMerged(m, m', head, head', h, b);
    forall g | Represents(m', head', g) && g.end == h.end ensures false {
      NoSuchBlock(m', head', g, b);
      BlockAtB(m, m', head, head', h, b, g);
    }
  }

  /** A zero tag leaves all tags right. */
  lemma ZeroTagged(m: seq<Word>, m': seq<Word>, head: Word, head': Word, h: Heap, b: nat)
    requires AtFalseTag(m, head, h, b) && RightMerged(m, m', head, head', b, h.end) && m[h.end] == 0
    ensures AllTagged(m', Mark(h.blocks, b, false))
  {
    var marked := Mark(h.blocks, b, false);
    FalselyMerged(m, m', head, head', h, b);
    forall x ensures Tagged(m', marked, x) {
      if x in marked && x != b {
        assert Apart(marked, b, x) && Followed(h.end, marked, x);
        TaggedBefore(m, m', head, head', h, b, x);
      }
    }
  }

  /** A listed block whose links are null, or lead elsewhere, is listed alone. */
  lemma ListedAlone(m: seq<Word>, head: Word, g: Heap, i: nat)
    requires Represents(m, head, g) && i < |g.free| && g.free[i] + 2 < |m|
    requires Stray(m, m[g.free[i] + 1]) && Stray(m, m[g.free[i] + 2])
    ensures g.free == [g.free[i]] && m[g.free[i] + 1] == m[g.free[i] + 2] == NULL && head != NULL
  {
    ListPosition(m, head, g, i);
    if i > 0 { ListPosition(m, head, g, i - 1); }
    if i + 1 < |g.free| { ListPosition(m, head, g, i + 1); }
  }

  /** In front of a zero tag the words show a heap only if b alone is listed. */
  lemma OnlyListed(m: seq<Word>, m': seq<Word>, head: Word, head': Word, h: Heap, b: nat, g: Heap)
    requires AtFalseTag(m, head, h, b) && RightMerged(m, m', head, head', b, h.end) && m[h.end] == 0
    requires Represents(m', head', g) && g.end == h.end
    ensures m[h.end + 1] == m[h.end + 2] == NULL && h.free == []
  {
    var marked := Mark(h.blocks, b, false);
    FalselyMerged(m, m', head, head', h, b);
    ZeroTagged(m, m', head, head', h, b);
    SameBlocks(m', g.end, g.blocks, marked);
    var i := Position(g.free, b);
    ListedAlone(m', head', g, i);
    forall f: nat ensures f !in h.free {
      assert f in h.free ==> IsFree(marked, f) && f != b;
    }
  }

  /** No free block before it. */
  lemma FalseTagAlone(m: seq<Word>, m': seq<Word>, head: Word, head': Word, h: Heap, b: nat)
    requires AtFalseTag(m, head, h, b) && RightMerged(m, m', head, head', b, h.end)
    requires FreeBefore(h.blocks, b).None?
    ensures if Harmless(m, h, b) then Represents(m', head', Release(h, b)) else !IsHeap(m', head', h.end)
  {
    if m[h.end] > 0 {
      FalseTagTooLong(m, m', head, head', h, b);
    } else if Harmless(m, h, b) {
      FalselyMerged(m, m', head, head', h, b);
      ZeroTagged(m, m', head, head', h, b);
      ReleaseInv(h, b);
      forall k: nat ensures LinkedAt(m', [b], k) {}
    } else {
      forall g | Represents(m', head', g) && g.end == h.end ensures false {
        OnlyListed(m, m', head, head', h, b, g);
      }
    }
  }

  // ---- with a free block before it ----

  /** Both merges have taken place: l, before b, has taken in b and the words behind. */
  ghost predicate TakenIn(m: seq<Word>, m1: seq<Word>, m2: seq<Word>, head: Word, head1: Word, head2: Word,
                          h: Heap, b: nat, l: nat)
  {
    && AtFalseTag(m, head, h, b) && RightMerged(m, m1, head, head1, b, h.end)
    && FreeBefore(h.blocks, b) == Some(l) && LeftMerged(m1, m2, head1, head2, l, b)
  }

  /** Where the second merge finds its words. */
  lemma BeforeFalseTag(m: seq<Word>, m': seq<Word>, head: Word, head': Word, h: Heap, b: nat)
    requires AtFalseTag(m, head, h, b) && RightMerged(m, m', head, head', b, h.end)
    ensures b + 2 < |m'| && m'[b] == (h.end - b) + m[h.end]
    ensures FreeBefore(h.blocks, b).Some? <==> b > 0 && !GetAllocatedBit(m'[b - 1])
    ensures FreeBefore(h.blocks, b).Some? ==> var l := FreeBefore(h.blocks, b).value;
      l in h.free && l + m'[b - 1] == b && BOOKKEEPING_WORDS <= m'[b - 1] == m'[l]
  {
    var marked := h.(blocks := Mark(h.blocks, b, false));
    FalselyMerged(m, m', head, head', h, b);
    assert Followed(h.end, h.blocks, h.end);
    ReleaseByHalves(h, b);
    FreeBeforeTag(m, head, marked, b);
    if FreeBefore(h.blocks, b).Some? { assert Tagged(m, marked.blocks, FreeBefore(h.blocks, b).value); }
  }

  /** So it can take place. */
  lemma FalselyMergeable(m: seq<Word>, m': seq<Word>, head: Word, head': Word, h: Heap, b: nat)
    requires AtFalseTag(m, head, h, b) && RightMerged(m, m', head, head', b, h.end)
    requires FreeBefore(h.blocks, b).Some?
    ensures MergeableLeft(m', b)
  {
    BeforeFalseTag(m, m', head, head', h, b);
    FalselyMerged(m, m', head, head', h, b);
  }

  /** What the two merges leave alone, and what they make of block l. */
  lemma FalselyTakenIn(m: seq<Word>, m1: seq<Word>, m2: seq<Word>, head: Word, head1: Word, head2: Word,
                       h: Heap, b: nat, l: nat)
    requires TakenIn(m, m1, m2, head, head1, head2, h, b, l)
    ensures |m2| == |m| && forall j | 0 <= j < b - 1 && j != l :: m2[j] == m[j]
    ensures l in h.free && l + BOOKKEEPING_WORDS <= b && m[l] == b - l
    ensures m2[l] == (h.end - l) + m[h.end] && (m[h.end] == 0 ==> m2[h.end - 1] == h.end - l)
    ensures m2[b] == 0
    ensures head2 == if m[h.end + 1] != NULL then head
                     else if m[h.end + 2] != NULL then m[h.end + 2] else LinkAt([b], 0)
  {
    BeforeFalseTag(m, m1, head, head1, h, b);
    FalselyMerged(m, m1, head, head1, h, b);
    assert Tagged(m, Mark(h.blocks, b, false), l);
  }

  /** The list head is left on a word that was wiped, or leads elsewhere. */
  lemma HeadLost(m: seq<Word>, m1: seq<Word>, m2: seq<Word>, head: Word, head1: Word, head2: Word,
                 h: Heap, b: nat, l: nat)
    requires TakenIn(m, m1, m2, head, head1, head2, h, b, l) && m[h.end + 1] == NULL
    ensures !IsHeap(m2, head2, h.end)
  {
    FalselyTakenIn(m, m1, m2, head, head1, head2, h, b, l);
    forall g | Represents(m2, head2, g) && g.end == h.end ensures false {
      if g.free != [] { ListPosition(m2, head2, g, 0); }
    }
  }

  /** A tag other than zero makes l longer than the heap has room for. */
  lemma TakenInTooLong(m: seq<Word>, m1: seq<Word>, m2: seq<Word>, head: Word, head1: Word, head2: Word,
                       h: Heap, b: nat, l: nat)
    requires TakenIn(m, m1, m2, head, head1, head2, h, b, l) && m[h.end] > 0
    ensures !IsHeap(m2, head2, h.end)
  {
    FalselyTakenIn(m, m1, m2, head, head1, head2, h, b, l);
    var marked := Mark(h.blocks, b, false);
    forall g | Represents(m2, head2, g) && g.end == h.end ensures false {
      forall y | y in h.blocks && y < l ensures Tagged(m2, h.blocks, y) {
        assert Tagged(m, marked, y) && Apart(marked, y, l);
      }
      NoSuchBlock(m2, head2, g, l);
      SameStart(m2, h.end, h.blocks, g.blocks, l);
    }
  }

  lemma LastIntoLeft(h: Heap, b: nat, l: nat)
    requires Inv(h) && IsLive(h.blocks, b) && End(h.blocks, b) == h.end && FreeBefore(h.blocks, b) == Some(l)
    ensures Release(h, b) == Heap(h.end, Join(Mark(h.blocks, b, false), l, b, false), h.free)
  {
    assert Followed(h.end, h.blocks, h.end) && Followed(h.end, h.blocks, b);
  }

  /** With a zero tag and a first link that is not null, all is well. */
  lemma TakenInRight(m: seq<Word>, m1: seq<Word>, m2: seq<Word>, head: Word, head1: Word, head2: Word,
                     h: Heap, b: nat, l: nat)
    requires TakenIn(m, m1, m2, head, head1, head2, h, b, l) && m[h.end] == 0 && m[h.end + 1] != NULL
    ensures Represents(m2, head2, Release(h, b))
  {
    FalselyTakenIn(m, m1, m2, head, head1, head2, h, b, l);
    var marked := h.(blocks := Mark(h.blocks, b, false));
    var kept := m2[..h.end] + m[h.end..];
    assert Tagged(m, marked.blocks, l);
    MergeLeftEncodes(m, kept, head, marked, l, b);
    LastIntoLeft(h, b, l);
    ReleaseInv(h, b);
    BehindIrrelevant(kept, m2, head, Release(h, b));
  }

  lemma FalseTagLeft(m: seq<Word>, m1: seq<Word>, m2: seq<Word>, head: Word, head1: Word, head2: Word,
                     h: Heap, b: nat, l: nat)
    requires TakenIn(m, m1, m2, head, head1, head2, h, b, l)
    ensures if Harmless(m, h, b) then Represents(m2, head2, Release(h, b)) else !IsHeap(m2, head2, h.end)
  {
    FalselyTakenIn(m, m1, m2, head, head1, head2, h, b, l);
    if m[h.end + 1] == NULL {
      HeadLost(m, m1, m2, head, head1, head2, h, b, l);
    } else if m[h.end] > 0 {
      TakenInTooLong(m, m1, m2, head, head1, head2, h, b, l);
    } else {
      TakenInRight(m, m1, m2, head, head1, head2, h, b, l);
    }
  }

  // ---- kfree, in front of whatever word ----

  /** kfree leaves a heap: the word behind the block tells the truth, or is a false tag that does no harm. */
  ghost predicate FreesSafely(m: seq<Word>, h: Heap, b: nat) {
    NextTagUsable(m, h, b) || (FalseTag(m, h, b) && Harmless(m, h, b))
  }

  /** No other block in use is touched, by the first merge or by both. */
  lemma FalseTagSpares(m: seq<Word>, m': seq<Word>, head: Word, head': Word, h: Heap, b: nat)
    requires AtFalseTag(m, head, h, b) && RightMerged(m, m', head, head', b, h.end)
    ensures OthersUntouched(m, m', h.blocks, b)
  {
    forall x ensures IsLive(h.blocks, x) && x != b ==> Untouched(m, m', h.blocks, x) {
      if IsLive(h.blocks, x) && x != b {
        assert Apart(h.blocks, b, x) && Followed(h.end, h.blocks, x);
        TaggedBefore(m, m', head, head', h, b, x);
      }
    }
  }

  lemma TakenInSpares(m: seq<Word>, m1: seq<Word>, m2: seq<Word>, head: Word, head1: Word, head2: Word,
                      h: Heap, b: nat, l: nat)
    requires TakenIn(m, m1, m2, head, head1, head2, h, b, l)
    ensures OthersUntouched(m, m2, h.blocks, b)
  {
    FalselyTakenIn(m, m1, m2, head, head1, head2, h, b, l);
    forall x ensures IsLive(h.blocks, x) && x != b ==> Untouched(m, m2, h.blocks, x) {
      assert x in h.blocks ==> Followed(h.end, h.blocks, x);
      assert Apart(h.blocks, b, x) && Apart(h.blocks, l, x) && Apart(h.blocks, x, l) && Apart(h.blocks, x, b);
    }
  }

  /** What kfree leaves in front of a false tag: the release, if the tag does no harm, and no heap if it does. */
  ghost predicate LeftAtFalseTag(s: Memory, s': Memory, h: Heap, b: nat)
    requires IsLive(h.blocks, b) && Listed(h.blocks, h.free) && FalseTag(s.words, h, b)
  {
    && OthersUntouched(s.words, s'.words, h.blocks, b)
    && if Harmless(s.words, h, b) then Shows(s', Release(h, b)) else !IsHeap(s'.words, s'.head, h.end)
  }

  lemma StepsAtFalseTag(s1: Memory, s2: Memory, s': Memory, h: Heap, b: nat)
    requires AtFalseTag(s1.words, s1.head, h, b) && s1.end == h.end && FreeBehind(s1, b)
    requires RightStep(s1, s2, b) && LeftStep(s2, s', b, true)
    ensures LeftAtFalseTag(s1, s', h, b)
  {
    BeforeFalseTag(s1.words, s2.words, s1.head, s2.head, h, b);
    if FreeBefore(h.blocks, b).Some? {
      var l := FreeBefore(h.blocks, b).value;
      FalseTagLeft(s1.words, s2.words, s'.words, s1.head, s2.head, s'.head, h, b, l);
      TakenInSpares(s1.words, s2.words, s'.words, s1.head, s2.head, s'.head, h, b, l);
    } else {
      FalseTagAlone(s1.words, s2.words, s1.head, s2.head, h, b);
      FalseTagSpares(s1.words, s2.words, s1.head, s2.head, h, b);
    }
  }

  lemma OthersUntouchedThrough(m: seq<Word>, m1: seq<Word>, m2: seq<Word>, blocks: Blocks, b: nat)
    requires |m| == |m1| == |m2| && OthersUntouched(m, m1, blocks, b) && OthersUntouched(m1, m2, blocks, b)
    ensures OthersUntouched(m, m2, blocks, b)
  {
    forall x ensures IsLive(blocks, x) && x != b ==> Untouched(m, m2, blocks, x) {
      assert IsLive(blocks, x) && x != b ==> Untouched(m, m1, blocks, x) && Untouched(m1, m2, blocks, x);
    }
  }

  /**
   In front of a false tag, a heap is left if and only if that tag is zero, and either both links are null and
   the list was empty, or the first is not null and there is a free block before the block that is freed. What
   is left then is the release.
   */
  lemma FreesAtFalseTag(s: Memory, s': Memory, h: Heap, b: nat)
    requires Shows(s, h) && IsLive(h.blocks, b) && FalseTag(s.words, h, b) && Frees(s, b, s')
    ensures LeftAtFalseTag(s, s', h, b)
  {
    var s1, s2 :| FreesBy(s, s1, s2, b, s');
    UnmarkedAtFalseTag(s, s1, h, b);
    StepsAtFalseTag(s1, s2, s', h, b);
    OthersUntouchedThrough(s.words, s1.words, s'.words, h.blocks, b);
  }

  // ---- what kfree can rely on, in front of either kind of word ----

  /** The word behind the heap, if b is the last block, is a tag of a block in use, or a false tag. */
  ghost predicate TagReadable(m: seq<Word>, h: Heap, b: nat) {
    NextTagUsable(m, h, b) || FalseTag(m, h, b)
  }

  /** Block b of h is being freed: s is the memory before, s1 with the tags of b cleared. */
  ghost predicate Freeing(s: Memory, s1: Memory, h: Heap, b: nat) {
    Shows(s, h) && IsLive(h.blocks, b) && TagReadable(s.words, h, b) && Unmarked(s, s1, b)
  }

  lemma RightReadable(s: Memory, s1: Memory, h: Heap, b: nat)
    requires Freeing(s, s1, h, b)
    ensures b + 2 < |s1.words| && b + s1.words[b] < |s1.words|
    ensures FreeBehind(s1, b) ==> MergeableRight(s1.words, b)
  {
    if NextTagUsable(s.words, h, b) {
      UnmarkedRight(s, s1, h, b);
      FreeBehindIs(s1, h, b);
      if FreeBehind(s1, b) { var i := RightPositions(s1, h, b); }
    } else {
      UnmarkedAtFalseTag(s, s1, h, b);
    }
  }

  /** After the first merge, block b is not linked to itself. */
  lemma NotSelfLinkedRight(s: Memory, s1: Memory, s2: Memory, h: Heap, b: nat)
    requires Freeing(s, s1, h, b) && RightStep(s1, s2, b) && FreeBehind(s1, b)
    ensures b + 2 < |s2.words| && s2.words[b + 1] != LinkAt([b], 0) && s2.words[b + 2] != LinkAt([b], 0)
  {
    if NextTagUsable(s.words, h, b) {
      UnmarkedRight(s, s1, h, b);
      MergedNotSelfLinked(s1, s2, h, b);
    } else {
      UnmarkedAtFalseTag(s, s1, h, b);
      FalselyMerged(s1.words, s2.words, s1.head, s2.head, h, b);
    }
  }

  /** What the second half of kfree finds. */
  lemma LeftReadable(s: Memory, s1: Memory, s2: Memory, h: Heap, b: nat)
    requires Freeing(s, s1, h, b) && RightStep(s1, s2, b)
    ensures b + 2 < |s2.words| && b < MAX_HEAP_WORDS
    ensures b > 0 && !GetAllocatedBit(s2.words[b - 1]) ==> MergeableLeft(s2.words, b)
    ensures !(b > 0 && !GetAllocatedBit(s2.words[b - 1])) && !FreeBehind(s1, b) ==>
      && s2.words[b + 1] == s2.words[b + 2] == NULL
      && (s2.head != NULL ==> Inside(s2.words, s2.head) && (Index(s2.head) < b || b + 2 <= Index(s2.head)))
  {
    if NextTagUsable(s.words, h, b) {
      UnmarkedRight(s, s1, h, b);
      var i := HalfReleased(s1, s2, h, b);
      if b > 0 && !GetAllocatedBit(s2.words[b - 1]) {
        var j := LeftPositions(s2, ReleaseRight(h, b), b, i);
      } else if i.None? {
        HeadElsewhere(s2, ReleaseRight(h, b), b);
      }
    } else {
      UnmarkedAtFalseTag(s, s1, h, b);
      BeforeFalseTag(s1.words, s2.words, s1.head, s2.head, h, b);
      if FreeBefore(h.blocks, b).Some? { FalselyMergeable(s1.words, s2.words, s1.head, s2.head, h, b); }
    }
  }

  /** After the second merge, block l is not linked to itself. */
  lemma NotSelfLinkedLeft(s: Memory, s1: Memory, s2: Memory, s': Memory, h: Heap, b: nat, l: nat)
    requires Freeing(s, s1, h, b) && RightStep(s1, s2, b) && LeftStep(s2, s', b, FreeBehind(s1, b))
    requires b > 0 && !GetAllocatedBit(s2.words[b - 1]) && l == b - s2.words[b - 1]
    ensures l + 2 < |s'.words| && s'.words[l + 1] != LinkAt([l], 0) && s'.words[l + 2] != LinkAt([l], 0)
  {
    if NextTagUsable(s.words, h, b) {
      UnmarkedRight(s, s1, h, b);
      var i := HalfReleased(s1, s2, h, b);
      NotSelfLinked(s2, s', ReleaseRight(h, b), b, i, l);
    } else {
      UnmarkedAtFalseTag(s, s1, h, b);
      NotSelfLinkedAtFalseTag(s1, s2, s', h, b, l);
    }
  }

  lemma NotSelfLinkedAtFalseTag(s1: Memory, s2: Memory, s': Memory, h: Heap, b: nat, l: nat)
    requires AtFalseTag(s1.words, s1.head, h, b) && FreeBehind(s1, b)
    requires RightStep(s1, s2, b) && LeftStep(s2, s', b, true)
    requires b > 0 && !GetAllocatedBit(s2.words[b - 1]) && l == b - s2.words[b - 1]
    ensures l + 2 < |s'.words| && s'.words[l + 1] != LinkAt([l], 0) && s'.words[l + 2] != LinkAt([l], 0)
  {
    BeforeFalseTag(s1.words, s2.words, s1.head, s2.head, h, b);
    FalselyTakenIn(s1.words, s2.words, s'.words, s1.head, s2.head, s'.head, h, b, l);
    NoSelfLink(s1.words, s1.head, h.(blocks := Mark(h.blocks, b, false)), Position(h.free, l));
  }
}
