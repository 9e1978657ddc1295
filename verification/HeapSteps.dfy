/**
 What each step of the allocator writes, and that the words it leaves represent the heap
 after the step.
 */
module HeapSteps {
  import opened Collections
  import opened KernelWords
  import opened HeapModel
  import opened HeapWords

  /** Every block in use, but for b, keeps all its words. */
  ghost predicate OthersUntouched(m: seq<Word>, m': seq<Word>, blocks: Blocks, b: nat) {
    forall x {:trigger Untouched(m, m', blocks, x)} :: IsLive(blocks, x) && x != b ==> Untouched(m, m', blocks, x)
  }

  /** Every block in use keeps all its words. */
  ghost predicate LiveUntouched(m: seq<Word>, m': seq<Word>, blocks: Blocks) {
    forall x {:trigger Untouched(m, m', blocks, x)} :: IsLive(blocks, x) ==> Untouched(m, m', blocks, x)
  }

  lemma LiveUntouchedTwice(m: seq<Word>, m1: seq<Word>, m2: seq<Word>, blocks: Blocks, blocks1: Blocks)
    requires |m| == |m1| == |m2| && KeepsLive(blocks, blocks1)
    requires LiveUntouched(m, m1, blocks) && LiveUntouched(m1, m2, blocks1)
    ensures LiveUntouched(m, m2, blocks)
  {
    forall x ensures IsLive(blocks, x) ==> Untouched(m, m2, blocks, x) {
      assert IsLive(blocks, x) ==> Untouched(m, m1, blocks, x) && Untouched(m1, m2, blocks1, x);
    }
  }

  lemma OthersUntouchedTwice(m: seq<Word>, m1: seq<Word>, m2: seq<Word>, blocks: Blocks, b: nat)
    requires |m| == |m1| == |m2| && b in blocks
    requires OthersUntouched(m, m1, blocks, b) && LiveUntouched(m1, m2, Mark(blocks, b, false))
    ensures OthersUntouched(m, m2, blocks, b)
  {
    var marked := Mark(blocks, b, false);
    forall x ensures IsLive(blocks, x) && x != b ==> Untouched(m, m2, blocks, x) {
      assert IsLive(blocks, x) && x != b ==> Untouched(m, m1, blocks, x) && Untouched(m1, m2, marked, x);
    }
  }

  ghost predicate Outside(blocks: Blocks, x: nat, lo: nat, hi: nat)
    requires x in blocks
  {
    End(blocks, x) <= lo || hi <= x
  }

  /** Only [lo, hi) and the links that lead to list position i have changed, and those lead to back and on. */
  ghost predicate Rewired(m: seq<Word>, m': seq<Word>, h: Heap, i: nat, lo: nat, hi: nat, back: int, on: int)
    requires i < |h.free|
  {
    && ChangedWithin(m, m', lo, hi, if i > 0 then h.free[i - 1] else lo, if i + 1 < |h.free| then h.free[i + 1] else lo)
    && (i > 0 ==> h.free[i - 1] + 2 < |m'| && m'[h.free[i - 1] + 2] == on)
    && (i + 1 < |h.free| ==> h.free[i + 1] + 1 < |m'| && m'[h.free[i + 1] + 1] == back)
  }

  lemma RewiredLink(m: seq<Word>, m': seq<Word>, head: Word, h: Heap,
                    i: nat, lo: nat, hi: nat, back: int, on: int, k: nat)
    requires Encodes(m, head, h) && i < |h.free| && lo + BOOKKEEPING_WORDS <= hi
    requires Rewired(m, m', h, i, lo, hi, back, on)
    requires k < |h.free| && k != i && h.free[k] in h.blocks && Outside(h.blocks, h.free[k], lo, hi)
    ensures Relinked(m, m', h.free[k], if k == i + 1 then Some(back) else None, if k == i - 1 then Some(on) else None)
  {
    ListSpaced(h.end, h.blocks, h.free);
    assert Tagged(m, h.blocks, h.free[k]);
  }

  lemma RewiredKeeps(m: seq<Word>, m': seq<Word>, head: Word, h: Heap,
                     i: nat, lo: nat, hi: nat, back: int, on: int, x: nat)
    requires Encodes(m, head, h) && i < |h.free| && lo + BOOKKEEPING_WORDS <= hi
    requires Rewired(m, m', h, i, lo, hi, back, on)
    requires x in h.blocks && Outside(h.blocks, x, lo, hi)
    ensures Tagged(m', h.blocks, x)
    ensures h.blocks[x].used ==> Untouched(m, m', h.blocks, x)
  {
    assert i > 0 ==> IsFree(h.blocks, h.free[i - 1]);
    assert i + 1 < |h.free| ==> IsFree(h.blocks, h.free[i + 1]);
    Kept(m, m', h.end, h.blocks, lo, hi,
         if i > 0 then h.free[i - 1] else lo, if i + 1 < |h.free| then h.free[i + 1] else lo, x);
  }

  /** What a rewiring around one block leaves alone. */
  lemma RewiredBlock(m: seq<Word>, m': seq<Word>, head: Word, h: Heap, i: nat, back: int, on: int)
    requires Encodes(m, head, h) && i < |h.free| && h.free[i] in h.blocks
    requires Rewired(m, m', h, i, h.free[i], End(h.blocks, h.free[i]), back, on)
    ensures forall k | 0 <= k < |h.free| && k != i ::
      Relinked(m, m', h.free[k], if k == i + 1 then Some(back) else None, if k == i - 1 then Some(on) else None)
    ensures forall x {:trigger Tagged(m', h.blocks, x)} :: x != h.free[i] ==> Tagged(m', h.blocks, x)
    ensures LiveUntouched(m, m', h.blocks)
  {
    var b := h.free[i];
    assert b in h.free;
    var stop := End(h.blocks, b);
    assert Tagged(m, h.blocks, b);
    forall k | 0 <= k < |h.free| && k != i
      ensures Relinked(m, m', h.free[k], if k == i + 1 then Some(back) else None, if k == i - 1 then Some(on) else None)
    {
      assert IsFree(h.blocks, h.free[k]);
      assert Apart(h.blocks, h.free[k], b) && Apart(h.blocks, b, h.free[k]);
      RewiredLink(m, m', head, h, i, b, stop, back, on, k);
    }
    forall x
      ensures x in h.blocks && x != b ==>
        Tagged(m', h.blocks, x) && (h.blocks[x].used ==> Untouched(m, m', h.blocks, x))
    {
      if x in h.blocks && x != b {
        assert Apart(h.blocks, x, b) && Apart(h.blocks, b, x);
        RewiredKeeps(m, m', head, h, i, b, stop, back, on, x);
      }
    }
  }

  // ---- allocation ----

  lemma TakeWholeRepresents(m: seq<Word>, m': seq<Word>, head: Word, head': Word, h: Heap, i: nat, need: nat)
    requires Represents(m, head, h) && i < |h.free| && h.free[i] in h.blocks
    requires BOOKKEEPING_WORDS <= need <= h.blocks[h.free[i]].size <= need + 2 * MIN_BLOCK_SIZE
    requires var b := h.free[i]; var stop := End(h.blocks, b);
      && Rewired(m, m', h, i, b, stop, LinkAt(h.free, i - 1), LinkAt(h.free, i + 1))
      && b + 2 < stop <= |m'|
      && m'[b] == m'[stop - 1] == h.blocks[b].size + ALLOCATED_BIT
      && m'[b + 1] == m'[b + 2] == NULL
    requires head' == if i == 0 then LinkAt(h.free, 1) else head
    ensures Represents(m', head', Take(h, i, need))
    ensures LiveUntouched(m, m', h.blocks)
  {
    var b := h.free[i];
    assert b in h.free;
    var h' := Take(h, i, need);
    TakeInv(h, i, need);
    RewiredBlock(m, m', head, h, i, LinkAt(h.free, i - 1), LinkAt(h.free, i + 1));
    UnlinkLinked(m, m', head, head', h.free, i);
    forall x ensures Tagged(m', h'.blocks, x) {
      assert x != b ==> Tagged(m', h.blocks, x);
    }
  }

  lemma TakeSplitRepresents(m: seq<Word>, m': seq<Word>, head: Word, head': Word, h: Heap, i: nat, need: nat)
    requires Represents(m, head, h) && i < |h.free| && h.free[i] in h.blocks
    requires BOOKKEEPING_WORDS <= need && need + 2 * MIN_BLOCK_SIZE < h.blocks[h.free[i]].size
    requires var b := h.free[i]; var y := b + need; var stop := End(h.blocks, b);
      && Rewired(m, m', h, i, b, stop, LinkAt([y], 0), LinkAt([y], 0))
      && stop <= |m'|
      && m'[b] == m'[y - 1] == need + ALLOCATED_BIT
      && m'[b + 1] == m'[b + 2] == NULL
      && m'[y] == m'[stop - 1] == h.blocks[b].size - need
      && m'[y + 1] == LinkAt(h.free, i - 1) && m'[y + 2] == LinkAt(h.free, i + 1)
    requires head' == if i == 0 then LinkAt([h.free[i] + need], 0) else head
    ensures Represents(m', head', Take(h, i, need))
    ensures LiveUntouched(m, m', h.blocks)
  {
    var b := h.free[i];
    assert b in h.free;
    var y := b + need;
    var h' := Take(h, i, need);
    TakeInv(h, i, need);
    RewiredBlock(m, m', head, h, i, LinkAt([y], 0), LinkAt([y], 0));
    ReplaceLinked(m, m', head, head', h.free, i, y);
    CutTagged(m', h.blocks, b, need);
  }

  /** Both parts of a block carry their tags, and all other blocks are as they were. */
  lemma CutTagged(m: seq<Word>, blocks: Blocks, b: nat, n: nat)
    requires b in blocks && BOOKKEEPING_WORDS <= n <= blocks[b].size - BOOKKEEPING_WORDS
    requires forall x {:trigger Tagged(m, blocks, x)} :: x != b ==> Tagged(m, blocks, x)
    requires var y := b + n; var stop := End(blocks, b);
      && stop <= |m| && m[b] == m[y - 1] == n + ALLOCATED_BIT && m[b + 1] == m[b + 2] == NULL
      && m[y] == m[stop - 1] == blocks[b].size - n
    ensures AllTagged(m, Cut(blocks, b, n, true, false))
  {
    var cut := Cut(blocks, b, n, true, false);
    forall x ensures Tagged(m, cut, x) {
      assert x != b && x != b + n ==> Tagged(m, blocks, x);
    }
  }

  // ---- growth ----

  /** Blocks that end where the change starts, or earlier, are kept. */
  lemma KeptBelow(m: seq<Word>, m': seq<Word>, h: Heap, lo: nat, hi: nat, n: nat)
    requires Inv(h) && AllTagged(m, h.blocks) && lo + BOOKKEEPING_WORDS <= hi
    requires ChangedWithin(m, m', lo, hi, lo, n)
    requires lo == h.end || (lo in h.blocks && End(h.blocks, lo) == h.end)
    requires n == lo || IsFree(h.blocks, n)
    ensures forall x {:trigger Tagged(m', h.blocks, x)} :: x != lo ==> Tagged(m', h.blocks, x)
    ensures OthersUntouched(m, m', h.blocks, lo)
  {
    forall x
      ensures x in h.blocks && x != lo ==>
        Tagged(m', h.blocks, x) && (h.blocks[x].used ==> Untouched(m, m', h.blocks, x))
    {
      if x in h.blocks && x != lo {
        assert Followed(h.end, h.blocks, x) && Followed(h.end, h.blocks, lo);
        assert Apart(h.blocks, x, lo) && Apart(h.blocks, lo, x);
        Kept(m, m', h.end, h.blocks, lo, hi, lo, n, x);
      }
    }
  }

  lemma StretchRepresents(m: seq<Word>, m': seq<Word>, head: Word, h: Heap, t: nat)
    requires Represents(m, head, h) && h.end < MAX_HEAP_WORDS
    requires FreeBefore(h.blocks, h.end) == Some(t)
    requires ChangedWithin(m, m', t, h.end + WORDS_IN_PAGE, t, t)
    requires t + 2 < |m'| && m'[t] == m'[h.end + WORDS_IN_PAGE - 1] == h.blocks[t].size + WORDS_IN_PAGE
    requires m'[t + 1] == m[t + 1] && m'[t + 2] == m[t + 2]
    ensures Represents(m', head, Grow(h))
    ensures LiveUntouched(m, m', h.blocks)
  {
    var h' := Grow(h);
    GrowInv(h);
    assert Followed(h.end, h.blocks, t);
    KeptBelow(m, m', h, t, h.end + WORDS_IN_PAGE, t);
    forall x ensures Tagged(m', h'.blocks, x) {
      assert x != t ==> Tagged(m', h.blocks, x);
    }
    forall k: nat ensures LinkedAt(m', h.free, k) {
      assert LinkedAt(m, h.free, k);
      if k < |h.free| {
        var f := h.free[k];
        assert IsFree(h.blocks, f) && Followed(h.end, h.blocks, f) && Apart(h.blocks, f, t) && Apart(h.blocks, t, f);
      }
    }
  }

  /** Block y, which was not listed, is put in front of the list, and nothing else happens to the links. */
  lemma PushedLinks(m: seq<Word>, m': seq<Word>, head: Word, head': Word, h: Heap, y: nat, hi: nat)
    requires Encodes(m, head, h) && y + 2 < hi
    requires forall k | 0 <= k < |h.free| :: Outside(h.blocks, h.free[k], y, hi)
    requires ChangedWithin(m, m', y, hi, y, if h.free == [] then y else h.free[0])
    requires y + 2 < |m'| && m'[y + 1] == NULL && m'[y + 2] == head && head' == LinkAt([y], 0)
    requires h.free != [] ==> h.free[0] + 1 < |m'| && m'[h.free[0] + 1] == LinkAt([y], 0)
    ensures Linked(m', head', [y] + h.free)
  {
    ListSpaced(h.end, h.blocks, h.free);
    forall k | 0 <= k < |h.free|
      ensures Relinked(m, m', h.free[k], if k == 0 then Some(LinkAt([y], 0)) else None, None)
    {
      assert IsFree(h.blocks, h.free[k]) && Tagged(m, h.blocks, h.free[k]);
    }
    PushLinked(m, m', head, head', h.free, y);
  }

  lemma AppendRepresents(m: seq<Word>, m': seq<Word>, head: Word, head': Word, h: Heap)
    requires Represents(m, head, h) && h.end < MAX_HEAP_WORDS
    requires FreeBefore(h.blocks, h.end) == None
    requires ChangedWithin(m, m', h.end, h.end + WORDS_IN_PAGE, h.end, if h.free == [] then h.end else h.free[0])
    requires h.free != [] ==> h.free[0] + 1 < |m'| && m'[h.free[0] + 1] == LinkAt([h.end], 0)
    requires m'[h.end] == m'[h.end + WORDS_IN_PAGE - 1] == WORDS_IN_PAGE
    requires m'[h.end + 1] == NULL && m'[h.end + 2] == head
    requires head' == LinkAt([h.end], 0)
    ensures Represents(m', head', Grow(h))
    ensures LiveUntouched(m, m', h.blocks)
  {
    var h' := Grow(h);
    GrowInv(h);
    assert h.free != [] ==> h.free[0] in h.free;
    assert h.end !in h.blocks by { assert Followed(h.end, h.blocks, h.end); }
    KeptBelow(m, m', h, h.end, h.end + WORDS_IN_PAGE, if h.free == [] then h.end else h.free[0]);
    forall x ensures Tagged(m', h'.blocks, x) {
      assert x != h.end ==> Tagged(m', h.blocks, x);
    }
    forall k | 0 <= k < |h.free| ensures Outside(h.blocks, h.free[k], h.end, h.end + WORDS_IN_PAGE) {
      assert Followed(h.end, h.blocks, h.free[k]);
    }
    PushedLinks(m, m', head, head', h, h.end, h.end + WORDS_IN_PAGE);
  }

  // ---- release ----

  /** The words of a block lie outside those of two neighbours joined. */
  lemma JoinApart(end: nat, blocks: Blocks, b: nat, c: nat, x: nat)
    requires Tiled(end, blocks) && b in blocks && c in blocks && End(blocks, b) == c
    requires x in blocks && x != b && x != c
    ensures Outside(blocks, x, b, End(blocks, c))
  {
    assert Apart(blocks, x, b) && Apart(blocks, b, x) && Apart(blocks, x, c) && Apart(blocks, c, x);
    assert Followed(end, blocks, c) && Followed(end, blocks, x);
  }

  /** A listed block other than two neighbours b and c lies before or behind both. */
  lemma ListedApart(h: Heap, b: nat, c: nat, k: nat)
    requires Tiled(h.end, h.blocks) && b in h.blocks && c in h.blocks && End(h.blocks, b) == c
    requires k < |h.free| && h.free[k] != b && h.free[k] != c
    requires IsFree(h.blocks, h.free[k])
    ensures h.free[k] + BOOKKEEPING_WORDS <= b || End(h.blocks, c) <= h.free[k]
  {
    JoinApart(h.end, h.blocks, b, c, h.free[k]);
    assert Followed(h.end, h.blocks, h.free[k]);
  }

  /** A free block b that is not yet listed comes to the front of the list. */
  lemma PushEncodes(m: seq<Word>, m': seq<Word>, head: Word, head': Word, h: Heap, b: nat)
    requires Encodes(m, head, h) && IsFree(h.blocks, b) && b !in h.free
    requires ChangedWithin(m, m', b, End(h.blocks, b), b, if h.free == [] then b else h.free[0])
    requires End(h.blocks, b) <= |m'| && b + 2 < End(h.blocks, b)
    requires m'[b] == m[b] && m'[End(h.blocks, b) - 1] == m[End(h.blocks, b) - 1]
    requires m'[b + 1] == NULL && m'[b + 2] == head && head' == LinkAt([b], 0)
    requires h.free != [] ==> h.free[0] + 1 < |m'| && m'[h.free[0] + 1] == LinkAt([b], 0)
    ensures Encodes(m', head', h.(free := [b] + h.free))
    ensures LiveUntouched(m, m', h.blocks)
  {
    var stop := End(h.blocks, b);
    var f := if h.free == [] then b else h.free[0];
    assert Tagged(m, h.blocks, b);
    forall x ensures Tagged(m', h.blocks, x) && (IsLive(h.blocks, x) ==> Untouched(m, m', h.blocks, x)) {
      if x in h.blocks && x != b {
        assert Apart(h.blocks, x, b) && Apart(h.blocks, b, x);
        Kept(m, m', h.end, h.blocks, b, stop, b, f, x);
      }
    }
    forall k | 0 <= k < |h.free| ensures Outside(h.blocks, h.free[k], b, stop) {
      assert Apart(h.blocks, h.free[k], b) && Apart(h.blocks, b, h.free[k]);
    }
    PushedLinks(m, m', head, head', h, b, stop);
    FrontElements(h.free, b);
  }

  /** The blocks of Join(h.blocks, b, c, false), once the words of b and c have become one free block. */
  lemma JoinTags(m: seq<Word>, m': seq<Word>, h: Heap, b: nat, c: nat, p: nat, n: nat)
    requires Tiled(h.end, h.blocks) && AllTagged(m, h.blocks)
    requires b in h.blocks && c in h.blocks && End(h.blocks, b) == c && !h.blocks[b].used && !h.blocks[c].used
    requires ChangedWithin(m, m', b, End(h.blocks, c), p, n)
    requires (p == b || IsFree(h.blocks, p)) && (n == b || IsFree(h.blocks, n))
    requires b < End(h.blocks, c) <= |m'|
    requires m'[b] == m'[End(h.blocks, c) - 1] == h.blocks[b].size + h.blocks[c].size
    ensures AllTagged(m', Join(h.blocks, b, c, false))
    ensures LiveUntouched(m, m', h.blocks)
  {
    var joined := Join(h.blocks, b, c, false);
    assert Followed(h.end, h.blocks, b) && Followed(h.end, h.blocks, c);
    forall x ensures Tagged(m', joined, x) && (IsLive(h.blocks, x) ==> Untouched(m, m', h.blocks, x)) {
      if x in h.blocks && x != b && x != c {
        JoinApart(h.end, h.blocks, b, c, x);
        Kept(m, m', h.end, h.blocks, b, End(h.blocks, c), p, n, x);
        assert Tagged(m', h.blocks, x);
      }
    }
  }

  /** The free block b, not yet listed, takes in the listed block behind it, and its list position. */
  lemma MergeRightEncodes(m: seq<Word>, m': seq<Word>, head: Word, head': Word, h: Heap, b: nat, i: nat)
    requires Encodes(m, head, h) && IsFree(h.blocks, b) && b !in h.free
    requires i < |h.free| && h.free[i] == End(h.blocks, b)
    requires var stop := End(h.blocks, h.free[i]);
      && Rewired(m, m', h, i, b, stop, LinkAt([b], 0), LinkAt([b], 0))
      && b + 2 < stop <= |m'|
      && m'[b] == m'[stop - 1] == h.blocks[b].size + h.blocks[h.free[i]].size
      && m'[b + 1] == LinkAt(h.free, i - 1) && m'[b + 2] == LinkAt(h.free, i + 1)
    requires head' == if i == 0 then LinkAt([b], 0) else head
    ensures Encodes(m', head', Heap(h.end, Join(h.blocks, b, h.free[i], false), h.free[i := b]))
    ensures LiveUntouched(m, m', h.blocks)
  {
    var c := h.free[i];
    JoinTiled(h.end, h.blocks, b, c, false);
    JoinTags(m, m', h, b, c, if i > 0 then h.free[i - 1] else b, if i + 1 < |h.free| then h.free[i + 1] else b);
    forall k | 0 <= k < |h.free| && k != i
      ensures Relinked(m, m', h.free[k],
                       if k == i + 1 then Some(LinkAt([b], 0)) else None,
                       if k == i - 1 then Some(LinkAt([b], 0)) else None)
    {
      JoinApart(h.end, h.blocks, b, c, h.free[k]);
      RewiredLink(m, m', head, h, i, b, End(h.blocks, c), LinkAt([b], 0), LinkAt([b], 0), k);
    }
    ReplaceLinked(m, m', head, head', h.free, i, b);
    ReplaceElements(h.free, i, b);
  }

  /** The listed block l takes in the free block behind it, which is not listed. */
  lemma MergeLeftEncodes(m: seq<Word>, m': seq<Word>, head: Word, h: Heap, l: nat, b: nat)
    requires Encodes(m, head, h) && IsFree(h.blocks, b) && b !in h.free
    requires IsFree(h.blocks, l) && End(h.blocks, l) == b
    requires ChangedWithin(m, m', l, End(h.blocks, b), l, l)
    requires l + 2 < End(h.blocks, b) <= |m'|
    requires m'[l] == m'[End(h.blocks, b) - 1] == h.blocks[l].size + h.blocks[b].size
    requires m'[l + 1] == m[l + 1] && m'[l + 2] == m[l + 2]
    ensures Encodes(m', head, Heap(h.end, Join(h.blocks, l, b, false), h.free))
    ensures LiveUntouched(m, m', h.blocks)
  {
    JoinTiled(h.end, h.blocks, l, b, false);
    JoinTags(m, m', h, l, b, l, l);
    forall k: nat ensures LinkedAt(m', h.free, k) {
      assert LinkedAt(m, h.free, k);
      if k < |h.free| && h.free[k] != l {
        JoinApart(h.end, h.blocks, l, b, h.free[k]);
        assert Followed(h.end, h.blocks, h.free[k]);
      }
    }
  }

  /** The listed block l takes in the free block behind it, which leaves list position i. */
  lemma MergeLeftListedEncodes(m: seq<Word>, m': seq<Word>, head: Word, head': Word, h: Heap, l: nat, i: nat, j: nat)
    requires Encodes(m, head, h) && i < |h.free| && j < |h.free| && h.free[j] == l
    requires l in h.blocks && End(h.blocks, l) == h.free[i] && h.free[i] in h.blocks
    requires var stop := End(h.blocks, h.free[i]); var back := LinkAt(h.free, i - 1); var on := LinkAt(h.free, i + 1);
      && Rewired(m, m', h, i, l, stop, back, on)
      && l + 2 < stop <= |m'|
      && m'[l] == m'[stop - 1] == h.blocks[l].size + h.blocks[h.free[i]].size
      && Relinked(m, m', l, if j == i + 1 then Some(back) else None, if j == i - 1 then Some(on) else None)
    requires head' == if i == 0 then LinkAt(h.free, 1) else head
    ensures Encodes(m', head', Heap(h.end, Join(h.blocks, l, h.free[i], false), RemoveAt(h.free, i)))
    ensures LiveUntouched(m, m', h.blocks)
  {
    var b := h.free[i];
    var back, on := LinkAt(h.free, i - 1), LinkAt(h.free, i + 1);
    assert IsFree(h.blocks, b) && IsFree(h.blocks, l) && Followed(h.end, h.blocks, l);
    JoinTiled(h.end, h.blocks, l, b, false);
    JoinTags(m, m', h, l, b, if i > 0 then h.free[i - 1] else l, if i + 1 < |h.free| then h.free[i + 1] else l);
    forall k | 0 <= k < |h.free| && k != i
      ensures Relinked(m, m', h.free[k], if k == i + 1 then Some(back) else None, if k == i - 1 then Some(on) else None)
    {
      if k != j {
        JoinApart(h.end, h.blocks, l, b, h.free[k]);
        RewiredLink(m, m', head, h, i, l, End(h.blocks, b), back, on, k);
      }
    }
    UnlinkLinked(m, m', head, head', h.free, i);
    RemoveAtElements(h.free, i);
    var shorter := RemoveAt(h.free, i);
    forall k | 0 <= k < |shorter| ensures IsFree(Join(h.blocks, l, b, false), shorter[k]) {
      assert shorter[k] == h.free[if k < i then k else k + 1];
    }
  }

  /** A block in use whose two tags lose the allocated bit, without being listed yet. */
  lemma UnmarkEncodes(m: seq<Word>, m': seq<Word>, head: Word, h: Heap, b: nat)
    requires Represents(m, head, h) && IsLive(h.blocks, b)
    requires ChangedWithin(m, m', b, End(h.blocks, b), b, b)
    requires b + 2 < End(h.blocks, b) <= |m'|
    requires m'[b] == m'[End(h.blocks, b) - 1] == h.blocks[b].size
    ensures Encodes(m', head, h.(blocks := Mark(h.blocks, b, false)))
    ensures OthersUntouched(m, m', h.blocks, b)
    ensures b !in h.free
  {
    MarkTiled(h.end, h.blocks, b, false);
    var marked := Mark(h.blocks, b, false);
    assert Tagged(m, h.blocks, b);
    assert forall i :: 0 <= i < |h.free| ==> h.free[i] in h.free;
    forall x ensures Tagged(m', marked, x) && (IsLive(h.blocks, x) && x != b ==> Untouched(m, m', h.blocks, x)) {
      if x in h.blocks && x != b {
        assert Apart(h.blocks, x, b) && Apart(h.blocks, b, x);
        Kept(m, m', h.end, h.blocks, b, End(h.blocks, b), b, b, x);
        assert Tagged(m', h.blocks, x);
      }
    }
    forall k: nat ensures LinkedAt(m', h.free, k) {
      assert LinkedAt(m, h.free, k);
      if k < |h.free| {
        assert Apart(h.blocks, h.free[k], b) && Apart(h.blocks, b, h.free[k]) && Followed(h.end, h.blocks, h.free[k]);
      }
    }
  }

  // ---- the merges of kfree, in front of whatever tag and links ----

  const ADDRESS_WORDS: nat := 0x4000_0000  // words in a 32-bit address space

  /** The word that index x leads to, once the index has become a 32-bit byte offset. */
  function Wrapped(x: nat): nat {
    if x < ADDRESS_WORDS then x else if x < 2 * ADDRESS_WORDS then x - ADDRESS_WORDS else x - 2 * ADDRESS_WORDS
  }

  /** In bytes that is the remainder that a 32-bit address keeps. */
  lemma WrappedInBytes(x: nat)
    requires x < 0xC000_0000
    ensures 4 * Wrapped(x) == 4 * x % 0x1_0000_0000
  {
  }

  /** The three words of a block header at address p lie inside the words m. */
  predicate Inside(m: seq<Word>, p: Word) {
    0 <= Index(p) < |m| - 2
  }

  /** They all lie outside. */
  predicate Elsewhere(m: seq<Word>, p: Word) {
    p != NULL && (p + 3 * BYTES_IN_WORD <= HEAP_START_ADDR || HEAP_START_ADDR + BYTES_IN_WORD * |m| <= p)
  }

  /** What kfree's merge of block b into block l does to the words. Writes outside the words are not recorded. */
  ghost predicate LeftMerged(m: seq<Word>, m': seq<Word>, head: Word, head': Word, l: nat, b: nat) {
    && |m| == |m'| && l < b && b + 2 < |m| && 0 < b + m[b]
    && m'[l] == (m[b - 1] as int) + m[b] && m'[b] == 0
    && var footer := Wrapped(b + m[b] - 1);
    && (footer < |m| ==> m'[footer] == m'[l])
    && var prev, next := m[b + 1], m[b + 2];
    && (prev != NULL && Inside(m, prev) ==> m'[Index(prev) + 2] == next)
    && (next != NULL && Inside(m, next) ==> m'[Index(next) + 1] == prev)
    && head' == (if prev == NULL && next != NULL then next else head)
    && forall j | 0 <= j < |m| ::
      || m'[j] == m[j] || j == l || b - 1 <= j <= b + 2 || j == footer
      || (prev != NULL && j == Index(prev) + 2) || (next != NULL && j == Index(next) + 1)
  }

  lemma LeftMergedRewired(m: seq<Word>, m': seq<Word>, head: Word, head': Word, h: Heap, l: nat, i: nat, j: nat)
    requires Encodes(m, head, h) && i < |h.free| && j < |h.free| && h.free[j] == l
    requires l in h.blocks && End(h.blocks, l) == h.free[i] && h.free[i] in h.blocks
    requires LeftMerged(m, m', head, head', l, h.free[i])
    ensures Rewired(m, m', h, i, l, End(h.blocks, h.free[i]), LinkAt(h.free, i - 1), LinkAt(h.free, i + 1))
    ensures head' == if i == 0 then LinkAt(h.free, 1) else head
  {
    NeighbourPositions(m, head, h, i);
    NeighbourPositions(m, head, h, j);
  }

  lemma LeftMergedRelinked(m: seq<Word>, m': seq<Word>, head: Word, head': Word, h: Heap, l: nat, i: nat, j: nat)
    requires Encodes(m, head, h) && i < |h.free| && j < |h.free| && h.free[j] == l
    requires l in h.blocks && End(h.blocks, l) == h.free[i] && h.free[i] in h.blocks
    requires LeftMerged(m, m', head, head', l, h.free[i])
    ensures Relinked(m, m', l, if j == i + 1 then Some(LinkAt(h.free, i - 1)) else None,
                     if j == i - 1 then Some(LinkAt(h.free, i + 1)) else None)
  {
    NeighbourPositions(m, head, h, i);
    NeighbourPositions(m, head, h, j);
    if i > 0 && i - 1 != j { ListedApart(h, l, h.free[i], i - 1); }
    if i + 1 < |h.free| && i + 1 != j { ListedApart(h, l, h.free[i], i + 1); }
  }

  lemma LeftMergedListed(m: seq<Word>, m': seq<Word>, head: Word, head': Word, h: Heap, l: nat, i: nat, j: nat)
    requires Encodes(m, head, h) && i < |h.free| && j < |h.free| && h.free[j] == l
    requires l in h.blocks && End(h.blocks, l) == h.free[i] && h.free[i] in h.blocks
    requires LeftMerged(m, m', head, head', l, h.free[i])
    ensures Encodes(m', head', Heap(h.end, Join(h.blocks, l, h.free[i], false), RemoveAt(h.free, i)))
    ensures LiveUntouched(m, m', h.blocks)
  {
    LeftMergedRewired(m, m', head, head', h, l, i, j);
    LeftMergedRelinked(m, m', head, head', h, l, i, j);
    NeighbourPositions(m, head, h, i);
    NeighbourPositions(m, head, h, j);
    MergeLeftListedEncodes(m, m', head, head', h, l, i, j);
  }

  lemma LeftMergedUnlisted(m: seq<Word>, m': seq<Word>, head: Word, head': Word, h: Heap, l: nat, b: nat, j: nat)
    requires Encodes(m, head, h) && IsFree(h.blocks, b) && b !in h.free && b + 2 < |m| && m[b + 1] == m[b + 2] == NULL
    requires j < |h.free| && h.free[j] == l && l in h.blocks && End(h.blocks, l) == b
    requires LeftMerged(m, m', head, head', l, b)
    ensures Encodes(m', head', Heap(h.end, Join(h.blocks, l, b, false), h.free))
    ensures LiveUntouched(m, m', h.blocks)
  {
    assert Tagged(m, h.blocks, b) && Followed(h.end, h.blocks, b);
    NeighbourPositions(m, head, h, j);
    MergeLeftEncodes(m, m', head, h, l, b);
  }

  /** What kfree's merge of block b with the words behind it, taken for a free block, does to the words. */
  ghost predicate RightMerged(m: seq<Word>, m': seq<Word>, head: Word, head': Word, b: nat, after: nat) {
    && |m| == |m'| && b + 2 < after && after + 2 < |m|
    && m'[b] == (m[b] as int) + m[after]
    && var footer := Wrapped(after + m[after] - 1);
    && (footer < |m| ==> m'[footer] == m'[b])
    && var prev, next := m[after + 1], m[after + 2];
    && m'[b + 1] == prev && m'[b + 2] == next
    && (prev != NULL && Inside(m, prev) ==> m'[Index(prev) + 2] == HEAP_START_ADDR + BYTES_IN_WORD * b)
    && (next != NULL && Inside(m, next) ==> m'[Index(next) + 1] == HEAP_START_ADDR + BYTES_IN_WORD * b)
    && head' == (if prev == NULL then HEAP_START_ADDR + BYTES_IN_WORD * b else head)
    && forall j | 0 <= j < |m| ::
      || m'[j] == m[j] || b <= j <= b + 2 || after - 1 <= j <= after + 2 || j == footer
      || (prev != NULL && j == Index(prev) + 2) || (next != NULL && j == Index(next) + 1)
  }

  lemma RightMergedEncodes(m: seq<Word>, m': seq<Word>, head: Word, head': Word, h: Heap, b: nat, i: nat)
    requires Encodes(m, head, h) && IsFree(h.blocks, b) && b !in h.free
    requires i < |h.free| && h.free[i] == End(h.blocks, b)
    requires RightMerged(m, m', head, head', b, h.free[i])
    ensures h.free[i] in h.blocks
    ensures Encodes(m', head', Heap(h.end, Join(h.blocks, b, h.free[i], false), h.free[i := b]))
    ensures LiveUntouched(m, m', h.blocks)
  {
    assert Tagged(m, h.blocks, b);
    NeighbourPositions(m, head, h, i);
    MergeRightEncodes(m, m', head, head', h, b, i);
  }

  predicate Beyond(at: int, lo: nat, hi: nat) {
    at < lo || hi <= at
  }

  /**
   The word behind block b is the tag of a free block as far as its allocated bit goes. The links behind it lead
   elsewhere, or inside but to other words than those the merge is about; and so does the new footer.
   */
  ghost predicate MergeableRight(m: seq<Word>, b: nat) {
    && b < MAX_HEAP_WORDS && b < |m| && BOOKKEEPING_WORDS <= m[b] <= MAX_HEAP_WORDS && b + m[b] + 2 < |m|
    && var after := b + m[b];
    && m[after] < ALLOCATED_BIT && Wrapped(after + m[after] - 1) >= after - 1
    && var prev, next := m[after + 1], m[after + 2];
    && (prev != NULL ==> Elsewhere(m, prev) || LinksBeyond(m, prev, 2, b, after))
    && (next != NULL ==> Elsewhere(m, next) || LinksBeyond(m, next, 1, b, after))
    && (prev != NULL && next != NULL && Inside(m, prev) && Inside(m, next) ==> Index(prev) + 2 != Index(next) + 1)
  }

  /** Address p leads inside, and its word k is none of those between b and the end of a block at after. */
  ghost predicate LinksBeyond(m: seq<Word>, p: Word, k: nat, b: nat, after: nat)
    requires after < |m|
  {
    && Inside(m, p) && BOOKKEEPING_WORDS <= m[after] && after + m[after] <= MAX_HEAP_WORDS
    && Beyond(Index(p) + k, b, after + m[after])
  }

  /** What allocate_block does to the words when it splits block b. */
  ghost predicate Split(m: seq<Word>, m': seq<Word>, head: Word, head': Word, b: nat, need: nat) {
    && b < |m| == |m'| && BOOKKEEPING_WORDS <= need && b + need + 2 < b + m[b] <= |m|
    && var prev, next, y := m[b + 1], m[b + 2], b + need;
    && m'[b] == m'[y - 1] == need + ALLOCATED_BIT
    && m'[b + 1] == m'[b + 2] == NULL
    && m'[y] == m'[b + m[b] - 1] == m[b] - need
    && m'[y + 1] == prev && m'[y + 2] == next
    && (prev != NULL ==> 0 <= Index(prev) < |m| - 2 && m'[Index(prev) + 2] == LinkAt([y], 0))
    && (next != NULL ==> 0 <= Index(next) < |m| - 2 && m'[Index(next) + 1] == LinkAt([y], 0))
    && head' == (if prev == NULL then LinkAt([y], 0) else head)
    && forall j | 0 <= j < |m| ::
      || m'[j] == m[j] || b <= j < b + m[b]
      || (prev != NULL && j == Index(prev) + 2) || (next != NULL && j == Index(next) + 1)
  }

  lemma SplitRepresents(m: seq<Word>, m': seq<Word>, head: Word, head': Word, h: Heap, i: nat, need: nat)
    requires Represents(m, head, h) && i < |h.free| && h.free[i] in h.blocks
    requires BOOKKEEPING_WORDS <= need && need + 2 * MIN_BLOCK_SIZE < h.blocks[h.free[i]].size
    requires Split(m, m', head, head', h.free[i], need)
    ensures Represents(m', head', Take(h, i, need))
    ensures LiveUntouched(m, m', h.blocks)
  {
    NeighbourPositions(m, head, h, i);
    TakeSplitRepresents(m, m', head, head', h, i, need);
  }

  /** Block b is free by its tags, and its links lead to words outside it. */
  ghost predicate Detachable(m: seq<Word>, b: nat) {
    && b < |m| && BOOKKEEPING_WORDS <= m[b] < ALLOCATED_BIT && b + m[b] <= |m| && m[b + m[b] - 1] == m[b]
    && var prev, next := m[b + 1], m[b + 2];
    && (prev != NULL ==> 0 <= Index(prev) < |m| - 2 && (Index(prev) + 2 < b || b + m[b] <= Index(prev)))
    && (next != NULL ==> 0 <= Index(next) < |m| - 2 && (Index(next) + 2 < b || b + m[b] <= Index(next)))
    && (prev != NULL && next != NULL ==> Index(prev) + 2 != Index(next) + 1)
  }

  lemma ListedDetachable(m: seq<Word>, head: Word, h: Heap, i: nat)
    requires Encodes(m, head, h) && i < |h.free|
    ensures var b := h.free[i];
      && b < MAX_HEAP_WORDS && LinkAt(h.free, i) == Ptr(b) && Index(Ptr(b)) == b
      && Detachable(m, b) && b + m[b] <= h.end <= MAX_HEAP_WORDS && b + 2 < |m|
  {
    NeighbourPositions(m, head, h, i);
    ListPosition(m, head, h, i);
  }

  /** What allocate_block does to the words when it takes block b whole. */
  ghost predicate Taken(m: seq<Word>, m': seq<Word>, head: Word, head': Word, b: nat) {
    && b < |m| == |m'| && b + 2 < b + m[b] <= |m|
    && var prev, next := m[b + 1], m[b + 2];
    && m'[b] == m'[b + m[b] - 1] == m[b] + ALLOCATED_BIT
    && m'[b + 1] == m'[b + 2] == NULL
    && (prev != NULL ==> 0 <= Index(prev) < |m| - 2 && m'[Index(prev) + 2] == next)
    && (next != NULL ==> 0 <= Index(next) < |m| - 2 && m'[Index(next) + 1] == prev)
    && head' == (if prev == NULL then next else head)
    && forall j | 0 <= j < |m| ::
      || m'[j] == m[j] || b <= j < b + m[b]
      || (prev != NULL && j == Index(prev) + 2) || (next != NULL && j == Index(next) + 1)
  }

  lemma TakenRepresents(m: seq<Word>, m': seq<Word>, head: Word, head': Word, h: Heap, i: nat, need: nat)
    requires Represents(m, head, h) && i < |h.free| && h.free[i] in h.blocks
    requires BOOKKEEPING_WORDS <= need <= h.blocks[h.free[i]].size <= need + 2 * MIN_BLOCK_SIZE
    requires Taken(m, m', head, head', h.free[i])
    ensures Represents(m', head', Take(h, i, need))
    ensures LiveUntouched(m, m', h.blocks)
  {
    NeighbourPositions(m, head, h, i);
    TakeWholeRepresents(m, m', head, head', h, i, need);
  }

  /** Link word at lies apart from the tag of block l and from the block of the given size behind l. */
  predicate Clear(at: int, l: nat, b: nat, size: nat) {
    at < l || l < at < b - 1 || b + size <= at
  }

  /**
   Block b and the block before it are free by their tags. The links of b lead elsewhere, or inside but to other
   words than those the merge is about; and so does the new footer.
   */
  ghost predicate MergeableLeft(m: seq<Word>, b: nat) {
    && 0 < b && b + 2 < |m| && 0 <= b - m[b - 1] < b - 1
    && BOOKKEEPING_WORDS <= m[b] && Wrapped(b + m[b] - 1) >= b + 3
    && m[b - m[b - 1]] == m[b - 1] && m[b - 1] < ALLOCATED_BIT && m[b] < ALLOCATED_BIT
    && var prev, next := m[b + 1], m[b + 2];
    && (prev != NULL ==> Elsewhere(m, prev) || LinksClear(m, prev, 2, b))
    && (next != NULL ==> Elsewhere(m, next) || LinksClear(m, next, 1, b))
    && (prev != NULL && next != NULL && Inside(m, prev) && Inside(m, next) ==> Index(prev) + 2 != Index(next) + 1)
  }

  /** Address p leads inside, and its word k is neither the tag of the block before b nor a word of b. */
  ghost predicate LinksClear(m: seq<Word>, p: Word, k: nat, b: nat)
    requires 0 < b < |m|
  {
    Inside(m, p) && b + m[b] <= MAX_HEAP_WORDS && m[b - 1] <= b && Clear(Index(p) + k, b - m[b - 1], b, m[b])
  }

  lemma ListedMergeable(m: seq<Word>, head: Word, h: Heap, i: nat, j: nat)
    requires Encodes(m, head, h) && i < |h.free| && j < |h.free|
    requires h.free[j] in h.blocks && End(h.blocks, h.free[j]) == h.free[i] && h.free[i] in h.blocks
    ensures MergeableLeft(m, h.free[i]) && m[h.free[i] - 1] == h.blocks[h.free[j]].size
  {
    NeighbourPositions(m, head, h, i);
    NeighbourPositions(m, head, h, j);
    if i > 0 && i - 1 != j { ListedApart(h, h.free[j], h.free[i], i - 1); }
    if i + 1 < |h.free| && i + 1 != j { ListedApart(h, h.free[j], h.free[i], i + 1); }
  }
}
