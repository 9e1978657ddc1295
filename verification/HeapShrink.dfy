/** Shrinking a block in place: what krealloc does when the new size is smaller. */
module HeapShrink {
  import opened KernelWords
  import opened HeapModel
  import opened HeapWords
  import opened HeapSteps
  import opened HeapContract

  /** Shrinking block b to n words gives more than 16 words back. */
  predicate WorthCutting(h: Heap, b: nat, n: nat) {
    b in h.blocks && h.blocks[b].size > n + 2 * MIN_BLOCK_SIZE
  }

  /** The heap after block b has been cut down to n words, as a caller would want it. */
  ghost function Shrink(h: Heap, b: nat, n: nat): Heap
    requires IsLive(h.blocks, b) && Listed(h.blocks, h.free)
  {
    var after := End(h.blocks, b);
    if !WorthCutting(h, b, n) then
      h
    else if IsFree(h.blocks, after) then
      var rest := Block(after - b - n + h.blocks[after].size, false);
      Heap(h.end, (h.blocks - {after})[b := Block(n, true)][b + n := rest],
           h.free[Position(h.free, after) := b + n])
    else
      Heap(h.end, Cut(h.blocks, b, n, true, false), [b + n] + h.free)
  }

  /** The shrink that krealloc gets right: it hands back too little to matter, or has no free neighbour to feed. */
  ghost predicate ShrinksSafely(h: Heap, b: nat, n: nat)
    requires b in h.blocks
  {
    WorthCutting(h, b, n) && IsFree(h.blocks, End(h.blocks, b)) ==> h.free == [End(h.blocks, b)]
  }

  /** The shrink cuts words off, and there is no free block behind to feed with them. */
  ghost predicate CutsOff(h: Heap, b: nat, n: nat)
    requires b in h.blocks
  {
    WorthCutting(h, b, n) && !IsFree(h.blocks, End(h.blocks, b))
  }

  lemma ShrinkTiled(h: Heap, b: nat, n: nat)
    requires Inv(h) && IsLive(h.blocks, b) && BOOKKEEPING_WORDS <= n && WorthCutting(h, b, n)
    ensures b + n !in h.blocks
    ensures Tiled(h.end, Shrink(h, b, n).blocks)
  {
    var after := End(h.blocks, b);
    CutTiled(h.end, h.blocks, b, n, true, false);
    var cut := Cut(h.blocks, b, n, true, false);
    if IsFree(h.blocks, after) {
      JoinTiled(h.end, cut, b + n, after, false);
      assert Join(cut, b + n, after, false) == Shrink(h, b, n).blocks;
    }
  }

  lemma ShrinkInv(h: Heap, b: nat, n: nat)
    requires Inv(h) && IsLive(h.blocks, b) && BOOKKEEPING_WORDS <= n && WorthCutting(h, b, n)
    ensures Inv(Shrink(h, b, n))
  {
    var after := End(h.blocks, b);
    var y := b + n;
    var h' := Shrink(h, b, n);
    ShrinkTiled(h, b, n);
    assert Followed(h.end, h.blocks, b);
    if IsFree(h.blocks, after) {
      ReplaceElements(h.free, Position(h.free, after), y);
      forall x: nat ensures x in h'.free <==> IsFree(h'.blocks, x) {
        assert x in h.free <==> IsFree(h.blocks, x);
      }
    } else {
      FrontElements(h.free, y);
    }
    forall x, z | IsFree(h'.blocks, x) && IsFree(h'.blocks, z) ensures End(h'.blocks, x) != z {
      assert x != y ==> IsFree(h.blocks, x) && Followed(h.end, h.blocks, x);
      assert Apart(h.blocks, x, b) && Apart(h.blocks, b, x);
      assert z != y ==> IsFree(h.blocks, z);
    }
  }

  /** Block b, in use, is cut: its first n words stay in use, the rest is free but not listed yet. */
  lemma CutEncodes(m: seq<Word>, m': seq<Word>, head: Word, h: Heap, b: nat, n: nat)
    requires Represents(m, head, h) && IsLive(h.blocks, b) && BOOKKEEPING_WORDS <= n && WorthCutting(h, b, n)
    requires End(h.blocks, b) <= |m| == |m'|
    requires forall j | 0 <= j < |m| ::
      m'[j] == m[j] || j == b || j == b + n - 1 || j == b + n || j == End(h.blocks, b) - 1
    requires m'[b] == m'[b + n - 1] == n + ALLOCATED_BIT
    requires m'[b + n] == m'[End(h.blocks, b) - 1] == h.blocks[b].size - n
    ensures Encodes(m', head, h.(blocks := Cut(h.blocks, b, n, true, false)))
    ensures OthersUntouched(m, m', h.blocks, b)
    ensures b + n !in h.free
    ensures PrefixKept(m, m', b, n)
  {
    var cut := Cut(h.blocks, b, n, true, false);
    CutTiled(h.end, h.blocks, b, n, true, false);
    assert Tagged(m, h.blocks, b);
    assert forall i :: 0 <= i < |h.free| ==> h.free[i] in h.free;
    forall x ensures Tagged(m', cut, x) && (IsLive(h.blocks, x) && x != b ==> Untouched(m, m', h.blocks, x)) {
      if x in h.blocks && x != b {
        assert Apart(h.blocks, x, b) && Apart(h.blocks, b, x);
        Kept(m, m', h.end, h.blocks, b, End(h.blocks, b), b, b, x);
        assert Tagged(m', h.blocks, x);
      }
    }
    forall k: nat ensures LinkedAt(m', h.free, k) {
      assert LinkedAt(m, h.free, k);
      if k < |h.free| {
        assert Apart(h.blocks, h.free[k], b) && Apart(h.blocks, b, h.free[k]) && Followed(h.end, h.blocks, h.free[k]);
      }
    }
  }

  /**
   What krealloc writes when the block behind b is free: the new free block y takes over the links of that
   block, and the head now leads to y. Nothing that led to the old block is changed.
   */
  ghost predicate FedForward(m: seq<Word>, m': seq<Word>, head': Word, b: nat, n: nat) {
    && b < |m| == |m'|
    && var after, y := b + GetSize(m[b]), b + n;
    && after + 2 < |m| && BOOKKEEPING_WORDS <= n && y + 2 < after && after < after + m[after] <= |m|
    && (forall j | 0 <= j < |m| ::
          || m'[j] == m[j] || j == b || b + n - 1 <= j <= b + n + 2
          || j == after - 1 || j == after || j == after + m[after] - 1)
    && m'[b] == m'[b + n - 1] == n + ALLOCATED_BIT
    && m'[y] == m'[after + m[after] - 1] == after - y + m[after]
    && m'[y + 1] == m[after + 1] && m'[y + 2] == m[after + 2]
    && head' == LinkAt([y], 0)
  }

  lemma FedForwardTags(m: seq<Word>, m': seq<Word>, head: Word, head': Word, h: Heap, b: nat, n: nat)
    requires Represents(m, head, h) && IsLive(h.blocks, b) && BOOKKEEPING_WORDS <= n && WorthCutting(h, b, n)
    requires IsFree(h.blocks, End(h.blocks, b)) && FedForward(m, m', head', b, n)
    ensures AllTagged(m', Shrink(h, b, n).blocks) && OthersUntouched(m, m', h.blocks, b)
  {
    var after := End(h.blocks, b);
    var blocks' := Shrink(h, b, n).blocks;
    assert Tagged(m, h.blocks, b) && Tagged(m, h.blocks, after) && Followed(h.end, h.blocks, after);
    forall x ensures Tagged(m', blocks', x) && (IsLive(h.blocks, x) && x != b ==> Untouched(m, m', h.blocks, x)) {
      if x in h.blocks && x != b && x != after {
        JoinApart(h.end, h.blocks, b, after, x);
        Kept(m, m', h.end, h.blocks, b, End(h.blocks, after), b, b, x);
        assert Tagged(m', h.blocks, x);
      }
    }
  }

  lemma FedForwardAlone(m: seq<Word>, m': seq<Word>, head: Word, head': Word, h: Heap, b: nat, n: nat)
    requires Represents(m, head, h) && IsLive(h.blocks, b) && BOOKKEEPING_WORDS <= n && WorthCutting(h, b, n)
    requires h.free == [End(h.blocks, b)] && End(h.blocks, b) in h.blocks
    requires FedForward(m, m', head', b, n)
    ensures Represents(m', head', Shrink(h, b, n))
    ensures OthersUntouched(m, m', h.blocks, b)
    ensures PrefixKept(m, m', b, n)
  {
    assert h.free[0] in h.free;
    FedForwardTags(m, m', head, head', h, b, n);
    ShrinkInv(h, b, n);
    var free' := Shrink(h, b, n).free;
    assert free' == [b + n];
    assert Tagged(m, h.blocks, b) && LinkedAt(m, h.free, 0);
    forall k: nat ensures LinkedAt(m', free', k) {}
  }

  lemma FedForwardStale(m: seq<Word>, m': seq<Word>, head: Word, head': Word, h: Heap, b: nat, n: nat, i: nat)
    requires Represents(m, head, h) && IsLive(h.blocks, b) && BOOKKEEPING_WORDS <= n && WorthCutting(h, b, n)
    requires i < |h.free| && h.free[i] == End(h.blocks, b) && h.free[i] in h.blocks && |h.free| > 1
    requires FedForward(m, m', head', b, n)
    ensures if i > 0 then m'[b + n + 1] == LinkAt(h.free, i - 1) != NULL
            else h.free[1] + 1 < |m'| && m'[b + n + 2] == LinkAt(h.free, 1) && m'[h.free[1] + 1] == LinkAt(h.free, 0)
  {
    NeighbourPositions(m, head, h, i);
    assert Tagged(m, h.blocks, b);
    if i == 0 {
      assert h.free[1] in h.free;
      ListedApart(h, b, h.free[0], 1);
      ListPosition(m, head, h, 1);
    }
  }

  /** With another block on the list, the words left do not represent any heap. */
  lemma FedForwardBroken(m: seq<Word>, m': seq<Word>, head: Word, head': Word, h: Heap, b: nat, n: nat, i: nat, g: Heap)
    requires Represents(m, head, h) && IsLive(h.blocks, b) && BOOKKEEPING_WORDS <= n && WorthCutting(h, b, n)
    requires i < |h.free| && h.free[i] == End(h.blocks, b) && h.free[i] in h.blocks && |h.free| > 1
    requires FedForward(m, m', head', b, n)
    ensures !Represents(m', head', g)
  {
    FedForwardStale(m, m', head, head', h, b, n, i);
    assert Linked(m', head', g.free) ==> LinkedAt(m', g.free, 0) && LinkedAt(m', g.free, 1);
  }

  /** The payload of block b is kept as far as its first n words go. */
  ghost predicate PrefixKept(m: seq<Word>, m': seq<Word>, b: nat, n: nat) {
    |m| == |m'| && BOOKKEEPING_WORDS <= n && b + n <= |m| && m'[b + 3..b + n - 1] == m[b + 3..b + n - 1]
  }

  lemma CutThenPushed(m: seq<Word>, m1: seq<Word>, m2: seq<Word>, h: Heap, b: nat, n: nat)
    requires Inv(h) && IsLive(h.blocks, b) && WorthCutting(h, b, n) && |m| == |m1| == |m2|
    requires OthersUntouched(m, m1, h.blocks, b) && PrefixKept(m, m1, b, n)
    requires LiveUntouched(m1, m2, Cut(h.blocks, b, n, true, false))
    ensures OthersUntouched(m, m2, h.blocks, b) && PrefixKept(m, m2, b, n)
  {
    var cut := Cut(h.blocks, b, n, true, false);
    CutTiled(h.end, h.blocks, b, n, true, false);
    assert Untouched(m1, m2, cut, b);
    assert forall j | b <= j < b + n :: m1[j] == m1[b..b + n][j - b] && m2[j] == m2[b..b + n][j - b];
    forall x ensures IsLive(h.blocks, x) && x != b ==> Untouched(m, m2, h.blocks, x) {
      assert IsLive(h.blocks, x) && x != b ==> Untouched(m, m1, h.blocks, x) && Untouched(m1, m2, cut, x);
    }
  }

  /** A shrink shortens one payload, if that pays, and changes no other. */
  lemma ShrinkRefines(h: Heap, b: nat, n: nat)
    requires Inv(h) && IsLive(h.blocks, b) && BOOKKEEPING_WORDS <= n
    ensures Live(Shrink(h, b, n)) == if h.blocks[b].size > n + 16 then Live(h)[b := n - 4] else Live(h)
  {
    if WorthCutting(h, b, n) {
      ShrinkTiled(h, b, n);
    }
  }
}
