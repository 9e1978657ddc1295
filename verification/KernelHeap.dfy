/** The allocator of kernel/libk/kstdlib.c, working in place on an array of words. */
module KernelHeap {
  import opened KernelWords
  import opened HeapModel
  import opened HeapWords
  import opened HeapSteps
  import opened HeapContract
  import opened HeapEffects
  import opened HeapShrink
  import opened HeapEdge
  import opened HeapWrites
  import opened HeapRefinement
  import opened HeapRuns

  class KernelHeap {
    const mem: array<Word>     // the heap's virtual range, and the words just behind it
    var head: Word             // the first block of the free list, or NULL
    var lastFree: Word         // the address of the first word behind the heap
    var pages: nat             // pages in the heap
    ghost var heap: Heap       // the heap that the words represent

    ghost function Mem(): (s: Memory)
      reads this, mem
    {
      Memory(mem[..], head, pages * WORDS_IN_PAGE)
    }

    ghost function State(): (s: Store)
      reads this, mem
    {
      Store(Mem(), heap)
    }

    ghost predicate Valid()
      reads this, mem
    {
      && mem.Length == MAX_HEAP_WORDS + GUARD_WORDS
      && Good(State())
      && lastFree == HEAP_START_ADDR + BYTES_IN_WORD * heap.end
    }

    /** kdynamic_memory_init: one zeroed page, holding one free block. */
    constructor ()
      ensures Valid() && heap == Init() && fresh(mem)
    {
      mem := new Word[MAX_HEAP_WORDS + GUARD_WORDS];
      new;
      pages := 1;
      lastFree := HEAP_START_ADDR;
      forall i | 0 <= i < WORDS_IN_PAGE {
        mem[i] := 0;
      }
      head := lastFree;
      lastFree := lastFree + BYTES_IN_WORD * WORDS_IN_PAGE;
      var first := Index(head);
      mem[first] := WORDS_IN_PAGE;
      mem[first + 1] := NULL;
      mem[first + 2] := NULL;
      mem[first + mem[first] - 1] := WORDS_IN_PAGE;
      heap := Init();
      InitInv();
      forall b ensures Tagged(mem[..], heap.blocks, b) {}
      forall k: nat ensures LinkedAt(mem[..], heap.free, k) {}
    }

    /** increase_memory_pool, where frame says whether the physical allocator hands out a page. */
    method IncreaseMemoryPool(frame: bool) returns (grown: bool)
      requires Valid()
      modifies this, mem
      ensures Valid()
      ensures grown == (frame && old(pages) < 0x1_0000)
      ensures if grown then Grown(old(Mem()), Mem()) && heap == Grow(old(heap)) else State() == old(State())
      ensures grown ==> GrowEffect(old(heap), heap)
      ensures LiveUntouched(old(mem[..]), mem[..], old(heap).blocks)
    {
      if pages < MAX_KERNEL_HEAP_SIZE {
        if !frame {
          return false;
        }
        ghost var s, h := Mem(), heap;
        AddPage(Index(lastFree));
        pages := pages + 1;
        lastFree := lastFree + BYTES_IN_WORD * WORDS_IN_PAGE;
        GrownRight(s, Mem(), h);
        GrowMeans(h);
        heap := Grow(h);
        return true;
      }
      return false;
    }

    /** The words of a page more, behind the last word so far. */
    method AddPage(last: nat)
      requires Valid() && last == heap.end < MAX_HEAP_WORDS
      modifies mem, `head
      ensures Grown(Memory(old(mem[..]), old(head), last), Memory(mem[..], head, last + WORDS_IN_PAGE))
    {
      ghost var t := TagBefore(mem[..], head, heap, last);
      assert Tagged(mem[..], heap.blocks, t);
      if !GetAllocatedBit(mem[last - 1]) {
        StretchLastBlock(last);
      } else {
        if heap.free != [] { ListPosition(mem[..], head, heap, 0); }
        AppendPage(last);
      }
    }

    /** The heap's last block is free: it becomes a page longer. */
    method StretchLastBlock(last: nat)
      requires mem.Length == MAX_HEAP_WORDS + GUARD_WORDS && 0 < last <= MAX_HEAP_WORDS - WORDS_IN_PAGE
      requires BOOKKEEPING_WORDS <= mem[last - 1] <= last && mem[last - mem[last - 1]] == mem[last - 1]
      modifies mem
      ensures Stretched(Memory(old(mem[..]), head, last), Memory(mem[..], head, last + WORDS_IN_PAGE))
    {
      var block := last - mem[last - 1];
      mem[block] := mem[block] + WORDS_IN_PAGE;
      mem[block + mem[block] - 1] := mem[block];
    }

    /** The heap's last block is in use: the new page becomes a free block in front of the list. */
    method AppendPage(last: nat)
      requires mem.Length == MAX_HEAP_WORDS + GUARD_WORDS && last <= MAX_HEAP_WORDS - WORDS_IN_PAGE
      requires head != NULL ==> 0 <= Index(head) && Index(head) + 2 < last
      modifies mem, `head
      ensures Appended(Memory(old(mem[..]), old(head), last), Memory(mem[..], head, last + WORDS_IN_PAGE))
    {
      WriteBlock(last, 1024, NULL, head);
      if mem[last + 2] != NULL {
        mem[Index(mem[last + 2]) + 1] := Ptr(last);
      }
      head := Ptr(last);
    }

    /** Set the allocated bit in both tags of a block. */
    method SetTags(b: nat)
      requires b < mem.Length && GetSize(mem[b]) >= BOOKKEEPING_WORDS && b + GetSize(mem[b]) <= mem.Length
      modifies mem
      ensures GetSize(mem[b]) == old(GetSize(mem[b])) && mem[b] == SetAllocatedBit(old(mem[b]))
      ensures mem[b + GetSize(mem[b]) - 1] == SetAllocatedBit(old(mem[b + GetSize(mem[b]) - 1]))
      ensures forall j | 0 <= j < mem.Length ::
        mem[j] == old(mem[j]) || j == b || j == b + GetSize(mem[b]) - 1
    {
      mem[b] := SetAllocatedBit(mem[b]);
      var footer := b + GetSize(mem[b]) - 1;
      mem[footer] := SetAllocatedBit(mem[footer]);
    }

    /** Write a block's tag at both its ends, and its two links. */
    method WriteBlock(at: nat, tag: Word, prev: Word, next: Word)
      requires GetSize(tag) >= BOOKKEEPING_WORDS && at + GetSize(tag) <= mem.Length
      modifies mem
      ensures mem[at] == mem[at + GetSize(tag) - 1] == tag
      ensures mem[at + 1] == prev && mem[at + 2] == next
      ensures forall j | 0 <= j < mem.Length ::
        mem[j] == old(mem[j]) || at <= j <= at + 2 || j == at + GetSize(tag) - 1
    {
      mem[at] := tag;
      mem[at + 1] := prev;
      mem[at + 2] := next;
      mem[at + GetSize(tag) - 1] := tag;
    }

    /** A write to word k of a block header at address p. */
    method WriteLink(p: Word, k: nat, value: Word)
      requires k < 3 && (Inside(mem[..], p) || Elsewhere(mem[..], p))
      modifies mem
      ensures mem[..] == if Inside(old(mem[..]), p) then old(mem[..])[Index(p) + k := value] else old(mem[..])
    {
      if 0 <= Index(p) < mem.Length - 2 {
        mem[Index(p) + k] := value;
      }
    }

    /**
     The surgery that allocate_block and kfree share: the block listed before (or the list head,
     if there is none) now leads on to toNext, and the block listed behind leads back to toPrev.
     */
    method Relink(prev: Word, next: Word, toNext: Word, toPrev: Word)
      requires prev != NULL ==> Inside(mem[..], prev) || Elsewhere(mem[..], prev)
      requires next != NULL ==> Inside(mem[..], next) || Elsewhere(mem[..], next)
      requires prev != NULL && next != NULL && Inside(mem[..], prev) && Inside(mem[..], next) ==>
        Index(prev) + 2 != Index(next) + 1
      modifies mem, `head
      ensures head == if prev == NULL then toNext else old(head)
      ensures prev != NULL && Inside(old(mem[..]), prev) ==> mem[Index(prev) + 2] == toNext
      ensures next != NULL && Inside(old(mem[..]), next) ==> mem[Index(next) + 1] == toPrev
      ensures forall j | 0 <= j < mem.Length ::
        mem[j] == old(mem[j]) || (prev != NULL && j == Index(prev) + 2) || (next != NULL && j == Index(next) + 1)
    {
      if prev != NULL {
        WriteLink(prev, 2, toNext);
      } else {
        head := toNext;
      }
      if next != NULL {
        WriteLink(next, 1, toPrev);
      }
    }

    /** allocate_block: take need words from the free block at the given address, the one at list position i. */
    method AllocateBlock(need: Word, block: Word, ghost i: nat) returns (r: Word)
      requires Valid() && BOOKKEEPING_WORDS <= need < ALLOCATED_BIT - 2 * MIN_BLOCK_SIZE
      requires Fits(heap, i, need) && block == LinkAt(heap.free, i)
      modifies this, mem
      ensures Valid() && pages == old(pages)
      ensures r == block && heap == Take(old(heap), i, need) && TakeEffect(old(heap), i, need, heap)
      ensures 0 <= Index(block) && Allocated(old(Mem()), Mem(), Index(block), need)
      ensures LiveUntouched(old(mem[..]), mem[..], old(heap).blocks)
      ensures Index(r) < mem.Length - 2 && mem[Index(r) + 1] == mem[Index(r) + 2] == NULL
    {
      ghost var s, h := Mem(), heap;
      ListedDetachable(mem[..], head, h, i);
      var b := Index(block);
      AllocateWords(b, need);
      heap := Take(h, i, need);
      AllocatedRight(s, Mem(), h, i, need);
      TakeMeans(h, i, need);
      return block;
    }

    /** The writes of allocate_block for block b. */
    method AllocateWords(b: nat, need: Word)
      requires Detachable(mem[..], b) && BOOKKEEPING_WORDS <= need < ALLOCATED_BIT - 2 * MIN_BLOCK_SIZE
      requires mem.Length == MAX_HEAP_WORDS + GUARD_WORDS && b + mem[b] <= MAX_HEAP_WORDS
      modifies mem, `head
      ensures Allocated(old(Mem()), Mem(), b, need)
    {
      if GetSize(mem[b]) <= need + 2 * MIN_BLOCK_SIZE {
        TakeWords(b);
      } else {
        SplitWords(b, need);
      }
    }

    /** The writes of allocate_block for a block that is taken whole. */
    method TakeWords(b: nat)
      requires Detachable(mem[..], b)
      modifies mem, `head
      ensures Taken(old(mem[..]), mem[..], old(head), head, b)
    {
      SetTags(b);
      Relink(mem[b + 1], mem[b + 2], mem[b + 2], mem[b + 1]);
      mem[b + 1] := NULL;
      mem[b + 2] := NULL;
    }

    /** The writes of allocate_block for a block that is split. */
    method SplitWords(b: nat, need: Word)
      requires Detachable(mem[..], b) && BOOKKEEPING_WORDS <= need && need + 2 * MIN_BLOCK_SIZE < mem[b]
      requires mem.Length == MAX_HEAP_WORDS + GUARD_WORDS && b + mem[b] <= MAX_HEAP_WORDS
      modifies mem, `head
      ensures Split(old(mem[..]), mem[..], old(head), head, b, need)
    {
      var rest := b + need;
      WriteBlock(rest, GetSize(mem[b] - need), mem[b + 1], mem[b + 2]);
      Relink(mem[b + 1], mem[b + 2], Ptr(rest), Ptr(rest));
      WriteBlock(b, SetAllocatedBit(need), NULL, NULL);
    }

    /** The walk of kmalloc: the first listed block of at least the given number of words, or NULL. */
    method FindFit(words: Word) returns (current: Word, ghost path: seq<Word>)
      requires Valid()
      ensures current == match FirstFit(heap, words, 0) case None => NULL case Some(k) => LinkAt(heap.free, k)
      ensures WalkEnds(Mem(), words, path, current)
    {
      current := head;
      path := [head];
      while current != NULL
        invariant Walk(Mem(), words, path) && path[|path| - 1] == current && |path| <= |heap.free| + 1
        decreases |heap.free| - |path|
      {
        WalkFollowsList(Mem(), heap, words, path, |path| - 1);
        ListPosition(mem[..], head, heap, |path| - 1);
        if GetSize(mem[Index(current)]) >= words {
          break;
        }
        current := mem[Index(current) + 2];
        path := OneStepOn(Mem(), words, path, current);
      }
      WalkFindsFirstFit(Mem(), heap, words, path, current);
    }

    /** One round of kmalloc: serve the request from the first listed block that fits, if there is one. */
    method Serve(words: Word) returns (p: Word)
      requires Valid() && BOOKKEEPING_WORDS <= words < ALLOCATED_BIT - 2 * MIN_BLOCK_SIZE
      modifies this, mem
      ensures Valid() && pages == old(pages)
      ensures p == NULL ==> State() == old(State()) && FindsNothing(Mem(), words) && FirstFit(heap, words, 0).None?
      ensures p != NULL ==> Serves(old(Mem()), words, Mem(), p)
      ensures p != NULL ==> forall frames: nat :: heap == Malloc(old(heap), words, frames).0
    {
      var current, path := FindFit(words);
      WalkFindsFirstFit(Mem(), heap, words, path, current);
      if current != NULL {
        var r := AllocateBlock(words, current, |path| - 1);
        assert WalkEnds(old(Mem()), words, path, current);
        return r + 3 * BYTES_IN_WORD;
      }
      return NULL;
    }

    /** kmalloc: the request is for size bytes, and the physical allocator still has the given number of pages. */
    method KMalloc(size: Word, frames: nat) returns (p: Word, left: nat)
      requires Valid()
      modifies this, mem
      ensures Valid() && Step(old(State()), Request(size, frames), State())
      ensures Requested(old(State()), size, frames, State(), p, left)
      ensures Answered(old(heap), size, frames, heap, p, left)
    {
      if size == 0 {
        return NULL, frames;
      }
      ghost var s := State();
      p, left := Obtain(size, frames);
      RequestedInNumbers(s, size, frames, State(), p, left);
    }

    /** A request for some bytes. */
    method Obtain(size: Word, frames: nat) returns (p: Word, left: nat)
      requires Valid() && size > 0
      modifies this, mem
      ensures Valid() && Step(old(State()), Request(size, frames), State())
      ensures Requested(old(State()), size, frames, State(), p, left)
    {
      var words: Word := size / BYTES_IN_WORD + (if size % BYTES_IN_WORD > 0 then 1 else 0) + 4;
      assert words == Need(size);
      ghost var s := State();
      p, left := ServeOrGrow(words, frames);
      RequestMade(s, size, frames, State(), p, left);
    }

    /** The outer loop of kmalloc: as long as nothing fits, make the heap a page longer and look again. */
    method ServeOrGrow(words: Word, frames: nat) returns (p: Word, left: nat)
      requires Valid() && BOOKKEEPING_WORDS <= words < ALLOCATED_BIT - 2 * MIN_BLOCK_SIZE
      modifies this, mem
      ensures Valid() && heap == Malloc(old(heap), words, frames).0
      ensures Mallocs(old(Mem()), words, frames, Mem(), p, left)
    {
      left := frames;
      while true
        invariant Valid() && Onward(old(Mem()), words, frames, Mem(), left)
        invariant Malloc(old(heap), words, frames) == Malloc(heap, words, left)
        decreases left
      {
        ghost var s := Mem();
        p := Serve(words);
        if p != NULL {
          assert Mallocs(s, words, left, Mem(), p, left);
          return;
        }
        var grown := IncreaseMemoryPool(left > 0);
        if !grown {
          assert Mallocs(s, words, left, Mem(), p, left);
          return;
        }
        left := left - 1;
        OnwardGrown(old(Mem()), words, frames, s, left, Mem());
      }
    }

    /** Clear the allocated bit in both tags of a block. */
    method ClearTags(b: nat)
      requires b < mem.Length && GetSize(mem[b]) >= BOOKKEEPING_WORDS && b + GetSize(mem[b]) <= mem.Length
      modifies mem
      ensures mem[b] == old(GetSize(mem[b]))
      ensures mem[b + mem[b] - 1] == GetSize(old(mem[b + GetSize(mem[b]) - 1]))
      ensures forall j | 0 <= j < mem.Length :: mem[j] == old(mem[j]) || j == b || j == b + mem[b] - 1
    {
      mem[b] := GetSize(mem[b]);
      var footer := b + mem[b] - 1;
      mem[footer] := GetSize(mem[footer]);
    }

    /** Wipe the footer and the three bookkeeping words on the seam of two blocks that become one. */
    method WipeSeam(at: nat)
      requires 0 < at && at + 2 < mem.Length
      modifies mem
      ensures mem[at - 1] == mem[at] == mem[at + 1] == mem[at + 2] == 0
      ensures forall j | 0 <= j < mem.Length :: mem[j] == old(mem[j]) || at - 1 <= j <= at + 2
    {
      mem[at - 1] := 0;
      mem[at] := 0;
      mem[at + 1] := 0;
      mem[at + 2] := 0;
    }

    /** The first merge of kfree: b takes in the words of the block behind it, and its place on the list. */
    method MergeRight(b: nat)
      requires MergeableRight(mem[..], b)
      modifies mem, `head
      ensures RightMerged(old(mem[..]), mem[..], old(head), head, b, b + old(mem[b]))
    {
      var after := b + mem[b];
      var prev, next := mem[after + 1], mem[after + 2];
      Relink(prev, next, Ptr(b), Ptr(b));
      Absorb(b, after, prev, next);
    }

    /** A footer, at an index that becomes a 32-bit byte offset. */
    method WriteFooter(index: nat, value: Word)
      modifies mem
      ensures mem[..] ==
        if Wrapped(index) < mem.Length then old(mem[..])[Wrapped(index) := value] else old(mem[..])
    {
      if Wrapped(index) < mem.Length {
        mem[Wrapped(index)] := value;
      }
    }

    /** Block b takes in the words of the block behind it. */
    method Absorb(b: nat, after: nat, prev: Word, next: Word)
      requires b + BOOKKEEPING_WORDS <= after < mem.Length - 2 && mem[b] == after - b <= MAX_HEAP_WORDS
      requires mem[after] < ALLOCATED_BIT && Wrapped(after + mem[after] - 1) >= after - 1
      modifies mem
      ensures var footer := Wrapped(after + old(mem[after]) - 1);
        && mem[b] == old(mem[b]) + old(mem[after]) && (footer < mem.Length ==> mem[footer] == mem[b])
        && mem[b + 1] == prev && mem[b + 2] == next
        && forall j | 0 <= j < mem.Length ::
          mem[j] == old(mem[j]) || b <= j <= b + 2 || after - 1 <= j <= after + 2 || j == footer
    {
      mem[b + 1] := prev;
      mem[b + 2] := next;
      mem[b] := mem[b] + mem[after];
      WipeSeam(after);
      WriteFooter(b + mem[b] - 1, mem[b]);
    }

    /**
     How kfree takes a block out of the list before its left neighbour takes the block in. The list
     head moves only if there is a next block, which is right because the left neighbour is listed.
     */
    method UnlinkBeforeMerge(prev: Word, next: Word)
      requires prev != NULL ==> Inside(mem[..], prev) || Elsewhere(mem[..], prev)
      requires next != NULL ==> Inside(mem[..], next) || Elsewhere(mem[..], next)
      requires prev != NULL && next != NULL && Inside(mem[..], prev) && Inside(mem[..], next) ==>
        Index(prev) + 2 != Index(next) + 1
      modifies mem, `head
      ensures head == if prev == NULL && next != NULL then next else old(head)
      ensures prev != NULL && Inside(old(mem[..]), prev) ==> mem[Index(prev) + 2] == next
      ensures next != NULL && Inside(old(mem[..]), next) ==> mem[Index(next) + 1] == prev
      ensures forall j | 0 <= j < mem.Length ::
        mem[j] == old(mem[j]) || (prev != NULL && j == Index(prev) + 2) || (next != NULL && j == Index(next) + 1)
    {
      if prev != NULL {
        WriteLink(prev, 2, next);
      } else if next != NULL {
        head := next;
      }
      if next != NULL {
        WriteLink(next, 1, prev);
      }
    }

    /** The second merge of kfree: the block before b takes in the words of b. */
    method MergeLeft(b: nat) returns (l: nat)
      requires MergeableLeft(mem[..], b)
      modifies mem, `head
      ensures l == b - old(mem[b - 1])
      ensures LeftMerged(old(mem[..]), mem[..], old(head), head, l, b)
    {
      var size := mem[b];
      var prev, next := mem[b + 1], mem[b + 2];
      UnlinkBeforeMerge(prev, next);
      l := b - mem[b - 1];
      AbsorbInto(l, b, size);
    }

    /** Block l takes in the words of block b behind it. */
    method AbsorbInto(l: nat, b: nat, size: Word)
      requires l < b - 1 && b < mem.Length - 2 && mem[l] == b - l && mem[l] < ALLOCATED_BIT
      requires size < ALLOCATED_BIT && Wrapped(b + size - 1) >= b + 3
      modifies mem
      ensures var footer := Wrapped(b + size - 1);
        && mem[l] == old(mem[l]) + size && mem[b] == 0 && (footer < mem.Length ==> mem[footer] == mem[l])
        && forall j | 0 <= j < mem.Length ::
          mem[j] == old(mem[j]) || j == l || b - 1 <= j <= b + 2 || j == footer
    {
      WipeSeam(b);
      mem[l] := mem[l] + size;
      WriteFooter(l + mem[l] - 1, mem[l]);
    }

    /** The end of kfree for a block that no merge has put on the list: it goes to the front. */
    method PushFront(b: nat)
      requires b < MAX_HEAP_WORDS <= mem.Length - 3
      requires head != NULL ==> 0 <= Index(head) < mem.Length - 2 && (Index(head) < b || b + 2 <= Index(head))
      modifies mem, `head
      ensures Pushed(old(Mem()), Mem(), b)
    {
      mem[b + 1] := NULL;
      mem[b + 2] := head;
      if mem[b + 2] != NULL {
        mem[Index(mem[b + 2]) + 1] := Ptr(b);
      }
      head := Ptr(b);
    }

    /**
     kfree, for NULL or the payload of a block in use. If that block is the heap's last, kfree takes the word
     behind the heap for the tag of a next block. If its allocated bit is clear, that is a false tag; then the
     words behind it are taken for links, and must not lead into the heap's range.
     */
    method KFree(p: Word)
      requires Valid()
      requires p != NULL ==> exists b :: IsLive(heap.blocks, b) && p == PayloadPtr(b)
      requires p != NULL ==> TagReadable(mem[..], heap, Index(p) - 3)
      modifies this, mem
      ensures pages == old(pages) && lastFree == old(lastFree)
      ensures p == NULL ==> Valid() && State() == old(State())
      ensures p != NULL ==> Freed(old(State()), Index(p) - 3, State())
      ensures p != NULL && FreesSafely(old(mem[..]), old(heap), Index(p) - 3) ==> Valid()
    {
      if p == NULL {
        return;
      }
      ghost var s := State();
      var b := Index(p) - 3;
      FreeBlock(b);
      heap := Release(heap, b);
      ReleaseOutcome(s, b, State());
    }

    /** The writes of kfree for block b. */
    method FreeBlock(b: nat)
      requires Valid() && IsLive(heap.blocks, b) && TagReadable(mem[..], heap, b)
      modifies mem, `head
      ensures Frees(old(Mem()), b, Mem())
    {
      ghost var s := Mem();
      UnmarkBlock(b);
      ghost var s1 := Mem();
      var inFreelist := CoalesceRight(b, heap, s);
      ghost var s2 := Mem();
      CoalesceLeft(b, heap, inFreelist, s, s1);
      assert FreesBy(s, s1, s2, b, Mem());
    }

    /** Block b, whose links are null, is not in use any more. */
    method UnmarkBlock(b: nat)
      requires Valid() && IsLive(heap.blocks, b)
      modifies mem
      ensures Unmarked(old(Mem()), Mem(), b)
    {
      assert Tagged(mem[..], heap.blocks, b) && Followed(heap.end, heap.blocks, b);
      assert mem[b + 1] == NULL && mem[b + 2] == NULL;
      ClearTags(b);
    }

    /** The first half: the block behind, or what is taken for one. Then b is not linked to itself. */
    method CoalesceRight(b: nat, ghost h: Heap, ghost s: Memory) returns (inFreelist: bool)
      requires mem.Length == MAX_HEAP_WORDS + GUARD_WORDS
      requires Freeing(s, Mem(), h, b)
      modifies mem, `head
      ensures RightStep(old(Mem()), Mem(), b) && inFreelist == FreeBehind(old(Mem()), b)
    {
      inFreelist := false;
      ghost var s1 := Mem();
      RightReadable(s, s1, h, b);
      if !GetAllocatedBit(mem[b + mem[b]]) {
        MergeRight(b);
        NotSelfLinkedRight(s, s1, Mem(), h, b);
        assert mem[b + 1] != Ptr(b) && mem[b + 2] != Ptr(b);
        inFreelist := true;
      }
    }

    /** The second half: the block before, or else the front of the list. Again no block is linked to itself. */
    method CoalesceLeft(b: nat, ghost h: Heap, inFreelist: bool, ghost s: Memory, ghost s1: Memory)
      requires mem.Length == MAX_HEAP_WORDS + GUARD_WORDS
      requires Freeing(s, s1, h, b) && RightStep(s1, Mem(), b) && inFreelist == FreeBehind(s1, b)
      modifies mem, `head
      ensures LeftStep(old(Mem()), Mem(), b, inFreelist)
    {
      ghost var s2 := Mem();
      LeftReadable(s, s1, s2, h, b);
      if b > 0 && !GetAllocatedBit(mem[b - 1]) {
        var l := MergeLeft(b);
        assert LeftStep(s2, Mem(), b, inFreelist);
        NotSelfLinkedLeft(s, s1, s2, Mem(), h, b, l);
        assert mem[l + 1] != Ptr(l) && mem[l + 2] != Ptr(l);
      } else if !inFreelist {
        assert mem[b + 1] == NULL && mem[b + 2] == NULL;
        PushFront(b);
        assert mem[b + 1] != Ptr(b);
      }
    }

    /** zeroed_out_kmalloc: as kmalloc, and every word of the payload that was asked for is zero. */
    method ZeroedOutKMalloc(size: Word, frames: nat) returns (p: Word, left: nat)
      requires Valid()
      modifies this, mem
      ensures Valid()
      ensures Requested(old(State()), size, frames, State(), p, left)
      ensures p != NULL ==> 0 <= Index(p) <= Index(p) + BytesToWords(size) <= mem.Length
      ensures p != NULL ==> forall i | Index(p) <= i < Index(p) + BytesToWords(size) :: mem[i] == 0
    {
      p, left := KMalloc(size, frames);
      if p != NULL {
        var first, words := Index(p), BytesToWords(size);
        ghost var b := Malloc(old(heap), Need(size), frames).1.value;
        MallocRefines(old(heap), Need(size), frames);
        PayloadsDisjoint(heap, b, b);
        for i := 0 to words
          invariant Valid() && Payload(b) + words < heap.end
          invariant b in Live(heap) && words <= Live(heap)[b]
          invariant Requested(old(State()), size, frames, State(), p, left)
          invariant forall k | first <= k < first + i :: mem[k] == 0
        {
          ghost var s := State();
          mem[first + i] := 0;
          RequestedThenWritten(old(State()), size, frames, s, p, left, b, i, 0);
          assert mem[..] == s.memory.words[Payload(b) + i := 0];
        }
      }
    }

    /** kcalloc: the byte count is a 32-bit product. */
    method KCalloc(num: Word, size: Word, frames: nat) returns (p: Word, left: nat)
      requires Valid()
      modifies this, mem
      ensures Valid()
      ensures Requested(old(State()), CallocBytes(num, size), frames, State(), p, left)
      ensures p != NULL ==> 0 <= Index(p) <= Index(p) + BytesToWords(CallocBytes(num, size)) <= mem.Length
      ensures p != NULL ==> forall i | Index(p) <= i < Index(p) + BytesToWords(CallocBytes(num, size)) :: mem[i] == 0
    {
      p, left := ZeroedOutKMalloc(CallocBytes(num, size), frames);
    }

    /**
     krealloc, for a new size that is no larger. It is right in every case but one: when there is a free
     block behind the block that shrinks, and that is not the only free block, no heap is left. It also
     writes through the null pointer, outside the heap, if it cuts words off while the free list is empty.
     */
    method KRealloc(p: Word, newSize: Word) returns (r: Word, strayed: bool)
      requires Valid() && exists b :: IsLive(heap.blocks, b) && p == PayloadPtr(b)
      requires Need(newSize) <= heap.blocks[Index(p) - 3].size
      modifies this, mem
      ensures r == p && pages == old(pages) && lastFree == old(lastFree)
      ensures Shrunk(old(State()), Index(p) - 3, Need(newSize), State())
      ensures ShrinksSafely(old(heap), Index(p) - 3, Need(newSize)) ==> Valid()
      ensures strayed <==> CutsOff(old(heap), Index(p) - 3, Need(newSize)) && old(head) == NULL
    {
      strayed := ShrinkLive(Index(p) - 3, newSize);
      r := p;
    }

    method ShrinkLive(b: nat, newSize: Word) returns (strayed: bool)
      requires Valid() && IsLive(heap.blocks, b) && Need(newSize) <= heap.blocks[b].size
      modifies this, mem
      ensures pages == old(pages) && lastFree == old(lastFree)
      ensures Shrunk(old(State()), b, Need(newSize), State())
      ensures ShrinksSafely(old(heap), b, Need(newSize)) ==> Valid()
      ensures strayed <==> CutsOff(old(heap), b, Need(newSize)) && old(head) == NULL
    {
      ghost var s, n := State(), Need(newSize);
      strayed := ShrinkBlock(b, newSize);
      heap := Shrink(heap, b, n);
      ShrinkMade(s, b, n, State());
    }

    /** The writes of krealloc for block b. */
    method ShrinkBlock(b: nat, newSize: Word) returns (strayed: bool)
      requires Valid() && IsLive(heap.blocks, b) && Need(newSize) <= heap.blocks[b].size
      modifies mem, `head
      ensures Shrinks(old(Mem()), b, Need(newSize), Mem())
      ensures strayed <==> CutsOff(heap, b, Need(newSize)) && old(head) == NULL
    {
      FreeAfterIs(Mem(), heap, b);
      var words := BytesToWords(newSize);
      if words + 4 == GetSize(mem[b]) {
        return false;
      }
      strayed := false;
      var difference := GetSize(mem[b]) - words - 4;
      assert heap.blocks[b].size - difference == Need(newSize);
      if difference > 2 * MIN_BLOCK_SIZE {
        strayed := GiveWordsBack(b, difference);
      }
    }

    /** The last words of block b go to the block behind it, if that is free, or become a block of their own. */
    method GiveWordsBack(b: nat, difference: nat) returns (strayed: bool)
      requires Valid() && IsLive(heap.blocks, b) && BOOKKEEPING_WORDS <= heap.blocks[b].size - difference
      requires 2 * MIN_BLOCK_SIZE < difference
      modifies mem, `head
      ensures Shrinks(old(Mem()), b, heap.blocks[b].size - difference, Mem())
      ensures strayed <==> !IsFree(heap.blocks, End(heap.blocks, b)) && old(head) == NULL
    {
      FreeAfterIs(Mem(), heap, b);
      var next := b + GetSize(mem[b]);
      strayed := false;
      if next < Index(lastFree) && !GetAllocatedBit(mem[next]) {
        FeedForward(b, difference);
      } else {
        strayed := CutAndPush(b, difference);
      }
    }

    /** The shrink beside a block in use, or at the heap's end: the words given back go to the front of the list. */
    method CutAndPush(b: nat, difference: nat) returns (strayed: bool)
      requires Valid() && IsLive(heap.blocks, b) && BOOKKEEPING_WORDS <= heap.blocks[b].size - difference
      requires 2 * MIN_BLOCK_SIZE < difference && !IsFree(heap.blocks, End(heap.blocks, b))
      modifies mem, `head
      ensures strayed == (old(head) == NULL)
      ensures var n := heap.blocks[b].size - difference;
        CutsAndPushes(old(Mem()), b, n, Mem())
    {
      ghost var s := Mem();
      ghost var n := heap.blocks[b].size - difference;
      FreeAfterIs(s, heap, b);
      var rest := CutTags(b, difference);
      CutInTwoRight(s, Mem(), heap, b, n);
      ghost var s1 := Mem();
      ghost var cut := heap.(blocks := Cut(heap.blocks, b, n, true, false));
      assert Tagged(s1.words, cut.blocks, rest) && Followed(cut.end, cut.blocks, rest);
      HeadElsewhere(s1, cut, rest);
      strayed := PushRest(rest);
      assert CutAndPushed(s, s1, b, n, Mem());
    }

    /** Block b is cut in two: the tags of both parts. */
    method CutTags(b: nat, difference: nat) returns (rest: nat)
      requires b < mem.Length && GetAllocatedBit(mem[b]) && b + GetSize(mem[b]) <= mem.Length
      requires 2 * MIN_BLOCK_SIZE < difference <= GetSize(mem[b]) - BOOKKEEPING_WORDS
      modifies mem
      ensures var n := old(GetSize(mem[b])) - difference; rest == b + n && CutInTwo(old(Mem()), Mem(), b, n)
    {
      mem[b] := mem[b] - difference;
      mem[b + GetSize(mem[b]) - 1] := mem[b];
      rest := b + GetSize(mem[b]);
      mem[rest] := difference;
      mem[rest + difference - 1] := difference;
    }

    /** As PushFront, but without asking whether the list holds a block; if it does not, a write goes astray. */
    method PushRest(b: nat) returns (strayed: bool)
      requires b < MAX_HEAP_WORDS <= mem.Length - 3
      requires head != NULL ==> 0 <= Index(head) < mem.Length - 2 && (Index(head) < b || b + 2 <= Index(head))
      modifies mem, `head
      ensures Pushed(old(Mem()), Mem(), b) && strayed == (old(head) == NULL)
    {
      mem[b + 1] := NULL;
      mem[b + 2] := head;
      strayed := head == NULL;
      if !strayed {
        mem[Index(head) + 1] := Ptr(b);
      }
      head := Ptr(b);
    }

    /** The tags of an allocated block that gives up its last words. */
    method ShortenTags(b: nat, difference: nat)
      requires b < mem.Length && GetAllocatedBit(mem[b]) && b + GetSize(mem[b]) <= mem.Length
      requires BOOKKEEPING_WORDS < difference <= GetSize(mem[b]) - BOOKKEEPING_WORDS
      modifies mem
      ensures mem[b] == old(mem[b]) - difference == mem[b + GetSize(mem[b]) - 1]
      ensures forall j | 0 <= j < mem.Length ::
        || mem[j] == old(mem[j]) || j == b || j == b + GetSize(mem[b]) - 1
        || j == b + GetSize(mem[b]) + difference - 1
    {
      mem[b + GetSize(mem[b]) - 1] := 0;
      mem[b] := mem[b] - difference;
      // The source indexes with the whole tag; bit 31 is lost when the index becomes a byte offset.
      mem[b + GetSize(mem[b]) - 1] := mem[b];
    }

    /** The header of the free block at from becomes that of the longer free block at to, which ends where it ends. */
    method MoveHeader(from: nat, to: nat)
      requires to + 2 < from && from + 2 < mem.Length && !GetAllocatedBit(mem[from])
      requires from + 2 < to + mem[from] - 1 < mem.Length
      modifies mem
      ensures mem[to] == mem[to + old(mem[from]) - 1] == old(mem[from])
      ensures mem[to + 1] == old(mem[from + 1]) && mem[to + 2] == old(mem[from + 2])
      ensures forall j | 0 <= j < mem.Length ::
        mem[j] == old(mem[j]) || to <= j <= to + 2 || j == from || j == to + mem[to] - 1
    {
      mem[to] := mem[from];
      mem[to + 1] := mem[from + 1];
      mem[to + 2] := mem[from + 2];
      mem[to + mem[to] - 1] := mem[to];
      mem[from] := 0;
    }

    /** The writes of the shrink beside a free block. */
    method FeedForwardWords(b: nat, difference: nat)
      requires b + 2 < MAX_HEAP_WORDS <= mem.Length && GetAllocatedBit(mem[b])
      requires mem[b + 1] == NULL && mem[b + 2] == NULL
      requires 2 * MIN_BLOCK_SIZE < difference <= GetSize(mem[b]) - BOOKKEEPING_WORDS
      requires var next := b + GetSize(mem[b]);
        next < MAX_HEAP_WORDS && next + 2 < next + mem[next] - 1 < MAX_HEAP_WORDS
      modifies mem, `head
      ensures FedForward(old(mem[..]), mem[..], head, b, old(GetSize(mem[b])) - difference)
    {
      var next := b + GetSize(mem[b]);
      var split := next - difference;
      mem[next] := mem[next] + difference;
      ShortenTags(b, difference);
      MoveHeader(next, split);
      Relink(mem[b + 1], mem[b + 2], Ptr(split), Ptr(split));
    }

    /** The shrink beside a free block. The links of an allocated block are null, so only the head is redirected. */
    method FeedForward(b: nat, difference: nat)
      requires Valid() && IsLive(heap.blocks, b) && BOOKKEEPING_WORDS <= heap.blocks[b].size - difference
      requires 2 * MIN_BLOCK_SIZE < difference && IsFree(heap.blocks, End(heap.blocks, b))
      modifies mem, `head
      ensures FedForward(old(mem[..]), mem[..], head, b, heap.blocks[b].size - difference)
    {
      ghost var after := End(heap.blocks, b);
      FreeAfterIs(Mem(), heap, b);
      assert Tagged(mem[..], heap.blocks, b) && Tagged(mem[..], heap.blocks, after);
      assert Followed(heap.end, heap.blocks, after);
      FeedForwardWords(b, difference);
    }
  }
}
