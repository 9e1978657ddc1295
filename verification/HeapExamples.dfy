/** Sequences of calls, from the start of the heap on, that lead to where krealloc, kfree and kcalloc fall short. */
module HeapExamples {
  import opened Collections
  import opened KernelWords
  import opened HeapModel
  import opened HeapWords
  import opened HeapContract
  import opened HeapGrowth
  import opened HeapShrink
  import opened HeapEdge
  import opened HeapWrites
  import opened HeapRuns
  import KernelHeap

  // ---- two requests, and the first is given back ----

  function AfterOne(): Heap {
    Heap(1024, map[0 := Block(104, true), 104 := Block(920, false)], [104])
  }

  lemma OneRequest(frames: nat)
    ensures Malloc(Init(), 104, frames) == (AfterOne(), Some(0), frames)
  {
    assert FirstFit(Init(), 104, 0) == Some(0);
    assert Init().free[0 := 104] == [104];
    assert Take(Init(), 0, 104).blocks == AfterOne().blocks;
  }

  /** A second request for 120 words is split off, one for 920 takes all that is left. */
  function AfterTwo(second: nat): Heap
    requires second == 120 || second == 920
  {
    if second == 120 then
      Heap(1024, map[0 := Block(104, true), 104 := Block(120, true), 224 := Block(800, false)], [224])
    else
      Heap(1024, map[0 := Block(104, true), 104 := Block(920, true)], [])
  }

  lemma TwoRequests(second: nat, frames: nat)
    requires second == 120 || second == 920
    ensures Malloc(AfterOne(), second, frames) == (AfterTwo(second), Some(104), frames)
  {
    assert FirstFit(AfterOne(), second, 0) == Some(0);
    assert AfterOne().free[0 := 224] == [224];
    assert RemoveAt(AfterOne().free, 0) == [];
    assert Take(AfterOne(), 0, second).blocks == AfterTwo(second).blocks;
  }

  lemma FirstGivenBack(second: nat)
    requires second == 120 || second == 920
    ensures Inv(AfterTwo(second)) && IsLive(AfterTwo(second).blocks, 0)
    ensures Release(AfterTwo(second), 0) ==
      AfterTwo(second).(blocks := Mark(AfterTwo(second).blocks, 0, false), free := [0] + AfterTwo(second).free)
    ensures Inv(Release(AfterTwo(second), 0))
  {
    InitInv();
    OneRequest(0);
    MallocKeepsInv(Init(), 104, 0);
    TwoRequests(second, 0);
    MallocKeepsInv(AfterOne(), second, 0);
    ReleaseInv(AfterTwo(second), 0);
  }

  /** Then the block at 104 cannot be shrunk safely: there is a free block behind it, and another one before it. */
  lemma UnsafeShrinkReached(frames: nat)
    ensures Inv(Malloc(Init(), 104, frames).0)
    ensures var h := Malloc(Malloc(Init(), 104, frames).0, 120, frames).0;
      && Inv(h) && IsLive(h.blocks, 0) && Inv(Release(h, 0)) && Release(h, 0).free == [0, 224]
      && IsLive(Release(h, 0).blocks, 104) && Need(200) <= Release(h, 0).blocks[104].size
      && !ShrinksSafely(Release(h, 0), 104, Need(200))
  {
    MallocKeepsInv(Init(), 104, frames);
    OneRequest(frames);
    TwoRequests(120, frames);
    FirstGivenBack(120);
  }

  /** Or the block at 104 is the heap's last, and the free list is not empty. */
  lemma ListedLastBlockReached(frames: nat)
    ensures Inv(Malloc(Init(), 104, frames).0)
    ensures var h := Malloc(Malloc(Init(), 104, frames).0, 920, frames).0;
      && Inv(h) && IsLive(h.blocks, 0) && Inv(Release(h, 0)) && Release(h, 0).free == [0]
      && IsLive(Release(h, 0).blocks, 104) && End(Release(h, 0).blocks, 104) == Release(h, 0).end
  {
    MallocKeepsInv(Init(), 104, frames);
    OneRequest(frames);
    TwoRequests(920, frames);
    FirstGivenBack(920);
  }

  // ---- the same on the words ----

  method RequestOne(k: KernelHeap.KernelHeap, frames: nat) returns (p: Word)
    requires k.Valid() && k.heap == Init()
    modifies k, k.mem
    ensures k.Valid() && k.heap == AfterOne() && p == PayloadPtr(0)
    ensures forall j :: 1024 <= j < k.mem.Length ==> k.mem[j] == old(k.mem[j])
  {
    ghost var m := k.mem[..];
    OneRequest(frames);
    var left;
    p, left := k.KMalloc(400, frames);
    assert SameBehind(m, k.mem[..], 1024);
  }

  method RequestTwo(k: KernelHeap.KernelHeap, second: nat, frames: nat) returns (p: Word)
    requires k.Valid() && k.heap == AfterOne() && (second == 120 || second == 920)
    modifies k, k.mem
    ensures k.Valid() && k.heap == AfterTwo(second) && p == PayloadPtr(104)
    ensures forall j :: 1024 <= j < k.mem.Length ==> k.mem[j] == old(k.mem[j])
  {
    ghost var m := k.mem[..];
    TwoRequests(second, frames);
    var bytes: Word := if second == 120 then 464 else 3664;
    var left;
    p, left := k.KMalloc(bytes, frames);
    assert SameBehind(m, k.mem[..], 1024);
  }

  method GiveFirstBack(k: KernelHeap.KernelHeap, ghost second: nat)
    requires (second == 120 || second == 920) && k.Valid() && k.heap == AfterTwo(second)
    modifies k, k.mem
    ensures k.Valid() && IsLive(AfterTwo(second).blocks, 0) && Inv(AfterTwo(second))
    ensures k.heap == Release(AfterTwo(second), 0)
    ensures forall j :: 1024 <= j < k.mem.Length ==> k.mem[j] == old(k.mem[j])
  {
    ghost var s := k.State();
    FirstGivenBack(second);
    k.KFree(Ptr(3));
    StepIsGood(s, GiveBack(0), k.State());
  }

  /** Four calls after which the memory shows no heap any more: the last of them is a shrink. */
  method ShrinkBreaksHeap(frames: nat) returns (k: KernelHeap.KernelHeap)
    ensures fresh(k) && fresh(k.mem) && forall g :: !Represents(k.mem[..], k.head, g)
  {
    k := new KernelHeap.KernelHeap();
    var p := RequestOne(k, frames);
    var q := RequestTwo(k, 120, frames);
    GiveFirstBack(k, 120);
    FirstGivenBack(120);
    var r, strayed := k.KRealloc(q, 200);
  }

  /** Three calls the last of which, a shrink with the free list empty, writes through the null pointer. */
  method ShrinkGoesAstray(frames: nat) returns (k: KernelHeap.KernelHeap, strayed: bool)
    ensures fresh(k) && fresh(k.mem) && strayed
  {
    k := new KernelHeap.KernelHeap();
    var p := RequestOne(k, frames);
    var q := RequestTwo(k, 920, frames);
    FirstGivenBack(920);
    assert CutsOff(k.heap, 0, Need(200)) && k.head == NULL;
    var r;
    r, strayed := k.KRealloc(p, 200);
  }

  /** Behind the first page lies some word, and two zero words. */
  method InFrontOf(tag: Word) returns (k: KernelHeap.KernelHeap)
    ensures fresh(k) && fresh(k.mem) && k.Valid() && k.heap == Init() && Behind(k.mem[..], tag)
  {
    k := new KernelHeap.KernelHeap();
    ghost var m := k.mem[..];
    k.mem[1024], k.mem[1025], k.mem[1026] := tag, 0, 0;
    BehindIrrelevant(m, k.mem[..], k.head, k.heap);
  }

  predicate Behind(m: seq<Word>, tag: Word) {
    |m| == MAX_HEAP_WORDS + GUARD_WORDS && m[1024] == tag && m[1025] == m[1026] == 0
  }

  /** As long as the list is not empty, or the word is not zero, that is a false tag which does harm. */
  lemma DoesHarm(m: seq<Word>, h: Heap, tag: Word)
    requires Behind(m, tag) && tag <= MAX_HEAP_WORDS
    requires h.end == 1024 && 104 in h.blocks && End(h.blocks, 104) == 1024
    requires tag > 0 || h.free != []
    ensures FalseTag(m, h, 104) && !FreesSafely(m, h, 104)
  {
  }

  method FillPage(tag: Word, frames: nat) returns (k: KernelHeap.KernelHeap, q: Word)
    ensures fresh(k) && fresh(k.mem) && k.Valid() && k.heap == AfterTwo(920) && Behind(k.mem[..], tag)
    ensures q == PayloadPtr(104) && IsLive(k.heap.blocks, 104)
  {
    k := InFrontOf(tag);
    var p := RequestOne(k, frames);
    q := RequestTwo(k, 920, frames);
  }

  /** Freeing a block in front of a false tag that does harm. */
  method FreeBlock(k: KernelHeap.KernelHeap, q: Word, ghost b: nat)
    requires k.Valid() && IsLive(k.heap.blocks, b) && q == PayloadPtr(b)
    requires FalseTag(k.mem[..], k.heap, b) && !FreesSafely(k.mem[..], k.heap, b)
    modifies k, k.mem
    ensures !IsHeap(k.mem[..], k.head, old(k.heap.end))
  {
    assert Index(q) - 3 == b && TagReadable(k.mem[..], k.heap, b);
    ghost var s := k.State();
    k.KFree(q);
    assert Freed(s, b, k.State());
  }

  /** Four calls after which the memory shows no heap any more: the last of them frees the last block. */
  method LastFreeBreaksHeap(frames: nat) returns (k: KernelHeap.KernelHeap)
    ensures fresh(k) && fresh(k.mem) && !IsHeap(k.mem[..], k.head, 1024)
  {
    var q;
    k, q := FillPage(0, frames);
    GiveFirstBack(k, 920);
    FirstGivenBack(920);
    DoesHarm(k.mem[..], k.heap, 0);
    FreeBlock(k, q, 104);
  }

  /** If the word behind the heap is not zero, the same takes no more than three calls. */
  method GarbageBreaksHeap(frames: nat) returns (k: KernelHeap.KernelHeap)
    ensures fresh(k) && fresh(k.mem) && !IsHeap(k.mem[..], k.head, 1024)
  {
    var q;
    k, q := FillPage(1, frames);
    DoesHarm(k.mem[..], k.heap, 1);
    FreeBlock(k, q, 104);
  }

  // ---- kcalloc ----

  /** 65537 times 65537 bytes are served with a block for the 131073 that are left of that product. */
  lemma ShortCallocReached(frames: nat)
    requires frames >= 32
    ensures var (h, served, left) := Malloc(Init(), Need(CallocBytes(65537, 65537)), frames);
      served.Some? && served.value in Live(h) && BYTES_IN_WORD * Live(h)[served.value] < 65537 * 65537
  {
    LongRequest(frames);
    CallocFits(Init(), 65537, 65537, frames);
  }

  lemma LongRequest(frames: nat)
    requires frames >= 32
    ensures Inv(Init()) && Malloc(Init(), 32773, frames).1.Some?
  {
    InitInv();
    TrailingPages();
    MallocFails(Init(), 32773, frames);
  }

  /** A block of 32773 words takes 32 pages more than the heap starts with. */
  lemma TrailingPages()
    ensures PagesFor(Trailing(Init()), 32773) == 32
  {
    InitInv();
    FreeBeforeIs(1024, Init().blocks, 0);
  }
}
