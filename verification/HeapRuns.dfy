/** Runs of the allocator and its clients, word by word. */
module HeapRuns {
  import opened Collections
  import opened KernelWords
  import opened HeapModel
  import opened HeapWords
  import opened HeapSteps
  import opened HeapContract
  import opened HeapShrink
  import opened HeapEffects
  import opened HeapWrites
  import opened HeapRefinement
  import opened HeapEdge

  /** The memory that the code works on, and the heap that the allocator's steps, without words, lead to. */
  datatype Store = Store(memory: Memory, heap: Heap)

  /** What happens to the heap: a request, a release, a shrink, or a client's write to word k of a payload. */
  datatype Event =
    | Request(bytes: Word, frames: nat)
    | GiveBack(block: nat)
    | Shorten(block: nat, words: nat)
    | Write(block: nat, k: nat, word: Word)

  /** The memory shows the heap. */
  ghost predicate Good(s: Store) {
    Shows(s.memory, s.heap)
  }

  // ---- steps: what the code writes, and what the heap should become ----

  /** What the code, or the client, writes. */
  ghost predicate Writes(s: Memory, e: Event, s': Memory) {
    match e
    case Request(bytes, frames) =>
      if bytes == 0 then s' == s
      else exists p: Word, left: nat :: Mallocs(s, Need(bytes), frames, s', p, left)
    case GiveBack(b) => Frees(s, b, s')
    case Shorten(b, n) => Shrinks(s, b, n, s')
    case Write(b, k, word) =>
      Payload(b) + k < |s.words| && s' == s.(words := s.words[Payload(b) + k := word])
  }

  /** What the heap becomes, by the steps of the model. */
  ghost function Next(h: Heap, e: Event): Heap {
    if !Inv(h) then h
    else
      match e
      case Request(bytes, frames) => if bytes == 0 then h else Malloc(h, Need(bytes), frames).0
      case GiveBack(b) => if IsLive(h.blocks, b) then Release(h, b) else h
      case Shorten(b, n) => if IsLive(h.blocks, b) then Shrink(h, b, n) else h
      case Write(b, k, word) => h
  }

  /**
   What callers must keep to: they give back, shrink and write to what is in use. The last block is given back
   only while the word behind the heap has its allocated bit set; a shrink is one that krealloc gets right, and
   does not find the free list empty when it cuts.
   */
  ghost predicate Permitted(s: Store, e: Event) {
    match e
    case Request(bytes, frames) => true
    case GiveBack(b) => IsLive(s.heap.blocks, b) && NextTagUsable(s.memory.words, s.heap, b)
    case Shorten(b, n) =>
      && IsLive(s.heap.blocks, b) && BOOKKEEPING_WORDS <= n <= s.heap.blocks[b].size && ShrinksSafely(s.heap, b, n)
      && (CutsOff(s.heap, b, n) ==> s.memory.head != NULL)
    case Write(b, k, word) => IsLive(s.heap.blocks, b) && k < Live(s.heap)[b]
  }

  ghost predicate Step(s: Store, e: Event, s': Store) {
    Permitted(s, e) && Writes(s.memory, e, s'.memory) && s'.heap == Next(s.heap, e)
  }

  ghost predicate IsRun(states: seq<Store>, events: seq<Event>) {
    && |states| == |events| + 1
    && Good(states[0])
    && forall t {:trigger StepAt(states, events, t)} :: StepAt(states, events, t)
  }

  ghost predicate StepAt(states: seq<Store>, events: seq<Event>, t: nat) {
    t < |events| && t + 1 < |states| ==> Step(states[t], events[t], states[t + 1])
  }

  // ---- what callers see ----

  /** A request, as its caller sees it: p is the address returned, and left the pages left. */
  ghost predicate Requested(s: Store, bytes: Word, frames: nat, s': Store, p: Word, left: nat)
    requires Good(s)
  {
    if bytes == 0 then
      p == NULL && left == frames && s' == s
    else
      && RightRequest(s.memory, s.heap, Need(bytes), frames, s'.memory, p, left)
      && s'.heap == Malloc(s.heap, Need(bytes), frames).0
  }

  /** The same in numbers: four words of bookkeeping, three before the payload, addresses from 0xC003_0000 on. */
  ghost predicate Answered(h: Heap, bytes: Word, frames: nat, h': Heap, p: Word, left: nat) {
    if bytes == 0 then
      p == 0 && left == frames && h' == h
    else if p == 0 then
      RequestEffect(h, (bytes + 3) / 4 + 4, frames, h', None, left)
    else
      && p >= 0xC003_000C && p % 4 == 0
      && RequestEffect(h, (bytes + 3) / 4 + 4, frames, h', Some((p - 0xC003_000C) / 4), left)
  }

  lemma NeedInNumbers(bytes: Word)
    ensures Need(bytes) == (bytes + 3) / 4 + 4
  {
  }

  lemma PayloadInNumbers(b: nat)
    ensures PayloadPtr(b) == 0xC003_000C + 4 * b && (PayloadPtr(b) - 0xC003_000C) / 4 == b && PayloadPtr(b) % 4 == 0
  {
  }

  lemma AnsweredByMalloc(h: Heap, bytes: Word, frames: nat, h': Heap, served: Option<nat>, p: Word, left: nat)
    requires bytes > 0 && RequestEffect(h, Need(bytes), frames, h', served, left)
    requires p == if served.Some? then PayloadPtr(served.value) else NULL
    ensures Answered(h, bytes, frames, h', p, left)
  {
    NeedInNumbers(bytes);
    if served.Some? {
      PayloadInNumbers(served.value);
      assert served == Some((p - 0xC003_000C) / 4);
    }
  }

  lemma RequestedInNumbers(s: Store, bytes: Word, frames: nat, s': Store, p: Word, left: nat)
    requires Good(s) && Requested(s, bytes, frames, s', p, left)
    ensures Answered(s.heap, bytes, frames, s'.heap, p, left)
  {
    if bytes > 0 {
      RequestMeans(s.heap, Need(bytes), frames);
      AnsweredByMalloc(s.heap, bytes, frames, s'.heap, Malloc(s.heap, Need(bytes), frames).1, p, left);
    }
  }

  /** kfree, as its callers see it. */
  ghost predicate GivenBack(s: Store, b: nat, s': Store)
    requires Good(s)
  {
    && Good(s') && IsLive(s.heap.blocks, b) && s'.heap == Release(s.heap, b)
    && OthersUntouched(s.memory.words, s'.memory.words, s.heap.blocks, b)
    && SameBehind(s.memory.words, s'.memory.words, s.heap.end)
  }

  /** krealloc, as its callers see it when it is given a size that is no larger, and where it is right. */
  ghost predicate Shortened(s: Store, b: nat, n: nat, s': Store)
    requires Good(s)
  {
    && Good(s') && IsLive(s.heap.blocks, b) && s'.heap == Shrink(s.heap, b, n)
    && (!WorthCutting(s.heap, b, n) ==> s' == s)
    && OthersUntouched(s.memory.words, s'.memory.words, s.heap.blocks, b)
    && PrefixKept(s.memory.words, s'.memory.words, b, n)
  }

  /** Writes to payloads never disturb the allocator. */
  lemma WrittenRight(s: Memory, h: Heap, b: nat, k: nat, word: Word)
    requires Shows(s, h) && IsLive(h.blocks, b) && k < Live(h)[b] && Payload(b) + k < |s.words|
    ensures var s' := s.(words := s.words[Payload(b) + k := word]);
      Shows(s', h) && OthersUntouched(s.words, s'.words, h.blocks, b) && SameBehind(s.words, s'.words, h.end)
  {
    var s' := s.(words := s.words[Payload(b) + k := word]);
    assert Tagged(s.words, h.blocks, b) && Followed(h.end, h.blocks, b);
    forall x
      ensures Tagged(s'.words, h.blocks, x)
      ensures IsLive(h.blocks, x) && x != b ==> Untouched(s.words, s'.words, h.blocks, x)
    {
      assert Tagged(s.words, h.blocks, x) && Apart(h.blocks, x, b) && Apart(h.blocks, b, x);
    }
    forall i: nat ensures LinkedAt(s'.words, h.free, i) {
      assert LinkedAt(s.words, h.free, i);
      if i < |h.free| {
        var f := h.free[i];
        assert f in h.free;
        assert Followed(h.end, h.blocks, f) && Apart(h.blocks, f, b) && Apart(h.blocks, b, f);
      }
    }
  }

  // ---- calls that have made the writes of a step ----

  lemma RequestMade(s: Store, bytes: Word, frames: nat, s': Store, p: Word, left: nat)
    requires Good(s) && bytes > 0 && Mallocs(s.memory, Need(bytes), frames, s'.memory, p, left)
    requires s'.heap == Malloc(s.heap, Need(bytes), frames).0
    ensures Good(s') && Step(s, Request(bytes, frames), s') && Requested(s, bytes, frames, s', p, left)
  {
    MallocsRight(s.memory, s.heap, Need(bytes), frames, s'.memory, p, left);
  }

  /** Whatever kfree writes, merges and list surgery included, is the model's release. */
  lemma ReleaseMade(s: Store, b: nat, s': Store)
    requires Good(s) && IsLive(s.heap.blocks, b) && NextTagUsable(s.memory.words, s.heap, b)
    requires Frees(s.memory, b, s'.memory) && s'.heap == Release(s.heap, b)
    ensures Good(s') && Step(s, GiveBack(b), s') && GivenBack(s, b, s')
  {
    var m, h := s.memory, s.heap;
    var m1, m2 :| FreesBy(m, m1, m2, b, s'.memory);
    UnmarkedRight(m, m1, h, b);
    BothStepsRight(m1, m2, s'.memory, h, b);
    ReleaseInv(h, b);
    OthersUntouchedTwice(m.words, m1.words, s'.memory.words, h.blocks, b);
  }

  /**
   kfree, in front of whatever word it can read: its writes, which leave the other blocks in use alone, make the
   release where the word behind the heap lets them, and leave no heap where it does not.
   */
  ghost predicate Freed(s: Store, b: nat, s': Store)
    requires Good(s) && IsLive(s.heap.blocks, b) && TagReadable(s.memory.words, s.heap, b)
  {
    && Frees(s.memory, b, s'.memory) && s'.heap == Release(s.heap, b) && ReleaseEffect(s.heap, b, s'.heap)
    && OthersUntouched(s.memory.words, s'.memory.words, s.heap.blocks, b)
    && (if FreesSafely(s.memory.words, s.heap, b) then Good(s')
        else !IsHeap(s'.memory.words, s'.memory.head, s.heap.end))
    && (NextTagUsable(s.memory.words, s.heap, b) ==> Step(s, GiveBack(b), s') && GivenBack(s, b, s'))
  }

  lemma ReleaseOutcome(s: Store, b: nat, s': Store)
    requires Good(s) && IsLive(s.heap.blocks, b) && TagReadable(s.memory.words, s.heap, b)
    requires Frees(s.memory, b, s'.memory) && s'.heap == Release(s.heap, b)
    ensures Freed(s, b, s')
  {
    ReleaseMeans(s.heap, b);
    if NextTagUsable(s.memory.words, s.heap, b) {
      ReleaseMade(s, b, s');
    } else {
      FreesAtFalseTag(s.memory, s'.memory, s.heap, b);
    }
  }

  /**
   In front of two words that make null links, freeing the last block leaves a heap, which is the release, if and
   only if the word before them has its allocated bit set, or is zero and the list was empty. (A word so large that
   the footer computed from it comes round into the heap is not considered.)
   */
  lemma LastFreedBeforeNulls(s: Store, b: nat, s': Store)
    requires Good(s) && IsLive(s.heap.blocks, b) && End(s.heap.blocks, b) == s.heap.end
    requires Frees(s.memory, b, s'.memory) && s'.heap == Release(s.heap, b)
    requires var (m, end) := (s.memory.words, s.heap.end);
      end + 2 < |m| && m[end + 1] == m[end + 2] == NULL && TagReadable(m, s.heap, b)
    ensures var tag := s.memory.words[s.heap.end];
      && IsHeap(s'.memory.words, s'.memory.head, s.heap.end) <==>
        GetAllocatedBit(tag) || (tag == 0 && s.heap.free == [])
    ensures IsHeap(s'.memory.words, s'.memory.head, s.heap.end) ==> Good(s')
  {
    var m := s.memory.words;
    assert FreesSafely(m, s.heap, b) <==> GetAllocatedBit(m[s.heap.end]) || (m[s.heap.end] == 0 && s.heap.free == []);
    ReleaseOutcome(s, b, s');
    ReleaseInv(s.heap, b);
  }

  /**
   krealloc, when it is given a size that is no larger: where it is not right, no heap is left; and a shrink that is
   not worth cutting writes nothing.
   */
  ghost predicate Shrunk(s: Store, b: nat, n: nat, s': Store)
    requires Good(s) && IsLive(s.heap.blocks, b) && BOOKKEEPING_WORDS <= n <= s.heap.blocks[b].size
  {
    && Shrinks(s.memory, b, n, s'.memory) && s'.heap == Shrink(s.heap, b, n) && ShrinkEffect(s.heap, b, n, s'.heap)
    && (if ShrinksSafely(s.heap, b, n) then Shortened(s, b, n, s')
        else forall g :: !Represents(s'.memory.words, s'.memory.head, g))
    && (!WorthCutting(s.heap, b, n) ==> s' == s)
    && (Permitted(s, Shorten(b, n)) ==> Step(s, Shorten(b, n), s'))
  }

  lemma ShrinkMade(s: Store, b: nat, n: nat, s': Store)
    requires Good(s) && IsLive(s.heap.blocks, b) && BOOKKEEPING_WORDS <= n <= s.heap.blocks[b].size
    requires Shrinks(s.memory, b, n, s'.memory) && s'.heap == Shrink(s.heap, b, n)
    ensures Shrunk(s, b, n, s')
  {
    ShrinkMeans(s.heap, b, n);
    if ShrinksSafely(s.heap, b, n) {
      ShrinksRight(s.memory, s'.memory, s.heap, b, n);
    } else {
      forall g ensures !Represents(s'.memory.words, s'.memory.head, g) {
        ShrinksWrong(s.memory, s'.memory, s.heap, b, n, g);
      }
    }
  }

  /** The code's writes, under those guards, keep the memory in step with the heap. */
  lemma StepIsGood(s: Store, e: Event, s': Store)
    requires Good(s) && Step(s, e, s')
    ensures Good(s') && SameBehind(s.memory.words, s'.memory.words, s'.memory.end)
    ensures s.memory.end <= s'.memory.end
  {
    match e
    case Request(bytes, frames) =>
      if bytes > 0 {
        var p: Word, left: nat :| Mallocs(s.memory, Need(bytes), frames, s'.memory, p, left);
        MallocsRight(s.memory, s.heap, Need(bytes), frames, s'.memory, p, left);
        MallocGrowsOnly(s.heap, Need(bytes), frames);
      }
    case GiveBack(b) => ReleaseMade(s, b, s');
    case Shorten(b, n) => ShrinksRight(s.memory, s'.memory, s.heap, b, n);
    case Write(b, k, word) => WrittenRight(s.memory, s.heap, b, k, word);
  }

  /**
   In every state of every run the memory shows the heap that the model's steps lead to: its blocks tile it,
   header and footer agree, the list is acyclic, doubly linked and holds exactly the free blocks, and no two
   free blocks touch.
   */
  lemma {:induction false} RunIsGood(states: seq<Store>, events: seq<Event>, t: nat)
    requires IsRun(states, events) && t < |states|
    ensures Good(states[t])
  {
    if t > 0 {
      RunIsGood(states, events, t - 1);
      assert StepAt(states, events, t - 1);
      StepIsGood(states[t - 1], events[t - 1], states[t]);
    }
  }

  /** Nothing behind the heap is ever written, so a guard word set there stays until the heap grows over it. */
  lemma {:induction false} NothingBehindChanges(states: seq<Store>, events: seq<Event>, t: nat, u: nat, j: nat)
    requires IsRun(states, events) && t <= u < |states|
    requires states[u].memory.end <= j < |states[t].memory.words|
    ensures |states[u].memory.words| == |states[t].memory.words|
    ensures states[u].memory.words[j] == states[t].memory.words[j]
    decreases u
  {
    if t < u {
      RunIsGood(states, events, u - 1);
      assert StepAt(states, events, u - 1);
      StepIsGood(states[u - 1], events[u - 1], states[u]);
      NothingBehindChanges(states, events, t, u - 1, j);
    }
  }

  /**
   Whenever in a run nothing is in use any more, the memory shows one free block as long as the heap; so no word is
   lost, and the next request is served from the start of the heap, if that is long enough.
   */
  lemma RunGivesAllBack(states: seq<Store>, events: seq<Event>, t: nat)
    requires IsRun(states, events) && t < |states| && Live(states[t].heap) == map[]
    ensures var (h, s) := (states[t].heap, states[t].memory);
      && h == Heap(s.end, map[0 := Block(s.end, false)], [0]) && Shows(s, h)
      && s.head == HEAP_START_ADDR
      && forall need: nat, frames: nat :: BOOKKEEPING_WORDS <= need <= s.end ==>
        Malloc(h, need, frames).1 == Some(0) && Malloc(h, need, frames).2 == frames
  {
    RunIsGood(states, events, t);
    AllGivenBack(states[t].heap);
    ListPosition(states[t].memory.words, states[t].memory.head, states[t].heap, 0);
  }

  /** Event e leaves word k of block b in use, and does not write it. */
  ghost predicate Spares(s: Store, e: Event, b: nat, k: nat) {
    && (e.GiveBack? ==> e.block != b)
    && (e.Shorten? ==> e.block != b || k + BOOKKEEPING_WORDS < e.words || !WorthCutting(s.heap, b, e.words))
    && (e.Write? ==> e.block != b || e.k != k)
  }

  lemma UntouchedPayload(m: seq<Word>, m': seq<Word>, h: Heap, b: nat, k: nat)
    requires Inv(h) && AllTagged(m, h.blocks) && b in Live(h) && k < Live(h)[b] && |m'| == |m|
    requires Untouched(m, m', h.blocks, b)
    ensures Payload(b) + k < |m| && m'[Payload(b) + k] == m[Payload(b) + k]
  {
    assert Tagged(m, h.blocks, b);
    assert m'[b..End(h.blocks, b)][3 + k] == m[b..End(h.blocks, b)][3 + k];
  }

  /** Word k of the payload of block b is in use, before and after, and the same. */
  ghost predicate WordKept(s: Store, s': Store, b: nat, k: nat) {
    && b in Live(s'.heap) && k < Live(s'.heap)[b]
    && Payload(b) + k < |s.memory.words| == |s'.memory.words|
    && s'.memory.words[Payload(b) + k] == s.memory.words[Payload(b) + k]
  }

  lemma RequestSpares(s: Store, bytes: Word, frames: nat, s': Store, p: Word, left: nat, b: nat, k: nat)
    requires Good(s) && bytes > 0 && Requested(s, bytes, frames, s', p, left)
    requires b in Live(s.heap) && k < Live(s.heap)[b]
    ensures WordKept(s, s', b, k)
  {
    MallocRefines(s.heap, Need(bytes), frames);
    assert Untouched(s.memory.words, s'.memory.words, s.heap.blocks, b);
    UntouchedPayload(s.memory.words, s'.memory.words, s.heap, b, k);
  }

  lemma GiveBackSpares(s: Store, c: nat, s': Store, b: nat, k: nat)
    requires Good(s) && GivenBack(s, c, s') && c != b && b in Live(s.heap) && k < Live(s.heap)[b]
    ensures WordKept(s, s', b, k)
  {
    ReleaseRefines(s.heap, c);
    assert Untouched(s.memory.words, s'.memory.words, s.heap.blocks, b);
    UntouchedPayload(s.memory.words, s'.memory.words, s.heap, b, k);
  }

  lemma ShortenSparesOthers(s: Store, c: nat, n: nat, s': Store, b: nat, k: nat)
    requires Good(s) && BOOKKEEPING_WORDS <= n && Shortened(s, c, n, s') && b != c
    requires b in Live(s.heap) && k < Live(s.heap)[b]
    ensures WordKept(s, s', b, k)
  {
    ShrinkRefines(s.heap, c, n);
    assert Untouched(s.memory.words, s'.memory.words, s.heap.blocks, b);
    UntouchedPayload(s.memory.words, s'.memory.words, s.heap, b, k);
  }

  lemma ShortenSparesPrefix(s: Store, b: nat, n: nat, s': Store, k: nat)
    requires Good(s) && BOOKKEEPING_WORDS <= n && Shortened(s, b, n, s') && k < Live(s.heap)[b]
    requires k + BOOKKEEPING_WORDS < n || !WorthCutting(s.heap, b, n)
    ensures WordKept(s, s', b, k)
  {
    ShrinkRefines(s.heap, b, n);
    var m, m' := s.memory.words, s'.memory.words;
    assert Tagged(m, s.heap.blocks, b);
    if WorthCutting(s.heap, b, n) {
      assert m'[b + 3..b + n - 1][k] == m[b + 3..b + n - 1][k];
    }
  }

  lemma WriteSpares(s: Store, c: nat, i: nat, word: Word, s': Store, b: nat, k: nat)
    requires Good(s) && Step(s, Write(c, i, word), s') && b in Live(s.heap) && k < Live(s.heap)[b]
    requires c != b || i != k
    ensures WordKept(s, s', b, k)
  {
    assert Tagged(s.memory.words, s.heap.blocks, b);
    PayloadsDisjoint(s.heap, b, c);
    PayloadsDisjoint(s.heap, c, b);
  }

  lemma StepSpares(s: Store, e: Event, s': Store, b: nat, k: nat)
    requires Good(s) && Step(s, e, s') && b in Live(s.heap) && k < Live(s.heap)[b] && Spares(s, e, b, k)
    ensures WordKept(s, s', b, k)
  {
    assert Tagged(s.memory.words, s.heap.blocks, b);
    match e
    case Request(bytes, frames) =>
      if bytes > 0 {
        var p: Word, left: nat :| Mallocs(s.memory, Need(bytes), frames, s'.memory, p, left);
        RequestMade(s, bytes, frames, s', p, left);
        RequestSpares(s, bytes, frames, s', p, left, b, k);
      }
    case GiveBack(c) =>
      ReleaseMade(s, c, s');
      GiveBackSpares(s, c, s', b, k);
    case Shorten(c, n) =>
      ShrinkMade(s, c, n, s');
      if b == c { ShortenSparesPrefix(s, b, n, s', k); } else { ShortenSparesOthers(s, c, n, s', b, k); }
    case Write(c, i, word) => WriteSpares(s, c, i, word, s', b, k);
  }

  /**
   Whatever is requested, given back and written elsewhere, a word of a payload keeps its value from
   when it was last written for as long as its block is in use.
   */
  lemma {:induction false} PayloadSurvives(states: seq<Store>, events: seq<Event>, t: nat, u: nat, b: nat, k: nat)
    requires IsRun(states, events) && t <= u < |states|
    requires b in Live(states[t].heap) && k < Live(states[t].heap)[b]
    requires forall i :: t <= i < u ==> Spares(states[i], events[i], b, k)
    ensures WordKept(states[t], states[u], b, k)
    decreases u
  {
    RunIsGood(states, events, t);
    assert Tagged(states[t].memory.words, states[t].heap.blocks, b);
    if t < u {
      PayloadSurvives(states, events, t, u - 1, b, k);
      RunIsGood(states, events, u - 1);
      assert StepAt(states, events, u - 1);
      StepSpares(states[u - 1], events[u - 1], states[u], b, k);
    }
  }

  /** A write to the block that a request got leaves it the outcome of that request. */
  lemma RequestedThenWritten(s: Store, bytes: Word, frames: nat, s1: Store, p: Word, left: nat,
                             b: nat, k: nat, word: Word)
    requires Good(s) && Requested(s, bytes, frames, s1, p, left) && p == PayloadPtr(b)
    requires IsLive(s1.heap.blocks, b) && k < Live(s1.heap)[b] && Payload(b) + k < |s1.memory.words|
    ensures var m := s1.memory;
      Requested(s, bytes, frames, s1.(memory := m.(words := m.words[Payload(b) + k := word])), p, left)
  {
    var m := s1.memory;
    var m2 := m.(words := m.words[Payload(b) + k := word]);
    WrittenRight(m, s1.heap, b, k, word);
    MallocRefines(s.heap, Need(bytes), frames);
    assert b !in Live(s.heap);
    forall x ensures IsLive(s.heap.blocks, x) ==> Untouched(s.memory.words, m2.words, s.heap.blocks, x) {
      if IsLive(s.heap.blocks, x) {
        assert x in Live(s.heap) && x in Live(s1.heap) && Live(s1.heap)[x] == Live(s.heap)[x];
        assert Untouched(s.memory.words, m.words, s.heap.blocks, x) && Untouched(m.words, m2.words, s1.heap.blocks, x);
      }
    }
  }

  /** The product that kcalloc passes on: num * size, cut to 32 bits. */
  function CallocBytes(num: Word, size: Word): Word {
    num * size % 0x1_0000_0000
  }

  /** A block that kcalloc gets holds num * size bytes exactly when that product fits in 32 bits. */
  lemma CallocFits(h: Heap, num: Word, size: Word, frames: nat)
    requires Inv(h)
    requires Malloc(h, Need(CallocBytes(num, size)), frames).1.Some?
    ensures var (h', served, left) := Malloc(h, Need(CallocBytes(num, size)), frames);
      && served.value in Live(h')
      && (BYTES_IN_WORD * Live(h')[served.value] >= num * size <==> num * size < 0x1_0000_0000)
  {
    var need := Need(CallocBytes(num, size));
    MallocRefines(h, need, frames);
    MallocKeepsInv(h, need, frames);
    var (h', served, left) := Malloc(h, need, frames);
    PayloadsDisjoint(h', served.value, served.value);
  }
}
