/** The 32-bit words the kernel heap is made of: block tags, link words and sizes. */
module KernelWords {

  type Word = w: int | 0 <= w < 0x1_0000_0000

  const BYTES_IN_WORD: nat := 4
  const MIN_BLOCK_SIZE: nat := 8
  const WORDS_IN_PAGE: nat := 1024
  const MAX_KERNEL_HEAP_SIZE: nat := 0x10000  // in pages
  const MAX_HEAP_WORDS: nat := 0x400_0000     // MAX_KERNEL_HEAP_SIZE pages of WORDS_IN_PAGE words
  const HEAP_START_ADDR: nat := 0xC003_0000
  const BOOKKEEPING_WORDS: nat := 4           // header, previous link, next link, footer
  const ALLOCATED_BIT: nat := 0x8000_0000
  const NULL: Word := 0

  /** Bit 31 of a tag. */
  predicate GetAllocatedBit(w: Word) {
    w >= ALLOCATED_BIT
  }

  /** The low 31 bits of a tag (a mask with 0x7fffffff). */
  function GetSize(w: Word): Word {
    if w >= ALLOCATED_BIT then w - ALLOCATED_BIT else w
  }

  /** A tag with bit 31 set (an or with 0x80000000). */
  function SetAllocatedBit(w: Word): Word {
    if w >= ALLOCATED_BIT then w else w + ALLOCATED_BIT
  }

  /** The number of words that hold the given number of bytes. */
  function BytesToWords(bytes: Word): (words: nat)
    ensures words * BYTES_IN_WORD >= bytes
    ensures (words - 1) * BYTES_IN_WORD < bytes || words == 0 == bytes
  {
    bytes / BYTES_IN_WORD + if bytes % BYTES_IN_WORD > 0 then 1 else 0
  }

  /** The byte address of the heap's word i; link words hold such addresses. */
  function Ptr(i: nat): Word
    requires i < MAX_HEAP_WORDS
  {
    HEAP_START_ADDR + BYTES_IN_WORD * i
  }

  /** The heap word a byte address points to. */
  function Index(p: Word): int {
    (p - HEAP_START_ADDR) / BYTES_IN_WORD
  }
}
