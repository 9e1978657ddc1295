/** The copying and filling functions of kernel/libk/kstring.c, on one flat memory. */
module ByteMemory {

  type Byte = b: int | 0 <= b < 256

  /** The memory once num bytes from src on have been moved to dest. */
  function Moved(m: seq<Byte>, dest: nat, src: nat, num: nat): (m': seq<Byte>)
    requires dest + num <= |m| && src + num <= |m|
    ensures |m'| == |m|
  {
    m[..dest] + m[src..src + num] + m[dest + num..]
  }

  /** kmemmove: the ranges may overlap in any way. */
  method KMemMove(mem: array<Byte>, dest: nat, src: nat, num: nat)
    requires dest + num <= mem.Length && src + num <= mem.Length
    modifies mem
    ensures mem[..] == Moved(old(mem[..]), dest, src, num)
    ensures forall j :: dest <= j < dest + num ==> mem[j] == old(mem[src + (j - dest)])
    ensures forall j :: 0 <= j < mem.Length && !(dest <= j < dest + num) ==> mem[j] == old(mem[j])
  {
    if dest == src || num == 0 {
      return;
    }
    if dest < src {
      MoveUpwards(mem, dest, src, num);
    } else {
      MoveDownwards(mem, dest, src, num);
    }
  }

  /** The loop that starts with the lowest byte, for a destination before the source. */
  method MoveUpwards(mem: array<Byte>, dest: nat, src: nat, num: nat)
    requires dest + num <= mem.Length && src + num <= mem.Length && dest < src
    modifies mem
    ensures mem[..] == Moved(old(mem[..]), dest, src, num)
  {
    ghost var m := mem[..];
    var d, s, n := dest, src, num;
    while n > 0
      invariant 0 <= n <= num && d + n == dest + num && s + n == src + num
      invariant forall j :: dest <= j < d ==> mem[j] == m[src + (j - dest)]
      invariant forall j :: 0 <= j < mem.Length && !(dest <= j < d) ==> mem[j] == m[j]
    {
      n := n - 1;
      mem[d] := mem[s];
      d, s := d + 1, s + 1;
    }
  }

  /** The loop that starts with the highest byte, for a destination behind the source. */
  method MoveDownwards(mem: array<Byte>, dest: nat, src: nat, num: nat)
    requires dest + num <= mem.Length && src + num <= mem.Length && src < dest
    modifies mem
    ensures mem[..] == Moved(old(mem[..]), dest, src, num)
  {
    ghost var m := mem[..];
    var s, d, n := src + num, dest + num, num;
    while n > 0
      invariant 0 <= n <= num && d == dest + n && s == src + n
      invariant forall j :: d <= j < dest + num ==> mem[j] == m[src + (j - dest)]
      invariant forall j :: 0 <= j < mem.Length && !(d <= j < dest + num) ==> mem[j] == m[j]
    {
      n := n - 1;
      s, d := s - 1, d - 1;
      mem[d] := mem[s];
    }
  }

  // ---- copying forward only ----

  /** The memory once the first num bytes have been copied one by one, the lowest first. */
  function Forward(m: seq<Byte>, dest: nat, src: nat, num: nat): (m': seq<Byte>)
    requires dest + num <= |m| && src + num <= |m|
    ensures |m'| == |m|
  {
    if num == 0 then m
    else
      var before := Forward(m, dest, src, num - 1);
      before[dest + num - 1 := before[src + num - 1]]
  }

  /** kmemcpy. */
  method KMemCpy(mem: array<Byte>, dest: nat, src: nat, num: nat)
    requires dest + num <= mem.Length && src + num <= mem.Length
    modifies mem
    ensures mem[..] == Forward(old(mem[..]), dest, src, num)
  {
    ghost var m := mem[..];
    for len := 0 to num
      invariant mem[..] == Forward(m, dest, src, len)
    {
      mem[dest + len] := mem[src + len];
    }
  }

  lemma {:induction false} ForwardAt(m: seq<Byte>, dest: nat, src: nat, num: nat, j: nat)
    requires dest + num <= |m| && src + num <= |m| && j < |m|
    ensures var m' := Forward(m, dest, src, num);
      if dest <= j < dest + num then
        m'[j] == if src < dest <= j - dest + src then m'[j - dest + src] else m[j - dest + src]
      else m'[j] == m[j]
  {
    if num > 0 {
      ForwardAt(m, dest, src, num - 1, j);
      if src + num - 1 < |m| { ForwardAt(m, dest, src, num - 1, src + num - 1); }
    }
  }

  /** The destination starts inside the source range, but not at its start. */
  predicate RunsInto(dest: nat, src: nat, num: nat) {
    src < dest < src + num
  }

  lemma ForwardMoves(m: seq<Byte>, dest: nat, src: nat, num: nat)
    requires dest + num <= |m| && src + num <= |m| && !RunsInto(dest, src, num)
    ensures Forward(m, dest, src, num) == Moved(m, dest, src, num)
  {
    forall j | 0 <= j < |m| ensures Forward(m, dest, src, num)[j] == Moved(m, dest, src, num)[j] {
      ForwardAt(m, dest, src, num, j);
    }
  }

  /** A memory of the given length that is zero but for a one at position at. */
  function OneAt(length: nat, at: nat): seq<Byte> {
    seq(length, i => if i == at then 1 else 0)
  }

  /**
   Copying forward moves the source range, whatever the memory holds, exactly if the destination does not
   start inside that range.
   */
  lemma ForwardIsMoveIff(length: nat, dest: nat, src: nat, num: nat)
    requires dest + num <= length && src + num <= length
    ensures (forall m: seq<Byte> | |m| == length :: Forward(m, dest, src, num) == Moved(m, dest, src, num))
       <==> !RunsInto(dest, src, num)
  {
    if RunsInto(dest, src, num) {
      var m := OneAt(length, src);
      var again := dest + (dest - src);
      ForwardAt(m, dest, src, num, dest);
      ForwardAt(m, dest, src, num, again);
      assert Forward(m, dest, src, num)[again] == 1 && Moved(m, dest, src, num)[again] == 0;
    } else {
      forall m: seq<Byte> | |m| == length ensures Forward(m, dest, src, num) == Moved(m, dest, src, num) {
        ForwardMoves(m, dest, src, num);
      }
    }
  }

  /** kmemset: only the lowest byte of the value counts. */
  method KMemSet(mem: array<Byte>, at: nat, value: nat, num: nat)
    requires at + num <= mem.Length
    modifies mem
    ensures forall j :: 0 <= j < mem.Length ==> mem[j] == if at <= j < at + num then value % 256 else old(mem[j])
  {
    var byte: Byte := value % 256;
    for i := 0 to num
      invariant forall j :: 0 <= j < mem.Length ==> mem[j] == if at <= j < at + i then byte else old(mem[j])
    {
      mem[at + i] := byte;
    }
  }
}
