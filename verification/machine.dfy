/** Constants and small types every layer of the kernel shares. */
module Machine {

  // Bytes in a physical frame, and in a virtual page (kernel/include/mm/pmm.h).
  const FRAME_SIZE: nat := 4096

  // Number of distinct 64-bit values: C's unsigned 64-bit arithmetic is taken modulo this.
  const TWO64: nat := 0x1_0000_0000_0000_0000

  /** A value as 64-bit unsigned arithmetic leaves it. */
  function Wrap(x: nat): (r: nat)
    ensures r < TWO64
    ensures x < TWO64 ==> r == x
    ensures TWO64 <= x < 2 * TWO64 ==> r == x - TWO64
  {
    x % TWO64
  }

  datatype Option<+T> = None | Some(value: T)

  /** The bytes of `count` items of `size` bytes. */
  function Times(count: nat, size: nat): nat {
    count * size
  }

  /** One item more is `size` bytes more. */
  lemma TimesNext(count: nat, size: nat)
    ensures Times(0, size) == 0 && Times(count + 1, size) == Times(count, size) + size
  {}

  /** The frame (or page) an address lies in. */
  function Frame(addr: nat): nat {
    addr / FRAME_SIZE
  }

  /** An address lies in its frame. */
  lemma FrameHolds(addr: nat)
    ensures Frame(addr) * FRAME_SIZE <= addr < (Frame(addr) + 1) * FRAME_SIZE
  {}

  /** Where a frame (or page) starts. */
  function Address(frame: nat): (addr: nat)
    ensures Frame(addr) == frame
    ensures addr == 0 <==> frame == 0
  {
    frame * FRAME_SIZE
  }

  /** Pages needed to hold `bytes` bytes. */
  function PagesFor(bytes: nat): (p: nat)
    ensures bytes <= p * FRAME_SIZE < bytes + FRAME_SIZE
  {
    (bytes + FRAME_SIZE - 1) / FRAME_SIZE
  }

  /** The frames [first, first + count). */
  function Frames(first: nat, count: nat): (s: set<nat>)
    ensures |s| == count
    ensures forall f :: f in s <==> first <= f < first + count
  {
    if count == 0 then {}
    else Frames(first, count - 1) + {first + count - 1}
  }
}
