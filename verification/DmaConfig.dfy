/** Constants of the DMA engine (software/litepcie-kernel-module/config.h). */
module DmaConfig {
  const DMA_BUFFER_PER_IRQ := 32
  const DMA_BUFFER_COUNT := 256
  const DMA_BUFFER_SIZE := 65536

  /** `1 << (ilog2(DMA_BUFFER_COUNT) + 16)`: where the device's own count wraps. */
  const COUNT_WRAP := 0x100_0000

  /** An `int64_t` counter stays below this. */
  const INT64_END := 0x8000_0000_0000_0000

  /** An `int` stays below this. */
  const INT32_END := 0x8000_0000

  /** Elements in one buffer, `getStreamMTU`. */
  const MTU := DMA_BUFFER_SIZE / (2 * 2 * 2)

  lemma OneMtu(n: nat)
    ensures MTU * (n + 1) == MTU * n + MTU
  {}

  function Min(a: nat, b: nat): nat {
    if a < b then a else b
  }

  /** The conversion of an `int64_t` to `int`. */
  function ToInt32(x: int): int {
    (x + 0x8000_0000) % 0x1_0000_0000 - 0x8000_0000
  }

  /** The conversion changes nothing in the range of an `int`. */
  lemma Unnarrowed(x: int)
    requires -INT32_END <= x < INT32_END
    ensures ToInt32(x) == x
  {}

  lemma NextSlot(n: nat)
    ensures (n % DMA_BUFFER_COUNT + 1) % DMA_BUFFER_COUNT == (n + 1) % DMA_BUFFER_COUNT
  {}

  /** `int d = a - b`, for 64-bit counters. */
  method Difference(a: int, b: int) returns (d: int)
    ensures d == ToInt32(a - b) && (-INT32_END <= a - b < INT32_END ==> d == a - b)
  {
    d := ToInt32(a - b);
  }

  /** All bytes of the buffer at `at` in a caller's memory can be accessed; `ok` says which of its bytes can. */
  ghost predicate Reachable(ok: nat -> bool, at: nat) {
    forall b :: at <= b < at + DMA_BUFFER_SIZE ==> ok(b)
  }
}
