/** The receive side of the DMA device: it fills 256 buffers cyclically, byte by
    byte. Each byte of the ring carries the number of the buffer it belongs to,
    counted from the start of the DMA, or -1 when nothing was written there yet. */
module RxDevice {
  import opened DmaConfig

  /** `done` buffers are complete and `fill` bytes of the next one are written. */
  datatype Device = Device(done: nat, fill: nat, mem: seq<seq<int>>)

  ghost predicate Shape(d: Device) {
    && |d.mem| == DMA_BUFFER_COUNT
    && (forall s :: 0 <= s < DMA_BUFFER_COUNT ==> |d.mem[s]| == DMA_BUFFER_SIZE)
    && d.fill < DMA_BUFFER_SIZE
  }

  /** The newest buffer in slot `s` whose number is at most `c`, or -1. */
  function Newest(c: int, s: nat): int {
    if c - (c - s) % DMA_BUFFER_COUNT < 0 then -1 else c - (c - s) % DMA_BUFFER_COUNT
  }

  /** The newest buffer of which the device has written byte `b`. */
  function Reached(d: Device, b: nat): int {
    if b < d.fill then d.done else d.done - 1
  }

  ghost predicate Inv(d: Device) {
    && Shape(d)
    && forall s, b :: 0 <= s < DMA_BUFFER_COUNT && 0 <= b < DMA_BUFFER_SIZE
         ==> d.mem[s][b] == Newest(Reached(d, b), s)
  }

  /** Slot of buffer `n` in the ring. */
  function Slot(n: nat): (s: nat)
    ensures s < DMA_BUFFER_COUNT
  {
    n % DMA_BUFFER_COUNT
  }

  /** A freshly started device. */
  function Start(): (d: Device)
    ensures Inv(d) && d.done == 0 && d.fill == 0
  {
    Device(0, 0, seq(DMA_BUFFER_COUNT, s => seq(DMA_BUFFER_SIZE, b => -1)))
  }

  /** The device writes one byte. */
  function WriteByte(d: Device): (d': Device)
    requires Shape(d)
    ensures Shape(d')
    ensures d'.done * DMA_BUFFER_SIZE + d'.fill == d.done * DMA_BUFFER_SIZE + d.fill + 1
  {
    var s := Slot(d.done);
    var m := d.mem[s := d.mem[s][d.fill := d.done]];
    if d.fill + 1 == DMA_BUFFER_SIZE then Device(d.done + 1, 0, m) else Device(d.done, d.fill + 1, m)
  }

  lemma NewestStep(c: nat, s: nat)
    requires s < DMA_BUFFER_COUNT
    ensures Newest(c, s) == if s == Slot(c) then c else Newest(c - 1, s)
  {
    var q, r := (c - s) / DMA_BUFFER_COUNT, (c - s) % DMA_BUFFER_COUNT;
    if r == 0 {
      SlotOf(c, s, q);
    } else {
      Remainder(c - 1 - s, q, r - 1);
      SlotBehind(c, s, q, r);
    }
  }

  lemma Remainder(x: int, q: int, r: int)
    requires x == DMA_BUFFER_COUNT * q + r && 0 <= r < DMA_BUFFER_COUNT
    ensures x % DMA_BUFFER_COUNT == r
  {}

  lemma SlotOf(c: nat, s: nat, q: int)
    requires s < DMA_BUFFER_COUNT && c == DMA_BUFFER_COUNT * q + s
    ensures Slot(c) == s
  {}

  lemma SlotBehind(c: nat, s: nat, q: int, r: int)
    requires s < DMA_BUFFER_COUNT && 0 < r < DMA_BUFFER_COUNT && c == DMA_BUFFER_COUNT * q + s + r
    ensures Slot(c) != s
  {}

  /** Each byte the device writes keeps the ring's contents as described. */
  lemma WriteByteKeepsInv(d: Device)
    requires Inv(d)
    ensures Inv(WriteByte(d))
  {
    var d' := WriteByte(d);
    forall s, b | 0 <= s < DMA_BUFFER_COUNT && 0 <= b < DMA_BUFFER_SIZE
      ensures d'.mem[s][b] == Newest(Reached(d', b), s)
    {
      assert d.mem[s][b] == Newest(Reached(d, b), s);
      if b == d.fill {
        NewestStep(d.done, s);
      } else {
        assert Reached(d', b) == Reached(d, b) && d'.mem[s][b] == d.mem[s][b];
      }
    }
  }

  /** Every byte of buffer `n` is in place. */
  ghost predicate Holds(d: Device, n: nat)
    requires Shape(d)
  {
    forall b :: 0 <= b < DMA_BUFFER_SIZE ==> d.mem[Slot(n)][b] == n
  }

  /** A completed buffer stays readable until the device is a whole ring further:
      precisely, byte `b` of it is lost when the device writes byte `b` of buffer `n + 256`. */
  lemma ByteSurvives(d: Device, n: nat, b: nat)
    requires Inv(d) && b < DMA_BUFFER_SIZE
    ensures d.mem[Slot(n)][b] == n <==> n <= Reached(d, b) < n + DMA_BUFFER_COUNT
  {
    var c, s := Reached(d, b), Slot(n);
    assert d.mem[s][b] == Newest(c, s);
    if n <= c < n + DMA_BUFFER_COUNT {
      assert (c - s) % DMA_BUFFER_COUNT == c - n;
    }
  }

  lemma BufferSurvives(d: Device, n: nat)
    requires Inv(d)
    ensures Holds(d, n) <==> n < d.done < n + DMA_BUFFER_COUNT || (d.done == n + DMA_BUFFER_COUNT && d.fill == 0)
  {
    forall b | 0 <= b < DMA_BUFFER_SIZE
      ensures d.mem[Slot(n)][b] == n <==> n <= Reached(d, b) < n + DMA_BUFFER_COUNT
    {
      ByteSurvives(d, n, b);
    }
    assert Reached(d, DMA_BUFFER_SIZE - 1) == d.done - 1;
    if Holds(d, n) {
      assert d.mem[Slot(n)][0] == n && d.mem[Slot(n)][DMA_BUFFER_SIZE - 1] == n;
    }
  }
}
