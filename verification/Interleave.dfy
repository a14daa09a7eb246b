/** Conversion between the interleaved bytes of a DMA buffer and the 16-bit samples of one channel. */
module Interleave {

  const BYTES_PER_SAMPLE := 2
  const SOAPY_SDR_CS16 := "CS16"

  type Int8 = x: int | -128 <= x < 128
  type Int16 = x: int | -0x8000 <= x < 0x8000

  /** The casts `(int8_t)x` and `(int16_t)x`. */
  function ToInt8(x: int): Int8 {
    (x + 128) % 256 - 128
  }

  function ToInt16(x: int): Int16 {
    (x + 0x8000) % 0x1_0000 - 0x8000
  }

  /** `(int16_t)(b << 8)`, of which the cast loses nothing. */
  function ShiftUp(b: Int8): (x: Int16)
    ensures x as int == b as int * 256
  {
    ToInt16(b as int * 256)
  }

  /** `(int8_t)(x >> 8)`, likewise. */
  function ShiftDown(x: Int16): (b: Int8)
    ensures b as int * 256 <= x as int < b as int * 256 + 256
  {
    ToInt8(x as int / 256)
  }

  lemma UpAndDown(b: Int8)
    ensures ShiftDown(ShiftUp(b)) == b
  {}

  /** Byte `q` belongs to a sample the loop from `offset` in steps of two visits. */
  predicate Visited(q: int, len: nat, offset: nat) {
    offset <= q / BYTES_PER_SAMPLE < len && (q / BYTES_PER_SAMPLE - offset) % 2 == 0
  }

  lemma NextVisited(i: nat, len: nat, offset: nat)
    requires offset <= i < len && (i - offset) % 2 == 0
    ensures forall q: int :: Visited(q, len, offset) && q / BYTES_PER_SAMPLE < i + 2 <==>
      (Visited(q, len, offset) && q / BYTES_PER_SAMPLE < i) || q == 2 * i || q == 2 * i + 1
  {}

  /** The bytes of one channel go to the wide array, shifted by the channel number once more. */
  method Deinterleave(src: seq<Int8>, dst: array<Int16>, len: nat, format: string, offset: nat)
    requires BYTES_PER_SAMPLE * len <= |src| && BYTES_PER_SAMPLE * (len + offset) <= dst.Length
    modifies dst
    ensures forall m :: 0 <= m < dst.Length ==>
      var q := m - BYTES_PER_SAMPLE * offset;
      dst[m] == if format == SOAPY_SDR_CS16 && Visited(q, len, offset) then ShiftUp(src[q]) else old(dst[m])
  {
    if format == SOAPY_SDR_CS16 {
      var base := offset * BYTES_PER_SAMPLE;
      var i := offset;
      while i < len
        invariant offset <= i && (i - offset) % 2 == 0
        invariant forall m :: 0 <= m < dst.Length ==>
          var q := m - base;
          dst[m] == if Visited(q, len, offset) && q / BYTES_PER_SAMPLE < i then ShiftUp(src[q]) else old(dst[m])
      {
        NextVisited(i, len, offset);
        dst[base + i * BYTES_PER_SAMPLE] := ShiftUp(src[i * BYTES_PER_SAMPLE]);
        dst[base + i * BYTES_PER_SAMPLE + 1] := ShiftUp(src[i * BYTES_PER_SAMPLE + 1]);
        i := i + 2;
      }
    }
  }

  /** The way back: the upper byte of each sample, signed. */
  method Interleave(src: array<Int16>, dst: array<Int8>, len: nat, format: string, offset: nat)
    requires BYTES_PER_SAMPLE * len <= dst.Length && BYTES_PER_SAMPLE * (len + offset) <= src.Length
    modifies dst
    ensures forall q :: 0 <= q < dst.Length ==>
      dst[q] == if format == SOAPY_SDR_CS16 && Visited(q, len, offset) then ShiftDown(src[q + BYTES_PER_SAMPLE * offset]) else old(dst[q])
  {
    if format == SOAPY_SDR_CS16 {
      var base := offset * BYTES_PER_SAMPLE;
      var i := offset;
      while i < len
        invariant offset <= i && (i - offset) % 2 == 0
        invariant forall q :: 0 <= q < dst.Length ==>
          dst[q] == if Visited(q, len, offset) && q / BYTES_PER_SAMPLE < i then ShiftDown(src[q + base]) else old(dst[q])
      {
        NextVisited(i, len, offset);
        dst[i * BYTES_PER_SAMPLE] := ShiftDown(src[base + i * BYTES_PER_SAMPLE]);
        dst[i * BYTES_PER_SAMPLE + 1] := ShiftDown(src[base + i * BYTES_PER_SAMPLE + 1]);
        i := i + 2;
      }
    }
  }

  /** Every byte of the first `len` samples is visited for exactly one of the two channels. */
  lemma OneChannel(q: int, len: nat)
    ensures 0 <= q < BYTES_PER_SAMPLE * len <==> (Visited(q, len, 0) || Visited(q, len, 1))
    ensures !(Visited(q, len, 0) && Visited(q, len, 1))
  {}

  /** Taking two channels apart and putting them together again restores the bytes of the first `len` samples,
      whatever the wide arrays and the output held before, and changes nothing else. */
  method RoundTrip(bytes: seq<Int8>, wide0: array<Int16>, wide1: array<Int16>, back: array<Int8>, len: nat)
    requires BYTES_PER_SAMPLE * len <= |bytes| && BYTES_PER_SAMPLE * len <= back.Length
    requires BYTES_PER_SAMPLE * len <= wide0.Length && BYTES_PER_SAMPLE * (len + 1) <= wide1.Length
    requires wide0 != wide1
    modifies wide0, wide1, back
    ensures back[..BYTES_PER_SAMPLE * len] == bytes[..BYTES_PER_SAMPLE * len]
    ensures back[BYTES_PER_SAMPLE * len..] == old(back[BYTES_PER_SAMPLE * len..])
  {
    ghost var was := back[..];
    Apart(bytes, wide0, wide1, len);
    ghost var half := Together(wide0, wide1, back, len);
    Restored(bytes, wide0[..], wide1[..], was, half, back[..], len);
  }

  method Apart(bytes: seq<Int8>, wide0: array<Int16>, wide1: array<Int16>, len: nat)
    requires BYTES_PER_SAMPLE * len <= |bytes| && wide0 != wide1
    requires BYTES_PER_SAMPLE * len <= wide0.Length && BYTES_PER_SAMPLE * (len + 1) <= wide1.Length
    modifies wide0, wide1
    ensures Widened(bytes, wide0[..], len, 0) && Widened(bytes, wide1[..], len, 1)
  {
    Deinterleave(bytes, wide0, len, SOAPY_SDR_CS16, 0);
    WidenedBy(bytes, wide0[..], len, 0);
    Deinterleave(bytes, wide1, len, SOAPY_SDR_CS16, 1);
    WidenedBy(bytes, wide1[..], len, 1);
  }

  method Together(wide0: array<Int16>, wide1: array<Int16>, back: array<Int8>, len: nat) returns (ghost half: seq<Int8>)
    requires BYTES_PER_SAMPLE * len <= back.Length
    requires BYTES_PER_SAMPLE * len <= wide0.Length && BYTES_PER_SAMPLE * (len + 1) <= wide1.Length
    modifies back
    ensures Narrowed(wide0[..], old(back[..]), half, len, 0) && Narrowed(wide1[..], half, back[..], len, 1)
  {
    ghost var was := back[..];
    Interleave(wide0, back, len, SOAPY_SDR_CS16, 0);
    half := back[..];
    assert Narrowed(wide0[..], was, half, len, 0);
    Interleave(wide1, back, len, SOAPY_SDR_CS16, 1);
  }

  /** `w` holds the samples of one channel of `bytes`. */
  ghost predicate Widened(bytes: seq<Int8>, w: seq<Int16>, len: nat, offset: nat)
    requires BYTES_PER_SAMPLE * len <= |bytes| && BYTES_PER_SAMPLE * (len + offset) <= |w|
  {
    forall q :: 0 <= q < |bytes| && Visited(q, len, offset) ==> w[q + BYTES_PER_SAMPLE * offset] == ShiftUp(bytes[q])
  }

  lemma WidenedBy(bytes: seq<Int8>, w: seq<Int16>, len: nat, offset: nat)
    requires BYTES_PER_SAMPLE * len <= |bytes| && BYTES_PER_SAMPLE * (len + offset) <= |w|
    requires forall m :: 0 <= m < |w| && Visited(m - BYTES_PER_SAMPLE * offset, len, offset) ==>
      w[m] == ShiftUp(bytes[m - BYTES_PER_SAMPLE * offset])
    ensures Widened(bytes, w, len, offset)
  {
    forall q | 0 <= q < |bytes| && Visited(q, len, offset) ensures w[q + BYTES_PER_SAMPLE * offset] == ShiftUp(bytes[q]) {
      var m := q + BYTES_PER_SAMPLE * offset;
      assert m - BYTES_PER_SAMPLE * offset == q;
    }
  }

  /** `after` is `before` with the samples of `w` put in. */
  ghost predicate Narrowed(w: seq<Int16>, before: seq<Int8>, after: seq<Int8>, len: nat, offset: nat)
    requires BYTES_PER_SAMPLE * (len + offset) <= |w|
  {
    && |after| == |before|
    && forall q :: 0 <= q < |after| ==>
         after[q] == if Visited(q, len, offset) then ShiftDown(w[q + BYTES_PER_SAMPLE * offset]) else before[q]
  }

  lemma Restored(bytes: seq<Int8>, w0: seq<Int16>, w1: seq<Int16>, was: seq<Int8>, half: seq<Int8>, back: seq<Int8>, len: nat)
    requires BYTES_PER_SAMPLE * len <= |bytes| && BYTES_PER_SAMPLE * len <= |was|
    requires BYTES_PER_SAMPLE * len <= |w0| && BYTES_PER_SAMPLE * (len + 1) <= |w1|
    requires Widened(bytes, w0, len, 0) && Widened(bytes, w1, len, 1)
    requires Narrowed(w0, was, half, len, 0) && Narrowed(w1, half, back, len, 1)
    ensures back == bytes[..BYTES_PER_SAMPLE * len] + was[BYTES_PER_SAMPLE * len..]
  {
    forall q | 0 <= q < |back| ensures back[q] == if q < BYTES_PER_SAMPLE * len then bytes[q] else was[q] {
      OneChannel(q, len);
      if q < BYTES_PER_SAMPLE * len { UpAndDown(bytes[q]); }
    }
  }
}
