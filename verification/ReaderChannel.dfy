/** The transmit direction of a DMA channel: `litepcie_write` and the ioctl and poll paths that feed a
    ring which the device drains, one byte at a time, beside them. */
module ReaderChannel {
  import opened Bits
  import opened DmaConfig
  import HwCount

  type Buffer = b: seq<int> | |b| == DMA_BUFFER_SIZE witness seq(DMA_BUFFER_SIZE, i => 0)

  datatype WriteStatus = Bytes(n: nat) | Again | Interrupted | Fault

  /** What `litepcie_write` did with one buffer, and the count it compared against. */
  datatype SlotWrite = Accepted(hw: int) | Lost(hw: int)

  datatype Iteration = Next(slot: SlotWrite) | Full | Failed

  /** The threshold at which `litepcie_poll` reports POLLOUT. */
  predicate PollOut(hw: nat, sw: nat) {
    sw - hw < DMA_BUFFER_COUNT / 2
  }

  /** Buffer `k` of the caller's data. */
  function Chunk(data: seq<int>, k: nat): Buffer
    requires (k + 1) * DMA_BUFFER_SIZE <= |data|
  {
    data[k * DMA_BUFFER_SIZE..(k + 1) * DMA_BUFFER_SIZE]
  }

  /** `log` followed by the first `k` buffers of the caller's data. */
  function WithChunks(log: seq<Buffer>, data: seq<int>, k: nat): (r: seq<Buffer>)
    requires k * DMA_BUFFER_SIZE <= |data|
    ensures |r| == |log| + k
  {
    if k == 0 then log else WithChunks(log, data, k - 1) + [Chunk(data, k - 1)]
  }

  /** The log grows by the caller's buffers, in their order. */
  lemma {:induction false} WithChunksAt(log: seq<Buffer>, data: seq<int>, k: nat, n: nat)
    requires k * DMA_BUFFER_SIZE <= |data| && n < |log| + k
    ensures WithChunks(log, data, k)[n] == if n < |log| then log[n] else Chunk(data, n - |log|)
  {
    if k > 0 && n < |log| + k - 1 {
      WithChunksAt(log, data, k - 1, n);
    }
  }

  /** Each buffer was compared with a count it is less than half a ring ahead of, and
      it was lost exactly when the device's count had already passed it. */
  ghost predicate SlotsOk(slots: seq<SlotWrite>, first: nat) {
    forall k :: 0 <= k < |slots| ==>
      && first + k - slots[k].hw < DMA_BUFFER_COUNT / 2
      && (slots[k].Lost? <==> first + k < slots[k].hw)
  }

  /** The count each buffer was compared with was the one of some moment between two states, in which it was `lo` and `hi`. */
  ghost predicate AllSeen(slots: seq<SlotWrite>, lo: nat, hi: nat) {
    forall k :: 0 <= k < |slots| ==> lo <= slots[k].hw <= hi
  }

  /** How many buffers were lost. */
  function Losses(slots: seq<SlotWrite>): nat {
    if slots == [] then 0 else Losses(slots[..|slots| - 1]) + (if slots[|slots| - 1].Lost? then 1 else 0)
  }

  /** The caller's memory could be read wherever something was accepted. */
  ghost predicate AllReachable(slots: seq<SlotWrite>, readable: nat -> bool) {
    forall k :: 0 <= k < |slots| && slots[k].Accepted? ==> Reachable(readable, k * DMA_BUFFER_SIZE)
  }

  ghost predicate NoneLost(slots: seq<SlotWrite>) {
    forall k :: 0 <= k < |slots| ==> slots[k].Accepted?
  }

  /** All that is said of the buffers passed so far, the first of them number `first`. */
  ghost predicate Recorded(slots: seq<SlotWrite>, first: nat, readable: nat -> bool, lo: nat, hi: nat) {
    SlotsOk(slots, first) && AllSeen(slots, lo, hi) && AllReachable(slots, readable)
  }

  /** And of one more, during which the count went from `mid` to `hi`. */
  lemma RecordOne(slots: seq<SlotWrite>, longer: seq<SlotWrite>, e: SlotWrite, first: nat, readable: nat -> bool, lo: nat, mid: nat, hi: nat)
    requires longer == slots + [e] && Recorded(slots, first, readable, lo, mid) && lo <= mid <= e.hw <= hi
    requires first + |slots| - e.hw < DMA_BUFFER_COUNT / 2 && (e.Lost? <==> first + |slots| < e.hw)
    requires e.Accepted? ==> Reachable(readable, |slots| * DMA_BUFFER_SIZE)
    ensures Recorded(longer, first, readable, lo, hi) && Losses(longer) == Losses(slots) + (if e.Lost? then 1 else 0)
  {
    assert longer[..|slots|] == slots;
  }

  lemma RecordedLater(slots: seq<SlotWrite>, first: nat, readable: nat -> bool, lo: nat, mid: nat, hi: nat)
    requires Recorded(slots, first, readable, lo, mid) && mid <= hi
    ensures Recorded(slots, first, readable, lo, hi)
  {}

  /** The log and the record after one more buffer was accepted. */
  lemma AcceptOne(log: seq<Buffer>, data: seq<int>, slots: seq<SlotWrite>, longer: seq<SlotWrite>, e: SlotWrite, now: seq<Buffer>)
    requires longer == slots + [e] && |longer| * DMA_BUFFER_SIZE <= |data| && NoneLost(slots) && e.Accepted?
    requires now == WithChunks(log, data, |slots|) + [Chunk(data, |slots|)]
    ensures now == WithChunks(log, data, |longer|) && NoneLost(longer)
  {}

  /** `n` modulo the ring differs for two buffers less than a ring apart. */
  lemma SlotsDiffer(m: nat, n: nat)
    requires m < n < m + DMA_BUFFER_COUNT
    ensures m % DMA_BUFFER_COUNT != n % DMA_BUFFER_COUNT
  {}

  class ReaderChan {
    var hwCount: nat
    var hwCountLast: nat
    var swCount: nat
    var enable: bool
    var ring: seq<Buffer>

    // The device: `done` buffers consumed, `part` bytes of the next one read so far.
    var done: nat
    var part: seq<int>
    // What the device has consumed and what writers were told was accepted, since the start.
    ghost var consumed: seq<Buffer>
    ghost var accepted: seq<Buffer>
    // The device began to read a buffer that had not been written yet.
    ghost var overtook: bool

    ghost predicate Valid()
      reads `hwCount, `hwCountLast, `ring, `done, `part
    {
      && |ring| == DMA_BUFFER_COUNT && |part| < DMA_BUFFER_SIZE
      && hwCount == hwCountLast <= done < INT64_END
      && done - hwCount < COUNT_WRAP
    }

    /** What holds between writes: at most half a ring is pending, and nothing is out of order. */
    ghost predicate InStep()
      reads this
    {
      && Valid()
      && swCount - hwCount <= DMA_BUFFER_COUNT / 2
      && (!overtook ==> InOrder())
    }

    /** As long as the device stays behind the writers, it has consumed the accepted buffers in order,
        and those still pending lie unaltered in their slots. */
    ghost predicate InOrder()
      requires |ring| == DMA_BUFFER_COUNT && |part| < DMA_BUFFER_SIZE
      reads this
    {
      && done <= swCount == |accepted|
      && consumed == accepted[..done]
      && (forall n :: done <= n < swCount ==> ring[n % DMA_BUFFER_COUNT] == accepted[n])
      && (part != [] ==> done < swCount && part == accepted[done][..|part|])
    }

    constructor ()
      ensures InStep() && !enable && hwCount == swCount == 0 && !overtook && accepted == []
    {
      hwCount, hwCountLast, swCount, enable := 0, 0, 0, false;
      ring := seq(DMA_BUFFER_COUNT, s => seq(DMA_BUFFER_SIZE, i => 0));
      done, part, consumed, accepted, overtook := 0, [], [], [], false;
    }

    method Interrupt(loopStatus: nat)
      modifies `hwCount, `hwCountLast
      ensures hwCount == hwCountLast == HwCount.Reconstruct(old(hwCount), old(hwCountLast), loopStatus)
    {
      hwCount := And(hwCount, 0xffff_ffff_ff00_0000);
      hwCount := Or(hwCount, loopStatus / 0x1_0000 * DMA_BUFFER_COUNT + And(loopStatus, 0xffff));
      if hwCountLast > hwCount {
        hwCount := hwCount + COUNT_WRAP;
      }
      hwCountLast := hwCount;
    }

    /** The device reads one byte of buffer `done`. */
    method ReadByte()
      requires Valid() && done + 1 < INT64_END && done + 1 - hwCount < COUNT_WRAP
      modifies `done, `part, `consumed, `overtook
      ensures Valid() && old(done) <= done && (old(InStep()) ==> InStep())
      ensures done * DMA_BUFFER_SIZE + |part| == old(done * DMA_BUFFER_SIZE + |part|) + 1
      ensures old(overtook) || old(done) >= swCount <==> overtook
    {
      if done >= swCount {
        overtook := true;
      }
      ghost var whole := ring[done % DMA_BUFFER_COUNT];
      assert part + [whole[|part|]] == if part == whole[..|part|] then whole[..|part| + 1] else part + [whole[|part|]];
      part := part + [ring[done % DMA_BUFFER_COUNT][|part|]];
      if |part| == DMA_BUFFER_SIZE {
        assert whole[..|part|] == whole;
        assert old(InStep()) && !overtook ==> accepted[..done + 1] == accepted[..done] + [part];
        consumed := consumed + [part];
        part := [];
        done := done + 1;
      }
    }

    /** One byte read by the device, or one run of the handler. */
    method Step(irq: bool)
      requires Valid()
      modifies `hwCount, `hwCountLast, `done, `part, `consumed, `overtook
      ensures Valid() && (old(InStep()) ==> InStep())
      ensures old(hwCount) <= hwCount && old(done) <= done && (old(overtook) ==> overtook)
      ensures irq ==> hwCount == done == old(done) && part == old(part)
      ensures !irq ==> hwCount == old(hwCount)
      ensures !irq && old(done) + 1 < INT64_END && old(done) + 1 - hwCount < COUNT_WRAP ==>
        done * DMA_BUFFER_SIZE + |part| == old(done * DMA_BUFFER_SIZE + |part|) + 1
    {
      if irq {
        HwCount.ReconstructExact(hwCount, done);
        Interrupt(HwCount.LoopStatus(done));
      } else if done + 1 < INT64_END && done + 1 - hwCount < COUNT_WRAP {
        ReadByte();
      }
    }

    /** Device and interrupt handler run while this thread does not. */
    method Concurrently()
      requires Valid()
      modifies `hwCount, `hwCountLast, `done, `part, `consumed, `overtook
      ensures Valid() && (old(InStep()) ==> InStep())
      ensures old(hwCount) <= hwCount && old(done) <= done && (old(overtook) ==> overtook)
      ensures !enable ==> unchanged(this)
    {
      var steps :| 0 <= steps;
      for i := 0 to steps
        invariant Valid() && (old(InStep()) ==> InStep())
        invariant old(hwCount) <= hwCount && old(done) <= done && (old(overtook) ==> overtook)
        invariant !enable ==> unchanged(this)
      {
        if enable {
          var irq: bool := *;
          Step(irq);
        }
      }
    }

    /** The wait at the head of `litepcie_write`: `Bytes(0)` when it may proceed. A signal can end
        a blocking wait at any moment. */
    method AwaitRoom(nonblock: bool) returns (r: WriteStatus)
      requires InStep()
      modifies `hwCount, `hwCountLast, `done, `part, `consumed, `overtook
      ensures InStep() && hwCount >= old(hwCount) && (old(overtook) ==> overtook)
      ensures r.Again? <==> nonblock && old(hwCount) == swCount
      ensures r.Again? || r.Interrupted? || r == Bytes(0)
      ensures !nonblock ==> (r.Interrupted? <==> swCount - hwCount >= DMA_BUFFER_COUNT / 2)
      ensures nonblock ==> hwCount == old(hwCount) && !r.Interrupted?
    {
      if nonblock {
        return if hwCount == swCount then Again else Bytes(0);
      }
      Concurrently();
      r := if swCount - hwCount < DMA_BUFFER_COUNT / 2 then Bytes(0) else Interrupted;
    }

    /** One iteration of the copying loop of `litepcie_write`, for buffer `k` of `data`. */
    method WriteOne(data: array<int>, k: nat, readable: nat -> bool) returns (e: Iteration)
      requires InStep() && (k + 1) * DMA_BUFFER_SIZE <= data.Length
      modifies `hwCount, `hwCountLast, `swCount, `ring, `done, `part, `consumed, `accepted, `overtook
      ensures InStep() && hwCount >= old(hwCount) && (old(overtook) ==> overtook)
      ensures swCount == old(swCount) + (if e.Next? then 1 else 0)
      ensures e.Full? ==> swCount - hwCount == DMA_BUFFER_COUNT / 2
      ensures e.Failed? ==> Stuck(readable, k)
      ensures e.Next? && e.slot.Accepted? ==> ring[old(swCount) % DMA_BUFFER_COUNT] == Chunk(data[..], k)
      ensures e.Full? || (e.Next? && e.slot.Lost?) ==> ring == old(ring)
      ensures e.Next? && e.slot.Accepted? ==> Reachable(readable, k * DMA_BUFFER_SIZE)
      ensures e.Next? ==>
        && old(hwCount) <= e.slot.hw <= hwCount
        && old(swCount) - e.slot.hw < DMA_BUFFER_COUNT / 2
        && (e.slot.Lost? <==> old(swCount) < e.slot.hw)
      ensures !overtook ==>
        && (e.Next? ==> e.slot.Accepted?)
        && accepted == if e.Next? then old(accepted) + [Chunk(data[..], k)] else old(accepted)
    {
      Concurrently();
      if swCount - hwCount >= DMA_BUFFER_COUNT / 2 {
        return Full;
      }
      Concurrently();
      var tested := hwCount;
      if swCount - hwCount < 0 {
        e := Next(Lost(tested));
      } else {
        var ok := CopyFromUser(data, k * DMA_BUFFER_SIZE, readable);
        if !ok {
          return Failed;
        }
        e := Next(Accepted(tested));
        accepted := accepted + [Chunk(data[..], k)];
      }
      swCount := swCount + 1;
    }

    /** `litepcie_write` of the first `size` bytes of `data`, of which the bytes in `readable` can be read. `underflows`
        goes to the log. */
    method Write(size: nat, nonblock: bool, data: array<int>, readable: nat -> bool)
      returns (r: WriteStatus, underflows: nat, ghost slots: seq<SlotWrite>)
      requires InStep() && size <= data.Length
      modifies `hwCount, `hwCountLast, `swCount, `ring, `done, `part, `consumed, `accepted, `overtook
      ensures InStep() && hwCount >= old(hwCount)
      ensures swCount == old(swCount) + |slots| && |slots| * DMA_BUFFER_SIZE <= size
      ensures r.Bytes? ==> r.n == |slots| * DMA_BUFFER_SIZE
      ensures r.Bytes? ==> size - r.n < DMA_BUFFER_SIZE || swCount - hwCount == DMA_BUFFER_COUNT / 2
      // a buffer's worth of data comes back without any of it taken only from a half full ring, and if it does not block
      ensures r.Bytes? && slots == [] && size >= DMA_BUFFER_SIZE ==> nonblock && old(swCount - hwCount) >= DMA_BUFFER_COUNT / 2
      ensures underflows == Losses(slots)
      ensures r.Again? || r.Interrupted? ==> slots == []
      ensures r.Again? <==> nonblock && old(hwCount) == old(swCount)
      ensures r.Interrupted? ==> !nonblock && swCount - hwCount >= DMA_BUFFER_COUNT / 2
      ensures r.Fault? ==> (|slots| + 1) * DMA_BUFFER_SIZE <= size && Stuck(readable, |slots|)
      ensures SlotsOk(slots, old(swCount)) && AllSeen(slots, old(hwCount), hwCount) && AllReachable(slots, readable)
      // nothing is lost, reordered or altered while the device stays behind
      ensures !overtook ==> accepted == WithChunks(old(accepted), data[..], |slots|) && NoneLost(slots)
    {
      slots, underflows := [], 0;
      r := AwaitRoom(nonblock);
      if !r.Bytes? {
        return;
      }
      r, underflows, slots := CopyBuffers(size, data, readable);
    }

    /** Its loop. */
    method CopyBuffers(size: nat, data: array<int>, readable: nat -> bool)
      returns (r: WriteStatus, underflows: nat, ghost slots: seq<SlotWrite>)
      requires InStep() && size <= data.Length
      modifies `hwCount, `hwCountLast, `swCount, `ring, `done, `part, `consumed, `accepted, `overtook
      ensures InStep() && hwCount >= old(hwCount) && (old(overtook) ==> overtook)
      ensures swCount == old(swCount) + |slots| && |slots| * DMA_BUFFER_SIZE <= size
      ensures (r.Bytes? || r.Fault?) && underflows == Losses(slots)
      ensures r.Bytes? ==> r.n == |slots| * DMA_BUFFER_SIZE
      ensures r.Bytes? ==> size - r.n < DMA_BUFFER_SIZE || swCount - hwCount == DMA_BUFFER_COUNT / 2
      ensures r.Fault? ==> (|slots| + 1) * DMA_BUFFER_SIZE <= size && Stuck(readable, |slots|)
      ensures Recorded(slots, old(swCount), readable, old(hwCount), hwCount)
      ensures !overtook ==> accepted == WithChunks(old(accepted), data[..], |slots|) && NoneLost(slots)
    {
      slots := [];
      ghost var bytes := data[..];
      var i: nat := 0;
      underflows := 0;
      var len := size;
      var step := Full;
      while len >= DMA_BUFFER_SIZE
        invariant InStep() && hwCount >= old(hwCount) && (old(overtook) ==> overtook)
        invariant underflows == Losses(slots)
        invariant i == |slots| && swCount == old(swCount) + i && 0 <= len == size - i * DMA_BUFFER_SIZE
        invariant Recorded(slots, old(swCount), readable, old(hwCount), hwCount) && !step.Failed?
        invariant data[..] == bytes
        invariant !overtook ==> accepted == WithChunks(old(accepted), bytes, i) && NoneLost(slots)
      {
        ghost var mid := hwCount;
        step := WriteOne(data, i, readable);
        if !step.Next? {
          RecordedLater(slots, old(swCount), readable, old(hwCount), mid, hwCount);
          break;
        }
        if step.slot.Lost? {
          underflows := underflows + 1;
        }
        ghost var longer := slots + [step.slot];
        RecordOne(slots, longer, step.slot, old(swCount), readable, old(hwCount), mid, hwCount);
        if !overtook { AcceptOne(old(accepted), bytes, slots, longer, step.slot, accepted); }
        slots := longer;
        len := len - DMA_BUFFER_SIZE;
        i := i + 1;
      }
      r := if step.Failed? then Fault else Bytes(size - len);
    }

    /** There is room, but the next place of the caller's memory cannot be read. */
    ghost predicate Stuck(readable: nat -> bool, k: nat)
      reads `swCount, `hwCount
    {
      swCount - hwCount < DMA_BUFFER_COUNT / 2 && !Reachable(readable, k * DMA_BUFFER_SIZE)
    }

    /** Fills the slot of buffer `swCount`, one byte at a time, while the device keeps running. */
    method CopyFromUser(data: array<int>, at: nat, readable: nat -> bool) returns (ok: bool)
      requires InStep() && at + DMA_BUFFER_SIZE <= data.Length
      requires 0 <= swCount - hwCount < DMA_BUFFER_COUNT / 2
      modifies `hwCount, `hwCountLast, `done, `part, `consumed, `overtook, `ring
      ensures InStep() && hwCount >= old(hwCount) && (old(overtook) ==> overtook)
      ensures ok <==> Reachable(readable, at)
      ensures ok ==> ring[swCount % DMA_BUFFER_COUNT] == data[at..at + DMA_BUFFER_SIZE]
      ensures forall s :: 0 <= s < DMA_BUFFER_COUNT && s != swCount % DMA_BUFFER_COUNT ==> ring[s] == old(ring[s])
    {
      ok := true;
      var s := swCount % DMA_BUFFER_COUNT;
      for b := 0 to DMA_BUFFER_SIZE
        invariant InStep() && hwCount >= old(hwCount) && (old(overtook) ==> overtook)
        invariant forall j :: at <= j < at + b ==> readable(j)
        invariant ring[s][..b] == data[at..at + b]
        invariant forall t :: 0 <= t < DMA_BUFFER_COUNT && t != s ==> ring[t] == old(ring[t])
      {
        Concurrently();
        if !readable(at + b) {
          return false;
        }
        // the copy lands on no slot that is still pending
        forall n | done <= n < swCount ensures n % DMA_BUFFER_COUNT != s {
          SlotsDiffer(n, swCount);
        }
        ring := ring[s := ring[s][b := data[at + b]]];
      }
    }

    /** `LITEPCIE_IOCTL_DMA_READER`: starts or stops the device when `on` changes, and
        reports the counters. */
    method DmaReader(on: bool) returns (hw: nat, sw: nat)
      requires Valid()
      modifies this
      ensures Valid() && hw == hwCount && sw == swCount && enable == on
      ensures on == old(enable) ==> unchanged(this)
      ensures on != old(enable) ==> InStep() && hwCount == swCount == done == 0 && accepted == consumed == [] && !overtook
    {
      if on != enable {
        hwCount, hwCountLast, swCount := 0, 0, 0;
        done, part, consumed, accepted, overtook := 0, [], [], [], false;
      }
      enable := on;
      hw, sw := Counters();
    }

    /** The end of that ioctl, which is all that is left of it on a channel that is already running. */
    method Counters() returns (hw: nat, sw: nat)
      ensures hw == hwCount && sw == swCount
    {
      hw, sw := hwCount, swCount;
    }

    /** `LITEPCIE_IOCTL_MMAP_DMA_READER_UPDATE`. */
    method ReaderUpdate(sw: nat)
      modifies `swCount
      ensures swCount == sw
    {
      swCount := sw;
    }

    /** The transmit half of `litepcie_poll`. */
    predicate Pollout()
      reads `hwCount, `swCount
    {
      PollOut(hwCount, swCount)
    }
  }
}
