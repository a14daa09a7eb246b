/** The receive direction of a DMA channel: the counters of the kernel module, its
    read, poll and ioctl paths, and the device that runs beside them.

    Between any two accesses a method calls `Concurrently`, in which the device and the
    interrupt handler take any number of steps. */
module WriterChannel {
  import opened Bits
  import opened DmaConfig
  import HwCount
  import opened RxDevice

  datatype ReadStatus = Bytes(n: nat) | Again | Interrupted | Fault

  /** What `litepcie_read` did with one buffer: the count it compared against, and for a copied
      buffer how many buffers the device had completed at the test and when the copy ended. */
  datatype SlotRead = Copied(hw: int, doneAtTest: nat, doneAtEnd: nat) | Skipped(hw: int)

  /** One iteration of the reading loop. */
  datatype ReadStep = Took(slot: SlotRead) | Empty | Failed

  /** The threshold at which `litepcie_poll` reports POLLIN. */
  predicate PollIn(hw: nat, sw: nat) {
    hw - sw > 2
  }

  /** Outcome `e` for buffer `n` whose place in the caller's memory starts at `base`: skipped exactly
      when more than half a ring behind; a copy is the buffer itself, whole, if the device stayed
      within half a ring of the count that was tested; a skipped place keeps what it held. */
  ghost predicate SlotOk(e: SlotRead, n: nat, base: nat, data: seq<int>, was: seq<int>)
    requires base + DMA_BUFFER_SIZE <= |data| == |was|
  {
    && n < e.hw
    && (e.Skipped? <==> e.hw - n > DMA_BUFFER_COUNT / 2)
    && (e.Copied? && e.doneAtEnd < e.hw + DMA_BUFFER_COUNT / 2 ==>
          forall b :: base <= b < base + DMA_BUFFER_SIZE ==> data[b] == n)
    && (e.Skipped? ==> forall b :: base <= b < base + DMA_BUFFER_SIZE ==> data[b] == was[b])
  }

  ghost predicate SlotsOk(slots: seq<SlotRead>, first: nat, data: seq<int>, was: seq<int>) {
    && |slots| * DMA_BUFFER_SIZE <= |data| == |was|
    && forall k :: 0 <= k < |slots| ==> SlotOk(slots[k], first + k, k * DMA_BUFFER_SIZE, data, was)
  }

  /** What the test of a buffer saw was the count at some moment between two states, in which it was `lo` and `hi` and
      the device had completed `doneLo` and `doneHi` buffers; so were the records of the device. */
  ghost predicate Seen(e: SlotRead, lo: nat, hi: nat, doneLo: nat, doneHi: nat) {
    lo <= e.hw <= hi && (e.Copied? ==> doneLo <= e.doneAtTest <= e.doneAtEnd <= doneHi)
  }

  ghost predicate AllSeen(slots: seq<SlotRead>, lo: nat, hi: nat, doneLo: nat, doneHi: nat) {
    forall k :: 0 <= k < |slots| ==> Seen(slots[k], lo, hi, doneLo, doneHi)
  }

  /** How many buffers were skipped. */
  function Skips(slots: seq<SlotRead>): nat {
    if slots == [] then 0 else Skips(slots[..|slots| - 1]) + (if slots[|slots| - 1].Skipped? then 1 else 0)
  }

  lemma SkipsOne(slots: seq<SlotRead>, e: SlotRead)
    ensures Skips(slots + [e]) == Skips(slots) + (if e.Skipped? then 1 else 0)
  {
    assert (slots + [e])[..|slots|] == slots;
  }

  /** The caller's memory could be written wherever something was copied. */
  ghost predicate AllReachable(slots: seq<SlotRead>, writable: nat -> bool) {
    forall k :: 0 <= k < |slots| && slots[k].Copied? ==> Reachable(writable, k * DMA_BUFFER_SIZE)
  }

  /** The record after one iteration. */
  function Recorded(slots: seq<SlotRead>, e: ReadStep): seq<SlotRead> {
    if e.Took? then slots + [e.slot] else slots
  }

  /** What it says, when during the iteration the count went from `mid` to `hi`, and the device from `doneMid` on. */
  lemma SeenStep(slots: seq<SlotRead>, longer: seq<SlotRead>, e: ReadStep, writable: nat -> bool, lo: nat, mid: nat, hi: nat, doneLo: nat, doneMid: nat, doneHi: nat)
    requires longer == Recorded(slots, e)
    requires AllSeen(slots, lo, mid, doneLo, doneMid) && AllReachable(slots, writable) && lo <= mid <= hi && doneLo <= doneMid <= doneHi
    requires e.Took? ==> Seen(e.slot, mid, hi, doneMid, doneHi)
    requires e.Took? && e.slot.Copied? ==> Reachable(writable, |slots| * DMA_BUFFER_SIZE)
    ensures AllSeen(longer, lo, hi, doneLo, doneHi) && AllReachable(longer, writable)
  {}

  lemma SlotsOkKept(slots: seq<SlotRead>, first: nat, before: seq<int>, after: seq<int>, was: seq<int>)
    requires SlotsOk(slots, first, before, was) && |before| == |after|
    requires after[..|slots| * DMA_BUFFER_SIZE] == before[..|slots| * DMA_BUFFER_SIZE]
    ensures SlotsOk(slots, first, after, was)
  {
    forall k | 0 <= k < |slots|
      ensures SlotOk(slots[k], first + k, k * DMA_BUFFER_SIZE, after, was)
    {
      var end := |slots| * DMA_BUFFER_SIZE;
      forall b | 0 <= b < end ensures after[b] == before[b] {
        assert after[..end][b] == before[..end][b];
      }
    }
  }

  /** A change of `n` bytes from `at` on leaves what is before and behind them. */
  lemma Untouched(before: seq<int>, after: seq<int>, at: nat, n: nat)
    requires |before| == |after| && at + n <= |after|
    requires forall b :: 0 <= b < |after| && !(at <= b < at + n) ==> after[b] == before[b]
    ensures after[..at] == before[..at] && after[at + n..] == before[at + n..]
  {}

  /** The place had not been touched before. */
  lemma SlotOkSince(e: SlotRead, n: nat, base: nat, data: seq<int>, before: seq<int>, was: seq<int>)
    requires base + DMA_BUFFER_SIZE <= |data| == |before| == |was| && before[base..] == was[base..]
    requires SlotOk(e, n, base, data, before)
    ensures SlotOk(e, n, base, data, was)
  {
    forall b | base <= b < base + DMA_BUFFER_SIZE ensures before[b] == was[b] {
      assert before[base..][b - base] == was[base..][b - base];
    }
  }

  lemma SlotsOkExtend(slots: seq<SlotRead>, e: SlotRead, first: nat, before: seq<int>, after: seq<int>, was: seq<int>)
    requires SlotsOk(slots, first, before, was)
    requires |slots| * DMA_BUFFER_SIZE + DMA_BUFFER_SIZE <= |before| == |after|
    requires after[..|slots| * DMA_BUFFER_SIZE] == before[..|slots| * DMA_BUFFER_SIZE]
    requires SlotOk(e, first + |slots|, |slots| * DMA_BUFFER_SIZE, after, was)
    ensures SlotsOk(slots + [e], first, after, was)
  {
    SlotsOkKept(slots, first, before, after, was);
  }

  /** The record after one iteration, which changed at most the next place of the caller's memory. */
  lemma SlotsOkStep(slots: seq<SlotRead>, longer: seq<SlotRead>, e: ReadStep, first: nat, before: seq<int>, after: seq<int>, was: seq<int>)
    requires longer == Recorded(slots, e) && SlotsOk(slots, first, before, was)
    requires |slots| * DMA_BUFFER_SIZE + DMA_BUFFER_SIZE <= |before| == |after|
    requires before[|slots| * DMA_BUFFER_SIZE..] == was[|slots| * DMA_BUFFER_SIZE..]
    requires e.Took? ==> SlotOk(e.slot, first + |slots|, |slots| * DMA_BUFFER_SIZE, after, before)
    requires forall b :: 0 <= b < |after| && !(|slots| * DMA_BUFFER_SIZE <= b < (|slots| + 1) * DMA_BUFFER_SIZE) ==> after[b] == before[b]
    ensures SlotsOk(longer, first, after, was)
    ensures after[(|slots| + 1) * DMA_BUFFER_SIZE..] == was[(|slots| + 1) * DMA_BUFFER_SIZE..]
  {
    var at := |slots| * DMA_BUFFER_SIZE;
    Untouched(before, after, at, DMA_BUFFER_SIZE);
    assert before[at..][DMA_BUFFER_SIZE..] == before[at + DMA_BUFFER_SIZE..];
    assert was[at..][DMA_BUFFER_SIZE..] == was[at + DMA_BUFFER_SIZE..];
    if e.Took? {
      SlotOkSince(e.slot, first + |slots|, at, after, before, was);
      SlotsOkExtend(slots, e.slot, first, before, after, was);
    } else {
      SlotsOkKept(slots, first, before, after, was);
    }
  }

  /** If the handler has answered every interrupt before the next, it was at most 63 buffers behind at each test. */
  ghost predicate KeptUp(run: seq<HwCount.Event>, slots: seq<SlotRead>) {
    HwCount.KeepsUp(run) ==>
      forall k :: 0 <= k < |slots| && slots[k].Copied? ==> slots[k].doneAtTest - slots[k].hw < 2 * DMA_BUFFER_PER_IRQ
  }

  lemma KeptUpLater(run: seq<HwCount.Event>, later: seq<HwCount.Event>, slots: seq<SlotRead>)
    requires KeptUp(run, slots) && run <= later
    ensures KeptUp(later, slots)
  {
    if HwCount.KeepsUp(later) {
      HwCount.KeepsUpPrefix(later, |run|);
      assert later[..|run|] == run;
    }
  }

  lemma KeptUpExtend(run: seq<HwCount.Event>, slots: seq<SlotRead>, longer: seq<SlotRead>, e: SlotRead)
    requires KeptUp(run, slots) && KeptUp(run, [e]) && longer == slots + [e]
    ensures KeptUp(run, longer)
  {
    assert [e][0] == e;
  }

  /** `run` led to the test of a copied buffer. */
  lemma KeptUpAtTest(run: seq<HwCount.Event>, e: SlotRead)
    requires e.Copied? && HwCount.After(run).hw == e.hw && HwCount.After(run).done == e.doneAtTest < INT64_END
    ensures KeptUp(run, [e])
  {
    if HwCount.KeepsUp(run) {
      HwCount.DoneIsCount(run);
      HwCount.LagBound(run);
    }
  }

  /** With such a handler every buffer copied is whole, if at most 64 more were completed during its copy. */
  lemma CopiesAreWhole(run: seq<HwCount.Event>, slots: seq<SlotRead>, first: nat, data: seq<int>, was: seq<int>, k: nat)
    requires SlotsOk(slots, first, data, was) && KeptUp(run, slots) && HwCount.KeepsUp(run)
    requires k < |slots| && slots[k].Copied? && slots[k].doneAtEnd - slots[k].doneAtTest <= 2 * DMA_BUFFER_PER_IRQ
    ensures data[k * DMA_BUFFER_SIZE..(k + 1) * DMA_BUFFER_SIZE] == seq(DMA_BUFFER_SIZE, i => first + k)
  {
    assert SlotOk(slots[k], first + k, k * DMA_BUFFER_SIZE, data, was);
  }

  class WriterChan {
    var hwCount: nat
    var hwCountLast: nat
    var swCount: nat
    var enable: bool
    var device: Device
    // The completions and handled interrupts since the start.
    ghost var run: seq<HwCount.Event>

    ghost predicate Valid()
      reads `hwCount, `hwCountLast, `device, `run
    {
      && Inv(device)
      && hwCount == hwCountLast <= device.done < INT64_END
      && device.done - hwCount < COUNT_WRAP
      && InRun()
    }

    /** The counters are those that `HwCount` derives from the run. */
    ghost predicate InRun()
      reads `hwCount, `hwCountLast, `device, `run
    {
      var c := HwCount.After(run);
      c.done == device.done && c.hw == hwCount && c.last == hwCountLast
    }

    constructor ()
      ensures Valid() && !enable && hwCount == swCount == 0
    {
      hwCount, hwCountLast, swCount, enable := 0, 0, 0, false;
      device, run := Start(), [];
    }

    /** The part of the interrupt handler that serves this channel. */
    method Interrupt(loopStatus: nat)
      modifies `hwCount, `hwCountLast
      ensures hwCount == hwCountLast == HwCount.Reconstruct(old(hwCount), old(hwCountLast), loopStatus)
    {
      hwCount := And(hwCount, 0xffff_ffff_ff00_0000);
      hwCount := Or(hwCount, loopStatus / 0x1_0000 * DMA_BUFFER_COUNT + And(loopStatus, 0xffff));
      if hwCountLast > hwCount {
        hwCount := hwCount + COUNT_WRAP;
      }
      hwCountLast := hwCount;
    }

    /** One byte written by the device, or one run of the handler. */
    method Step(irq: bool)
      requires Valid()
      modifies `hwCount, `hwCountLast, `device, `run
      ensures Valid() && old(hwCount) <= hwCount && old(device.done) <= device.done && old(run) <= run
      ensures irq ==> hwCount == device.done && device == old(device)
      ensures !irq ==> hwCount == old(hwCount)
      ensures !irq && old(device).done + 1 < INT64_END && old(device).done + 1 - hwCount < COUNT_WRAP ==> device == WriteByte(old(device))
    {
      if irq {
        HwCount.ReconstructExact(hwCount, device.done);
        HwCount.AfterOne(run, HwCount.Handle);
        Interrupt(HwCount.LoopStatus(device.done));
        run := run + [HwCount.Handle];
      } else if device.done + 1 < INT64_END && device.done + 1 - hwCount < COUNT_WRAP {
        WriteByteKeepsInv(device);
        HwCount.AfterOne(run, HwCount.Complete);
        var next := WriteByte(device);
        if next.done > device.done {
          run := run + [HwCount.Complete];
        }
        device := next;
      }
    }

    /** Device and interrupt handler run while this thread does not. The device never completes
        2^24 buffers without a handled interrupt, and never 2^63 in all. */
    method Concurrently()
      requires Valid()
      modifies `hwCount, `hwCountLast, `device, `run
      ensures Valid()
      ensures old(hwCount) <= hwCount && old(device.done) <= device.done && old(run) <= run
      ensures !enable ==> unchanged(this)
    {
      if enable {
        var steps :| 0 <= steps;
        for i := 0 to steps
          invariant Valid()
          invariant old(hwCount) <= hwCount && old(device.done) <= device.done && old(run) <= run
        {
          var irq: bool := *;
          Step(irq);
        }
      }
    }

    /** `litepcie_read` into `data`, which has room for `size` bytes, and of which the bytes in `writable` can be written.
        `slots` records, in order, what happened to each buffer; it is proof bookkeeping only. `overflows` goes to the log.
        A signal can end a blocking wait at any moment. */
    method Read(size: nat, nonblock: bool, data: array<int>, writable: nat -> bool)
      returns (r: ReadStatus, overflows: nat, ghost slots: seq<SlotRead>)
      requires Valid() && size <= data.Length
      modifies `hwCount, `hwCountLast, `swCount, `device, `run, data
      ensures Valid() && hwCount >= old(hwCount)
      ensures swCount == old(swCount) + |slots|
      ensures old(swCount) <= old(hwCount) ==> swCount <= hwCount
      ensures r.Bytes? ==> r.n == |slots| * DMA_BUFFER_SIZE && r.n <= size
      ensures r.Bytes? ==> size - r.n < DMA_BUFFER_SIZE || hwCount <= swCount
      ensures overflows == Skips(slots)
      // with room for a buffer it comes back without one only from a ring that is empty, or reset, and does not block
      ensures r.Bytes? && slots == [] && size >= DMA_BUFFER_SIZE ==> nonblock && old(hwCount) < old(swCount)
      ensures r.Again? || r.Interrupted? ==> slots == []
      ensures r.Again? <==> nonblock && old(hwCount) == old(swCount)
      ensures r.Interrupted? ==> !nonblock && hwCount <= swCount
      ensures r.Fault? ==> (|slots| + 1) * DMA_BUFFER_SIZE <= size && swCount < hwCount && !Reachable(writable, |slots| * DMA_BUFFER_SIZE)
      ensures AllReachable(slots, writable)
      ensures SlotsOk(slots, old(swCount), data[..], old(data[..]))
      ensures AllSeen(slots, old(hwCount), hwCount, old(device.done), device.done)
      ensures r.Bytes? ==> data[r.n..] == old(data[r.n..])
      ensures old(run) <= run && KeptUp(run, slots)
    {
      slots := [];
      if nonblock {
        if hwCount == swCount {
          return Again, 0, slots;
        }
      } else {
        Concurrently();
        if hwCount <= swCount {
          return Interrupted, 0, slots;
        }
      }
      r, overflows, slots := CopyBuffers(size, data, writable);
    }

    /** Its loop. */
    method CopyBuffers(size: nat, data: array<int>, writable: nat -> bool)
      returns (r: ReadStatus, overflows: nat, ghost slots: seq<SlotRead>)
      requires Valid() && size <= data.Length
      modifies `hwCount, `hwCountLast, `swCount, `device, `run, data
      ensures Valid() && hwCount >= old(hwCount) && old(run) <= run
      ensures AllSeen(slots, old(hwCount), hwCount, old(device.done), device.done) && AllReachable(slots, writable)
      ensures swCount == old(swCount) + |slots|
      ensures old(swCount) <= old(hwCount) ==> swCount <= hwCount
      ensures (r.Bytes? || r.Fault?) && overflows == Skips(slots)
      ensures r.Bytes? ==> r.n == |slots| * DMA_BUFFER_SIZE && r.n <= size
      ensures r.Bytes? ==> size - r.n < DMA_BUFFER_SIZE || hwCount <= swCount
      ensures r.Fault? ==> (|slots| + 1) * DMA_BUFFER_SIZE <= size && swCount < hwCount && !Reachable(writable, |slots| * DMA_BUFFER_SIZE)
      ensures SlotsOk(slots, old(swCount), data[..], old(data[..])) && KeptUp(run, slots)
      ensures r.Bytes? ==> data[r.n..] == old(data[r.n..])
    {
      slots := [];
      ghost var was := data[..];
      var i: nat := 0;
      overflows := 0;
      var len := size;
      var step := Empty;
      while len >= DMA_BUFFER_SIZE
        invariant Valid() && hwCount >= old(hwCount) && device.done >= old(device.done) && old(run) <= run && !step.Failed?
        invariant AllSeen(slots, old(hwCount), hwCount, old(device.done), device.done) && AllReachable(slots, writable)
        invariant overflows == Skips(slots)
        invariant i == |slots| && swCount == old(swCount) + i && 0 <= len == size - i * DMA_BUFFER_SIZE
        invariant old(swCount) <= old(hwCount) ==> swCount <= hwCount
        invariant SlotsOk(slots, old(swCount), data[..], was) && KeptUp(run, slots)
        invariant data[i * DMA_BUFFER_SIZE..] == was[i * DMA_BUFFER_SIZE..]
      {
        ghost var before, earlier, mid, doneMid := data[..], run, hwCount, device.done;
        step := ReadOne(data, i, writable);
        ghost var longer := Recorded(slots, step);
        SeenStep(slots, longer, step, writable, old(hwCount), mid, hwCount, old(device.done), doneMid, device.done);
        KeptUpLater(earlier, run, slots);
        SlotsOkStep(slots, longer, step, old(swCount), before, data[..], was);
        if !step.Took? {
          break;
        }
        if step.slot.Skipped? {
          overflows := overflows + 1;
        }
        KeptUpExtend(run, slots, longer, step.slot);
        SkipsOne(slots, step.slot);
        slots := longer;
        len := len - DMA_BUFFER_SIZE;
        i := i + 1;
      }
      r := if step.Failed? then Fault else Bytes(size - len);
    }

    /** One iteration of its loop, for the `i`-th place of `data`. */
    method ReadOne(data: array<int>, i: nat, writable: nat -> bool) returns (e: ReadStep)
      requires Valid() && (i + 1) * DMA_BUFFER_SIZE <= data.Length
      modifies `hwCount, `hwCountLast, `swCount, `device, `run, data
      ensures Valid() && hwCount >= old(hwCount) && device.done >= old(device.done) && old(run) <= run
      ensures swCount == old(swCount) + (if e.Took? then 1 else 0)
      ensures old(swCount) <= old(hwCount) ==> swCount <= hwCount
      ensures e.Empty? ==> hwCount <= swCount && data[..] == old(data[..])
      ensures e.Failed? ==> swCount < hwCount && !Reachable(writable, i * DMA_BUFFER_SIZE)
      ensures e.Took? ==> SlotOk(e.slot, old(swCount), i * DMA_BUFFER_SIZE, data[..], old(data[..])) && KeptUp(run, [e.slot])
      ensures e.Took? ==> Seen(e.slot, old(hwCount), hwCount, old(device.done), device.done)
      ensures e.Took? && e.slot.Copied? ==> Reachable(writable, i * DMA_BUFFER_SIZE)
      ensures forall b :: 0 <= b < data.Length && !(i * DMA_BUFFER_SIZE <= b < (i + 1) * DMA_BUFFER_SIZE) ==> data[b] == old(data[b])
    {
      Concurrently();
      if hwCount - swCount <= 0 {
        return Empty;
      }
      Concurrently();
      var tested, done := hwCount, device.done;
      ghost var earlier := run;
      if hwCount - swCount > DMA_BUFFER_COUNT / 2 {
        e := Took(Skipped(hwCount));
      } else {
        var ok := CopyToUser(data, i * DMA_BUFFER_SIZE, writable);
        if !ok {
          return Failed;
        }
        var slot := Copied(tested, done, device.done);
        KeptUpAtTest(earlier, slot);
        KeptUpLater(earlier, run, [slot]);
        e := Took(slot);
      }
      swCount := swCount + 1;
    }

    /** Copies the slot of buffer `swCount`, one byte at a time, while the device keeps running. */
    method CopyToUser(data: array<int>, at: nat, writable: nat -> bool) returns (ok: bool)
      requires Valid() && at + DMA_BUFFER_SIZE <= data.Length
      requires 0 < hwCount - swCount <= DMA_BUFFER_COUNT / 2
      modifies `hwCount, `hwCountLast, `device, `run, data
      ensures Valid() && hwCount >= old(hwCount) && device.done >= old(device.done) && old(run) <= run
      ensures ok <==> Reachable(writable, at)
      ensures ok && device.done < old(hwCount) + DMA_BUFFER_COUNT / 2 ==>
        forall b :: at <= b < at + DMA_BUFFER_SIZE ==> data[b] == swCount
      ensures forall b :: 0 <= b < data.Length && !(at <= b < at + DMA_BUFFER_SIZE) ==> data[b] == old(data[b])
    {
      ok := true;
      for b := 0 to DMA_BUFFER_SIZE
        invariant Valid() && hwCount >= old(hwCount) && device.done >= old(device.done) && old(run) <= run
        invariant forall j :: at <= j < at + b ==> writable(j)
        invariant device.done < old(hwCount) + DMA_BUFFER_COUNT / 2 ==>
          forall j :: at <= j < at + b ==> data[j] == swCount
        invariant forall j :: 0 <= j < data.Length && !(at <= j < at + DMA_BUFFER_SIZE) ==> data[j] == old(data[j])
      {
        Concurrently();
        if !writable(at + b) {
          return false;
        }
        ByteSurvives(device, swCount, b);
        data[at + b] := device.mem[Slot(swCount)][b];
      }
    }

    /** The receive half of `litepcie_poll`. */
    predicate Pollin()
      reads `hwCount, `swCount
    {
      PollIn(hwCount, swCount)
    }

    /** `LITEPCIE_IOCTL_DMA_WRITER`: starts or stops the device when `on` changes, and
        reports the counters. */
    method DmaWriter(on: bool) returns (hw: nat, sw: nat)
      requires Valid()
      modifies this
      ensures Valid() && hw == hwCount && sw == swCount && enable == on
      ensures on == old(enable) ==> unchanged(this)
      ensures on != old(enable) ==> hwCount == 0 && swCount == 0
      ensures on && !old(enable) ==> device.done == 0
    {
      if on != enable {
        hwCount, hwCountLast, swCount := 0, 0, 0;
        device, run := Start(), [];
      }
      enable := on;
      hw, sw := Counters();
    }

    /** The end of that ioctl, which is all that is left of it on a channel that is already running. */
    method Counters() returns (hw: nat, sw: nat)
      ensures hw == hwCount && sw == swCount
    {
      hw, sw := hwCount, swCount;
    }

    /** `LITEPCIE_IOCTL_MMAP_DMA_WRITER_UPDATE`. */
    method WriterUpdate(sw: nat)
      modifies `swCount
      ensures swCount == sw
    {
      swCount := sw;
    }
  }
}
