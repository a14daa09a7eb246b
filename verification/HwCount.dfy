/** How the interrupt handler rebuilds an unbounded buffer count from the
    status word of the device, which wraps after 2^24 buffers. */
module HwCount {
  import opened Bits
  import opened DmaConfig

  /** The status word for a device that has completed `done` buffers since its
      start: the table loop in the upper half, the descriptor in the lower. */
  function LoopStatus(done: nat): (status: nat)
    ensures status < 0x1_0000_0000
  {
    done / DMA_BUFFER_COUNT % 0x1_0000 * 0x1_0000 + done % DMA_BUFFER_COUNT
  }

  /** The three assignments of the handler, as one expression. */
  function Reconstruct(hwCount: nat, last: nat, status: nat): nat {
    var masked := And(hwCount, 0xffff_ffff_ff00_0000);
    var joined := Or(masked, status / 0x1_0000 * DMA_BUFFER_COUNT + And(status, 0xffff));
    if last > joined then joined + COUNT_WRAP else joined
  }

  lemma MaskClearsLow24(c: nat)
    requires c < INT64_END
    ensures And(c, 0xffff_ffff_ff00_0000) == c - c % COUNT_WRAP
  {
    Pow2Values();
    var m := 0xffff_ffff_ff00_0000;
    AndSplit(c, m, 24);
    HiLo(c, 24);
    HiLo(m, 24);
    assert Hi(m, 24) == Pow2(40) - 1 && Lo(m, 24) == 0;
    AndOnes(Hi(c, 24), 40);
    HiLo(Hi(c, 24), 40);
  }

  lemma StatusIsLow24(done: nat)
    ensures LoopStatus(done) / 0x1_0000 * DMA_BUFFER_COUNT + And(LoopStatus(done), 0xffff)
         == done % COUNT_WRAP
  {
    Pow2Values();
    var s := LoopStatus(done);
    var loop, index := done / DMA_BUFFER_COUNT % 0x1_0000, done % DMA_BUFFER_COUNT;
    AndOnes(s, 16);
    HiLo(s, 16);
    DivModUnique(s, 0x1_0000, loop, index);
    HiLo(done, 24);
    DivModUnique(done, COUNT_WRAP, done / DMA_BUFFER_COUNT / 0x1_0000, loop * DMA_BUFFER_COUNT + index);
  }

  lemma WrapArithmetic(hw: nat, done: nat)
    requires hw <= done
    ensures (done - hw) % COUNT_WRAP ==
      if hw % COUNT_WRAP <= done % COUNT_WRAP then done % COUNT_WRAP - hw % COUNT_WRAP
      else done % COUNT_WRAP - hw % COUNT_WRAP + COUNT_WRAP
  {
    var q1, r1, q2, r2 := hw / COUNT_WRAP, hw % COUNT_WRAP, done / COUNT_WRAP, done % COUNT_WRAP;
    if r1 <= r2 {
      DivModUnique(done - hw, COUNT_WRAP, q2 - q1, r2 - r1);
    } else {
      DivModUnique(done - hw, COUNT_WRAP, q2 - q1 - 1, r2 - r1 + COUNT_WRAP);
    }
  }

  /** One handled interrupt advances the count by the number of buffers
      completed since the previous one, taken modulo 2^24. */
  lemma ReconstructAdvance(hw: nat, done: nat)
    requires hw <= done < INT64_END
    ensures Reconstruct(hw, hw, LoopStatus(done)) == hw + (done - hw) % COUNT_WRAP
  {
    MaskClearsLow24(hw);
    StatusIsLow24(done);
    Pow2Values();
    OrDisjoint(hw / COUNT_WRAP, done % COUNT_WRAP, 24);
    WrapArithmetic(hw, done);
  }

  /** The handler stores the masked count before the complete one. A thread that reads in between sees a count that
      is never too large, and is right exactly at a multiple of 2^24. */
  lemma MaskedStore(hw: nat, done: nat)
    requires hw <= done < INT64_END
    ensures var masked := And(hw, 0xffff_ffff_ff00_0000);
      masked <= hw <= Reconstruct(hw, hw, LoopStatus(done)) && (masked == hw <==> hw % COUNT_WRAP == 0)
  {
    MaskClearsLow24(hw);
    ReconstructAdvance(hw, done);
  }

  /** The rebuilt count is the true one exactly when fewer than 2^24 buffers
      were completed since the previous handled interrupt. */
  lemma ReconstructExact(hw: nat, done: nat)
    requires hw <= done < INT64_END
    ensures Reconstruct(hw, hw, LoopStatus(done)) == done <==> done - hw < COUNT_WRAP
  {
    ReconstructAdvance(hw, done);
    Residue(done - hw);
  }

  lemma Residue(x: nat)
    ensures x % COUNT_WRAP == x <==> x < COUNT_WRAP
  {}

  // ----- whole runs -----

  /** The device completes a buffer, or the handler runs. */
  datatype Event = Complete | Handle

  datatype Counts = Counts(done: nat, hw: nat, last: nat, pending: bool)

  /** The descriptors that raise an interrupt when they complete. */
  predicate RaisesIrq(n: nat) {
    n % DMA_BUFFER_COUNT % DMA_BUFFER_PER_IRQ == 0
  }

  function Next(c: Counts, e: Event): Counts {
    match e
    case Complete => c.(done := c.done + 1, pending := c.pending || RaisesIrq(c.done))
    case Handle =>
      var r := Reconstruct(c.hw, c.last, LoopStatus(c.done));
      c.(hw := r, last := r, pending := false)
  }

  lemma HandleCatchesUp(c: Counts)
    requires c.last == c.hw <= c.done < INT64_END && c.done - c.hw < COUNT_WRAP
    ensures Next(c, Handle) == Counts(c.done, c.done, c.done, false)
  {
    ReconstructExact(c.hw, c.done);
  }

  /** The state after a run that started with `dma_writer_start` or `dma_reader_start`. */
  function After(run: seq<Event>): Counts {
    if run == [] then Counts(0, 0, 0, false)
    else Next(After(run[..|run| - 1]), run[|run| - 1])
  }

  function CountOf(e: Event, run: seq<Event>): (n: nat)
    ensures n <= |run|
  {
    if run == [] then 0
    else CountOf(e, run[..|run| - 1]) + (if run[|run| - 1] == e then 1 else 0)
  }

  /** Never 2^24 completions without a handled interrupt. */
  ghost predicate Timely(run: seq<Event>) {
    forall i, j :: 0 <= i <= j <= |run| && Handle !in run[i..j] ==> j - i < COUNT_WRAP
  }

  lemma TimelyPrefix(run: seq<Event>, k: nat)
    requires k <= |run| && Timely(run)
    ensures Timely(run[..k])
  {
    forall i, j | 0 <= i <= j <= k && Handle !in run[..k][i..j] ensures j - i < COUNT_WRAP {
      assert run[..k][i..j] == run[i..j];
    }
  }

  /** Start of the stretch of completions that ends the run. */
  ghost function LastHandled(run: seq<Event>): (i: nat)
    ensures i <= |run|
  {
    if run == [] then 0
    else if run[|run| - 1] == Handle then |run|
    else LastHandled(run[..|run| - 1])
  }

  lemma {:induction false} TailIsCompletions(run: seq<Event>)
    ensures Handle !in run[LastHandled(run)..]
  {
    if run != [] && run[|run| - 1] != Handle {
      var front := run[..|run| - 1];
      TailIsCompletions(front);
      assert run[LastHandled(run)..] == front[LastHandled(front)..] + [Complete];
    }
  }

  /** In every timely run the handler's count is the number of buffers that were
      complete when it last ran, and the status word loses nothing. */
  lemma {:induction false} CountIsExact(run: seq<Event>)
    requires Timely(run) && |run| < INT64_END
    ensures After(run).done == CountOf(Complete, run)
    ensures After(run).last == After(run).hw
    ensures After(run).hw == CountOf(Complete, run[..LastHandled(run)])
    ensures After(run).done - After(run).hw == |run| - LastHandled(run)
    ensures run != [] && run[|run| - 1] == Handle ==> After(run).hw == CountOf(Complete, run)
  {
    if run != [] {
      var k := |run| - 1;
      var front := run[..k];
      TimelyPrefix(run, k);
      CountIsExact(front);
      TailIsCompletions(front);
      assert run[..|run|] == run;
      assert front[..LastHandled(front)] == run[..LastHandled(front)];
      if run[k] == Handle {
        assert run[LastHandled(front)..k] == front[LastHandled(front)..];
        HandleCatchesUp(After(front));
      }
    }
  }

  lemma StepNeverDecreases(run: seq<Event>)
    requires Timely(run) && 0 < |run| < INT64_END
    ensures After(run[..|run| - 1]).hw <= After(run).hw
  {
    var front := run[..|run| - 1];
    TimelyPrefix(run, |run| - 1);
    CountIsExact(front);
    if run[|run| - 1] == Handle { ReconstructAdvance(After(front).hw, After(front).done); }
  }

  /** The handler's count never goes back. */
  lemma {:induction false} CountNeverDecreases(run: seq<Event>, k: nat)
    requires Timely(run) && |run| < INT64_END && k <= |run|
    ensures After(run[..k]).hw <= After(run).hw
    decreases |run|
  {
    if k == |run| {
      assert run[..k] == run;
    } else {
      var front := run[..|run| - 1];
      TimelyPrefix(run, |run| - 1);
      CountNeverDecreases(front, k);
      assert front[..k] == run[..k];
      StepNeverDecreases(run);
    }
  }

  /** The handler answers each interrupt before the next one is raised. */
  ghost predicate KeepsUp(run: seq<Event>) {
    forall k :: 0 <= k < |run| && run[k] == Complete && RaisesIrq(After(run[..k]).done)
      ==> !After(run[..k]).pending
  }

  lemma KeepsUpPrefix(run: seq<Event>, k: nat)
    requires k <= |run| && KeepsUp(run)
    ensures KeepsUp(run[..k])
  {
    forall j | 0 <= j < k ensures run[..k][..j] == run[..j] && run[..k][j] == run[j] {}
  }

  lemma {:induction false} DoneIsCount(run: seq<Event>)
    ensures After(run).done == CountOf(Complete, run)
  {
    if run != [] { DoneIsCount(run[..|run| - 1]); }
  }

  /** One more event. */
  lemma AfterOne(run: seq<Event>, e: Event)
    ensures After(run + [e]) == Next(After(run), e)
  {
    assert (run + [e])[..|run|] == run;
  }

  function Multiples(n: nat): nat { (n + DMA_BUFFER_PER_IRQ - 1) / DMA_BUFFER_PER_IRQ }

  lemma MultiplesStep(n: nat)
    ensures Multiples(n + 1) == Multiples(n) + (if RaisesIrq(n) then 1 else 0)
  {
    var q, r := n / DMA_BUFFER_PER_IRQ, n % DMA_BUFFER_PER_IRQ;
    var t := n / DMA_BUFFER_COUNT;
    DivModUnique(n % DMA_BUFFER_COUNT, DMA_BUFFER_PER_IRQ, q - 8 * t, r);
    DivModUnique(n + DMA_BUFFER_PER_IRQ, DMA_BUFFER_PER_IRQ, q + 1, r);
    if r == 0 {
      DivModUnique(n + DMA_BUFFER_PER_IRQ - 1, DMA_BUFFER_PER_IRQ, q, DMA_BUFFER_PER_IRQ - 1);
    } else {
      DivModUnique(n + DMA_BUFFER_PER_IRQ - 1, DMA_BUFFER_PER_IRQ, q + 1, r - 1);
    }
  }

  lemma MultiplesBound(lo: nat, hi: nat)
    requires lo <= hi
    ensures hi - lo < DMA_BUFFER_PER_IRQ * (Multiples(hi) - Multiples(lo) + 1)
  {}

  /** One descriptor in 32 interrupts, also across the end of the table, so a
      handler that keeps up is never more than 63 buffers behind the device. */
  lemma {:induction false} LagBound(run: seq<Event>)
    requires KeepsUp(run) && CountOf(Complete, run) < INT64_END
    ensures var c := After(run);
      && c.last == c.hw <= c.done <= |run|
      && Multiples(c.done) - Multiples(c.hw) == (if c.pending then 1 else 0)
      && c.done - c.hw <= 2 * DMA_BUFFER_PER_IRQ - 1
      && (!c.pending ==> c.done - c.hw < DMA_BUFFER_PER_IRQ)
  {
    if run != [] {
      var k := |run| - 1;
      var front := run[..k];
      DoneIsCount(run);
      DoneIsCount(front);
      KeepsUpPrefix(run, k);
      LagBound(front);
      var c := After(front);
      if run[k] == Handle {
        HandleCatchesUp(c);
      } else {
        MultiplesStep(c.done);
        MultiplesBound(c.hw, c.done + 1);
      }
    }
  }

  /** A handler that keeps up has the exact count whenever it runs. */
  lemma KeepsUpIsExact(run: seq<Event>)
    requires KeepsUp(run) && CountOf(Complete, run) < INT64_END
    ensures After(run + [Handle]).hw == After(run).done == After(run + [Handle]).done
  {
    LagBound(run);
    DoneIsCount(run);
    HandleCatchesUp(After(run));
    AfterOne(run, Handle);
  }
}
