/** The zero-copy mode of the user library: each call of `litepcie_dma_process` takes a window of each
    ring, which `litepcie_dma_next_read_buffer` and `litepcie_dma_next_write_buffer` then hand out. */
module ZeroCopy {
  import opened DmaConfig
  import opened WriterChannel
  import opened ReaderChannel
  import Ring = RxDevice

  const UINT32_END := 0x1_0000_0000

  /** A slot of a ring, or NULL. */
  datatype Handed = Null | Slot(s: nat)

  /** The log `[0, 1, 2, ...]`: every buffer handed out once, in order. */
  ghost predicate Tiles(log: seq<nat>, next: nat) {
    |log| == next && forall i :: 0 <= i < next ==> log[i] == i
  }

  /** The device has not begun to write over buffer `n`. */
  predicate InTime(d: Ring.Device, n: nat) {
    d.done < n + DMA_BUFFER_COUNT || (d.done == n + DMA_BUFFER_COUNT && d.fill == 0)
  }

  class DmaCtrl {
    const useReader: bool
    const useWriter: bool
    const rx: WriterChan
    const tx: ReaderChan
    var readerHw: nat
    var readerSw: nat
    var writerHw: nat
    var writerSw: nat
    var availableRead: nat
    var availableWrite: nat
    var readOffset: nat
    var writeOffset: nat
    // What the last poll reported; a failing poll leaves it as it was.
    var pollin: bool
    var pollout: bool
    // Numbers of the next buffers to be handed out, and of those handed out so far.
    ghost var nextRead: nat
    ghost var nextWrite: nat
    ghost var readLog: seq<nat>
    ghost var writeLog: seq<nat>

    ghost predicate Valid()
      reads this, rx, tx
    {
      && rx.Valid() && tx.Valid()
      && (useWriter ==> ReadSide())
      && (useReader ==> WriteSide())
    }

    /** The window still to be handed out ends where the kernel's count stands. */
    ghost predicate ReadSide()
      reads this, rx
    {
      && nextRead + availableRead == rx.swCount <= rx.hwCount
      && (availableRead > 0 ==> readOffset == nextRead % DMA_BUFFER_COUNT)
      && (!rx.enable ==> rx.swCount == 0)
    }

    /** And the writer is never more than half a ring ahead of the device. */
    ghost predicate WriteSide()
      reads this, tx
    {
      && nextWrite + availableWrite == tx.swCount
      && tx.swCount <= tx.hwCount + DMA_BUFFER_COUNT / 2
      && (availableWrite > 0 ==> writeOffset == nextWrite % DMA_BUFFER_COUNT)
      && (!tx.enable ==> tx.swCount == 0)
    }

    constructor (useReader: bool, useWriter: bool, rx: WriterChan, tx: ReaderChan)
      requires rx.Valid() && tx.Valid() && rx.swCount == 0 && tx.swCount == 0
      ensures Valid() && this.rx == rx && this.tx == tx && this.useReader == useReader && this.useWriter == useWriter
      ensures !pollin && !pollout && availableRead == availableWrite == 0 && Tiles(readLog, nextRead) && Tiles(writeLog, nextWrite)
    {
      this.useReader, this.useWriter, this.rx, this.tx := useReader, useWriter, rx, tx;
      readerHw, readerSw, writerHw, writerSw := 0, 0, 0, 0;
      availableRead, availableWrite, readOffset, writeOffset := 0, 0, 0, 0;
      pollin, pollout := false, false;
      nextRead, nextWrite, readLog, writeLog := 0, 0, [], [];
    }

    /** Buffers received that the software count has not passed; none in a channel that is off. */
    function Waiting(): int
      reads rx
    {
      if rx.enable then rx.hwCount - rx.swCount else 0
    }

    /** Buffers submitted that the device's count has not passed. */
    function Pending(): int
      reads tx
    {
      if tx.enable then tx.swCount - tx.hwCount else 0
    }

    /** The first lines of `litepcie_dma_process`: enable the engines in use and fetch their counters. */
    method FetchWriter()
      requires Valid()
      modifies `writerHw, `writerSw, rx
      ensures Valid() && rx.swCount == old(rx.swCount)
      ensures useWriter ==> rx.enable && writerHw == rx.hwCount >= old(Waiting()) + writerSw && writerSw == rx.swCount
    {
      if useWriter {
        rx.Concurrently();
        writerHw, writerSw := rx.DmaWriter(true);
      }
    }

    method FetchReader()
      requires Valid()
      modifies `readerHw, `readerSw, tx
      ensures Valid() && tx.swCount == old(tx.swCount)
      ensures useReader ==> tx.enable && readerHw == tx.hwCount >= readerSw - old(Pending()) && readerSw == tx.swCount
    {
      if useReader {
        tx.Concurrently();
        readerHw, readerSw := tx.DmaReader(true);
      }
    }

    /** `poll` on the events of the engines in use; false when it timed out. It may fail, if a signal arrives. */
    method Poll(fails: bool) returns (go: bool)
      requires Valid()
      modifies `pollin, `pollout, rx`hwCount, rx`hwCountLast, rx`device, rx`run
      modifies tx`hwCount, tx`hwCountLast, tx`done, tx`part, tx`consumed, tx`overtook
      ensures Valid() && rx.hwCount >= old(rx.hwCount) && tx.hwCount >= old(tx.hwCount)
      ensures if fails then go && pollin == old(pollin) && pollout == old(pollout) else go == (pollin || pollout)
      ensures !fails ==> pollin == (useWriter && rx.hwCount - rx.swCount > 2)
      ensures !fails ==> pollout == (useReader && tx.swCount - tx.hwCount < DMA_BUFFER_COUNT / 2)
    {
      rx.Concurrently();
      tx.Concurrently();
      if fails {
        // the result is not tested: the events of the previous round are used again
        return true;
      }
      pollin := useWriter && rx.Pollin();
      pollout := useReader && tx.Pollout();
      go := pollin || pollout;
    }

    /** The read event: the buffers between the fetched counts become the window. */
    method TakeReadWindow()
      requires useWriter ==> ReadSide() && rx.enable && writerSw == rx.swCount <= writerHw <= rx.hwCount
      modifies `availableRead, `readOffset, `nextRead, rx`swCount
      ensures (useWriter ==> ReadSide()) && nextRead == old(nextRead) + old(availableRead)
      ensures useWriter && pollin && writerHw - writerSw < UINT32_END ==>
        nextRead == writerSw && availableRead == writerHw - writerSw && rx.swCount == writerHw
      ensures !useWriter || !pollin ==> availableRead == 0
    {
      if pollin && useWriter {
        availableRead := (writerHw - writerSw) % UINT32_END;
        readOffset := writerSw % DMA_BUFFER_COUNT;
        nextRead := writerSw;
        rx.WriterUpdate(writerSw + availableRead);
      } else {
        nextRead := nextRead + availableRead;
        availableRead := 0;
      }
    }

    /** The write event: the window reaches half a ring beyond the fetched count of the device. */
    method TakeWriteWindow()
      requires useReader ==> WriteSide() && tx.enable && readerSw == tx.swCount <= readerHw + DMA_BUFFER_COUNT / 2 && readerHw <= tx.hwCount
      modifies `availableWrite, `writeOffset, `nextWrite, tx`swCount
      ensures (useReader ==> WriteSide()) && nextWrite == old(nextWrite) + old(availableWrite)
      ensures useReader && pollout && readerHw - readerSw < UINT32_END - DMA_BUFFER_COUNT / 2 ==>
        nextWrite == readerSw && tx.swCount == readerHw + DMA_BUFFER_COUNT / 2
        && availableWrite == DMA_BUFFER_COUNT / 2 - (readerSw - readerHw)
      ensures !useReader || !pollout ==> availableWrite == 0
    {
      if pollout && useReader {
        availableWrite := (DMA_BUFFER_COUNT / 2 - (readerSw - readerHw)) % UINT32_END;
        writeOffset := readerSw % DMA_BUFFER_COUNT;
        nextWrite := readerSw;
        tx.ReaderUpdate(readerSw + availableWrite);
      } else {
        nextWrite := nextWrite + availableWrite;
        availableWrite := 0;
      }
    }

    /** The windows after a round that polled successfully: from the fetched software counts to the device's count
        and half a ring beyond it, where the kernel's counts now stand; or nothing, without the event. */
    ghost predicate Taken()
      reads this, rx, tx
    {
      && (useWriter && pollin && writerHw - writerSw < UINT32_END ==>
            nextRead == writerSw && availableRead == writerHw - writerSw && rx.swCount == writerHw)
      && (!useWriter || !pollin ==> availableRead == 0)
      && (useReader && pollout && readerHw - readerSw < UINT32_END - DMA_BUFFER_COUNT / 2 ==>
            nextWrite == readerSw && availableWrite == DMA_BUFFER_COUNT / 2 - (readerSw - readerHw)
            && tx.swCount == readerHw + DMA_BUFFER_COUNT / 2)
      && (!useReader || !pollout ==> availableWrite == 0)
    }

    /** What was fetched still describes the software counts, and the device's counts have only grown. */
    ghost predicate Fetched()
      reads this, rx, tx
    {
      && (useWriter ==> rx.enable && writerSw == rx.swCount && writerHw <= rx.hwCount && writerSw <= writerHw)
      && (useReader ==> tx.enable && readerSw == tx.swCount <= readerHw + DMA_BUFFER_COUNT / 2 && readerHw <= tx.hwCount)
    }

    /** Both events. */
    method TakeWindows()
      requires Valid() && Fetched()
      modifies `availableRead, `availableWrite, `readOffset, `writeOffset, `nextRead, `nextWrite, rx`swCount, tx`swCount
      ensures Valid() && Taken()
      ensures nextRead == old(nextRead) + old(availableRead) && nextWrite == old(nextWrite) + old(availableWrite)
    {
      TakeReadWindow();
      TakeWriteWindow();
    }

    /** The events of a poll that did not fail: more than two buffers waiting, room for more than half a ring. */
    ghost predicate Polled(go: bool)
      reads this, rx, tx
    {
      && (pollin <==> useWriter && rx.hwCount - writerSw > 2)
      && (pollout <==> useReader && readerSw - tx.hwCount < DMA_BUFFER_COUNT / 2)
      && (go <==> pollin || pollout)
    }

    /** `litepcie_dma_process` in zero-copy mode. What a client left over from the previous window is
        passed over (and only that): a client that drains its windows misses nothing. */
    method Process(fails: bool) returns (ghost go: bool)
      requires Valid()
      modifies `readerHw, `readerSw, `writerHw, `writerSw, `availableRead, `availableWrite, `readOffset, `writeOffset
      modifies `pollin, `pollout, `nextRead, `nextWrite, rx, tx
      ensures Valid()
      ensures if fails then go && pollin == old(pollin) && pollout == old(pollout) else Polled(go)
      ensures useWriter ==> writerSw == old(rx.swCount) && writerHw - writerSw >= old(Waiting())
      ensures useReader ==> readerSw == old(tx.swCount) && readerSw - readerHw <= old(Pending())
      ensures go ==> Taken()
      ensures nextRead == old(nextRead) + (if go then old(availableRead) else 0)
      ensures nextWrite == old(nextWrite) + (if go then old(availableWrite) else 0)
      ensures !go ==> availableRead == old(availableRead) && availableWrite == old(availableWrite)
      ensures !go ==> rx.swCount == old(rx.swCount) && tx.swCount == old(tx.swCount)
      // so a client gets its window from the first call on that finds room, or buffers
      ensures !fails && useReader && old(Pending()) < DMA_BUFFER_COUNT / 2 ==> go && pollout
      ensures !fails && useWriter && old(Waiting()) > 2 ==> go && pollin
    {
      FetchWriter();
      FetchReader();
      var some := Poll(fails);
      if some {
        TakeWindows();
      }
      go := some;
    }

    /** `litepcie_dma_next_read_buffer`. */
    method NextReadBuffer() returns (h: Handed)
      requires Valid() && useWriter
      modifies `availableRead, `readOffset, `nextRead, `readLog
      ensures Valid()
      ensures old(availableRead) == 0 <==> h.Null?
      ensures h.Null? ==> unchanged(this)
      ensures h.Slot? ==> h.s == old(nextRead) % DMA_BUFFER_COUNT && availableRead == old(availableRead) - 1
      // the slot holds that buffer, unless the device has come round to it again
      ensures h.Slot? ==> (Ring.Holds(rx.device, old(nextRead)) <==> InTime(rx.device, old(nextRead)))
      ensures old(Tiles(readLog, nextRead)) ==> Tiles(readLog, nextRead)
    {
      if availableRead == 0 {
        return Null;
      }
      availableRead := availableRead - 1;
      Ring.BufferSurvives(rx.device, nextRead);
      NextSlot(nextRead);
      h := Slot(readOffset);
      readOffset := (readOffset + 1) % DMA_BUFFER_COUNT;
      readLog := readLog + [nextRead];
      nextRead := nextRead + 1;
    }

    /** `litepcie_dma_next_write_buffer`. */
    method NextWriteBuffer() returns (h: Handed)
      requires Valid() && useReader
      modifies `availableWrite, `writeOffset, `nextWrite, `writeLog
      ensures Valid()
      ensures old(availableWrite) == 0 <==> h.Null?
      ensures h.Null? ==> unchanged(this)
      ensures h.Slot? ==> h.s == old(nextWrite) % DMA_BUFFER_COUNT && availableWrite == old(availableWrite) - 1
      // the slot holds no earlier buffer that the device has yet to consume
      ensures h.Slot? ==> forall m :: tx.done <= m < old(nextWrite) ==> m % DMA_BUFFER_COUNT != h.s
      ensures old(Tiles(writeLog, nextWrite)) ==> Tiles(writeLog, nextWrite)
    {
      if availableWrite == 0 {
        return Null;
      }
      availableWrite := availableWrite - 1;
      NextSlot(nextWrite);
      forall m | tx.done <= m < nextWrite ensures m % DMA_BUFFER_COUNT != nextWrite % DMA_BUFFER_COUNT {
        SlotsDiffer(m, nextWrite);
      }
      h := Slot(writeOffset);
      writeOffset := (writeOffset + 1) % DMA_BUFFER_COUNT;
      writeLog := writeLog + [nextWrite];
      nextWrite := nextWrite + 1;
    }

    /** A client that drains every window of the directions it uses: over any number of rounds it is handed the
        numbers of the buffers of each ring once, in order, without a gap. */
    method DrainingClient(rounds: nat, fails: nat -> bool)
      requires Valid() && availableRead == availableWrite == 0
      requires Tiles(readLog, nextRead) && Tiles(writeLog, nextWrite)
      modifies this, rx, tx
      ensures Valid() && Tiles(readLog, nextRead) && Tiles(writeLog, nextWrite)
      ensures useWriter ==> |readLog| == rx.swCount <= rx.hwCount
      ensures useReader ==> |writeLog| == tx.swCount
    {
      for i := 0 to rounds
        invariant Valid() && availableRead == availableWrite == 0
        invariant Tiles(readLog, nextRead) && Tiles(writeLog, nextWrite)
      {
        ghost var go := Process(fails(i));
        if useReader {
          DrainWrites();
        }
        if useWriter {
          DrainReads();
        }
      }
    }

    method DrainWrites()
      requires Valid() && useReader
      modifies `availableWrite, `writeOffset, `nextWrite, `writeLog
      ensures Valid() && availableWrite == 0
      ensures old(Tiles(writeLog, nextWrite)) ==> Tiles(writeLog, nextWrite)
    {
      var more := true;
      while more
        invariant Valid() && (old(Tiles(writeLog, nextWrite)) ==> Tiles(writeLog, nextWrite))
        invariant !more ==> availableWrite == 0
        decreases more, availableWrite
      {
        var h := NextWriteBuffer();
        more := h.Slot?;
      }
    }

    method DrainReads()
      requires Valid() && useWriter
      modifies `availableRead, `readOffset, `nextRead, `readLog
      ensures Valid() && availableRead == 0
      ensures old(Tiles(readLog, nextRead)) ==> Tiles(readLog, nextRead)
    {
      var more := true;
      while more
        invariant Valid() && (old(Tiles(readLog, nextRead)) ==> Tiles(readLog, nextRead))
        invariant !more ==> availableRead == 0
        decreases more, availableRead
      {
        var h := NextReadBuffer();
        more := h.Slot?;
      }
    }
  }
}
