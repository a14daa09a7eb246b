# Verified model of the XTRX streaming stack

This project models, in Dafny, the parts of the software-defined-radio stack in which counters, buffers and wires
have to agree across several programs, and proves what they promise each other. Every theorem is stated for all
inputs and all interleavings of the model, with the source's own constants.

* **The DMA ring.** The device, the interrupt handler, `read`/`write`/`poll` of the kernel module and three kinds
  of clients (`read()`/`write()`, the SoapySDR driver, the zero-copy library) share 256 buffers and a set of
  counters. `HwCount` is the count the interrupt handler rebuilds from a status word that wraps; `RxDevice` is a
  ring whose every byte carries the number of the buffer it belongs to; `WriterChannel` (device to host) and
  `ReaderChannel` (host to device) are the kernel module's paths, with the device and the interrupt handler free to
  run between any two accesses (`Concurrently`); `SoapyRx`, `SoapyTx` and `ZeroCopy` are the clients on top of them.
* **The loopback test** (`PnTest`): the data mask, the pseudo-noise pattern, and the search for the delay.
* **The flash update** (`FlashDevice`, `FlashWrite`): erase, program, verify and retry over SPI transfers, against a
  NOR flash that ignores commands while busy or not enabled and may spoil what it programs.
* **The RFIC's digital loop** (`RxAlign`): generator, 12-bit double-data-rate wire, alignment registers, checker.
* **The bit-banged I2C master** (`I2c`), heard by a listener that follows NXP UM10204.
* **The stream rechunker** (`Rechunk`), **channel (de)interleaving** (`Interleave`) and the **cyclic file player** (`Play`).

`Bits` holds `&`, `|` and shifts on unbounded naturals; `DmaConfig` the constants.

## How to read it

Code that changes state is modelled as a class or a method with the source's own fields, branches and loops; ghost
fields record history (buffers consumed, handles given out, elements returned) and appear only in contracts. A method
whose contract begins with `old(Disciplined())`, `old(Ordered())` or `old(Accounted())` promises something to clients
that kept to the rules so far, and promises to keep the rules.

`WriterChan` and `ReaderChan` are the two halves of one `litepcie_dma_chan`; the halves share no field.
Two things are assumed of the surroundings, both inside `Concurrently`: the device never completes 2^24 buffers
between two handled interrupts (the bound `HwCount.ReconstructExact` shows to be exactly what the handler needs),
and counts stay below 2^63. Where a theorem needs the device to stay near a client, that is a hypothesis of the
theorem. Which of the caller's bytes can be accessed and which polls fail are parameters; times, signals, the slave's
bits and the flash's faults are nondeterministic.

## What the proofs show about the source

* The interrupt handler's count is right exactly if fewer than 2^24 buffers completed since it last ran.
* With `POLLIN` at `hw - sw > 2` and `POLLOUT` at `sw - hw < 128`, the asserts of the SoapySDR driver hold for clients
  that hold at most 2 received or 128 transmit buffers, and these bounds cannot be raised. This is proved for an
  interrupt handler whose update of the count is one step. In the source it is up to three stores, of which the first
  is the masked count; a client on another processor that reads it in between sees a count that may have gone back
  (`HwCount.MaskedStore`). If it reads it with `sw <= user <= hw` and at most two buffers held, the assert at
  Streaming.cpp line 207 holds in its next call if and only if `user <= hw - hw % 2^24`, that is, if it has not come past
  the last multiple of 2^24 (`SoapyRx.MaskedAssertHolds`); it fails at `sw = user = 3`, `hw = 5`
  (`SoapyRx.MaskedAssertFails`).
* A copy made by `read()` is whole as long as the device stays within half a ring of the count that was tested; with a
  handler that answers every interrupt before the next, it may complete 64 buffers during the copy
  (`WriterChannel.CopiesAreWhole`).
* `readStream` and `writeStream` account for every element, and a timeout loses none; an overflow, or a poll that fails,
  drops what `readStream` had taken from the buffer before. `writeStream` abandons the buffer that comes with
  UNDERFLOW: it is never filled, and the next submission passes over it.
* `deactivateStream` stops the receive engine, but enables the transmit engine once more (Streaming.cpp line 139). A
  transmit stream that is activated again begins at zero while the kernel's counts go on, and is out of order exactly if
  anything was submitted before (`SoapyTx.TxStream.Restart`).
* The delay search decodes the delay of every buffer with fewer than half its words corrupted at all data widths up
  to 16 **except 5 and 6**, where two delays can share enough words; `SearchDecodesDelay` has both directions.
* Success of `litepcie_flash_write` can be trusted exactly if bytes are programmed rather than pages, or the target starts
  on a page boundary, or it is a single page (`SuccessExact`). The source does not check that. Otherwise a program wraps
  in its page, and a fault can spoil a byte of the unit verified before it: with blank data on a blank flash and one
  fault, in the second program, all verifications match and the data is not there (`WrappedSuccess`). The bytes outside
  the target and the erased sectors are never touched, from any base, and those outside the sectors of the target's
  bytes are not erased.
* The pattern checker is fed zeros while it is disabled, so each time it is enabled on a running stream it counts one
  error, unless the count received in that cycle is 1 (`RxAlign.Loopback`).
* While it stays enabled it reports one error each time the 24-bit count wraps if its comparison is carried out at the 25 bits
  of the incremented count, and none at the 24 bits of the generated comparison; the model has both.
* `i2c0_start` within a transfer, as in a read that sends no STOP, raises the clock and a low data line in one write of
  the register (i2c0.c line 26). A slave that sees the clock first hears a STOP (`I2c.RaceIsStop`). No other write of a
  transaction moves both lines.
* `litepcie_play` fills every buffer exactly if the file is at least one buffer (65536 bytes) long.

## Model

| member | source | states |
|---|---|---|
| HwCount.ReconstructAdvance | software/litepcie-kernel-module/main.c:410-414 | mask, or and conditional add advance the count by the buffers completed since the last interrupt modulo 2^24 |
| HwCount.MaskedStore | software/litepcie-kernel-module/main.c:410 | the count as first stored is never too large, and is the old count exactly at a multiple of 2^24 |
| HwCount.ReconstructExact | software/litepcie-kernel-module/main.c:410-414 | the rebuilt count is the true one if and only if fewer than 2^24 buffers completed in between |
| HwCount.CountIsExact | software/litepcie-kernel-module/main.c:391-421 | in every run that is handled in time, the count is the number of completions before the last handled interrupt; nothing is lost to the wrap |
| HwCount.CountNeverDecreases | software/litepcie-kernel-module/main.c:391-421 | over any prefix of such a run the count never goes back |
| HwCount.LagBound | software/litepcie-kernel-module/main.c:232-244 | as one descriptor in 32 interrupts, also across the end of the table, a handler that keeps up is at most 63 buffers behind |
| HwCount.KeepsUpIsExact | software/litepcie-kernel-module/main.c:232-244 | such a handler has the exact count whenever it runs, with no other assumption |
| RxDevice.WriteByteKeepsInv | software/litepcie-kernel-module/main.c:232-249 | every byte the device writes leaves each byte of the ring tagged with the newest buffer that reached it |
| RxDevice.ByteSurvives | software/litepcie-kernel-module/main.c:523-525 | a byte of a buffer is there from when it is written until the same byte of the buffer one ring later |
| RxDevice.BufferSurvives | software/litepcie-kernel-module/main.c:523-525 | exactly when a whole buffer can be read from its slot |
| WriterChannel.WriterChan.Interrupt | software/litepcie-kernel-module/main.c:407-414 | the handler's statements compute `Reconstruct` |
| WriterChannel.WriterChan.Concurrently | software/litepcie-kernel-module/main.c:391-421 | any number of device and handler steps keep the channel valid and the counts growing |
| WriterChannel.WriterChan.Read | software/litepcie-kernel-module/main.c:488-543 | copied plus skipped buffers are the advance of the software count, which never passes the device's; a buffer is skipped exactly when more than half a ring late by a count read during the call; each copy is the whole buffer of its number if the device stays within half a ring of the count tested; nothing else in the caller's memory changes; EAGAIN exactly when the counts are equal; a blocking read is interrupted only while nothing is waiting, and one that goes on copies something; EFAULT only at a place that cannot be written, with a buffer waiting |
| WriterChannel.WriterChan.CopyToUser | software/litepcie-kernel-module/main.c:523-527 | a copy raced by the device is still untorn under that bound; it fails exactly if a byte of its place cannot be written |
| WriterChannel.CopiesAreWhole | software/litepcie-kernel-module/main.c:517-534 | with a handler that keeps up, and at most 64 buffers completed during a copy, every buffer copied by `read` is whole |
| WriterChannel.WriterChan.DmaWriter | software/litepcie-kernel-module/main.c:794-826 | the ioctl resets the counters when `enable` changes, and only then |
| ReaderChannel.WithChunksAt | software/litepcie-kernel-module/main.c:581-583 | the log of accepted buffers grows by the caller's buffers in the caller's order |
| ReaderChannel.ReaderChan.ReadByte | software/litepcie-kernel-module/main.c:296-308 | the device keeps consuming the accepted buffers in order and unaltered until it overtakes the writer |
| ReaderChannel.ReaderChan.Write | software/litepcie-kernel-module/main.c:546-601 | what is accepted is the caller's data in order; a buffer is lost only if the device's count, as read during the call, has passed it, and never while the device stays behind; at most half a ring is pending after every write and every device step; it stops early only when half a ring is pending; a blocking write is interrupted only while that is so, and one that goes on takes something; EFAULT only at a place that cannot be read, with room in the ring |
| ReaderChannel.ReaderChan.WriteOne | software/litepcie-kernel-module/main.c:575-588 | one iteration: full exactly at half a ring, lost exactly if overtaken, with the ring as it was, otherwise in its slot and appended to the accepted buffers |
| ReaderChannel.ReaderChan.CopyFromUser | software/litepcie-kernel-module/main.c:580-584 | the copy lands in one slot only, and on no buffer still pending; it fails exactly if a byte of its place cannot be read |
| SoapyRx.PollinMeansNewBuffer | software/litepcie-kernel-module/main.c:666-667 | POLLIN always means a buffer the client does not have if and only if it holds at most two |
| SoapyRx.RxStream.AcquireFetched | software/soapysdr-xtrx/Streaming.cpp:209-259 | what the call does with whatever count it fetched, one that went back included: the client's count afterwards, and which of the three answers it gives |
| SoapyRx.NextAssertHolds | software/soapysdr-xtrx/Streaming.cpp:204-207 | with at most two buffers held, the assert of the next call holds exactly if the count fetched was not behind the client's |
| SoapyRx.MaskedAssertHolds | software/litepcie-kernel-module/main.c:410 | after the masked count was fetched, it holds if and only if the client is not past the last multiple of 2^24 |
| SoapyRx.MaskedAssertFails | software/soapysdr-xtrx/Streaming.cpp:204-207 | an input at which it fails |
| SoapyRx.HandlesIncrease | software/soapysdr-xtrx/Streaming.cpp:248-258 | handles given out over a whole run increase strictly |
| SoapyRx.HandlesContiguous | software/soapysdr-xtrx/Streaming.cpp:235-258 | and are contiguous except across an overflow |
| SoapyRx.RxStream.AwaitBuffer | software/soapysdr-xtrx/Streaming.cpp:204-233 | the waiting part keeps `sw <= user <= hw`, goes on only if there is a buffer, times out only if there was none when it was called and the kernel does not report POLLIN or there is no time, throws only if the poll failed, and fails its assert only if more than two buffers are held |
| SoapyRx.RxStream.AcquireRead | software/soapysdr-xtrx/Streaming.cpp:199-259 | the handle is the client's count, at most half a ring late; its slot holds exactly that buffer if the device is within half a ring; OVERFLOW happens only when more than half a ring late and leaves the three counts equal; timeouts and exceptions as for `AwaitBuffer`; the order of the counts is kept |
| SoapyRx.RxStream.ReleaseRead | software/soapysdr-xtrx/Streaming.cpp:261-268 | releasing in order keeps the order of the counts |
| SoapyRx.RxStream.ReadStream | software/soapysdr-xtrx/Streaming.cpp:362-439 | never holds two buffers, releases each once and in order, keeps `remainderSamps + remainderOffset = MTU` while holding, and elements returned, dropped on an error and still to come add up to the elements acquired; a short count and a timeout mean that there was no buffer to acquire, and a timeout drops nothing; OVERFLOW only when more than half a ring late; its asserts never fire |
| SoapyTx.PolloutMeansRoom | software/litepcie-kernel-module/main.c:669-670 | POLLOUT always means room in a full ring if and only if at most half the ring is held |
| SoapyTx.TxStream.AwaitRoom | software/soapysdr-xtrx/Streaming.cpp:275-303 | goes on only with room, keeps `user - hw <= 256`, times out only if the ring was full when it was called and the kernel does not report POLLOUT or there is no time, throws only if the poll failed, and fails its assert only if more than 128 buffers are held |
| SoapyTx.TxStream.AcquireWrite | software/soapysdr-xtrx/Streaming.cpp:270-319 | the slot handed out holds no submitted buffer the device has yet to consume; UNDERFLOW exactly if the device has passed the handle |
| SoapyTx.TxStream.ReleaseWrite | software/soapysdr-xtrx/Streaming.cpp:321-330 | submitting keeps the order of the counts |
| SoapyTx.TxStream.AcquireNext | software/soapysdr-xtrx/Streaming.cpp:488-497 | for `writeStream` the asserts hold whatever was abandoned before |
| SoapyTx.TxStream.WriteStream | software/soapysdr-xtrx/Streaming.cpp:441-520 | at most one buffer is held, every earlier handle was submitted or abandoned, one more is abandoned exactly when UNDERFLOW is returned, and elements reported plus elements of failed calls are the elements in submitted buffers and in the one held; a short count and a timeout mean a full ring, and no timeout hides elements taken |
| SoapyTx.TxStream.Restart | software/soapysdr-xtrx/Streaming.cpp:123-141 | deactivated and activated again, a transmit stream starts at zero with the kernel's counts as they were, in order if and only if nothing was submitted |
| ZeroCopy.DmaCtrl.TakeReadWindow | software/litepcie-user-library/liblitepcie/litepcie_dma.c:176-198 | the window is exactly the buffers between the two counts, and ends where the kernel's count then stands |
| ZeroCopy.DmaCtrl.TakeWriteWindow | software/litepcie-user-library/liblitepcie/litepcie_dma.c:201-223 | the writer's count becomes the snapshot plus half a ring, and the unsigned number of buffers never goes below zero |
| ZeroCopy.DmaCtrl.Process | software/litepcie-user-library/liblitepcie/litepcie_dma.c:157-224 | a poll that does not fail reports reading exactly with more than two buffers waiting, writing exactly with less than half a ring pending, and goes on exactly with one of them, so a client is given its window in the first call that finds buffers or room; the windows are exactly those of the events; keeps `sw <= hw + 128`; passes over what was left of the previous window, and only that; a poll that times out changes nothing, and one that fails uses the previous events again |
| ZeroCopy.DmaCtrl.Poll | software/litepcie-user-library/liblitepcie/litepcie_dma.c:168-176 | the two events in terms of the counts, with 2 and 128 |
| ZeroCopy.DmaCtrl.NextReadBuffer | software/litepcie-user-library/liblitepcie/litepcie_dma.c:226-234 | hands out the slot of the next number, or nothing when the window is used up; the slot holds that buffer if and only if the device has not begun to write over it |
| ZeroCopy.DmaCtrl.NextWriteBuffer | software/litepcie-user-library/liblitepcie/litepcie_dma.c:236-244 | hands out the slot of the next number, or nothing when the window is used up; the slot is that of no buffer submitted and not yet consumed by the device |
| ZeroCopy.DmaCtrl.DrainingClient | software/litepcie-user-library/liblitepcie/litepcie_dma.c:157-244 | over any number of rounds a client that uses either direction, or both, and drains its windows is handed the numbers of its rings once, in order, without a gap |
| PnTest.GetNextPow2 | software/litepcie-user-library/litepcie_util.c:292-298 | the smallest power of two that is not below the width, for every width whose result an `int` holds |
| PnTest.GetDataMask | software/litepcie-user-library/litepcie_util.c:300-310 | the shifting loop builds the closed form of the mask without losing a bit |
| PnTest.SeedAtClosed | software/litepcie-user-library/litepcie_util.c:320-323 | a full buffer brings the seed back to where it started |
| PnTest.WritePnData | software/litepcie-user-library/litepcie_util.c:312-324 | the buffer holds the pattern from the given seed on |
| PnTest.CheckPnData | software/litepcie-user-library/litepcie_util.c:326-341 | counts the words that differ from the pattern |
| PnTest.PatternInjective | software/litepcie-user-library/litepcie_util.c:281-318 | no two seeds have the same masked word, at every width but 5 and 6, as 69069 is odd and its multiples avoid the gaps of the mask |
| PnTest.DelaysExclude | software/litepcie-user-library/litepcie_util.c:326-341 | with distinct words, every word of a buffer contradicts one of two delays |
| PnTest.FindDelay | software/litepcie-user-library/litepcie_util.c:418-438 | the search stops at the first delay with fewer than half the words in error, and at widths other than 5 and 6 that is the only one there is; if there is none it reports the least number of errors at any delay |
| PnTest.SearchDecodesDelay | software/litepcie-user-library/litepcie_util.c:418-438 | the search decodes the delay of every buffer with fewer than half its words corrupted if and only if the width is not 5 or 6 |
| PnTest.TwoSharedWords | software/litepcie-user-library/litepcie_util.c:418-438 | two words shared by two delays are enough to deceive it |
| FlashWrite.CommandBytes | software/litepcie-user-library/liblitepcie/litepcie_flash.c:28-38 | a command packed into 40 bits reaches the flash as opcode, three address bytes and a data byte |
| FlashWrite.FlashSpi | software/litepcie-user-library/liblitepcie/litepcie_flash.c:28-38 | one command between fall and rise of the chip select, executed once, with or without a chip-select register |
| FlashWrite.PackByte | software/litepcie-user-library/liblitepcie/litepcie_flash.c:80-83 | address and data byte packed without loss |
| FlashWrite.AwaitReady | software/litepcie-user-library/liblitepcie/litepcie_flash.c:197-199 | polling ends, with the flash ready and unchanged |
| FlashWrite.FlashWriteBuffer | software/litepcie-user-library/liblitepcie/litepcie_flash.c:85-112 | both forms program exactly the given bytes of one page |
| FlashWrite.FlashReadBuffer | software/litepcie-user-library/liblitepcie/litepcie_flash.c:119-147 | a read of a ready flash returns its content |
| FlashWrite.GetFlashProgramSize | software/litepcie-user-library/liblitepcie/litepcie_flash.c:154-166 | detects the chip-select register |
| FlashWrite.CleanProgram | software/litepcie-user-library/liblitepcie/litepcie_flash.c:220-223 | programming erased bytes leaves exactly the data |
| FlashWrite.EraseSectors | software/litepcie-user-library/liblitepcie/litepcie_flash.c:191-212 | one erase for each sector's worth of bytes that begins within the target, in order; every byte of those sectors is erased, and every byte that changes lies in the sector of a byte of the target; each erase is obeyed |
| FlashWrite.ErasedIsNear | software/litepcie-user-library/liblitepcie/litepcie_flash.c:191-191 | no sector is erased that holds no byte of the target |
| FlashWrite.Round | software/litepcie-user-library/liblitepcie/litepcie_flash.c:221-240 | one round takes the update one step of `Run` further, whatever the outcome of its program: the unit counts as done exactly if it verifies |
| FlashWrite.RunInOrder | software/litepcie-user-library/liblitepcie/litepcie_flash.c:216-246 | in every run no address is programmed more than 17 times, nothing but the target and the erased sectors changes, and every command is obeyed if the first was |
| FlashWrite.RunSmooth | software/litepcie-user-library/liblitepcie/litepcie_flash.c:216-246 | on whole units of a blank target, a run without faults never needs a retry |
| FlashWrite.RunHolds | software/litepcie-user-library/liblitepcie/litepcie_flash.c:216-246 | from a page boundary, or byte by byte, in every run everything below the unit in hand is written |
| FlashWrite.SuccessExact | software/litepcie-user-library/liblitepcie/litepcie_flash.c:216-246 | success means that the flash holds the data, for all contents, data and faults, if and only if units are bytes, or the base is on a page boundary, or there is one unit |
| FlashWrite.WrappedSuccess | software/litepcie-user-library/liblitepcie/litepcie_flash.c:216-246 | for every other base and size, a run with one fault that succeeds without the data |
| FlashWrite.RoundKeeps | software/litepcie-user-library/liblitepcie/litepcie_flash.c:221-224 | even a program that wraps stays within the target and the erased sectors |
| FlashWrite.ProgramAll | software/litepcie-user-library/liblitepcie/litepcie_flash.c:214-246 | the loop ends, by remaining bytes and then retries, where the run of its programs' outcomes ends, and returns 0 exactly if that is a success |
| FlashWrite.LitepcieFlashWrite | software/litepcie-user-library/liblitepcie/litepcie_flash.c:168-253 | success means that the flash holds the data whatever faults occurred, under the exact condition of `SuccessExact`; from any base nothing but the target and the erased sectors changes, and nothing outside the sectors of the target's bytes; failure means that one address was programmed 17 times in vain; from a ready flash every erase and program is sent enabled and ready and every read ready; the flash is left write protected; no address is programmed more than 17 times, a page in page mode and a byte in byte mode; a flash without faults is always written from a sector boundary |
| RxAlign.SampledSlots | gateware/lms7002m.py:400-423 | the samples of a cycle are two consecutive half-cycles of the wire, in either phase |
| RxAlign.Aligner.Follow | gateware/lms7002m.py:425-443 | they hold a transmitted word if and only if the frame bit changed, or sampling is in phase, or the misplaced halves agree by chance |
| RxAlign.Receive | gateware/lms7002m.py:425-443 | for any words with an alternating frame bit and either phase, the words come out in order with a fixed latency |
| RxAlign.Checker.Tick | gateware/lms7002m.py:146-164 | one clock edge of the checker: an error exactly if the word is not the successor of the last |
| RxAlign.CheckCount | gateware/lms7002m.py:452-457 | the checker takes the aligner's word while enabled and zero otherwise; whether its register gains an error, from the count received and from whether it was enabled before |
| RxAlign.Loopback | gateware/lms7002m.py:83-164 | from any register contents, lag, phase and history of the checker's enable: once two counts have arrived, a cycle adds an error if and only if it is the first enabled one and the count received is not 1, or a later one, the comparison has 25 bits and the count is zero; the error register is zero after each disabled cycle; and at the end of any stretch of enabled cycles it is what these add up to |
| RxAlign.StretchErrors | gateware/lms7002m.py:146-164 | a stretch of enabled cycles adds one error for the enabling, if it begins with it and the count then is not 1, and one per 2^24 counts at 25 bits, modulo 2^32 |
| RxAlign.ErrorsAdded | gateware/lms7002m.py:146-164 | over a stretch of cycles each enabled like the one before: none, or one per 2^24 counts |
| I2c.MovesAreConditions | firmware/i2c0.c:14-21 | on any waveform the data line moves in the high phase of the clock exactly as often as a START or STOP is heard |
| I2c.ValueOfBits | firmware/i2c0.c:81-86 | eight bits, the most significant first, are the byte |
| I2c.ShiftedOut | firmware/i2c0.c:82-86 | testing the top bit and shifting left takes the bits from the top |
| I2c.RaceIsStop | firmware/i2c0.c:26-26 | what a slave hears when both lines rise in one write depends on which it sees first |
| I2c.Bus.Start | firmware/i2c0.c:24-32 | exactly a START is heard, from an idle bus or within a transfer; both lines move in one write exactly if they were both low |
| I2c.Bus.Stop | firmware/i2c0.c:35-44 | exactly a STOP is heard, and the bus is idle |
| I2c.Bus.TransmitBit | firmware/i2c0.c:47-56 | exactly one bit is heard, driven by the master, stable while the clock moves, and the line is let go of |
| I2c.Bus.ReceiveBit | firmware/i2c0.c:59-72 | exactly one bit is heard, driven by the slave, and it is the one returned; the master lets go before the clock rises |
| I2c.Bus.TransmitByte | firmware/i2c0.c:75-91 | eight bits of the byte, the most significant first, and the slave's answer, which is the result |
| I2c.Bus.ReceiveByte | firmware/i2c0.c:94-106 | the slave's byte is returned and answered as asked |
| I2c.Bus.Reset | firmware/i2c0.c:109-125 | whatever the state of the bus, nine clock pulses with the data line high and a STOP are heard, after at most one event that ends what was going on, and the bus is idle |
| I2c.Bus.Read | firmware/i2c0.c:135-166 | START, address, register, STOP if asked, START, address, the bytes returned, of which only the last is not acknowledged, STOP; or the transaction up to the first byte the slave refuses and STOP, and no data; true exactly in the first case; the bits heard after the STARTs are the seven bits of the address and the direction, write and then read; the data line moves while the clock is high exactly 2, 3 or 4 times, at these conditions; at most one write moves both lines, and none if a STOP is sent; idle afterwards |
| I2c.Bus.Write | firmware/i2c0.c:174-198 | START, address, register, data up to the first byte not acknowledged, STOP; true exactly if all were; the bits heard after the START are the seven bits of the address and a zero; the data line moves while the clock is high exactly twice, and no write moves both lines; idle afterwards |
| I2c.Bus.Poll | firmware/i2c0.c:203-213 | the address is sent for writing and for reading, and either answer counts |
| I2c.AddrBits | firmware/i2c0.h:15-16 | the address bytes, bit by bit: the seven bits of the address, the highest first, then zero to write and one to read |
| Rechunk.ChunkAt | software/scripts/libsigflow.jl:429-452 | chunk `k` is the `k`-th consecutive slice |
| Rechunk.ChunkCount | software/scripts/libsigflow.jl:429-452 | there are `floor(N / chunk_size)` of them |
| Rechunk.RechunkTwice | software/scripts/libsigflow.jl:398-403 | rechunking twice gives a prefix of rechunking once |
| Rechunk.Rechunker.Take | software/scripts/libsigflow.jl:432-450 | one piece of input goes into the chunk being filled, in place, and a full chunk is sent |
| Rechunk.Rechunker.Fill | software/scripts/libsigflow.jl:438-439 | filling in place leaves the two chunks sent last intact |
| Rechunk.Rechunker.ThirdIsReused | software/scripts/libsigflow.jl:407-415 | but not the one sent before them: three buffers cover two chunks in flight and no more |
| Rechunk.Rechunker.Consume | software/scripts/libsigflow.jl:425-451 | an incoming piece is taken whole and what was sent stays sent |
| Rechunk.RechunkAll | software/scripts/libsigflow.jl:403-454 | however the input was split, what is sent is the consecutive slices of all of it |
| Interleave.ShiftUp | software/soapysdr-xtrx/Streaming.cpp:338-339 | a byte shifted up survives the cast to 16 bits |
| Interleave.ShiftDown | software/soapysdr-xtrx/Streaming.cpp:353-354 | a sample shifted down, rounding towards minus infinity, survives the cast to 8 bits |
| Interleave.Deinterleave | software/soapysdr-xtrx/Streaming.cpp:332-345 | each sample of the channel, shifted up by 8 bits, at its place shifted by the channel; nothing else; nothing at all for another format |
| Interleave.Interleave | software/soapysdr-xtrx/Streaming.cpp:347-360 | the way back |
| Interleave.OneChannel | software/soapysdr-xtrx/Streaming.cpp:336-340 | the strided visits of the two channels partition the samples |
| Interleave.RoundTrip | software/soapysdr-xtrx/Streaming.cpp:332-360 | taking both channels apart and together again restores every byte of the first `len` samples and changes nothing else |
| Play.AlwaysFull | software/litepcie-user-library/litepcie_test.c:166-175 | every buffer is filled completely if and only if the file is at least a buffer long |
| Play.Player.FillBuffer | software/litepcie-user-library/litepcie_test.c:166-175 | for any file: the bytes of one fill, the new position, and when a loop is counted |
| Play.Player.PlayBuffers | software/litepcie-user-library/litepcie_test.c:157-176 | byte `j` of buffer `k` is byte `(k * 65536 + j) mod L` of the file, and `current_loop` is the number of times its end was passed |

## Left out

- WriterChannel.WriterChan.Concurrently: the stores of the interrupt handler are one step for other threads. A client
  that reads the count between them is modelled for the SoapySDR driver's next call only (`SoapyRx.RxStream.AcquireFetched`).
- WriterChannel.WriterChan.Interrupt: the same.
- WriterChannel.WriterChan.Read: which bytes of the caller's memory can be accessed does not change during a call;
  likewise in `ReaderChannel.ReaderChan.Write`.
- WriterChannel.WriterChan.WriterUpdate: takes only non-negative counts, which is all that the modelled clients send.
- ReaderChannel.ReaderChan.ReaderUpdate: likewise.
- SoapyRx.RxStream.ReadStream: handles from 2^31 on, which do not fit the 32-bit `remainderHandle`, have no contract
  here. Of a remainder left from an earlier activation, which `activateStream` does not reset, it is said only that when
  its buffer is used up the kernel's software count becomes the old handle plus one, which may be past `hw`; the accounts
  hold for streams activated without one. The contents of the samples (`n/2`, the offset by `samp_avail`) are not
  modelled, only how many there are.
- SoapyTx.TxStream.WriteStream: handles from 2^31 on; what the submitted buffers contain is not modelled.
- PnTest.GetDataMask: widths above 16, for which the C code shifts a 32-bit value by 32.
- FlashWrite.LitepcieFlashWrite: `size` is a whole number of program units, as its callers pad it; the addresses fit
  the 24 bits of the commands.
- FlashDevice.Chip.Execute: chip-erase, status-write and sector-lock commands, which the update does not send, and the
  identification it reads have no effect.
- RxAlign.Loopback: input delays, metastability and the transmit path from the DMA; a word's frame bit is the same in
  both halves, as the transmitter sends it.
- I2c.Bus.OeSclSda: analogue timing and clock stretching; where one write moves both lines the data line moves while
  the clock is low; a slave drives only while addressed and lets go at a STOP.
- Rechunk.RechunkAll: a change of the number of channels, which the source does not survive, since its `global`
  declarations do not reach the closure's variables; a chunk size of zero, with which it does not terminate.
- Interleave.Deinterleave: the 32-bit loop counter, which wraps for a length of 2^32 - 1.
- Play.Player.FillBuffer: read errors of the file.
- ZeroCopy.DmaCtrl.Process: the copying mode, which repeats `read` and `write` of the kernel module.
- Locks between clients, mmap and the allocation of buffers; probing and removal of the device.
- `firmware/i2c1.c`, a copy of `i2c0.c`, and `i2c0_scan`, which only prints.
- Gains, frequencies, sample rates and settings of the driver; FFT and plotting scripts; the LMS7002M driver.
