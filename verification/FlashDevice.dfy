/** A serial NOR flash as seen on its SPI bus: bytes shifted in between the fall and the rise of the
    chip select form a command, executed at the rise. */
module FlashDevice {
  import opened Bits

  const FLASH_READ := 0x03
  const FLASH_WREN := 0x06
  const FLASH_WRDI := 0x04
  const FLASH_PP := 0x02
  const FLASH_SE := 0xD8
  const FLASH_RDSR := 0x05
  const FLASH_WIP := 0x01
  const FLASH_SECTOR_SIZE := 0x1_0000
  const PAGE := 256
  /** Bytes a 24-bit address reaches. */
  const CAPACITY := 0x100_0000

  /** An erase, a program or a read that reached the chip, and whether the chip was in a state to obey. */
  datatype Event = Erase(addr: nat, obeyed: bool) | Program(addr: nat, obeyed: bool) | Read(addr: nat, obeyed: bool)

  function Address(frame: seq<nat>): nat
    requires |frame| >= 4
  {
    (frame[1] * 0x1_0000 + frame[2] * 0x100 + frame[3]) % CAPACITY
  }

  predicate InSector(a: nat, addr: nat) {
    a / FLASH_SECTOR_SIZE == addr / FLASH_SECTOR_SIZE
  }

  /** A page program of `n` bytes at `addr` wraps within the page. */
  predicate Targeted(a: nat, addr: nat, n: nat) {
    a / PAGE == addr / PAGE && (a - addr) % PAGE < n
  }

  function Erased(mem: seq<nat>, addr: nat): seq<nat> {
    seq(|mem|, (a: nat) requires a < |mem| => if InSector(a, addr) then 0xFF else mem[a])
  }

  /** Programming a NOR flash can only clear bits. */
  function Programmed(mem: seq<nat>, addr: nat, data: seq<nat>): seq<nat> {
    seq(|mem|, (a: nat) requires a < |mem| =>
      if Targeted(a, addr, |data|) then And(data[(a - addr) % PAGE], mem[a]) else mem[a])
  }

  /** The bytes of one page. */
  type Page = p: seq<nat> | |p| == PAGE witness seq(PAGE, (i: nat) => 0)

  /** A program goes well, or it leaves anything in the bytes it was aimed at. */
  datatype Outcome = Clean | Spoilt(junk: Page)

  function Spoiled(mem: seq<nat>, addr: nat, n: nat, junk: Page): seq<nat> {
    seq(|mem|, (a: nat) requires a < |mem| => if Targeted(a, addr, n) then junk[a % PAGE] else mem[a])
  }

  function ProgramOnce(mem: seq<nat>, addr: nat, data: seq<nat>, o: Outcome): (r: seq<nat>)
    ensures |r| == |mem|
  {
    match o
    case Clean => Programmed(mem, addr, data)
    case Spoilt(junk) => Spoiled(mem, addr, |data|, junk)
  }

  /** What a program can do. */
  ghost predicate CanProgram(before: seq<nat>, after: seq<nat>, addr: nat, data: seq<nat>, faulty: bool) {
    exists o: Outcome :: (o.Clean? || faulty) && after == ProgramOnce(before, addr, data, o)
  }

  lemma Happened(before: seq<nat>, after: seq<nat>, addr: nat, data: seq<nat>, o: Outcome, faulty: bool)
    requires (o.Clean? || faulty) && after == ProgramOnce(before, addr, data, o)
    ensures CanProgram(before, after, addr, data, faulty)
  {}

  class Chip {
    /** The chip select is a register of its own, rather than driven by each transfer. */
    const softwareCs: bool
    /** Programs may go wrong. */
    const faulty: bool
    var mem: seq<nat>
    var wel: bool
    /** Status reads until the operation in progress ends; zero when none is. */
    var busy: nat
    var csN: nat
    var frame: seq<nat>
    ghost var log: seq<Event>

    ghost predicate Valid()
      reads this
    {
      |mem| == CAPACITY && (busy > 0 ==> wel)
    }

    ghost predicate Idle()
      reads this
    {
      Valid() && frame == [] && csN == 1
    }

    constructor (softwareCs: bool, faulty: bool, mem: seq<nat>)
      requires |mem| == CAPACITY
      ensures Idle() && busy == 0 && this.softwareCs == softwareCs && this.faulty == faulty && this.mem == mem
    {
      this.softwareCs, this.faulty, this.mem := softwareCs, faulty, mem;
      wel, busy, csN, frame, log := false, 0, 1, [], [];
    }

    /** What the chip shifts out after the bytes `f` while the next byte is shifted in. */
    function Output(f: seq<nat>): nat
      requires |mem| == CAPACITY
      reads this
    {
      if |f| >= 1 && f[0] == FLASH_RDSR then (if busy > 0 then FLASH_WIP else 0) + (if wel then 2 else 0)
      else if |f| >= 4 && f[0] == FLASH_READ && busy == 0 then mem[(Address(f) + |f| - 4) % CAPACITY]
      else 0xFF
    }

    /** An operation that takes `time` status reads begins; the write enable latch drops when it ends. */
    method Begin(time: nat)
      modifies `busy, `wel
      ensures busy == time && wel == (time > 0)
    {
      busy := time;
      wel := time > 0;
    }

    method ProgramPage(addr: nat, data: seq<nat>)
      modifies `mem
      ensures |mem| == |old(mem)| && CanProgram(old(mem), mem, addr, data, faulty)
    {
      var outcome: Outcome := *;
      if !faulty {
        outcome := Clean;
      }
      ghost var was := mem;
      mem := ProgramOnce(mem, addr, data, outcome);
      Happened(was, mem, addr, data, outcome, faulty);
    }

    twostate predicate Unaffected()
      reads this
    {
      mem == old(mem) && wel == old(wel) && busy == old(busy) && log == old(log)
    }

    /** The effect of the command `f`. */
    twostate predicate Executed(f: seq<nat>)
      reads this
    {
      var ready := old(busy) == 0;
      if f == [] then Unaffected()
      else if f[0] == FLASH_RDSR && |f| > 1 then
        && mem == old(mem) && log == old(log)
        && (if ready then busy == 0 && wel == old(wel) else busy == old(busy) - 1 && (wel <==> busy > 0))
      else if f[0] == FLASH_WREN then
        mem == old(mem) && busy == old(busy) && log == old(log) && (wel <==> old(wel) || ready)
      else if f[0] == FLASH_WRDI then
        mem == old(mem) && busy == old(busy) && log == old(log) && (wel <==> old(wel) && !ready)
      else if f[0] == FLASH_READ && |f| > 4 then
        mem == old(mem) && wel == old(wel) && busy == old(busy) && log == old(log) + [Read(Address(f), ready)]
      else if f[0] == FLASH_SE && |f| == 4 then
        && log == old(log) + [Erase(Address(f), old(wel) && ready)]
        && (if old(wel) && ready then mem == Erased(old(mem), Address(f)) else mem == old(mem) && busy == old(busy) && wel == old(wel))
      else if f[0] == FLASH_PP && 4 < |f| <= 4 + PAGE then
        && log == old(log) + [Program(Address(f), old(wel) && ready)]
        && (if old(wel) && ready then CanProgram(old(mem), mem, Address(f), f[4..], faulty)
            else mem == old(mem) && busy == old(busy) && wel == old(wel))
      else Unaffected()
    }

    /** The rise of the chip select. */
    method Execute()
      requires Valid()
      modifies `mem, `wel, `busy, `frame, `log
      ensures Valid() && frame == [] && Executed(old(frame))
    {
      if frame != [] {
        var cmd, ready := frame[0], busy == 0;
        if cmd == FLASH_RDSR && |frame| > 1 {
          if busy > 0 {
            busy := busy - 1;
            wel := busy > 0;
          }
        } else if cmd == FLASH_WREN {
          wel := wel || ready;
        } else if cmd == FLASH_WRDI {
          wel := wel && !ready;
        } else if cmd == FLASH_READ && |frame| > 4 {
          log := log + [Read(Address(frame), ready)];
        } else if cmd == FLASH_SE && |frame| == 4 {
          log := log + [Erase(Address(frame), wel && ready)];
          if wel && ready {
            mem := Erased(mem, Address(frame));
            var time :| 0 <= time;
            Begin(time);
          }
        } else if cmd == FLASH_PP && 4 < |frame| <= 4 + PAGE {
          log := log + [Program(Address(frame), wel && ready)];
          if wel && ready {
            ProgramPage(Address(frame), frame[4..]);
            var time :| 0 <= time;
            Begin(time);
          }
        }
      }
      frame := [];
    }

    /** A write to the chip-select register. */
    method SetCs(v: nat)
      requires Valid() && v < 2
      modifies `mem, `wel, `busy, `frame, `log, `csN
      ensures Valid() && csN == (if softwareCs then v else old(csN))
      ensures if softwareCs && old(csN) == 0 && v == 1 then frame == [] && Executed(old(frame))
        else Unaffected() && frame == (if softwareCs && v == 0 then [] else old(frame))
    {
      if softwareCs {
        if csN == 0 && v == 1 {
          Execute();
        } else if v == 0 {
          frame := [];
        }
        csN := v;
      }
    }

    /** Reading it back; a register that does not exist reads as zero. */
    method ReadCs() returns (v: nat)
      ensures v == if softwareCs then csN else 0
    {
      v := if softwareCs then csN else 0;
    }

    /** The transfer of `bytes`; the result is the last byte shifted out. Without a chip-select register each
        transfer is a command of its own. */
    method Transfer(bytes: seq<nat>) returns (rx: nat)
      requires Valid() && bytes != [] && (softwareCs || frame == [])
      modifies `mem, `wel, `busy, `frame, `log
      ensures Valid()
      ensures rx == old(Output(frame + bytes[..|bytes| - 1]))
      ensures if softwareCs then Unaffected() && frame == old(frame) + bytes else frame == [] && Executed(bytes)
    {
      rx := 0;
      for j := 0 to |bytes|
        invariant Valid() && Unaffected() && frame == old(frame) + bytes[..j]
        invariant j > 0 ==> rx == old(Output(frame + bytes[..j - 1]))
      {
        rx := Output(frame);
        frame := frame + [bytes[j]];
      }
      if !softwareCs {
        assert frame == bytes;
        Execute();
      }
    }
  }
}
