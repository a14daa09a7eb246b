/** Programming the flash: erase, program, verify, retry. */
module FlashWrite {
  import opened Bits
  import opened FlashDevice

  const FLASH_RETRIES := 16
  const UINT32_END := 0x1_0000_0000

  // ----- packing of commands -----

  /** The bytes the controller shifts out for a transfer of `txLen` bits, first the most significant of the
      40 bits it takes from `data`. */
  function Shifted(txLen: nat, data: nat): seq<nat>
    requires txLen <= 40
  {
    [data / 0x1_0000_0000 % 256, data / 0x100_0000 % 256, data / 0x1_0000 % 256, data / 0x100 % 256, data % 256][..txLen / 8]
  }

  /** A command and its data as one number, the opcode above 32 bits. */
  function Packed(cmd: nat, txData: nat): nat {
    cmd * UINT32_END + txData
  }

  /** `tx_data | (cmd << 32)`. */
  method Pack(cmd: nat, txData: nat) returns (data: nat)
    requires txData < UINT32_END
    ensures data == Packed(cmd, txData)
  {
    Pow2Values();
    OrDisjoint(cmd, txData, 32);
    data := Or(cmd * UINT32_END, txData);
  }

  /** `addr << 8`, cut to 32 bits. */
  method ShiftAddress(addr: nat) returns (txData: nat)
    requires addr < CAPACITY
    ensures txData == addr * 256 < UINT32_END
  {
    txData := addr * 256 % UINT32_END;
  }

  /** `(addr << 8) | byte`, cut to 32 bits. */
  method PackByte(addr: nat, byte: nat) returns (txData: nat)
    requires addr < CAPACITY && byte < 256
    ensures txData == addr * 256 + byte
  {
    var shifted := ShiftAddress(addr);
    txData := Or(shifted, byte);
    Pow2Values();
    OrDisjoint(addr, byte, 8);
  }

  lemma FiveBytes(b4: nat, b3: nat, b2: nat, b1: nat, b0: nat, d: nat)
    requires b4 < 256 && b3 < 256 && b2 < 256 && b1 < 256 && b0 < 256
    requires d == b4 * 0x1_0000_0000 + b3 * 0x100_0000 + b2 * 0x1_0000 + b1 * 0x100 + b0
    ensures Shifted(40, d) == [b4, b3, b2, b1, b0]
  {
    DivModUnique(d, 0x1_0000_0000, b4, b3 * 0x100_0000 + b2 * 0x1_0000 + b1 * 0x100 + b0);
    DivModUnique(d, 0x100_0000, b4 * 256 + b3, b2 * 0x1_0000 + b1 * 0x100 + b0);
    DivModUnique(d, 0x1_0000, (b4 * 256 + b3) * 256 + b2, b1 * 0x100 + b0);
    DivModUnique(d, 0x100, ((b4 * 256 + b3) * 256 + b2) * 256 + b1, b0);
    LastByte(b4, b3);
    LastByte(b4 * 256 + b3, b2);
    LastByte((b4 * 256 + b3) * 256 + b2, b1);
    LastByte(((b4 * 256 + b3) * 256 + b2) * 256 + b1, b0);
    LastByte(0, b4);
  }

  lemma LastByte(hi: nat, b: nat)
    requires b < 256
    ensures (hi * 256 + b) % 256 == b
  {}

  lemma AddressParts(addr: nat)
    requires addr < CAPACITY
    ensures addr == addr / 0x1_0000 * 0x1_0000 + addr / 0x100 % 256 * 0x100 + addr % 256
    ensures addr / 0x1_0000 < 256
  {
    assert addr / 0x100 / 256 == addr / 0x1_0000;
  }

  /** Header of a command with an address: the opcode and three address bytes. */
  function Header(cmd: nat, addr: nat): seq<nat> {
    [cmd, addr / 0x1_0000, addr / 0x100 % 256, addr % 256]
  }

  lemma HeaderAddress(cmd: nat, addr: nat)
    requires addr < CAPACITY
    ensures Address(Header(cmd, addr)) == addr
  {
    AddressParts(addr);
  }

  /** A packed command is shifted out as opcode, address and data byte. */
  lemma CommandBytes(cmd: nat, addr: nat, byte: nat)
    requires cmd < 256 && addr < CAPACITY && byte < 256
    ensures Shifted(40, Packed(cmd, addr * 256 + byte)) == Header(cmd, addr) + [byte]
  {
    AddressParts(addr);
    FiveBytes(cmd, addr / 0x1_0000, addr / 0x100 % 256, addr % 256, byte, Packed(cmd, addr * 256 + byte));
  }

  lemma ShorterTransfer(data: nat, txLen: nat)
    requires txLen <= 40
    ensures Shifted(txLen, data) == Shifted(40, data)[..txLen / 8]
  {}

  /** Without its last byte it is the header. */
  lemma HeaderBytes(cmd: nat, addr: nat)
    requires cmd < 256 && addr < CAPACITY
    ensures Shifted(32, Packed(cmd, addr * 256)) == Header(cmd, addr) && Address(Header(cmd, addr)) == addr
  {
    CommandBytes(cmd, addr, 0);
    ShorterTransfer(Packed(cmd, addr * 256), 32);
    HeaderAddress(cmd, addr);
  }

  lemma OpcodeByte(cmd: nat, txData: nat)
    requires cmd < 256 && txData < UINT32_END
    ensures Packed(cmd, txData) / UINT32_END % 256 == cmd
  {
    DivModUnique(Packed(cmd, txData), UINT32_END, cmd, txData);
  }

  // ----- single commands -----

  /** `flash_spi`: one command, packed into one transfer, which sends the bytes `f`. */
  method FlashSpi(chip: Chip, txLen: nat, cmd: nat, txData: nat, ghost f: seq<nat>) returns (rx: nat)
    requires chip.Idle() && 8 <= txLen <= 40 && txData < UINT32_END && f == Shifted(txLen, Packed(cmd, txData))
    modifies chip
    ensures chip.Idle() && chip.Executed(f) && rx == old(chip.Output(f[..|f| - 1]))
  {
    var data := Pack(cmd, txData);
    rx := Command(chip, Shifted(txLen, data));
  }

  /** One transfer, with the chip selected. */
  method Command(chip: Chip, bytes: seq<nat>) returns (rx: nat)
    requires chip.Idle() && bytes != []
    modifies chip
    ensures chip.Idle() && chip.Executed(bytes) && rx == old(chip.Output(bytes[..|bytes| - 1]))
  {
    chip.SetCs(0);
    assert [] + bytes == bytes && [] + bytes[..|bytes| - 1] == bytes[..|bytes| - 1];
    rx := chip.Transfer(bytes);
    chip.SetCs(1);
  }

  /** `flash_write_enable` and `flash_write_disable`: the latch follows unless the chip is busy. */
  method FlashWriteEnable(chip: Chip)
    requires chip.Idle()
    modifies chip
    ensures chip.Idle() && chip.mem == old(chip.mem) && chip.busy == old(chip.busy) && chip.log == old(chip.log)
    ensures chip.wel <==> old(chip.wel) || chip.busy == 0
  {
    OpcodeByte(FLASH_WREN, 0);
    var rx := FlashSpi(chip, 8, FLASH_WREN, 0, Shifted(8, Packed(FLASH_WREN, 0)));
  }

  method FlashWriteDisable(chip: Chip)
    requires chip.Idle()
    modifies chip
    ensures chip.Idle() && chip.mem == old(chip.mem) && chip.busy == old(chip.busy) && chip.log == old(chip.log)
    ensures chip.wel <==> old(chip.wel) && chip.busy > 0
  {
    OpcodeByte(FLASH_WRDI, 0);
    var rx := FlashSpi(chip, 8, FLASH_WRDI, 0, Shifted(8, Packed(FLASH_WRDI, 0)));
  }

  /** `flash_read_id` with register 0, a command the chip does not know. */
  method FlashReadId0(chip: Chip)
    requires chip.Idle()
    modifies chip
    ensures chip.Idle() && chip.mem == old(chip.mem) && chip.busy == old(chip.busy) && chip.wel == old(chip.wel) && chip.log == old(chip.log)
  {
    OpcodeByte(0, 0);
    var rx := FlashSpi(chip, 32, 0, 0, Shifted(32, Packed(0, 0)));
  }

  /** `flash_read_status`. */
  method FlashReadStatus(chip: Chip) returns (status: nat)
    requires chip.Idle()
    modifies chip
    ensures chip.Idle() && chip.mem == old(chip.mem) && chip.log == old(chip.log)
    ensures And(status, FLASH_WIP) == if old(chip.busy) > 0 then 1 else 0
    ensures if old(chip.busy) == 0 then chip.busy == 0 && chip.wel == old(chip.wel)
      else chip.busy == old(chip.busy) - 1 && (chip.wel <==> chip.busy > 0)
  {
    OpcodeByte(FLASH_RDSR, 0);
    status := FlashSpi(chip, 16, FLASH_RDSR, 0, Shifted(16, Packed(FLASH_RDSR, 0)));
    assert And(1, 1) == 1 && And(3, 1) == 1 && And(2, 1) == 0 && And(0, 1) == 0;
  }

  /** The polling loops: return once the operation in progress has ended. */
  method AwaitReady(chip: Chip)
    requires chip.Idle()
    modifies chip
    ensures chip.Idle() && chip.busy == 0 && chip.mem == old(chip.mem) && chip.log == old(chip.log)
    // an operation that ends takes the latch with it
    ensures chip.wel <==> old(chip.wel) && old(chip.busy) == 0
  {
    var status := FlashReadStatus(chip);
    while And(status, FLASH_WIP) != 0
      invariant chip.Idle() && chip.mem == old(chip.mem) && chip.log == old(chip.log)
      invariant And(status, FLASH_WIP) == 0 ==> chip.busy == 0
      invariant chip.wel <==> if old(chip.busy) == 0 then old(chip.wel) else chip.busy > 0
      decreases chip.busy + And(status, FLASH_WIP)
    {
      status := FlashReadStatus(chip);
    }
  }

  /** `flash_erase_sector`. */
  method FlashEraseSector(chip: Chip, addr: nat)
    requires chip.Idle() && addr < CAPACITY
    modifies chip
    ensures chip.Idle() && chip.log == old(chip.log) + [Erase(addr, old(chip.wel && chip.busy == 0))]
    ensures chip.mem == if old(chip.wel && chip.busy == 0) then Erased(old(chip.mem), addr) else old(chip.mem)
  {
    HeaderBytes(FLASH_SE, addr);
    var txData := ShiftAddress(addr);
    var rx := FlashSpi(chip, 32, FLASH_SE, txData, Header(FLASH_SE, addr));
  }

  /** What programming `data` at `addr` does to a chip that was ready or was not. */
  twostate predicate ProgramEffect(chip: Chip, addr: nat, data: seq<nat>)
    reads chip
  {
    var obeyed := old(chip.wel && chip.busy == 0);
    && chip.log == old(chip.log) + [Program(addr, obeyed)]
    && (if obeyed then CanProgram(old(chip.mem), chip.mem, addr, data, chip.faulty) else chip.mem == old(chip.mem))
  }

  /** `flash_write`. */
  method FlashWriteByte(chip: Chip, addr: nat, byte: nat)
    requires chip.Idle() && addr < CAPACITY && byte < 256
    modifies chip
    ensures chip.Idle() && ProgramEffect(chip, addr, [byte])
  {
    var txData := PackByte(addr, byte);
    CommandBytes(FLASH_PP, addr, byte);
    ByteFrame(FLASH_PP, addr, byte);
    var rx := FlashSpi(chip, 40, FLASH_PP, txData, Header(FLASH_PP, addr) + [byte]);
  }

  /** A frame of opcode, address and data. */
  lemma ByteFrame(cmd: nat, addr: nat, byte: nat)
    requires addr < CAPACITY
    ensures var f := Header(cmd, addr) + [byte]; f[4..] == [byte] && f[..4] == Header(cmd, addr) && Address(f) == addr && f[0] == cmd
  {
    HeaderAddress(cmd, addr);
    FrameParts(Header(cmd, addr), [byte]);
  }

  /** The frame of a page program, read back as address and data. */
  lemma FrameParts(head: seq<nat>, data: seq<nat>)
    requires |head| == 4
    ensures (head + data)[4..] == data && Address(head + data) == Address(head) && (head + data)[0] == head[0]
  {}

  /** The chip is selected, and is sent the opcode and the address of a longer command. */
  method Begin(chip: Chip, cmd: nat, addr: nat) returns (command: nat)
    requires chip.Idle() && chip.softwareCs && cmd < 256 && addr < CAPACITY
    modifies chip
    ensures chip.Valid() && chip.csN == 0 && chip.Unaffected() && chip.frame == Header(cmd, addr)
    ensures command == Packed(cmd, addr * 256)
  {
    HeaderBytes(cmd, addr);
    chip.SetCs(0);
    command := Pack(cmd, addr * 256);
    var rx := chip.Transfer(Shifted(32, command));
    assert chip.frame == Header(cmd, addr);
  }

  /** `flash_write_buffer`. */
  method FlashWriteBuffer(chip: Chip, addr: nat, buf: seq<nat>, at: nat, size: nat)
    requires chip.Idle() && (chip.softwareCs || size == 1)
    requires 0 < size <= PAGE && addr + size <= CAPACITY && at + size <= |buf|
    requires forall i :: 0 <= i < |buf| ==> buf[i] < 256
    modifies chip
    ensures chip.Idle() && ProgramEffect(chip, addr, buf[at..at + size])
  {
    if size == 1 {
      assert buf[at..at + size] == [buf[at]];
      FlashWriteByte(chip, addr, buf[at]);
    } else {
      ghost var head := Header(FLASH_PP, addr);
      var rx := Begin(chip, FLASH_PP, addr);
      for i := 0 to size
        invariant chip.Valid() && chip.csN == 0 && chip.Unaffected()
        invariant chip.frame == head + buf[at..at + i]
      {
        OpcodeByte(buf[at + i], 0);
        assert head + buf[at..at + i] + [buf[at + i]] == head + buf[at..at + i + 1];
        rx := chip.Transfer(Shifted(8, buf[at + i] * UINT32_END));
      }
      EndProgram(chip, addr, buf[at..at + size]);
    }
  }

  /** The chip select is released behind a page program. */
  method EndProgram(chip: Chip, addr: nat, ghost data: seq<nat>)
    requires chip.Valid() && chip.softwareCs && chip.csN == 0 && chip.frame == Header(FLASH_PP, addr) + data
    requires addr < CAPACITY && 0 < |data| <= PAGE && addr + |data| <= CAPACITY
    modifies chip
    ensures chip.Idle() && ProgramEffect(chip, addr, data)
  {
    HeaderAddress(FLASH_PP, addr);
    FrameParts(Header(FLASH_PP, addr), data);
    chip.SetCs(1);
  }

  /** `litepcie_flash_read`. */
  method FlashRead(chip: Chip, addr: nat) returns (byte: nat)
    requires chip.Idle() && addr < CAPACITY
    modifies chip
    ensures chip.Idle() && chip.mem == old(chip.mem) && chip.busy == old(chip.busy) && chip.wel == old(chip.wel)
    ensures chip.log == old(chip.log) + [Read(addr, chip.busy == 0)]
    ensures chip.busy == 0 ==> byte == chip.mem[addr]
  {
    ByteFrame(FLASH_READ, addr, 0);
    CommandBytes(FLASH_READ, addr, 0);
    var txData := ShiftAddress(addr);
    byte := FlashSpi(chip, 40, FLASH_READ, txData, Header(FLASH_READ, addr) + [0]);
  }

  /** `litepcie_flash_read_buffer`. */
  method FlashReadBuffer(chip: Chip, addr: nat, size: nat) returns (buf: seq<nat>)
    requires chip.Idle() && (chip.softwareCs || size == 1)
    requires 0 < size <= PAGE && addr + size <= CAPACITY
    modifies chip
    ensures chip.Idle() && chip.mem == old(chip.mem) && chip.busy == old(chip.busy) && chip.wel == old(chip.wel)
    ensures chip.log == old(chip.log) + [Read(addr, chip.busy == 0)]
    ensures chip.busy == 0 ==> buf == chip.mem[addr..addr + size]
  {
    if size == 1 {
      var byte := FlashRead(chip, addr);
      buf := [byte];
    } else {
      HeaderAddress(FLASH_READ, addr);
      ghost var head := Header(FLASH_READ, addr);
      var command := Begin(chip, FLASH_READ, addr);
      buf := ReadBytes(chip, addr, head, size, command);
      SameAddress(chip.frame, head);
      chip.SetCs(1);
    }
  }

  /** The transfers that follow the header of a read; what they send is the header's `command` again. */
  method ReadBytes(chip: Chip, addr: nat, ghost head: seq<nat>, size: nat, command: nat) returns (buf: seq<nat>)
    requires chip.Valid() && chip.softwareCs && chip.csN == 0 && chip.frame == head && |head| == 4
    requires head[0] == FLASH_READ && Address(head) == addr && addr + size <= CAPACITY
    modifies chip
    ensures chip.Valid() && chip.csN == 0 && chip.Unaffected()
    ensures |chip.frame| == 4 + size && chip.frame[..4] == head
    ensures chip.busy == 0 ==> buf == chip.mem[addr..addr + size]
  {
    buf := [];
    for i := 0 to size
      invariant chip.Valid() && chip.csN == 0 && chip.Unaffected()
      invariant |chip.frame| == 4 + i && chip.frame[..4] == head
      invariant |buf| == i && (chip.busy == 0 ==> buf == chip.mem[addr..addr + i])
    {
      SameAddress(chip.frame, head);
      var byte := Shifted(8, command);
      NothingSent(chip.frame, byte);
      var rx := chip.Transfer(byte);
      buf := buf + [rx];
    }
  }

  /** A single byte is answered before it is sent. */
  lemma NothingSent(f: seq<nat>, byte: seq<nat>)
    requires |byte| == 1
    ensures f + byte[..|byte| - 1] == f
  {}

  lemma SameAddress(f: seq<nat>, head: seq<nat>)
    requires |head| == 4 && |f| >= 4 && f[..4] == head
    ensures Address(f) == Address(head) && f[0] == head[0]
  {
    assert f[1] == f[..4][1] && f[2] == f[..4][2] && f[3] == f[..4][3] && f[0] == f[..4][0];
  }

  /** `litepcie_flash_get_flash_program_size`. */
  method GetFlashProgramSize(chip: Chip) returns (n: nat)
    requires chip.Idle()
    modifies chip
    ensures chip.Idle() && chip.mem == old(chip.mem) && chip.busy == old(chip.busy) && chip.log == old(chip.log)
    ensures n == if chip.softwareCs then PAGE else 1
  {
    chip.SetCs(0);
    var v := chip.ReadCs();
    var softwareCs := v == 0;
    chip.SetCs(1);
    v := chip.ReadCs();
    softwareCs := softwareCs && v == 1;
    n := if softwareCs then PAGE else 1;
  }

  // ----- the whole update -----

  /** Every erase and program found the latch set and the chip ready, every read the chip ready. */
  ghost predicate AllObeyed(log: seq<Event>) {
    forall i :: 0 <= i < |log| ==> log[i].obeyed
  }

  /** How many programs were aimed at `addr`. */
  function Programs(log: seq<Event>, addr: nat): nat {
    if log == [] then 0
    else Programs(log[..|log| - 1], addr) + (if log[|log| - 1].Program? && log[|log| - 1].addr == addr then 1 else 0)
  }

  /** The bytes of the erased sectors are blank. */
  ghost predicate SectorsBlank(mem: seq<nat>, base: nat, n: nat) {
    forall a :: 0 <= a < |mem| && InErased(a, base, n) ==> mem[a] == 0xFF
  }

  /** In the sector of one of the first `n` erases that start at `base`. */
  ghost predicate InErased(a: nat, base: nat, n: nat) {
    exists k :: 0 <= k < n && InSector(a, NthErase(base, k))
  }

  /** The address the `k`-th erase is aimed at. */
  function NthErase(base: nat, k: nat): nat {
    base + k * FLASH_SECTOR_SIZE
  }

  /** How many sectors are erased for `size` bytes. */
  function Sectors(size: nat): nat {
    (size + FLASH_SECTOR_SIZE - 1) / FLASH_SECTOR_SIZE
  }

  /** In the sector of a byte of the target. */
  ghost predicate NearTarget(a: nat, base: nat, size: nat) {
    exists t :: base <= t < base + size && InSector(a, t)
  }

  /** An erase is sent for each sector's worth of bytes that begins within the target. */
  lemma SectorsExact(k: nat, size: nat)
    ensures k < Sectors(size) <==> k * FLASH_SECTOR_SIZE < size
  {}

  /** What is erased lies in sectors of the target. */
  lemma ErasedIsNear(a: nat, base: nat, size: nat)
    requires InErased(a, base, Sectors(size))
    ensures NearTarget(a, base, size)
  {
    var k :| 0 <= k < Sectors(size) && InSector(a, NthErase(base, k));
    SectorsExact(k, size);
    assert base <= NthErase(base, k) < base + size;
  }

  /** A program never leaves its page, so one that starts on a page boundary, or of one byte, never wraps. */
  lemma TargetedExactly(addr: nat, n: nat)
    requires Units(addr, n)
    ensures forall a: nat :: Targeted(a, addr, n) <==> addr <= a < addr + n
  {
    forall a: nat ensures Targeted(a, addr, n) <==> addr <= a < addr + n {
      if n == PAGE {
        assert a / PAGE == addr / PAGE <==> addr <= a < addr + PAGE;
      } else {
        assert Targeted(a, addr, 1) ==> a == addr;
      }
    }
  }

  lemma {:induction false} ProgramsOfExtension(log: seq<Event>, e: Event, addr: nat)
    ensures Programs(log + [e], addr) == Programs(log, addr) + (if e.Program? && e.addr == addr then 1 else 0)
  {
    assert (log + [e])[..|log|] == log;
  }

  /** No page above `at` was programmed yet, the one at `at` `retries` times, none more than 17 times. */
  ghost predicate ProgramCounts(log: seq<Event>, at: nat, retries: nat) {
    && retries <= FLASH_RETRIES + 1
    && forall a {:trigger Programs(log, a)} :: 0 <= a ==>
         Programs(log, a) <= FLASH_RETRIES + 1 && (a == at ==> Programs(log, a) == retries) && (a > at ==> Programs(log, a) == 0)
  }

  /** The erase loop. */
  method EraseSectors(chip: Chip, base: nat, size: nat)
    requires chip.Idle() && base + size <= CAPACITY && chip.log == []
    modifies chip
    ensures chip.Idle() && (size > 0 ==> chip.busy == 0) && (chip.busy > 0 ==> old(chip.busy) > 0)
    ensures forall a :: 0 <= a < CAPACITY && !InErased(a, base, Sectors(size)) ==> chip.mem[a] == old(chip.mem[a])
    ensures forall a :: 0 <= a < CAPACITY && !NearTarget(a, base, size) ==> chip.mem[a] == old(chip.mem[a])
    ensures OneErase(chip.log, base, Sectors(size))
    ensures old(chip.busy) == 0 ==> AllObeyed(chip.log)
    ensures old(chip.busy) == 0 ==> SectorsBlank(chip.mem, base, Sectors(size))
  {
    ghost var n := 0;
    var i := 0;
    while i < size
      invariant i == n * FLASH_SECTOR_SIZE && n <= Sectors(size)
      invariant chip.Idle() && (i > 0 ==> chip.busy == 0) && (chip.busy > 0 ==> old(chip.busy) > 0)
      invariant forall a :: 0 <= a < CAPACITY && !InErased(a, base, n) ==> chip.mem[a] == old(chip.mem[a])
      invariant OneErase(chip.log, base, n)
      invariant old(chip.busy) == 0 ==> AllObeyed(chip.log) && SectorsBlank(chip.mem, base, n)
      decreases size - i
    {
      SectorsExact(n, size);
      EraseOne(chip, base, base + i, n);
      i := i + FLASH_SECTOR_SIZE;
      n := n + 1;
    }
    SectorsExact(n, size);
    KeptFar(chip.mem, old(chip.mem), base, size);
  }

  /** The log of `n` erases, one for each sector. */
  ghost predicate OneErase(log: seq<Event>, base: nat, n: nat) {
    |log| == n && forall k :: 0 <= k < n ==> log[k].Erase? && log[k].addr == NthErase(base, k)
  }

  lemma {:induction false} NoPrograms(log: seq<Event>, base: nat, n: nat, a: nat)
    requires OneErase(log, base, n)
    ensures Programs(log, a) == 0
    decreases n
  {
    if n > 0 { NoPrograms(log[..n - 1], base, n - 1, a); }
  }

  /** One round of it. */
  method EraseOne(chip: Chip, base: nat, addr: nat, ghost n: nat)
    requires chip.Idle() && addr == NthErase(base, n) < CAPACITY
    modifies chip
    ensures chip.Idle() && chip.busy == 0
    ensures OneErase(old(chip.log), base, n) ==> OneErase(chip.log, base, n + 1)
    ensures forall a :: 0 <= a < CAPACITY && !InErased(a, base, n + 1) ==> chip.mem[a] == old(chip.mem[a])
    ensures forall a :: 0 <= a < CAPACITY && !InErased(a, base, n + 1) ==> !InErased(a, base, n)
    ensures old(chip.busy) == 0 && AllObeyed(old(chip.log)) ==> AllObeyed(chip.log)
    ensures old(chip.busy) == 0 && SectorsBlank(old(chip.mem), base, n) ==> SectorsBlank(chip.mem, base, n + 1)
  {
    FlashWriteEnable(chip);
    ghost var before := chip.mem;
    FlashEraseSector(chip, addr);
    AwaitReady(chip);
    forall a | 0 <= a < CAPACITY && !InErased(a, base, n + 1) ensures chip.mem[a] == before[a] && !InErased(a, base, n) {
      assert !InSector(a, NthErase(base, n));
    }
    forall a | 0 <= a < CAPACITY && InErased(a, base, n + 1)
      ensures InSector(a, NthErase(base, n)) || InErased(a, base, n)
    {
      var k :| 0 <= k < n + 1 && InSector(a, NthErase(base, k));
    }
  }

  /** From a sector boundary the erased sectors cover the target. */
  lemma TargetErased(a: nat, base: nat, size: nat)
    requires base % FLASH_SECTOR_SIZE == 0 && base <= a < base + size
    ensures InErased(a, base, Sectors(size))
  {
    var k := (a - base) / FLASH_SECTOR_SIZE;
    assert InSector(a, NthErase(base, k));
  }

  /** `i` is a whole number of program units of `n` bytes. */
  predicate Units(i: nat, n: nat) {
    n == 1 || (n == PAGE && i % PAGE == 0)
  }

  /** One round of the program loop: wait, enable, program, disable, wait, read back, compare. */
  method ProgramAndVerify(chip: Chip, buf: seq<nat>, base: nat, i: nat, n: nat, ghost job: Job) returns (ok: bool, ghost outcome: Outcome)
    requires chip.Idle() && n == (if chip.softwareCs then PAGE else 1)
    requires i + n <= |buf| && base + i + n <= CAPACITY && forall j :: 0 <= j < |buf| ==> buf[j] < 256
    requires job.buf == buf && job.base == base && job.n == n
    modifies chip
    ensures chip.Idle() && chip.busy == 0 && !chip.wel
    ensures chip.log == Tried(old(chip.log), base + i)
    ensures ok <==> job.Verifies(chip.mem, i)
    ensures chip.mem == ProgramOnce(old(chip.mem), base + i, job.Unit(i), outcome) && (outcome.Clean? || chip.faulty)
  {
    var addr := base + i;
    AwaitReady(chip);
    FlashWriteEnable(chip);
    ghost var before := chip.mem;
    FlashWriteBuffer(chip, addr, buf, i, n);
    outcome :| (outcome.Clean? || chip.faulty) && chip.mem == ProgramOnce(before, addr, buf[i..i + n], outcome);
    FlashWriteDisable(chip);
    AwaitReady(chip);
    var cmp := FlashReadBuffer(chip, addr, n);
    ok := buf[i..i + n] == cmp;
  }

  /** The log after one more round at `at`. */
  function Tried(log: seq<Event>, at: nat): seq<Event> {
    log + [Program(at, true)] + [Read(at, true)]
  }

  lemma ByteAgainstErased(b: nat, erased: nat)
    requires b < 256 && erased == 0xFF
    ensures And(b, erased) == b
  {
    Pow2Values();
    var n: nat := 8;
    AndOnes(b, n);
    HiLo(b, n);
  }

  /** Programming erased bytes leaves exactly the data there. */
  lemma CleanProgram(mem: seq<nat>, addr: nat, data: seq<nat>)
    requires 0 < |data| <= PAGE && Units(addr, |data|) && addr + |data| <= |mem|
    requires Blank(mem, addr, addr + |data|) && forall j :: 0 <= j < |data| ==> data[j] < 256
    ensures Programmed(mem, addr, data)[addr..addr + |data|] == data
  {
    TargetedExactly(addr, |data|);
    var after := Programmed(mem, addr, data);
    forall j | 0 <= j < |data| ensures after[addr + j] == data[j] {
      ByteAgainstErased(data[j], mem[addr + j]);
      assert Targeted(addr + j, addr, |data|) && mem[addr + j] == 0xFF;
    }
  }

  ghost predicate Blank(mem: seq<nat>, lo: nat, hi: nat)
    requires lo <= hi <= |mem|
  {
    forall a :: lo <= a < hi ==> mem[a] == 0xFF
  }

  /** Nothing changed but the target and the erased sectors. */
  ghost predicate Kept(mem: seq<nat>, was: seq<nat>, base: nat, size: nat) {
    && |mem| == |was|
    && forall a :: 0 <= a < |mem| && !InErased(a, base, Sectors(size)) && !(base <= a < base + size) ==> mem[a] == was[a]
  }

  /** So nothing changed outside the sectors of the target. */
  lemma KeptFar(mem: seq<nat>, was: seq<nat>, base: nat, size: nat)
    requires Kept(mem, was, base, size)
    ensures forall a :: 0 <= a < |mem| && !NearTarget(a, base, size) ==> mem[a] == was[a]
  {
    forall a | 0 <= a < |mem| && !NearTarget(a, base, size) ensures mem[a] == was[a] {
      assert base <= a < base + size ==> InSector(a, a);
      if InErased(a, base, Sectors(size)) { ErasedIsNear(a, base, size); }
    }
  }

  lemma UnitsSum(a: nat, b: nat, n: nat)
    requires Units(a, n) && Units(b, n)
    ensures Units(a + b, n)
  {
    if n == PAGE { DivModUnique(a + b, PAGE, a / PAGE + b / PAGE, 0); }
  }

  lemma NextUnit(i: nat, size: nat, n: nat)
    requires Units(i, n) && Units(size, n) && i < size
    ensures i + n <= size && Units(i + n, n)
  {}

  /** A program that wraps stays within the target, or within the page of `base`, which is in the first sector. */
  lemma RoundKeeps(before: seq<nat>, mem: seq<nat>, was: seq<nat>, base: nat, size: nat, i: nat, n: nat, unit: seq<nat>, o: Outcome)
    requires Units(i, n) && 0 < n == |unit| && i + n <= size && base + size <= |before| == |mem|
    requires mem == ProgramOnce(before, base + i, unit, o)
    requires Kept(before, was, base, size)
    ensures Kept(mem, was, base, size)
  {
    forall a | 0 <= a < |mem| && !InErased(a, base, Sectors(size)) && !(base <= a < base + size) ensures mem[a] == before[a] {
      if Targeted(a, base + i, n) {
        WrappedWithin(a, base, i, n, size);
      }
    }
  }

  lemma WrappedWithin(a: nat, base: nat, i: nat, n: nat, size: nat)
    requires Units(i, n) && 0 < n && i + n <= size && Targeted(a, base + i, n)
    ensures base <= a < base + size || InErased(a, base, Sectors(size))
  {
    if n == 1 {
      assert a == base + i;
    } else if a < base {
      assert a / PAGE == base / PAGE;
      SameSector(a, base);
      assert InSector(a, NthErase(base, 0));
    }
  }

  lemma SameSector(a: nat, b: nat)
    requires a / PAGE == b / PAGE
    ensures InSector(a, b)
  {
    assert a / PAGE / 256 == a / FLASH_SECTOR_SIZE && b / PAGE / 256 == b / FLASH_SECTOR_SIZE;
  }

  lemma CountsStep(log: seq<Event>, at: nat, retries: nat)
    requires ProgramCounts(log, at, retries) && retries <= FLASH_RETRIES
    ensures ProgramCounts(log + [Program(at, true)] + [Read(at, true)], at, retries + 1)
    ensures AllObeyed(log) ==> AllObeyed(log + [Program(at, true)] + [Read(at, true)])
  {
    var l := log + [Program(at, true)];
    forall a {:trigger Programs(l + [Read(at, true)], a)} | 0 <= a
      ensures Programs(l + [Read(at, true)], a) == Programs(log, a) + (if a == at then 1 else 0)
    {
      ProgramsOfExtension(log, Program(at, true), a);
      ProgramsOfExtension(l, Read(at, true), a);
    }
  }

  // ----- runs of the program loop -----

  /** What is written, where, in units of how many bytes. */
  datatype Job = Job(buf: seq<nat>, base: nat, size: nat, n: nat) {
    ghost predicate Valid() {
      && (n == 1 || n == PAGE) && Units(size, n) && size <= |buf| && base + size <= CAPACITY
      && forall j :: 0 <= j < |buf| ==> buf[j] < 256
    }

    /** The unit at `i`. */
    function Unit(i: nat): seq<nat> {
      if i + n <= |buf| then buf[i..i + n] else []
    }

    /** The flash holds the first `i` bytes. */
    predicate Holds(mem: seq<nat>, i: nat) {
      base + i <= |mem| && i <= |buf| && mem[base..base + i] == buf[..i]
    }

    predicate Verifies(mem: seq<nat>, i: nat) {
      base + i + n <= |mem| && i + n <= |buf| && mem[base + i..base + i + n] == buf[i..i + n]
    }
  }

  /** Where the program loop stands: the contents of the flash, bytes done, tries of the next unit in vain, and what the
      flash has been told. */
  datatype State = State(mem: seq<nat>, i: nat, retries: nat, log: seq<Event>)

  /** Before the first round. */
  function Fresh(mem: seq<nat>, log: seq<Event>): State {
    State(mem, 0, 0, log)
  }

  predicate IsFresh(s: State) {
    s.i == 0 && s.retries == 0 && |s.mem| == CAPACITY
  }

  /** After a program that left `mem`, the unit at `s.i` is read back. */
  function Judged(job: Job, s: State, mem: seq<nat>): State {
    var log := Tried(s.log, job.base + s.i);
    if job.Verifies(mem, s.i) then State(mem, s.i + job.n, 0, log) else State(mem, s.i, s.retries + 1, log)
  }

  predicate Over(job: Job, s: State) {
    s.i >= job.size || s.retries > FLASH_RETRIES
  }

  /** One round whose program has the outcome `o`; none when the loop has ended. */
  function Step(job: Job, s: State, o: Outcome): State {
    if Over(job, s) then s
    else Judged(job, s, ProgramOnce(s.mem, job.base + s.i, job.Unit(s.i), o))
  }

  /** The loop from there on, when its programs have these outcomes. */
  function Run(from: State, job: Job, outcomes: seq<Outcome>): State {
    if outcomes == [] then from
    else Step(job, Run(from, job, outcomes[..|outcomes| - 1]), outcomes[|outcomes| - 1])
  }

  lemma RunOne(from: State, job: Job, outcomes: seq<Outcome>, o: Outcome)
    ensures Run(from, job, outcomes + [o]) == Step(job, Run(from, job, outcomes), o)
  {
    assert (outcomes + [o])[..|outcomes|] == outcomes;
  }

  /** The loop ends with success. */
  predicate Succeeds(from: State, job: Job, outcomes: seq<Outcome>) {
    Run(from, job, outcomes).i == job.size
  }

  predicate InUnits(job: Job, s: State) {
    Units(s.i, job.n) && s.i <= job.size && |s.mem| == CAPACITY
  }

  lemma StepUnits(job: Job, s: State, o: Outcome)
    requires job.Valid() && InUnits(job, s)
    ensures InUnits(job, Step(job, s, o))
  {
    if s.i < job.size { NextUnit(s.i, job.size, job.n); }
  }

  /** A program on whole units leaves all other units alone. */
  lemma Elsewhere(mem: seq<nat>, addr: nat, data: seq<nat>, o: Outcome, a: nat)
    requires Units(addr, |data|) && a < |mem| && !(addr <= a < addr + |data|)
    ensures ProgramOnce(mem, addr, data, o)[a] == mem[a]
  {
    TargetedExactly(addr, |data|);
  }

  /** From a page boundary, or byte by byte, a unit once verified is not touched again. */
  lemma StepHolds(job: Job, s: State, o: Outcome)
    requires job.Valid() && InUnits(job, s) && Units(job.base, job.n) && job.Holds(s.mem, s.i)
    ensures job.Holds(Step(job, s, o).mem, Step(job, s, o).i)
  {
    if s.i < job.size {
      NextUnit(s.i, job.size, job.n);
      UnitsSum(job.base, s.i, job.n);
      var unit := job.Unit(s.i);
      var mem := ProgramOnce(s.mem, job.base + s.i, unit, o);
      forall a | job.base <= a < job.base + s.i ensures mem[a] == s.mem[a] {
        Elsewhere(s.mem, job.base + s.i, unit, o, a);
      }
      if s.retries <= FLASH_RETRIES {
        StepJudged(job, s, o, unit, mem);
        JudgedHolds(job, s, mem);
      }
    }
  }

  lemma JudgedHolds(job: Job, s: State, mem: seq<nat>)
    requires job.Holds(s.mem, s.i) && |mem| == |s.mem|
    requires forall a :: job.base <= a < job.base + s.i ==> mem[a] == s.mem[a]
    ensures job.Holds(Judged(job, s, mem).mem, Judged(job, s, mem).i)
  {
    assert mem[job.base..job.base + s.i] == s.mem[job.base..job.base + s.i];
    if job.Verifies(mem, s.i) { PageDone(mem, job.buf, job.base, s.i, job.n); }
  }

  lemma {:induction false} RunUnits(from: State, job: Job, outcomes: seq<Outcome>)
    requires job.Valid() && IsFresh(from)
    ensures InUnits(job, Run(from, job, outcomes))
  {
    if outcomes != [] {
      var front := outcomes[..|outcomes| - 1];
      RunUnits(from, job, front);
      StepUnits(job, Run(from, job, front), outcomes[|outcomes| - 1]);
    }
  }

  lemma {:induction false} RunHolds(from: State, job: Job, outcomes: seq<Outcome>)
    requires job.Valid() && IsFresh(from) && Units(job.base, job.n)
    ensures job.Holds(Run(from, job, outcomes).mem, Run(from, job, outcomes).i)
  {
    if outcomes != [] {
      var front := outcomes[..|outcomes| - 1];
      RunUnits(from, job, front);
      RunHolds(from, job, front);
      StepHolds(job, Run(from, job, front), outcomes[|outcomes| - 1]);
    }
  }

  lemma StepOnlyUnit(job: Job, s: State, o: Outcome)
    requires job.Valid() && InUnits(job, s) && s.i < job.size <= job.n && Step(job, s, o).i == job.size
    ensures job.Holds(Step(job, s, o).mem, job.size)
  {
    NextUnit(s.i, job.size, job.n);
  }

  /** With a single unit, success is its own verification. */
  lemma {:induction false} OneUnitHolds(from: State, job: Job, outcomes: seq<Outcome>)
    requires job.Valid() && IsFresh(from) && job.size <= job.n && Succeeds(from, job, outcomes)
    ensures job.Holds(Run(from, job, outcomes).mem, job.size)
  {
    if outcomes != [] {
      var front := outcomes[..|outcomes| - 1];
      var s := Run(from, job, front);
      RunUnits(from, job, front);
      if s.i == job.size {
        OneUnitHolds(from, job, front);
      } else {
        StepOnlyUnit(job, s, outcomes[|outcomes| - 1]);
      }
    }
  }

  /** The condition under which a success can be trusted. */
  predicate Trusted(base: nat, size: nat, n: nat) {
    n == 1 || base % PAGE == 0 || size <= PAGE
  }

  lemma SuccessHolds(from: State, job: Job, outcomes: seq<Outcome>)
    requires job.Valid() && IsFresh(from) && Succeeds(from, job, outcomes) && Trusted(job.base, job.size, job.n)
    ensures job.Holds(Run(from, job, outcomes).mem, job.size)
  {
    if Units(job.base, job.n) {
      RunHolds(from, job, outcomes);
    } else {
      OneUnitHolds(from, job, outcomes);
    }
  }

  // ----- and when it cannot -----

  /** The loop succeeds after a successful erase, and the flash does not hold the data. */
  ghost predicate Deceived(from: State, job: Job, outcomes: seq<Outcome>) {
    && job.Valid() && IsFresh(from) && SectorsBlank(from.mem, job.base, Sectors(job.size))
    && Succeeds(from, job, outcomes) && !job.Holds(Run(from, job, outcomes).mem, job.size)
  }

  /** Success means that the flash holds the data, whatever its contents, the data and the faults, exactly when units are
      bytes, or the target starts on a page boundary, or there is only one unit. */
  lemma SuccessExact(base: nat, size: nat, n: nat)
    requires (n == 1 || n == PAGE) && Units(size, n) && base + size <= CAPACITY
    ensures (forall from, buf, outcomes :: !Deceived(from, Job(buf, base, size, n), outcomes)) <==> Trusted(base, size, n)
  {
    if Trusted(base, size, n) {
      forall from, buf, outcomes ensures !Deceived(from, Job(buf, base, size, n), outcomes) {
        if Deceived(from, Job(buf, base, size, n), outcomes) {
          SuccessHolds(from, Job(buf, base, size, n), outcomes);
        }
      }
    } else {
      var from, job, outcomes := WrappedSuccess(base, size);
      assert Deceived(from, Job(job.buf, base, size, n), outcomes);
    }
  }

  /** `mem` but for byte `p`. */
  function Damaged(mem: seq<nat>, p: nat): (r: seq<nat>)
    requires p < |mem|
    ensures |r| == |mem| && r[p] == 0 && forall a :: 0 <= a < |mem| && a != p ==> r[a] == mem[a]
  {
    mem[p := 0]
  }

  ghost predicate Ones(data: seq<nat>) {
    forall j :: 0 <= j < |data| ==> data[j] == 0xFF
  }

  /** All programs go well but the second, which spoils the first byte of its page. */
  function Fault(k: nat, junk: Page): Outcome {
    if k == 1 then Spoilt(junk) else Clean
  }

  /** A page of ones but for its first byte. */
  ghost predicate HitJunk(junk: Page) {
    forall j :: 0 <= j < PAGE ==> junk[j] == if j == 0 then 0 else 0xFF
  }

  ghost predicate OneFault(outcomes: seq<Outcome>, junk: Page) {
    forall k :: 0 <= k < |outcomes| ==> outcomes[k] == Fault(k, junk)
  }

  /** Programming ones into blank bytes changes nothing. */
  lemma OnesProgram(mem: seq<nat>, addr: nat, data: seq<nat>, ones: nat)
    requires Ones(data) && ones == 0xFF && 0 < |data| <= PAGE
    requires forall a :: 0 <= a < |mem| && Targeted(a, addr, |data|) ==> mem[a] == ones
    ensures ProgramOnce(mem, addr, data, Clean) == mem
  {
    ByteAgainstErased(ones, ones);
    forall a | 0 <= a < |mem| ensures ProgramOnce(mem, addr, data, Clean)[a] == mem[a] {
      if Targeted(a, addr, |data|) {
        assert data[(a - addr) % PAGE] == ones;
      }
    }
  }

  /** Byte `p` starts the page number `q`, behind `base` and in the first unit of a target that starts there. */
  predicate Hit(base: nat, p: nat, q: nat) {
    base < p < base + PAGE && p == PAGE * q
  }

  lemma PageOf(a: nat, q: nat)
    ensures a / PAGE == q <==> PAGE * q <= a < PAGE * q + PAGE
  {}

  lemma FaultProgram(blank: seq<nat>, base: nat, data: seq<nat>, junk: Page, p: nat, q: nat)
    requires Ones(blank) && |data| == PAGE && Hit(base, p, q) && p < |blank| && HitJunk(junk)
    ensures ProgramOnce(blank, base + PAGE, data, Spoilt(junk)) == Damaged(blank, p)
  {
    PageOf(base + PAGE, q);
    forall a | 0 <= a < |blank| ensures ProgramOnce(blank, base + PAGE, data, Spoilt(junk))[a] == Damaged(blank, p)[a] {
      PageOf(a, q);
      if p <= a < p + PAGE { FirstInPage(a, p, q); }
    }
  }

  lemma FirstInPage(a: nat, p: nat, q: nat)
    requires p == PAGE * q && p <= a < p + PAGE
    ensures a % PAGE == a - p
  {
    DivModUnique(a, PAGE, q, a - p);
  }

  /** Contents after `k` rounds. */
  function Contents(blank: seq<nat>, p: nat, k: nat): seq<nat>
    requires p < |blank|
  {
    if k <= 1 then blank else Damaged(blank, p)
  }

  /** Ones for a blank flash, not from a page boundary. */
  ghost predicate Faulting(job: Job, blank: seq<nat>, p: nat, q: nat) {
    job.n == PAGE && Hit(job.base, p, q) && p < |blank| == CAPACITY && Ones(job.buf) && Ones(blank)
  }

  /** The `k`-th program takes the flash to its next contents. */
  lemma FaultContents(job: Job, blank: seq<nat>, p: nat, q: nat, k: nat, junk: Page, unit: seq<nat>, ones: nat)
    requires Faulting(job, blank, p, q) && HitJunk(junk) && Ones(unit) && |unit| == PAGE && ones == 0xFF
    ensures ProgramOnce(Contents(blank, p, k), job.base + k * PAGE, unit, Fault(k, junk)) == Contents(blank, p, k + 1)
  {
    if k == 1 {
      FaultProgram(blank, job.base, unit, junk, p, q);
    } else {
      BlankThere(job, blank, p, q, k, ones);
      OnesProgram(Contents(blank, p, k), job.base + k * PAGE, unit, ones);
    }
  }

  /** Where the `k`-th unit goes all is blank, unless it is the one that goes to the damaged page. */
  lemma BlankThere(job: Job, blank: seq<nat>, p: nat, q: nat, k: nat, ones: nat)
    requires Faulting(job, blank, p, q) && k != 1 && ones == 0xFF
    ensures forall a :: 0 <= a < CAPACITY && Targeted(a, job.base + k * PAGE, PAGE) ==> Contents(blank, p, k)[a] == ones
  {
    if k > 1 {
      PageOf(p, q);
      PageOf(job.base + k * PAGE, q);
    }
  }

  /** Behind the `k`-th unit's start all is blank. */
  lemma BlankBehind(job: Job, blank: seq<nat>, p: nat, q: nat, k: nat, mem: seq<nat>)
    requires Faulting(job, blank, p, q) && mem == Contents(blank, p, k + 1)
    ensures |mem| == CAPACITY && forall a :: job.base + k * PAGE <= a < CAPACITY ==> mem[a] == 0xFF
  {}

  lemma StepJudged(job: Job, s: State, o: Outcome, unit: seq<nat>, mem: seq<nat>)
    requires s.i < job.size && s.retries <= FLASH_RETRIES && unit == job.Unit(s.i) && mem == ProgramOnce(s.mem, job.base + s.i, unit, o)
    ensures Step(job, s, o) == Judged(job, s, mem)
  {}

  /** `k` rounds have led to `s`. */
  ghost predicate Rounds(s: State, blank: seq<nat>, p: nat, k: nat)
    requires p < |blank|
  {
    s.mem == Contents(blank, p, k) && s.i == k * PAGE && s.retries == 0
  }

  lemma FaultRound(job: Job, blank: seq<nat>, p: nat, q: nat, k: nat, junk: Page, s: State)
    requires Faulting(job, blank, p, q) && HitJunk(junk) && (k + 1) * PAGE <= job.size <= |job.buf| && job.base + job.size <= CAPACITY
    requires Rounds(s, blank, p, k)
    ensures Rounds(Step(job, s, Fault(k, junk)), blank, p, k + 1)
  {
    var mem, unit := Contents(blank, p, k + 1), job.Unit(s.i);
    FaultUnit(job, blank, p, q, k, junk, s, unit, mem);
    StepVerified(job, s, Fault(k, junk), unit, mem);
  }

  /** The `k`-th program, and its verification. */
  lemma FaultUnit(job: Job, blank: seq<nat>, p: nat, q: nat, k: nat, junk: Page, s: State, unit: seq<nat>, mem: seq<nat>)
    requires Faulting(job, blank, p, q) && HitJunk(junk) && (k + 1) * PAGE <= job.size <= |job.buf| && job.base + job.size <= CAPACITY
    requires Rounds(s, blank, p, k) && unit == job.Unit(s.i) && mem == Contents(blank, p, k + 1)
    ensures mem == ProgramOnce(s.mem, job.base + s.i, unit, Fault(k, junk)) && job.Verifies(mem, s.i)
  {
    UnitOfOnes(job, s.i, unit);
    FaultContents(job, blank, p, q, k, junk, unit, 0xFF);
    BlankBehind(job, blank, p, q, k, mem);
    OnesVerify(job, mem, s.i);
  }

  lemma StepVerified(job: Job, s: State, o: Outcome, unit: seq<nat>, mem: seq<nat>)
    requires s.i < job.size && s.retries <= FLASH_RETRIES && unit == job.Unit(s.i) && mem == ProgramOnce(s.mem, job.base + s.i, unit, o)
    requires job.Verifies(mem, s.i)
    ensures Step(job, s, o).mem == mem && Step(job, s, o).i == s.i + job.n && Step(job, s, o).retries == 0
  {
    StepJudged(job, s, o, unit, mem);
    JudgedIs(job, s, mem, Judged(job, s, mem));
  }

  lemma UnitOfOnes(job: Job, i: nat, unit: seq<nat>)
    requires Ones(job.buf) && i + job.n <= |job.buf| && unit == job.Unit(i)
    ensures Ones(unit) && |unit| == job.n
  {}

  lemma OnesVerify(job: Job, mem: seq<nat>, i: nat)
    requires i + job.n <= |job.buf| && job.base + i + job.n <= |mem| && Ones(job.buf)
    requires forall a :: job.base + i <= a < |mem| ==> mem[a] == 0xFF
    ensures job.Verifies(mem, i)
  {}

  lemma FaultNext(job: Job, blank: seq<nat>, p: nat, q: nat, k: nat, junk: Page, from: State, front: seq<Outcome>, whole: seq<Outcome>)
    requires Faulting(job, blank, p, q) && HitJunk(junk) && (k + 1) * PAGE <= job.size <= |job.buf| && job.base + job.size <= CAPACITY
    requires Rounds(Run(from, job, front), blank, p, k) && whole == front + [Fault(k, junk)]
    ensures Rounds(Run(from, job, whole), blank, p, k + 1)
  {
    FaultRound(job, blank, p, q, k, junk, Run(from, job, front));
    RunOne(from, job, front, Fault(k, junk));
  }

  lemma {:induction false} FaultRun(job: Job, blank: seq<nat>, p: nat, q: nat, outcomes: seq<Outcome>, junk: Page, from: State)
    requires Faulting(job, blank, p, q) && HitJunk(junk) && |outcomes| * PAGE <= job.size <= |job.buf| && job.base + job.size <= CAPACITY
    requires OneFault(outcomes, junk) && from.mem == blank && from.i == 0 && from.retries == 0
    ensures Rounds(Run(from, job, outcomes), blank, p, |outcomes|)
  {
    if outcomes != [] {
      var front := outcomes[..|outcomes| - 1];
      FaultRun(job, blank, p, q, front, junk, from);
      FaultNext(job, blank, p, q, |front|, junk, from, front, outcomes);
    }
  }

  lemma NextPage(base: nat) returns (p: nat, q: nat)
    requires base % PAGE != 0
    ensures Hit(base, p, q)
  {
    q := base / PAGE + 1;
    p := PAGE * q;
  }

  /** Ones written to a blank flash across page boundaries, with a single fault. */
  lemma WrappedSuccess(base: nat, size: nat) returns (from: State, job: Job, outcomes: seq<Outcome>)
    requires size % PAGE == 0 && base + size <= CAPACITY && base % PAGE != 0 && size > PAGE
    ensures job.base == base && job.size == size && job.n == PAGE && Deceived(from, job, outcomes)
  {
    var blank := seq(CAPACITY, (a: nat) => 0xFF);
    var junk := seq(PAGE, (j: nat) => if j == 0 then 0 else 0xFF);
    var p, q := NextPage(base);
    from, job, outcomes := Fresh(blank, []), Job(seq(size, (j: nat) => 0xFF), base, size, PAGE), seq(size / PAGE, (k: nat) => Fault(k, junk));
    FaultRun(job, blank, p, q, outcomes, junk, from);
    DamageShows(job, Run(from, job, outcomes).mem, p);
  }

  lemma DamageShows(job: Job, mem: seq<nat>, p: nat)
    requires job.base <= p < job.base + job.size <= |mem| && job.size <= |job.buf| && mem[p] == 0 && job.buf[p - job.base] == 0xFF
    ensures !job.Holds(mem, job.size)
  {
    assert mem[job.base..job.base + job.size][p - job.base] == 0 && job.buf[..job.size][p - job.base] == 0xFF;
  }

  // ----- the whole update -----

  ghost predicate AllClean(outcomes: seq<Outcome>) {
    forall k :: 0 <= k < |outcomes| ==> outcomes[k].Clean?
  }

  /** The outcomes so far have led to `s`. */
  ghost predicate Underway(from: State, job: Job, outcomes: seq<Outcome>, s: State, faulty: bool) {
    Run(from, job, outcomes) == s && (faulty || AllClean(outcomes))
  }

  /** The counts and the log are right, and nothing else was touched. */
  ghost predicate InOrder(was: seq<nat>, job: Job, s: State, ready: bool) {
    && InUnits(job, s)
    && ProgramCounts(s.log, job.base + s.i, s.retries)
    && (ready ==> AllObeyed(s.log))
    && Kept(s.mem, was, job.base, job.size)
  }

  /** Nothing goes wrong: no retry was needed, and what is still to be written is blank. */
  ghost predicate Smooth(job: Job, s: State, faulty: bool) {
    && !faulty && s.retries == 0 && Units(job.base, job.n) && job.base + job.size <= |s.mem| && s.i <= job.size
    && Blank(s.mem, job.base + s.i, job.base + job.size)
  }

  lemma StepSmooth(job: Job, s: State, faulty: bool)
    requires job.Valid() && InUnits(job, s) && s.i < job.size && Smooth(job, s, faulty)
    ensures var t := Step(job, s, Clean); Smooth(job, t, faulty) && t.i == s.i + job.n
  {
    NextUnit(s.i, job.size, job.n);
    UnitsSum(job.base, s.i, job.n);
    var addr, unit := job.base + s.i, job.Unit(s.i);
    CleanProgram(s.mem, addr, unit);
    forall a | addr + job.n <= a < job.base + job.size ensures ProgramOnce(s.mem, addr, unit, Clean)[a] == 0xFF {
      Elsewhere(s.mem, addr, unit, Clean, a);
    }
  }

  lemma StepCounts(job: Job, s: State, t: State, o: Outcome)
    requires ProgramCounts(s.log, job.base + s.i, s.retries) && !Over(job, s) && job.n > 0 && t == Step(job, s, o)
    ensures ProgramCounts(t.log, job.base + t.i, t.retries) && (AllObeyed(s.log) ==> AllObeyed(t.log))
  {
    CountsStep(s.log, job.base + s.i, s.retries);
  }

  lemma StepKeeps(was: seq<nat>, job: Job, s: State, t: State, o: Outcome)
    requires job.Valid() && InUnits(job, s) && s.i < job.size && Kept(s.mem, was, job.base, job.size)
    requires t == Step(job, s, o)
    ensures Kept(t.mem, was, job.base, job.size)
  {
    NextUnit(s.i, job.size, job.n);
    if s.retries <= FLASH_RETRIES {
      RoundKeeps(s.mem, t.mem, was, job.base, job.size, s.i, job.n, job.Unit(s.i), o);
    }
  }

  lemma StepInOrder(was: seq<nat>, job: Job, s: State, t: State, o: Outcome, ready: bool)
    requires job.Valid() && InOrder(was, job, s, ready) && t == Step(job, s, o)
    ensures InOrder(was, job, t, ready)
  {
    if !Over(job, s) {
      StepUnits(job, s, o);
      StepCounts(job, s, t, o);
      StepKeeps(was, job, s, t, o);
    }
  }

  /** In every run all is in order. */
  lemma {:induction false} RunInOrder(was: seq<nat>, from: State, job: Job, outcomes: seq<Outcome>, ready: bool)
    requires job.Valid() && InOrder(was, job, from, ready)
    ensures InOrder(was, job, Run(from, job, outcomes), ready)
  {
    if outcomes != [] {
      var front := outcomes[..|outcomes| - 1];
      RunInOrder(was, from, job, front, ready);
      StepInOrder(was, job, Run(from, job, front), Run(from, job, outcomes), outcomes[|outcomes| - 1], ready);
    }
  }

  /** A flash without faults never needs a retry. */
  lemma {:induction false} RunSmooth(from: State, job: Job, outcomes: seq<Outcome>)
    requires job.Valid() && AllClean(outcomes) && IsFresh(from) && Smooth(job, from, false)
    ensures Smooth(job, Run(from, job, outcomes), false)
  {
    if outcomes != [] {
      var front := outcomes[..|outcomes| - 1];
      var s := Run(from, job, front);
      RunSmooth(from, job, front);
      RunUnits(from, job, front);
      if !Over(job, s) {
        StepSmooth(job, s, false);
      }
    }
  }

  lemma JudgedIs(job: Job, s: State, mem: seq<nat>, t: State)
    requires t == Judged(job, s, mem)
    ensures t.mem == mem && t.log == Tried(s.log, job.base + s.i)
    ensures if job.Verifies(mem, s.i) then t.i == s.i + job.n && t.retries == 0 else t.i == s.i && t.retries == s.retries + 1
  {}

  lemma RoundDone(from: State, job: Job, outcomes: seq<Outcome>, longer: seq<Outcome>, s: State, t: State, o: Outcome,
                  unit: seq<nat>, mem: seq<nat>, faulty: bool, ok: bool)
    requires !Over(job, s) && (o.Clean? || faulty) && Underway(from, job, outcomes, s, faulty) && longer == outcomes + [o]
    requires unit == job.Unit(s.i) && mem == ProgramOnce(s.mem, job.base + s.i, unit, o) && t == Judged(job, s, mem)
    requires ok == job.Verifies(mem, s.i)
    ensures Underway(from, job, longer, t, faulty)
    ensures t == if ok then State(mem, s.i + job.n, 0, Tried(s.log, job.base + s.i)) else State(mem, s.i, s.retries + 1, Tried(s.log, job.base + s.i))
  {
    RunFurther(from, job, outcomes, longer, s, t, o, unit, mem, faulty);
    JudgedIs(job, s, mem, t);
  }

  lemma RunFurther(from: State, job: Job, outcomes: seq<Outcome>, longer: seq<Outcome>, s: State, t: State, o: Outcome,
                   unit: seq<nat>, mem: seq<nat>, faulty: bool)
    requires !Over(job, s) && (o.Clean? || faulty) && Underway(from, job, outcomes, s, faulty) && longer == outcomes + [o]
    requires unit == job.Unit(s.i) && mem == ProgramOnce(s.mem, job.base + s.i, unit, o) && t == Judged(job, s, mem)
    ensures Underway(from, job, longer, t, faulty)
  {
    StepJudged(job, s, o, unit, mem);
    RunOne(from, job, outcomes, o);
  }

  /** `litepcie_flash_write` of the first `size` bytes of `buf`, a whole number of program units.

      Success means the flash holds the data, whatever went wrong underway, if it can be trusted at all; nothing but the
      target and the erased sectors changes, all of which are sectors of the target; every erase and program found the
      chip ready and enabled, and every read found it ready; no address is programmed more than 17 times, and failure
      means that one was 17 times; the flash is left write protected; and a flash without faults is always written.
      `from` is how the erase left the flash, `outcomes` are those of the programs. */
  method LitepcieFlashWrite(chip: Chip, buf: seq<nat>, base: nat, size: nat) returns (r: nat, ghost from: State, ghost outcomes: seq<Outcome>)
    requires chip.Idle() && size <= |buf| && base + size <= CAPACITY
    requires chip.softwareCs ==> size % PAGE == 0
    requires forall j :: 0 <= j < |buf| ==> buf[j] < 256
    modifies chip
    ensures chip.Idle() && (r == 0 || r == 1)
    ensures var job := Job(buf, base, size, if chip.softwareCs then PAGE else 1);
      IsFresh(from) && Run(from, job, outcomes).mem == chip.mem && Run(from, job, outcomes).log == chip.log
      && (r == 0 <==> Succeeds(from, job, outcomes))
    ensures OneErase(from.log, base, Sectors(size))
    ensures old(chip.busy) == 0 ==> SectorsBlank(from.mem, base, Sectors(size))
    ensures r == 0 && (!chip.softwareCs || base % PAGE == 0 || size <= PAGE) ==> chip.mem[base..base + size] == buf[..size]
    ensures Kept(chip.mem, old(chip.mem), base, size)
    ensures forall a :: 0 <= a < CAPACITY && !NearTarget(a, base, size) ==> chip.mem[a] == old(chip.mem[a])
    ensures r == 1 ==> exists a {:trigger Programs(chip.log, a)} :: base <= a < base + size && Programs(chip.log, a) == FLASH_RETRIES + 1
    ensures old(chip.busy) == 0 ==> AllObeyed(chip.log)
    ensures chip.wel ==> size == 0 && chip.busy > 0
    ensures forall a {:trigger Programs(chip.log, a)} :: 0 <= a ==> Programs(chip.log, a) <= FLASH_RETRIES + 1
    ensures !chip.faulty && old(chip.busy) == 0 && base % FLASH_SECTOR_SIZE == 0 ==> r == 0
  {
    var n := EraseTarget(chip, buf, base, size);
    from := Fresh(chip.mem, chip.log);
    ghost var job, s := Job(buf, base, size, n), from;
    r, outcomes, s := ProgramAll(chip, buf, base, size, n);
    RunInOrder(old(chip.mem), from, job, outcomes, old(chip.busy) == 0);
    KeptFar(chip.mem, old(chip.mem), base, size);
    RunUnits(from, job, outcomes);
    assert r == 1 ==> Programs(chip.log, base + s.i) == FLASH_RETRIES + 1;
    if r == 0 && Trusted(base, size, n) {
      SuccessHolds(from, job, outcomes);
    }
    if Smooth(job, from, chip.faulty) {
      RunSmooth(from, job, outcomes);
    }
  }

  /** What comes before the program loop. */
  method EraseTarget(chip: Chip, ghost buf: seq<nat>, base: nat, size: nat) returns (n: nat)
    requires chip.Idle() && size <= |buf| && base + size <= CAPACITY
    modifies chip
    ensures chip.Idle() && n == (if chip.softwareCs then PAGE else 1) && OneErase(chip.log, base, Sectors(size))
    ensures InOrder(old(chip.mem), Job(buf, base, size, n), Fresh(chip.mem, chip.log), old(chip.busy) == 0)
    ensures chip.wel ==> chip.busy > 0
    ensures old(chip.busy) == 0 ==> SectorsBlank(chip.mem, base, Sectors(size))
    ensures !chip.faulty && old(chip.busy) == 0 && base % FLASH_SECTOR_SIZE == 0 ==> Smooth(Job(buf, base, size, n), Fresh(chip.mem, chip.log), chip.faulty)
  {
    chip.log := [];
    n := GetFlashProgramSize(chip);
    FlashReadId0(chip);
    FlashWriteEnable(chip);
    EraseSectors(chip, base, size);
    forall a {:trigger Programs(chip.log, a)} | 0 <= a ensures Programs(chip.log, a) == 0 {
      NoPrograms(chip.log, base, Sectors(size), a);
    }
    FlashWriteDisable(chip);
    if old(chip.busy) == 0 && base % FLASH_SECTOR_SIZE == 0 && !chip.faulty {
      SmoothStart(chip.mem, chip.log, Job(buf, base, size, n));
    }
  }

  lemma SmoothStart(mem: seq<nat>, log: seq<Event>, job: Job)
    requires SectorsBlank(mem, job.base, Sectors(job.size)) && job.base % FLASH_SECTOR_SIZE == 0
    requires job.base + job.size <= |mem| && (job.n == 1 || job.n == PAGE)
    ensures Smooth(job, Fresh(mem, log), false)
  {
    forall a | job.base <= a < job.base + job.size ensures mem[a] == 0xFF {
      TargetErased(a, job.base, job.size);
    }
    SectorIsPage(job.base);
  }

  lemma SectorIsPage(base: nat)
    requires base % FLASH_SECTOR_SIZE == 0
    ensures base % PAGE == 0
  {
    DivModUnique(base, PAGE, base / FLASH_SECTOR_SIZE * 256, 0);
  }

  /** One round of the loop: the run goes one step further. */
  method Round(chip: Chip, buf: seq<nat>, base: nat, n: nat, i: nat, ghost job: Job, ghost from: State, ghost outcomes: seq<Outcome>, ghost s: State)
    returns (ok: bool, ghost longer: seq<Outcome>, ghost t: State)
    requires chip.Idle() && n == (if chip.softwareCs then PAGE else 1)
    requires job.Valid() && job.buf == buf && job.base == base && job.n == n && i + n <= job.size
    requires s.mem == chip.mem && s.log == chip.log && s.i == i && s.retries <= FLASH_RETRIES
    requires Underway(from, job, outcomes, s, chip.faulty)
    modifies chip
    ensures chip.Idle() && chip.busy == 0 && !chip.wel
    ensures t == if ok then State(chip.mem, i + n, 0, chip.log) else State(chip.mem, i, s.retries + 1, chip.log)
    ensures Underway(from, job, longer, t, chip.faulty)
  {
    ghost var o := Clean;
    ok, o := ProgramAndVerify(chip, buf, base, i, n, job);
    longer, t := outcomes + [o], Judged(job, s, chip.mem);
    RoundDone(from, job, outcomes, longer, s, t, o, job.Unit(i), chip.mem, chip.faulty, ok);
  }

  /** The program loop, which has come to `s` when it ends. */
  method ProgramAll(chip: Chip, buf: seq<nat>, base: nat, size: nat, n: nat) returns (r: nat, ghost outcomes: seq<Outcome>, ghost s: State)
    requires chip.Idle() && n == (if chip.softwareCs then PAGE else 1) && Job(buf, base, size, n).Valid()
    modifies chip
    ensures chip.Idle() && (r == 0 || r == 1) && (r == 0 <==> s.i == size) && Over(Job(buf, base, size, n), s)
    ensures s.mem == chip.mem && s.log == chip.log
    ensures if size == 0 then chip.wel == old(chip.wel) && chip.busy == old(chip.busy) else !chip.wel
    ensures Underway(Fresh(old(chip.mem), old(chip.log)), Job(buf, base, size, n), outcomes, s, chip.faulty)
  {
    ghost var job, from := Job(buf, base, size, n), Fresh(chip.mem, chip.log);
    outcomes, s := [], from;
    var i, retries := 0, 0;
    while i < size
      invariant s == State(chip.mem, i, retries, chip.log) && Units(i, n) && i <= size && chip.Idle() && retries <= FLASH_RETRIES
      invariant Underway(from, job, outcomes, s, chip.faulty)
      invariant if i > 0 || retries > 0 then size > 0 && !chip.wel else chip.wel == old(chip.wel) && chip.busy == old(chip.busy)
      decreases size - i, FLASH_RETRIES - retries
    {
      NextUnit(i, size, n);
      var ok;
      ok, outcomes, s := Round(chip, buf, base, n, i, job, from, outcomes, s);
      if !ok {
        retries := retries + 1;
      } else {
        i := i + n;
        retries := 0;
      }
      if retries > FLASH_RETRIES {
        break;
      }
    }
    r := if retries > FLASH_RETRIES then 1 else 0;
  }

  lemma PageDone(mem: seq<nat>, buf: seq<nat>, base: nat, i: nat, n: nat)
    requires i + n <= |buf| && base + i + n <= |mem| && mem[base + i..base + i + n] == buf[i..i + n]
    ensures mem[base..base + i] == buf[..i] ==> mem[base..base + i + n] == buf[..i + n]
  {
    assert mem[base..base + i + n] == mem[base..base + i] + mem[base + i..base + i + n];
    assert buf[..i + n] == buf[..i] + buf[i..i + n];
  }
}
