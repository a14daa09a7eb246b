/** The bit-banged I2C master against a listener that reads the two wires as UM10204 prescribes. */
module I2c {
  import opened Bits

  /** Both wires after a register write, and whether the master drives the data line. */
  datatype Level = Level(scl: bool, sda: bool, master: bool)

  /** What a listener hears: conditions (section 3.1.4), and valid data bits (section 3.1.3) with who drove them. */
  datatype Event = Start | Stop | Bit(level: bool, master: bool)

  /** Events heard so far, and the bit that a fall of the clock would complete. */
  datatype Ear = Ear(events: seq<Event>, pending: seq<Event>)

  /** The data line counts while the clock is high: a bit is what it holds through the whole phase, a change is
      a condition. Where one write moves both lines, the data line moves in the low phase. */
  function Step(e: Ear, p: Level, l: Level): Ear {
    if !p.scl && l.scl then e.(pending := [Bit(l.sda, l.master)])
    else if p.scl && !l.scl then Ear(e.events + e.pending, [])
    else if p.scl && l.scl && p.sda && !l.sda then Ear(e.events + [Start], [])
    else if p.scl && l.scl && !p.sda && l.sda then Ear(e.events + [Stop], [])
    else e
  }

  function Listen(wave: seq<Level>): Ear {
    var n := |wave|;
    if n <= 1 then Ear([], []) else Step(Listen(wave[..n - 1]), wave[n - 2], wave[n - 1])
  }

  lemma ListenOne(wave: seq<Level>, l: Level)
    requires wave != []
    ensures Listen(wave + [l]) == Step(Listen(wave), wave[|wave| - 1], l)
    ensures Races(wave + [l]) == Races(wave) + (if Race(wave[|wave| - 1], l) then 1 else 0)
  {
    assert (wave + [l])[..|wave|] == wave;
  }

  /** How often the data line moves while the clock is high. */
  function Moves(wave: seq<Level>): nat {
    var n := |wave|;
    if n <= 1 then 0
    else
      var p, l := wave[n - 2], wave[n - 1];
      Moves(wave[..n - 1]) + (if p.scl && l.scl && p.sda != l.sda then 1 else 0)
  }

  /** How often the master moves the data line in the same write as the clock, so that a slave may see either first. */
  function Races(wave: seq<Level>): nat {
    var n := |wave|;
    if n <= 1 then 0
    else Races(wave[..n - 1]) + (if Race(wave[n - 2], wave[n - 1]) then 1 else 0)
  }

  predicate Race(p: Level, l: Level) {
    p.scl != l.scl && p.sda != l.sda && (p.master || l.master)
  }

  /** A slave that sees the clock rise before the data line hears a STOP; one that sees the data line first, nothing. */
  lemma RaceIsStop(e: Ear, p: Level)
    requires !p.scl && !p.sda
    ensures var clock, data, both := Level(true, false, true), Level(false, true, true), Level(true, true, true);
      Step(Step(e, p, clock), clock, both).events == e.events + [Stop] && Step(Step(e, p, data), data, both).events == e.events
  {}

  function Conditions(events: seq<Event>): nat {
    var n := |events|;
    if n == 0 then 0 else Conditions(events[..n - 1]) + (if events[n - 1].Bit? then 0 else 1)
  }

  lemma ConditionsOne(events: seq<Event>, e: Event)
    ensures Conditions(events + [e]) == Conditions(events) + (if e.Bit? then 0 else 1)
  {
    assert (events + [e])[..|events|] == events;
  }

  /** The data line moves in the high phase of the clock only for the conditions heard. */
  lemma {:induction false} MovesAreConditions(wave: seq<Level>)
    ensures Moves(wave) == Conditions(Listen(wave).events)
    ensures Listen(wave).pending == [] || (|Listen(wave).pending| == 1 && Listen(wave).pending[0].Bit?)
  {
    if |wave| > 1 {
      var before := Listen(wave[..|wave| - 1]);
      MovesAreConditions(wave[..|wave| - 1]);
      ConditionsOne(before.events, Start);
      ConditionsOne(before.events, Stop);
      if before.pending == [] {
        assert before.events + before.pending == before.events;
      } else {
        ConditionsOne(before.events, before.pending[0]);
        assert before.pending == [before.pending[0]];
      }
    }
  }

  // ----- bytes and bits -----

  /** The `n` low bits of `b`, the most significant first (section 3.1.5). */
  function BitsOf(b: nat, n: nat): (bits: seq<bool>)
    ensures |bits| == n
  {
    if n == 0 then [] else BitsOf(b / 2, n - 1) + [b % 2 == 1]
  }

  function ValueOf(bits: seq<bool>): nat {
    if bits == [] then 0 else 2 * ValueOf(bits[..|bits| - 1]) + (if bits[|bits| - 1] then 1 else 0)
  }

  lemma {:induction false} ValueOfBits(b: nat, n: nat)
    requires b < Pow2(n)
    ensures ValueOf(BitsOf(b, n)) == b
    decreases n
  {
    if n > 0 {
      ValueOfBits(b / 2, n - 1);
      assert BitsOf(b, n)[..n - 1] == BitsOf(b / 2, n - 1);
    }
  }

  /** The first bit out is the highest. */
  lemma {:induction false} HighestFirst(b: nat, n: nat)
    ensures BitsOf(b, n + 1) == [b / Pow2(n) % 2 == 1] + BitsOf(b, n)
    decreases n
  {
    if n > 0 {
      HighestFirst(b / 2, n - 1);
      HiLo(b, n);
      HiLo(b / 2, n - 1);
    }
  }

  lemma {:induction false} LowBitsOnly(a: nat, n: nat)
    ensures BitsOf(Lo(a, n), n) == BitsOf(a, n)
    decreases n
  {
    if n > 0 {
      assert Lo(a, n) / 2 == Lo(a / 2, n - 1) && Lo(a, n) % 2 == a % 2;
      LowBitsOnly(a / 2, n - 1);
    }
  }

  /** Shifting a byte of `m + 1` bits left moves its next bit to the front. */
  lemma ShiftedOut(data: nat, m: nat)
    requires data < Pow2(m + 1)
    ensures BitsOf(data, m + 1) == [data / Pow2(m) == 1] + BitsOf(data * 2 % Pow2(m + 1), m + 1)[..m]
  {
    HighestFirst(data, m);
    HiLo(data, m);
    Doubled(data, Pow2(m), Hi(data, m), Lo(data, m));
    LowBitsOnly(data, m);
    var next := data * 2 % Pow2(m + 1);
    assert next == 2 * Lo(data, m);
    assert next / 2 == Lo(data, m);
    assert BitsOf(next, m + 1)[..m] == BitsOf(next / 2, m);
  }

  lemma Doubled(v: nat, p: nat, q: nat, r: nat)
    requires v == p * q + r && r < p && v < 2 * p
    ensures q < 2 && v * 2 % (2 * p) == 2 * r
  {
    if q >= 2 { MulGap(p, 1, q); }
    assert v * 2 == (2 * p) * q + 2 * r;
    DivModUnique(v * 2, 2 * p, q, 2 * r);
  }

  /** `out` has left the byte of `n` bits, `data` holds the rest at its top. */
  predicate ShiftedSoFar(byte: nat, data: nat, out: seq<bool>, i: nat, n: nat)
  {
    |out| == i <= n && out + BitsOf(data, n)[..n - i] == BitsOf(byte, n)
  }

  lemma NextShift(byte: nat, data: nat, out: seq<bool>, i: nat, n: nat)
    requires i < n && data < Pow2(n) && ShiftedSoFar(byte, data, out, i, n)
    ensures ShiftedSoFar(byte, data * 2 % Pow2(n), out + [data / Pow2(n - 1) == 1], i + 1, n)
  {
    ShiftedOut(data, n - 1);
    var top, rest := data / Pow2(n - 1) == 1, BitsOf(data * 2 % Pow2(n), n);
    assert BitsOf(data, n)[..n - i] == [top] + rest[..n - (i + 1)];
  }

  /** A bit received is the new lowest bit. */
  lemma ReceivedBit(data: nat, i: nat, bit: bool, n: nat)
    requires i < n && data < Pow2(i)
    ensures var next := Or(data * 2 % Pow2(n), if bit then 1 else 0);
      next < Pow2(i + 1) && Driven(BitsOf(next, i + 1), false) == Driven(BitsOf(data, i), false) + [Bit(bit, false)]
  {
    Pow2Monotone(i + 1, n);
    var b := if bit then 1 else 0;
    assert data * 2 < Pow2(n);
    DivModUnique(data * 2, Pow2(n), 0, data * 2);
    OrLast(data, b);
    LastBit(data, b, i, bit);
  }

  lemma OrLast(data: nat, b: nat)
    requires b < 2
    ensures Or(data * 2, b) == 2 * data + b
  {
    assert Pow2(1) == 2;
    OrDisjoint(data, b, 1);
  }

  lemma LastBit(data: nat, b: nat, i: nat, bit: bool)
    requires b == if bit then 1 else 0
    ensures Driven(BitsOf(2 * data + b, i + 1), false) == Driven(BitsOf(data, i), false) + [Bit(bit, false)]
  {
    assert (2 * data + b) / 2 == data && (2 * data + b) % 2 == b;
    DrivenOne(BitsOf(data, i), bit, false);
  }

  /** The byte `b` sent by the master, and the reply of the slave (section 3.1.6). */
  function Sent(b: nat, ack: bool): seq<Event> {
    Bits8(b, true) + [Bit(!ack, false)]
  }

  /** The byte `b` sent by the slave, and the reply of the master. */
  function Got(b: nat, ack: bool): seq<Event> {
    Bits8(b, false) + [Bit(!ack, true)]
  }

  function Bits8(b: nat, master: bool): seq<Event> {
    Driven(BitsOf(b, 8), master)
  }

  function Driven(bits: seq<bool>, master: bool): seq<Event> {
    seq(|bits|, (i: nat) requires i < |bits| => Bit(bits[i], master))
  }

  lemma DrivenOne(bits: seq<bool>, b: bool, master: bool)
    ensures Driven(bits + [b], master) == Driven(bits, master) + [Bit(b, master)]
  {}

  /** Bytes sent and acknowledged. */
  function AllSent(bytes: seq<nat>): seq<Event> {
    if bytes == [] then [] else AllSent(bytes[..|bytes| - 1]) + Sent(bytes[|bytes| - 1], true)
  }

  /** A message abandoned because its byte number `k` was not acknowledged. */
  function Refused(bytes: seq<nat>, k: nat): seq<Event>
    requires k < |bytes|
  {
    AllSent(bytes[..k]) + Sent(bytes[k], false) + [Stop]
  }

  lemma Chained(a: seq<Event>, b: seq<Event>, c: seq<Event>)
    ensures a + b + c == a + (b + c)
  {}

  /** The first of `len` bytes received; only the last of all is not acknowledged. */
  function AllGot(bytes: seq<nat>, len: nat): seq<Event> {
    if bytes == [] then [] else AllGot(bytes[..|bytes| - 1], len) + Got(bytes[|bytes| - 1], |bytes| != len)
  }

  lemma AllGotOne(start: seq<Event>, bytes: seq<nat>, byte: nat, len: nat)
    ensures start + AllGot(bytes + [byte], len) == start + AllGot(bytes, len) + Got(byte, |bytes| + 1 != len)
  {
    assert (bytes + [byte])[..|bytes|] == bytes;
  }

  lemma AllSentOne(bytes: seq<nat>, k: nat)
    requires k < |bytes|
    ensures AllSent(bytes[..k + 1]) == AllSent(bytes[..k]) + Sent(bytes[k], true)
  {
    assert bytes[..k + 1][..k] == bytes[..k];
  }

  /** `n` clock pulses while the master holds the data line high. */
  function Pulses(n: nat): seq<Event> {
    if n == 0 then [] else Pulses(n - 1) + [Bit(true, true)]
  }

  // ----- addresses -----

  /** The bits of an address byte: the seven bits of the address, and the direction (section 3.1.10). */
  function CallBits(slaveAddr: nat, read: bool): seq<Event> {
    Driven(BitsOf(slaveAddr, 7) + [read], true)
  }

  /** And the reply of the slave. */
  function Call(slaveAddr: nat, read: bool, ack: bool): seq<Event> {
    CallBits(slaveAddr, read) + [Bit(!ack, false)]
  }

  /** After `before`, a START and the address of the slave were heard. */
  predicate Calls(before: seq<Event>, heard: seq<Event>, slaveAddr: nat, read: bool) {
    before + [Start] + CallBits(slaveAddr, read) <= heard
  }

  lemma AddrBits(slaveAddr: nat)
    requires slaveAddr < 256
    ensures Bits8(AddrWr(slaveAddr), true) == CallBits(slaveAddr, false)
    ensures Bits8(AddrRd(slaveAddr), true) == CallBits(slaveAddr, true)
  {
    AddrLow(slaveAddr, 7);
    CallByte(AddrWr(slaveAddr), slaveAddr, false, 7);
    CallByte(AddrRd(slaveAddr), slaveAddr, true, 7);
  }

  lemma AddrLow(slaveAddr: nat, n: nat)
    requires slaveAddr < 256 && n == 7
    ensures AddrWr(slaveAddr) == 2 * Lo(slaveAddr, n) && AddrRd(slaveAddr) == 2 * Lo(slaveAddr, n) + 1
  {
    Pow2Values();
    HiLo(slaveAddr, n);
    DivModUnique(slaveAddr * 2, 256, Hi(slaveAddr, n), 2 * Lo(slaveAddr, n));
    DivModUnique(slaveAddr * 2 + 1, 256, Hi(slaveAddr, n), 2 * Lo(slaveAddr, n) + 1);
  }

  /** A byte made of the low bits of the address and the direction. */
  lemma CallByte(b: nat, slaveAddr: nat, read: bool, n: nat)
    requires b == 2 * Lo(slaveAddr, n) + (if read then 1 else 0)
    ensures BitsOf(b, n + 1) == BitsOf(slaveAddr, n) + [read]
  {
    LowBitsOnly(slaveAddr, n);
    assert b / 2 == Lo(slaveAddr, n);
  }

  lemma {:induction false} FirstSent(bytes: seq<nat>)
    requires bytes != []
    ensures Bits8(bytes[0], true) <= AllSent(bytes)
  {
    if |bytes| > 1 {
      FirstSent(bytes[..|bytes| - 1]);
    } else {
      assert AllSent(bytes) == [] + Sent(bytes[0], true);
    }
  }

  /** A message that was sent, or was refused at one of its bytes, begins with its address. */
  lemma MessageCalls(before: seq<Event>, heard: seq<Event>, bytes: seq<nat>, k: nat, slaveAddr: nat, read: bool)
    requires slaveAddr < 256 && bytes != [] && bytes[0] == if read then AddrRd(slaveAddr) else AddrWr(slaveAddr)
    requires before + [Start] + AllSent(bytes) <= heard || (k < |bytes| && heard == before + [Start] + Refused(bytes, k))
    ensures Calls(before, heard, slaveAddr, read)
  {
    AddrBits(slaveAddr);
    var start, call := before + [Start], Bits8(bytes[0], true);
    if start + AllSent(bytes) <= heard {
      FirstSent(bytes);
      Prefixes(start, call, AllSent(bytes), heard);
    } else {
      RefusedFirst(bytes, k);
      Prefixes(start, call, Refused(bytes, k), heard);
    }
  }

  lemma RefusedFirst(bytes: seq<nat>, k: nat)
    requires k < |bytes|
    ensures Bits8(bytes[0], true) <= Refused(bytes, k)
  {
    if k > 0 {
      FirstSent(bytes[..k]);
    } else {
      assert Refused(bytes, k) == [] + Sent(bytes[0], false) + [Stop];
    }
  }

  lemma Prefixes(start: seq<Event>, a: seq<Event>, b: seq<Event>, heard: seq<Event>)
    requires a <= b && start + b <= heard
    ensures start + a <= heard
  {
    assert b == a + b[|a|..];
    assert start + b == start + a + b[|a|..];
  }

  // ----- how often the data line moves in a transaction -----

  lemma {:induction false} ConditionsJoin(a: seq<Event>, b: seq<Event>)
    ensures Conditions(a + b) == Conditions(a) + Conditions(b)
    decreases |b|
  {
    if b == [] {
      assert a + b == a;
    } else {
      var n := |b| - 1;
      ConditionsJoin(a, b[..n]);
      ConditionsOne(a + b[..n], b[n]);
      assert a + b == a + b[..n] + [b[n]];
    }
  }

  lemma {:induction false} BitsOnly(bits: seq<Event>)
    requires forall i :: 0 <= i < |bits| ==> bits[i].Bit?
    ensures Conditions(bits) == 0
  {
    if bits != [] { BitsOnly(bits[..|bits| - 1]); }
  }

  lemma {:induction false} BytesAreBits(bytes: seq<nat>, len: nat)
    ensures Conditions(AllSent(bytes)) == 0 && Conditions(AllGot(bytes, len)) == 0
  {
    if bytes != [] {
      var front, last := bytes[..|bytes| - 1], bytes[|bytes| - 1];
      BytesAreBits(front, len);
      BitsOnly(Sent(last, true));
      BitsOnly(Got(last, |bytes| != len));
      ConditionsJoin(AllSent(front), Sent(last, true));
      ConditionsJoin(AllGot(front, len), Got(last, |bytes| != len));
    }
  }

  lemma RefusedConditions(bytes: seq<nat>, k: nat)
    requires k < |bytes|
    ensures Conditions(Refused(bytes, k)) == 1
  {
    BytesAreBits(bytes[..k], 0);
    BitsOnly(Sent(bytes[k], false));
    ConditionsJoin(AllSent(bytes[..k]), Sent(bytes[k], false));
    ConditionsOne(AllSent(bytes[..k]) + Sent(bytes[k], false), Stop);
  }

  lemma AddressedConditions(before: seq<Event>, slaveAddr: nat, addr: nat, sendStop: bool)
    ensures Conditions(Addressed(before, slaveAddr, addr, sendStop)) == Conditions(before) + (if sendStop then 3 else 2)
  {
    var bytes := [AddrWr(slaveAddr), addr];
    var told := before + [Start] + AllSent(bytes);
    BytesAreBits(bytes, 0);
    ConditionsOne(before, Start);
    ConditionsJoin(before + [Start], AllSent(bytes));
    if sendStop {
      ConditionsOne(told, Stop);
      ConditionsOne(told + [Stop], Start);
    } else {
      assert told + [] == told;
      ConditionsOne(told, Start);
    }
  }

  /** A message abandoned. */
  lemma RefusedMoves(wave: seq<Level>, before: seq<Event>, bytes: seq<nat>, k: nat)
    requires k < |bytes| && Listen(wave).events == before + Refused(bytes, k)
    ensures Moves(wave) == Conditions(before) + 1
  {
    MovesAreConditions(wave);
    RefusedConditions(bytes, k);
    ConditionsJoin(before, Refused(bytes, k));
  }

  /** Bytes only, and the STOP. */
  lemma CompleteMoves(wave: seq<Level>, before: seq<Event>, sent: seq<nat>, got: seq<nat>, len: nat)
    requires Listen(wave).events == before + AllSent(sent) + AllGot(got, len) + [Stop]
    ensures Moves(wave) == Conditions(before) + 1
  {
    MovesAreConditions(wave);
    BytesAreBits(sent, len);
    BytesAreBits(got, len);
    ConditionsJoin(before, AllSent(sent));
    ConditionsJoin(before + AllSent(sent), AllGot(got, len));
    ConditionsOne(before + AllSent(sent) + AllGot(got, len), Stop);
  }

  // ----- the bus -----

  class Bus {
    var wave: seq<Level>
    /** What the data line falls to when the master lets go of it. */
    var slave: bool

    predicate Valid()
      reads this
    {
      wave != []
    }

    function Last(): Level
      requires Valid()
      reads this
    {
      wave[|wave| - 1]
    }

    ghost function Heard(): seq<Event>
      reads this
    {
      Listen(wave).events
    }

    /** Both lines high and nobody driving. */
    ghost predicate Idle()
      reads this
    {
      Valid() && Last() == Level(true, true, false) && slave && Listen(wave).pending == []
    }

    /** Within a transfer, between bits. */
    ghost predicate Low()
      reads this
    {
      Valid() && !Last().scl && Listen(wave).pending == []
    }

    constructor ()
      ensures Idle() && Heard() == []
    {
      wave, slave := [Level(true, true, false)], true;
    }

    /** A write to the register that drives the lines. A slave changes its output only while the clock is low, and
        lets go at a STOP. */
    method OeSclSda(oe: bool, scl: bool, sda: bool)
      requires Valid()
      modifies this
      ensures Valid() && Last() == Level(scl, if oe then sda else Last().sda, oe)
      ensures Listen(wave) == Step(old(Listen(wave)), old(Last()), Last())
      ensures Races(wave) == old(Races(wave)) + (if Race(old(Last()), Last()) then 1 else 0)
      ensures scl ==> if old(Last()).scl && !old(Last()).sda && Last().sda then slave else slave == old(slave)
      ensures !oe ==> Last().sda == if scl then old(slave) else slave
    {
      if !scl {
        slave := *;
      }
      var line := if oe then sda else slave;
      var last := Last();
      ListenOne(wave, Level(scl, line, oe));
      wave := wave + [Level(scl, line, oe)];
      if last.scl && scl && !last.sda && line {
        slave := true;
      }
    }

    /** `i2c0_r_read`. */
    function ReadSda(): bool
      requires Valid()
      reads this
    {
      Last().sda
    }

    method Start()
      requires Idle() || Low()
      modifies this
      ensures Low() && Heard() == old(Heard()) + [Event.Start]
      // within a transfer the clock and a low data line rise together
      ensures Races(wave) == old(Races(wave)) + (if !old(Last()).scl && !old(Last()).sda then 1 else 0)
    {
      OeSclSda(true, true, true);
      OeSclSda(true, true, false);
      OeSclSda(true, false, false);
    }

    method Stop()
      requires Low()
      modifies this
      ensures Idle() && Heard() == old(Heard()) + [Event.Stop] && Races(wave) == old(Races(wave))
    {
      OeSclSda(true, false, false);
      OeSclSda(true, true, false);
      OeSclSda(true, true, true);
      OeSclSda(false, true, true);
    }

    method TransmitBit(value: bool)
      requires Low()
      modifies this
      ensures Low() && Heard() == old(Heard()) + [Bit(value, true)]
      ensures !Last().master && Races(wave) == old(Races(wave))
    {
      OeSclSda(true, false, value);
      OeSclSda(true, true, value);
      OeSclSda(true, false, value);
      OeSclSda(false, false, false);
    }

    method ReceiveBit() returns (value: bool)
      requires Low()
      modifies this
      ensures Low() && Heard() == old(Heard()) + [Bit(value, false)]
      ensures !Last().master && Races(wave) == old(Races(wave))
    {
      OeSclSda(false, false, false);
      OeSclSda(false, true, false);
      value := ReadSda();
      OeSclSda(false, false, false);
    }

    method TransmitByte(byte: nat) returns (acked: bool)
      requires Low() && byte < 256
      modifies this
      ensures Low() && Heard() == old(Heard()) + Sent(byte, acked) && Races(wave) == old(Races(wave))
    {
      OeSclSda(false, false, false);
      ghost var before := Heard();
      TransmitBits(byte);
      var ack := ReceiveBit();
      acked := !ack;
      Chained(before, Bits8(byte, true), [Bit(ack, false)]);
    }

    method TransmitBits(byte: nat)
      requires Low() && byte < 256
      modifies this
      ensures Low() && Heard() == old(Heard()) + Bits8(byte, true) && Races(wave) == old(Races(wave))
    {
      Pow2Values();
      var data := byte;
      ghost var out: seq<bool> := [];
      for i := 0 to 8
        invariant Low() && data < 256 && Heard() == old(Heard()) + Driven(out, true)
        invariant ShiftedSoFar(byte, data, out, i, 8) && Races(wave) == old(Races(wave))
      {
        NextShift(byte, data, out, i, 8);
        DrivenOne(out, data / 128 == 1, true);
        Chained(old(Heard()), Driven(out, true), [Bit(data / 128 == 1, true)]);
        TransmitBit(data / 128 == 1);
        out := out + [data / 128 == 1];
        data := data * 2 % 256;
      }
    }

    method ReceiveByte(ack: bool) returns (data: nat)
      requires Low()
      modifies this
      ensures Low() && data < 256 && Heard() == old(Heard()) + Got(data, ack) && Races(wave) == old(Races(wave))
    {
      Pow2Values();
      data := 0;
      for i := 0 to 8
        invariant Low() && data < Pow2(i) && Races(wave) == old(Races(wave))
        invariant Heard() == old(Heard()) + Driven(BitsOf(data, i), false)
      {
        var bit := ReceiveBit();
        ReceivedBit(data, i, bit, 8);
        Chained(old(Heard()), Driven(BitsOf(data, i), false), [Bit(bit, false)]);
        data := Or(data * 2 % 256, if bit then 1 else 0);
      }
      Chained(old(Heard()), Bits8(data, false), [Bit(!ack, true)]);
      TransmitBit(!ack);
    }

    /** From whatever state of the bus: nine clock pulses with the data line let go of (section 3.1.16), and a STOP. */
    method Reset() returns (ghost first: seq<Event>)
      requires Valid()
      modifies this
      ensures Idle() && |first| <= 1
      ensures Heard() == old(Heard()) + first + Pulses(9) + [Event.Stop]
    {
      MovesAreConditions(wave);
      ghost var before := Heard();
      OeSclSda(true, true, true);
      assert before + [] == before;
      first := if Heard() == before then Listen(wave).pending else [Event.Stop];
      for i := 0 to 9
        invariant Valid() && Last() == Level(true, true, true)
        invariant Heard() + Listen(wave).pending == before + first + Pulses(i)
      {
        Chained(before + first, Pulses(i), [Bit(true, true)]);
        OeSclSda(true, false, true);
        OeSclSda(true, true, true);
      }
      OeSclSda(false, false, true);
      Stop();
      OeSclSda(false, true, true);
    }

    // ----- transactions -----

    /** `i2c0_poll`. */
    method Poll(slaveAddr: nat) returns (result: bool, ghost acks: (bool, bool))
      requires Idle() && slaveAddr < 256
      modifies this
      ensures Idle() && result == (acks.0 || acks.1)
      ensures Heard() == old(Heard()) + [Event.Start] + Call(slaveAddr, false, acks.0) + Call(slaveAddr, true, acks.1) + [Event.Stop]
      ensures Races(wave) == old(Races(wave))
    {
      AddrBits(slaveAddr);
      Start();
      result := TransmitByte(AddrWr(slaveAddr));
      var second := TransmitByte(AddrRd(slaveAddr));
      acks := (result, second);
      result := result || second;
      Stop();
    }

    /** One byte of a message: the transaction ends if it is not acknowledged. `start` was heard before the
        first byte of the message `bytes`. */
    method TransmitOrStop(byte: nat, ghost start: seq<Event>, ghost bytes: seq<nat>, ghost k: nat) returns (acked: bool)
      requires Low() && byte < 256 && k < |bytes| && bytes[k] == byte
      requires Heard() == start + AllSent(bytes[..k])
      modifies this
      ensures Races(wave) == old(Races(wave))
      ensures acked ==> Low() && Heard() == start + AllSent(bytes[..k + 1])
      ensures !acked ==> Idle() && Heard() == start + Refused(bytes, k)
    {
      AllSentOne(bytes, k);
      acked := TransmitByte(byte);
      Chained(start, AllSent(bytes[..k]), Sent(byte, acked));
      if !acked {
        Stop();
        Chained(start, AllSent(bytes[..k]) + Sent(byte, false), [Event.Stop]);
      }
    }

    /** `i2c0_write`: all bytes, up to and including the first that is not acknowledged, byte number `k`. */
    method Write(slaveAddr: nat, addr: nat, data: array<nat>, len: nat) returns (r: bool, ghost k: nat)
      requires Idle() && slaveAddr < 256 && addr < 256 && len <= data.Length
      requires forall i :: 0 <= i < len ==> data[i] < 256
      modifies this
      ensures Idle()
      ensures var bytes := [AddrWr(slaveAddr), addr] + data[..len];
        if r then Heard() == old(Heard()) + [Event.Start] + AllSent(bytes) + [Event.Stop]
        else k < |bytes| && Heard() == old(Heard()) + [Event.Start] + Refused(bytes, k)
      // the slave is addressed for writing
      ensures Calls(old(Heard()), Heard(), slaveAddr, false)
      // the data line moves while the clock is high at the START and at the STOP, and at no other time
      ensures Moves(wave) == old(Moves(wave)) + 2
      ensures Races(wave) == old(Races(wave))
    {
      ghost var before, bytes := Heard(), [AddrWr(slaveAddr), addr] + data[..len];
      MovesAreConditions(wave);
      ConditionsOne(before, Event.Start);
      Start();
      r, k := TransmitMessage(slaveAddr, addr, data, len, bytes);
      MessageCalls(before, Heard(), bytes, k, slaveAddr, false);
    }

    /** All that follows the START. */
    method TransmitMessage(slaveAddr: nat, addr: nat, data: array<nat>, len: nat, ghost bytes: seq<nat>) returns (r: bool, ghost k: nat)
      requires Low() && slaveAddr < 256 && addr < 256 && len <= data.Length && bytes == [AddrWr(slaveAddr), addr] + data[..len]
      requires forall i :: 0 <= i < len ==> data[i] < 256
      modifies this
      ensures Idle() && Moves(wave) == Conditions(old(Heard())) + 1 && Races(wave) == old(Races(wave))
      ensures if r then Heard() == old(Heard()) + AllSent(bytes) + [Event.Stop] else k < |bytes| && Heard() == old(Heard()) + Refused(bytes, k)
    {
      ghost var start := Heard();
      k := 0;
      r := TransmitOrStop(AddrWr(slaveAddr), start, bytes, k);
      if !r {
        RefusedMoves(wave, start, bytes, k);
        return;
      }
      k := 1;
      r := TransmitOrStop(addr, start, bytes, k);
      if !r {
        RefusedMoves(wave, start, bytes, k);
        return;
      }
      r, k := TransmitData(data, len, start, bytes);
      if !r {
        return;
      }
      Stop();
      assert start + AllSent(bytes) + AllGot([], 0) == start + AllSent(bytes);
      CompleteMoves(wave, start, bytes, [], 0);
    }

    /** Its loop, for the data behind the first two of `bytes`. */
    method TransmitData(data: array<nat>, len: nat, ghost start: seq<Event>, ghost bytes: seq<nat>) returns (r: bool, ghost k: nat)
      requires Low() && len <= data.Length && |bytes| == len + 2
      requires forall i :: 0 <= i < len ==> data[i] < 256 && bytes[i + 2] == data[i]
      requires Heard() == start + AllSent(bytes[..2])
      modifies this
      ensures Races(wave) == old(Races(wave))
      ensures r ==> Low() && Heard() == start + AllSent(bytes)
      ensures !r ==> Idle() && k < |bytes| && Heard() == start + Refused(bytes, k) && Moves(wave) == Conditions(start) + 1
    {
      var i := 0;
      r, k := true, 2;
      while i < len
        invariant i <= len && r && Low() && Heard() == start + AllSent(bytes[..i + 2])
        invariant Races(wave) == old(Races(wave))
      {
        k := i + 2;
        r := TransmitOrStop(data[i], start, bytes, k);
        if !r {
          RefusedMoves(wave, start, bytes, k);
          return;
        }
        i := i + 1;
      }
      assert bytes[..len + 2] == bytes;
    }

    /** `i2c0_read`: the register address is written first, then the slave is addressed again for reading. */
    method Read(slaveAddr: nat, addr: nat, data: array<nat>, len: nat, sendStop: bool) returns (r: bool)
      requires Idle() && slaveAddr < 256 && addr < 256 && len <= data.Length
      modifies this, data
      ensures Idle() && data[len..] == old(data[len..])
      ensures r ==> Heard() == Addressed(old(Heard()), slaveAddr, addr, sendStop) + AllSent([AddrRd(slaveAddr)]) + AllGot(data[..len], len) + [Event.Stop]
      ensures !r ==> data[..] == old(data[..])
      ensures r || RefusedEarly(old(Heard()), Heard(), slaveAddr, addr) || Heard() == Addressed(old(Heard()), slaveAddr, addr, sendStop) + Refused([AddrRd(slaveAddr)], 0)
      // the slave is addressed for writing and, if it answers, for reading
      ensures Calls(old(Heard()), Heard(), slaveAddr, false)
      ensures RefusedEarly(old(Heard()), Heard(), slaveAddr, addr) || Calls(Told(old(Heard()), slaveAddr, addr, sendStop), Heard(), slaveAddr, true)
      // both lines move at once at most at a START within the transfer
      ensures Races(wave) == old(Races(wave)) || (!sendStop && Races(wave) == old(Races(wave)) + 1)
      // the data line moves while the clock is high at these conditions only
      ensures Moves(wave) == old(Moves(wave)) + (if !r && RefusedEarly(old(Heard()), Heard(), slaveAddr, addr) then 2 else if sendStop then 4 else 3)
    {
      MovesAreConditions(wave);
      AddressedConditions(Heard(), slaveAddr, addr, sendStop);
      r := Address(slaveAddr, addr, sendStop);
      if r {
        ghost var told := Told(old(Heard()), slaveAddr, addr, sendStop);
        r := ReadMessage(slaveAddr, data, len, told);
        SecondCall(old(Heard()), Heard(), slaveAddr, addr, sendStop);
      }
    }

    /** The second half: all that follows the second START. */
    method ReadMessage(slaveAddr: nat, data: array<nat>, len: nat, ghost told: seq<Event>) returns (r: bool)
      requires Low() && slaveAddr < 256 && len <= data.Length && Heard() == told + [Event.Start]
      modifies this, data
      ensures Idle() && data[len..] == old(data[len..]) && Races(wave) == old(Races(wave))
      ensures r ==> Heard() == old(Heard()) + AllSent([AddrRd(slaveAddr)]) + AllGot(data[..len], len) + [Event.Stop]
      ensures !r ==> data[..] == old(data[..]) && Heard() == old(Heard()) + Refused([AddrRd(slaveAddr)], 0)
      ensures told <= Heard() && Calls(told, Heard(), slaveAddr, true)
      ensures Moves(wave) == Conditions(old(Heard())) + 1
    {
      ghost var bytes, start := [AddrRd(slaveAddr)], Heard();
      r := TransmitOrStop(AddrRd(slaveAddr), start, bytes, 0);
      if r {
        assert bytes[..1] == bytes;
        ReceiveAll(data, len);
        Stop();
        CompleteMoves(wave, start, bytes, data[..len], len);
        assert start + AllSent(bytes) <= Heard();
      } else {
        RefusedMoves(wave, start, bytes, 0);
      }
      MessageCalls(told, Heard(), bytes, 0, slaveAddr, true);
    }

    /** The first half of a read, up to the second START. */
    method Address(slaveAddr: nat, addr: nat, sendStop: bool) returns (r: bool)
      requires Idle() && slaveAddr < 256 && addr < 256
      modifies this
      ensures r ==> Low() && Heard() == Addressed(old(Heard()), slaveAddr, addr, sendStop)
      ensures !r ==> Idle() && Moves(wave) == old(Moves(wave)) + 2 && Calls(old(Heard()), Heard(), slaveAddr, false)
      ensures r || RefusedEarly(old(Heard()), Heard(), slaveAddr, addr)
      ensures Races(wave) == old(Races(wave)) || (r && !sendStop && Races(wave) == old(Races(wave)) + 1)
    {
      ghost var bytes := [AddrWr(slaveAddr), addr];
      MovesAreConditions(wave);
      ConditionsOne(Heard(), Event.Start);
      Start();
      ghost var start := Heard();
      r := TransmitOrStop(AddrWr(slaveAddr), start, bytes, 0);
      if !r {
        RefusedMoves(wave, start, bytes, 0);
        MessageCalls(old(Heard()), Heard(), bytes, 0, slaveAddr, false);
        return;
      }
      r := TransmitOrStop(addr, start, bytes, 1);
      if !r {
        RefusedMoves(wave, start, bytes, 1);
        MessageCalls(old(Heard()), Heard(), bytes, 1, slaveAddr, false);
        return;
      }
      assert bytes[..2] == bytes;
      if sendStop {
        Stop();
      }
      Start();
    }

    /** The next byte of `len`. */
    method ReceiveInto(data: array<nat>, i: nat, len: nat, ghost start: seq<Event>, ghost got: seq<nat>) returns (ghost more: seq<nat>)
      requires Low() && i < len <= data.Length && data[..i] == got && Heard() == start + AllGot(got, len)
      modifies this, data
      ensures Low() && Races(wave) == old(Races(wave))
      ensures forall j :: 0 <= j < data.Length && j != i ==> data[j] == old(data[j])
      ensures data[..i + 1] == more && Heard() == start + AllGot(more, len)
    {
      var byte := ReceiveByte(i != len - 1);
      AllGotOne(start, got, byte, len);
      data[i] := byte;
      more := got + [byte];
    }

    /** The reading loop. */
    method ReceiveAll(data: array<nat>, len: nat)
      requires Low() && len <= data.Length
      modifies this, data
      ensures Low() && data[len..] == old(data[len..]) && Races(wave) == old(Races(wave))
      ensures Heard() == old(Heard()) + AllGot(data[..len], len)
    {
      ghost var start, got := Heard(), [];
      for i := 0 to len
        invariant Low() && Races(wave) == old(Races(wave))
        invariant forall j :: len <= j < data.Length ==> data[j] == old(data[j])
        invariant data[..i] == got && Heard() == start + AllGot(got, len)
      {
        got := ReceiveInto(data, i, len, start, got);
      }
    }
  }

  /** The address byte for writing, cut to an unsigned char. */
  function AddrWr(slaveAddr: nat): (b: nat)
    ensures b < 256
  {
    slaveAddr * 2 % 256
  }

  function AddrRd(slaveAddr: nat): (b: nat)
    ensures b < 256
  {
    (slaveAddr * 2 + 1) % 256
  }

  /** The slave did not answer to its address, or not to the register. */
  predicate RefusedEarly(before: seq<Event>, heard: seq<Event>, slaveAddr: nat, addr: nat) {
    var bytes := [AddrWr(slaveAddr), addr];
    heard == before + [Start] + Refused(bytes, 0) || heard == before + [Start] + Refused(bytes, 1)
  }

  /** What has been heard when the slave has been told the register. */
  function Told(before: seq<Event>, slaveAddr: nat, addr: nat, sendStop: bool): seq<Event> {
    before + [Start] + AllSent([AddrWr(slaveAddr), addr]) + (if sendStop then [Stop] else [])
  }

  /** And when it is addressed again. */
  function Addressed(before: seq<Event>, slaveAddr: nat, addr: nat, sendStop: bool): seq<Event> {
    Told(before, slaveAddr, addr, sendStop) + [Start]
  }

  /** The first address stays the first. */
  lemma SecondCall(before: seq<Event>, heard: seq<Event>, slaveAddr: nat, addr: nat, sendStop: bool)
    requires slaveAddr < 256 && Told(before, slaveAddr, addr, sendStop) <= heard
    ensures Calls(before, heard, slaveAddr, false)
  {
    var bytes := [AddrWr(slaveAddr), addr];
    assert before + [Start] + AllSent(bytes) <= Told(before, slaveAddr, addr, sendStop);
    MessageCalls(before, heard, bytes, 0, slaveAddr, false);
  }
}
