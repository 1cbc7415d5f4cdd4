/** Bytes, pins and MPSSE opcodes of the FTDI command processor (application note AN_108),
    and the command sequences the I2C master builds from them. Everything here is pure:
    it says which bytes a primitive queues, not how they reach the device. */
module Mpsse {

  /** An `unsigned char`. */
  type Byte = x: int | 0 <= x < 256

  /** The C conversion of an integer to `unsigned char` (reduction modulo 256). */
  function AsByte(x: int): Byte { x % 256 }

  // Low-byte pins (ADBUS): SCL on ADBUS0, SDA driven on ADBUS1 and sensed on ADBUS2.
  const Scl: Byte := 0x01
  const SdaOut: Byte := 0x02
  const SdaIn: Byte := 0x04
  /** SDA_OUT | SCL: the direction byte of every pin command, and the "both lines high" level. */
  const SdaOutScl: Byte := 0x03

  // MPSSE opcodes.
  const ClockByteOutMsbFalling: Byte := 0x11
  const ClockBitOutMsbFalling: Byte := 0x13
  const ClockByteInMsbFalling: Byte := 0x20
  const ClockBitInMsbRising: Byte := 0x22
  const SetBitsLowByte: Byte := 0x80
  const SendImmediate: Byte := 0x87
  const DisableLoopback: Byte := 0x85
  const SetClockDivisor: Byte := 0x86
  const DisableClockDivide5: Byte := 0x8A
  const EnableThreePhaseClock: Byte := 0x8C
  const DisableAdaptiveClock: Byte := 0x97
  const OpenDrain: Byte := 0x9E

  /** The bit a master clocks out after a received byte: 0x00 acknowledges, 0x80 (MSB first) does not. */
  const MasterAck: Byte := 0x00
  const MasterNak: Byte := 0x80

  /** How many identical pin commands stand for one bus level (the "repeat" of the START/STOP code). */
  const Hold: nat := 40

  // ---------------------------------------------------------------------------------------------
  // Address byte (READ/WRITE macros)

  // `<< 1` on a non-negative value is a doubling and `| 1` on an even value adds one, so both macros
  // are written with integer arithmetic.

  /** `WRITE(addr)`: the address shifted left, direction bit 0. */
  function WriteAddress(addr: Byte): int { addr * 2 }

  /** `READ(addr)`: the address shifted left, direction bit 1. */
  function ReadAddress(addr: Byte): int { addr * 2 + 1 }

  /** A 7-bit address gives two address bytes that both fit in a byte, carry the address in bits 7..1
      and differ only in the direction bit 0 (read = 1, write = 0). */
  lemma AddressBytes(addr: Byte)
    requires addr < 0x80
    ensures WriteAddress(addr) < 256 && ReadAddress(addr) < 256
    ensures AsByte(WriteAddress(addr)) / 2 == addr && AsByte(WriteAddress(addr)) % 2 == 0
    ensures AsByte(ReadAddress(addr)) / 2 == addr && AsByte(ReadAddress(addr)) % 2 == 1
    ensures AsByte(ReadAddress(addr)) == AsByte(WriteAddress(addr)) + 1
  {
  }

  /** The `-a` option: the parsed value cast to `unsigned char` (modulo 256), then `& 0x7F`
      (modulo 128 on a non-negative value). */
  function MaskAddress(value: nat): (addr: Byte)
    ensures addr < 0x80 && addr == value % 0x80
  {
    var b := value % 256;
    assert value == 256 * (value / 256) + b;
    b % 0x80
  }

  // ---------------------------------------------------------------------------------------------
  // Clock divisor

  /** The divisor chosen for a bus speed in kHz: 400 selects 0x004A, anything else 0x012B.
      With divide-by-5 disabled, the MPSSE clock is 60 MHz / ((1 + divisor) * 2). */
  function ClockDivisor(speedKhz: int): (divisor: nat)
    ensures divisor < 0x10000
    ensures 60_000 / ((1 + divisor) * 2) == if speedKhz == 400 then 400 else 100
  {
    if speedKhz == 400 then 0x004A else 0x012B
  }

  /** The divisor as the two operand bytes of SET_CLK_DIV: `& 0xFF` (low byte) then `>> 8 & 0xFF`
      (high byte). */
  function DivisorBytes(divisor: nat): (bytes: seq<Byte>)
    requires divisor < 0x10000
    ensures |bytes| == 2 && bytes[0] as int + 256 * bytes[1] as int == divisor
  {
    [divisor % 256, (divisor / 256) % 256]
  }

  /** The batches `ftdi_configure_i2c` queues and executes one after the other: clock set-up, initial
      pin levels with the clock divisor, open-drain enable for SDA and SCL, loopback off. The second
      opcode of the first batch is DISABLE_CLK_DIV_5 again, as in the source. */
  function ConfigBatches(divisor: nat): seq<seq<Byte>>
    requires divisor < 0x10000
  {
    [ [DisableClockDivide5, DisableClockDivide5, EnableThreePhaseClock],
      SetBitsCommands(SdaOutScl) + [SetClockDivisor] + DivisorBytes(divisor),
      [OpenDrain, SdaOutScl, 0x00],
      [DisableLoopback] ]
  }

  /** For either speed, the set-up enables three-phase clocking, starts with both lines high, programs
      the divisor little-endian, and never sends DISABLE_ADAPTIVE_CLK: divide-by-5 is disabled twice. */
  lemma ConfigBatchContents(speedKhz: int)
    ensures var d := ClockDivisor(speedKhz);
            var batches := ConfigBatches(d);
            |batches| == 4 &&
            batches[0] == [DisableClockDivide5, DisableClockDivide5, EnableThreePhaseClock] &&
            batches[1][..3] == SetBitsCommands(SdaOutScl) && batches[1][3] == SetClockDivisor &&
            batches[1][4] as int + 256 * batches[1][5] as int == d &&
            forall b :: b in batches ==> DisableAdaptiveClock !in b
  {
    var d := ClockDivisor(speedKhz);
    var batches := ConfigBatches(d);
    assert batches[1] == [SetBitsLowByte, SdaOutScl, SdaOutScl, SetClockDivisor] + DivisorBytes(d);
  }

  // ---------------------------------------------------------------------------------------------
  // Command sequences

  /** `set_bits(level)`: SET_BITS_LOW_BYTE with the pin levels, and SDA_OUT|SCL as outputs. */
  function SetBitsCommands(level: Byte): seq<Byte> {
    [SetBitsLowByte, level, SdaOutScl]
  }

  /** One bus level held for `hold` identical pin commands. */
  function HoldLevel(level: Byte, hold: nat): seq<Byte> {
    seq(3 * hold, k requires 0 <= k < 3 * hold => SetBitsCommands(level)[k % 3])
  }

  /** Holding a level one step longer adds one pin command at the end. */
  lemma HoldLevelStep(level: Byte, hold: nat)
    ensures HoldLevel(level, hold + 1) == HoldLevel(level, hold) + SetBitsCommands(level)
  {
    var longer := HoldLevel(level, hold + 1);
    var shorter := HoldLevel(level, hold) + SetBitsCommands(level);
    assert |longer| == |shorter|;
    forall k | 0 <= k < |longer| ensures longer[k] == shorter[k] {
      if k >= 3 * hold {
        assert k % 3 == k - 3 * hold;
      }
    }
  }

  /** `i2c_start_bk` with `repeat = hold`: both lines high, then SDA low with SCL high, then both low. */
  function StartCommandsHeld(hold: nat): seq<Byte> {
    HoldLevel(SdaOutScl, hold) + HoldLevel(Scl, hold) + HoldLevel(0, hold)
  }

  /** `i2c_stop_bk` with `repeat = hold`: both lines low, then SCL high with SDA low, then both high. */
  function StopCommandsHeld(hold: nat): seq<Byte> {
    HoldLevel(0, hold) + HoldLevel(Scl, hold) + HoldLevel(SdaOutScl, hold)
  }

  /** What `i2c_start_bk` queues. */
  function StartCommands(): seq<Byte> { StartCommandsHeld(Hold) }

  /** What `i2c_stop_bk` queues. */
  function StopCommands(): seq<Byte> { StopCommandsHeld(Hold) }

  /** What `i2c_send_bk(data)` queues before its first execute: `data` shifted out MSB first on the
      falling edge (length field 0x0000 = one byte), SDA released with SCL low, one bit clocked in on
      the rising edge (length 0x00 = one bit), and SEND_IMMEDIATE so the sampled bit comes back. */
  function SendCommands(data: Byte): seq<Byte> {
    [ClockByteOutMsbFalling, 0x00, 0x00, data] + SetBitsCommands(SdaOut) + [ClockBitInMsbRising, 0x00, SendImmediate]
  }

  /** What `i2c_send_bk` queues after the slave acknowledged: SDA high, SCL low. */
  function ReleaseCommands(): seq<Byte> {
    SetBitsCommands(SdaOut)
  }

  /** The commands `read_bytes(count)` queues for byte `i`: clock a byte in, then clock the master's
      answer bit out, an acknowledge for every byte but the last. */
  function ReadGroup(i: nat, count: nat): seq<Byte> {
    [ClockByteInMsbFalling, 0x00, 0x00, ClockBitOutMsbFalling, 0x00, if i == count - 1 then MasterNak else MasterAck]
  }

  /** The groups of bytes `0 .. k-1` of a `count`-byte read. */
  function ReadGroups(count: nat, k: nat): seq<Byte>
    decreases k
  {
    if k == 0 then [] else ReadGroups(count, k - 1) + ReadGroup(k - 1, count)
  }

  /** Everything `read_bytes(count)` queues for a positive `count`. */
  function ReadCommands(count: nat): seq<Byte> {
    ReadGroups(count, count) + [SendImmediate]
  }

  /** The stream of a `count`-byte read is `count` six-byte groups and one SEND_IMMEDIATE; the master
      acknowledges bytes 0 .. count-2 and not the last one (section 3.1.6 of UM10204). */
  lemma ReadCommandsLayout(count: nat)
    requires count > 0
    ensures |ReadCommands(count)| == 6 * count + 1
    ensures ReadCommands(count)[6 * count] == SendImmediate
    ensures forall i :: 0 <= i < count ==> ReadCommands(count)[6 * i .. 6 * i + 6] == ReadGroup(i, count)
    ensures forall i :: 0 <= i < count - 1 ==> ReadGroup(i, count)[5] == MasterAck
    ensures ReadGroup(count - 1, count)[5] == MasterNak
  {
    ReadGroupsLayout(count, count);
  }

  lemma {:induction false} ReadGroupsLayout(count: nat, k: nat)
    ensures |ReadGroups(count, k)| == 6 * k
    ensures forall i :: 0 <= i < k ==> ReadGroups(count, k)[6 * i .. 6 * i + 6] == ReadGroup(i, count)
  {
    if k > 0 {
      ReadGroupsLayout(count, k - 1);
      var prev := ReadGroups(count, k - 1);
      assert ReadGroups(count, k) == prev + ReadGroup(k - 1, count);
      forall i | 0 <= i < k
        ensures ReadGroups(count, k)[6 * i .. 6 * i + 6] == ReadGroup(i, count)
      {
        if i < k - 1 {
          assert (prev + ReadGroup(k - 1, count))[6 * i .. 6 * i + 6] == prev[6 * i .. 6 * i + 6];
        }
      }
    }
  }

  // ---------------------------------------------------------------------------------------------
  // Pin-level reading of a stream of SET_BITS_LOW_BYTE commands

  /** A stream made only of `set_bits` commands. */
  predicate IsPinProgram(cmds: seq<Byte>)
    decreases |cmds|
  {
    |cmds| == 0 ||
    (|cmds| >= 3 && cmds[0] == SetBitsLowByte && cmds[2] == SdaOutScl && IsPinProgram(cmds[3..]))
  }

  /** The pin levels a pin program sets, one per command, in order. */
  function Levels(cmds: seq<Byte>): seq<Byte>
    decreases |cmds|
  {
    if |cmds| < 3 then [] else [cmds[1]] + Levels(cmds[3..])
  }

  predicate SclHigh(level: Byte) { level % 2 == 1 }
  predicate SdaHigh(level: Byte) { level / 2 % 2 == 1 }

  /** A START condition (section 3.1.4 of UM10204): the bus is idle (both lines high) at first and ends
      with both lines low; SDA changes only while SCL is high and only from high to low; SCL falls only
      once SDA is low. */
  predicate IsStartCondition(trace: seq<Byte>) {
    |trace| > 0 &&
    SclHigh(trace[0]) && SdaHigh(trace[0]) &&
    !SclHigh(trace[|trace| - 1]) && !SdaHigh(trace[|trace| - 1]) &&
    (forall i :: 0 < i < |trace| && SdaHigh(trace[i - 1]) != SdaHigh(trace[i]) ==>
       SclHigh(trace[i - 1]) && SclHigh(trace[i]) && SdaHigh(trace[i - 1])) &&
    (forall i :: 0 < i < |trace| && SclHigh(trace[i - 1]) && !SclHigh(trace[i]) ==> !SdaHigh(trace[i - 1]))
  }

  /** A STOP condition (section 3.1.4 of UM10204): it begins with both lines low and leaves the bus
      idle (both high); SDA changes only while SCL is high and only from low to high; SCL rises only
      while SDA is low. */
  predicate IsStopCondition(trace: seq<Byte>) {
    |trace| > 0 &&
    !SclHigh(trace[0]) && !SdaHigh(trace[0]) &&
    SclHigh(trace[|trace| - 1]) && SdaHigh(trace[|trace| - 1]) &&
    (forall i :: 0 < i < |trace| && SdaHigh(trace[i - 1]) != SdaHigh(trace[i]) ==>
       SclHigh(trace[i - 1]) && SclHigh(trace[i]) && SdaHigh(trace[i])) &&
    (forall i :: 0 < i < |trace| && !SclHigh(trace[i - 1]) && SclHigh(trace[i]) ==> !SdaHigh(trace[i - 1]))
  }

  lemma {:induction false} PinProgramAppend(a: seq<Byte>, b: seq<Byte>)
    requires IsPinProgram(a) && IsPinProgram(b)
    ensures IsPinProgram(a + b) && Levels(a + b) == Levels(a) + Levels(b)
    decreases |a|
  {
    if |a| == 0 {
      assert a + b == b;
    } else {
      var ab := a + b;
      assert ab[..3] == a[..3];
      assert ab[3..] == a[3..] + b;
      PinProgramAppend(a[3..], b);
      assert Levels(ab) == [a[1]] + Levels(a[3..] + b);
    }
  }

  /** Holding a level for `hold` commands is a pin program that sets that level `hold` times. */
  lemma {:induction false} HoldLevelTrace(level: Byte, hold: nat)
    ensures IsPinProgram(HoldLevel(level, hold))
    ensures Levels(HoldLevel(level, hold)) == seq(hold, _ => level)
  {
    if hold > 0 {
      var cmds := HoldLevel(level, hold);
      var rest := HoldLevel(level, hold - 1);
      assert cmds[3..] == rest by {
        assert |cmds[3..]| == |rest|;
        forall k | 0 <= k < |rest| ensures cmds[3..][k] == rest[k] {
          assert (k + 3) % 3 == k % 3;
        }
      }
      HoldLevelTrace(level, hold - 1);
      assert cmds[0] == SetBitsLowByte && cmds[1] == level && cmds[2] == SdaOutScl by {
        assert 0 % 3 == 0 && 1 % 3 == 1 && 2 % 3 == 2;
        assert cmds[0] == SetBitsCommands(level)[0] && cmds[1] == SetBitsCommands(level)[1] && cmds[2] == SetBitsCommands(level)[2];
      }
      assert Levels(cmds) == [level] + seq(hold - 1, _ => level);
    }
  }

  /** The level trace of three levels, each held for `hold` commands. */
  lemma ThreeLevels(a: Byte, b: Byte, c: Byte, hold: nat)
    ensures var cmds := HoldLevel(a, hold) + HoldLevel(b, hold) + HoldLevel(c, hold);
            IsPinProgram(cmds) && |cmds| == 9 * hold &&
            var trace := Levels(cmds);
            |trace| == 3 * hold &&
            forall k :: 0 <= k < 3 * hold ==> trace[k] == if k < hold then a else if k < 2 * hold then b else c
  {
    HoldLevelTrace(a, hold);
    HoldLevelTrace(b, hold);
    HoldLevelTrace(c, hold);
    PinProgramAppend(HoldLevel(a, hold), HoldLevel(b, hold));
    PinProgramAppend(HoldLevel(a, hold) + HoldLevel(b, hold), HoldLevel(c, hold));
  }

  /** Both lines high, then SDA low, then both low, each for `count > 0` steps, is a START condition. */
  lemma StartShape(trace: seq<Byte>, count: nat)
    requires count > 0 && |trace| == 3 * count
    requires forall k :: 0 <= k < 3 * count ==>
               trace[k] == if k < count then SdaOutScl else if k < 2 * count then Scl else 0
    ensures IsStartCondition(trace)
  {
  }

  /** Both lines low, then SCL high, then both high, each for `count > 0` steps, is a STOP condition. */
  lemma StopShape(trace: seq<Byte>, count: nat)
    requires count > 0 && |trace| == 3 * count
    requires forall k :: 0 <= k < 3 * count ==>
               trace[k] == if k < count then 0 else if k < 2 * count then Scl else SdaOutScl
    ensures IsStopCondition(trace)
  {
  }

  /** For any positive hold count, `i2c_start_bk` queues nine bytes per held step, all of them
      pin commands driving SDA_OUT and SCL, whose levels form a START condition. */
  lemma StartIsStartCondition(hold: nat)
    requires hold > 0
    ensures IsPinProgram(StartCommandsHeld(hold)) && |StartCommandsHeld(hold)| == 9 * hold
    ensures IsStartCondition(Levels(StartCommandsHeld(hold)))
  {
    ThreeLevels(SdaOutScl, Scl, 0, hold);
    StartShape(Levels(StartCommandsHeld(hold)), hold);
  }

  /** For any positive hold count, `i2c_stop_bk` queues nine bytes per held step, all of them pin
      commands driving SDA_OUT and SCL, whose levels form a STOP condition. */
  lemma StopIsStopCondition(hold: nat)
    requires hold > 0
    ensures IsPinProgram(StopCommandsHeld(hold)) && |StopCommandsHeld(hold)| == 9 * hold
    ensures IsStopCondition(Levels(StopCommandsHeld(hold)))
  {
    ThreeLevels(0, Scl, SdaOutScl, hold);
    StopShape(Levels(StopCommandsHeld(hold)), hold);
  }

  /** With the source's hold count of 40, START and STOP are 360 bytes each. */
  lemma StartStopLength()
    ensures |StartCommands()| == 360 && |StopCommands()| == 360
  {
    StartIsStartCondition(Hold);
    StopIsStopCondition(Hold);
  }
}
