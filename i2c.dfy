/** The I2C master of `i2c.c` as it runs: the global command buffer `outputBuffer` with its fill
    count `outputSize`, the last status `ftStatus`, the bytes of the last read, and the device. Each
    method is proved to do to this state exactly what the matching function of module I2cModel does
    to a session value, so the lemmas proved there hold of the running code. */
module I2c {
  import opened Mpsse
  import opened CommandBuffer
  import opened Transport
  import opened I2cModel

  class Master {
    /** `outputBuffer[1024]`. */
    const outputBuffer: array<Byte>
    /** `outputSize`: how many bytes of `outputBuffer` are queued. */
    var outputSize: nat
    /** `ftStatus`. */
    var ftStatus: int
    /** `inputBuffer[..inputRead]`: the bytes the last `FT_Read` returned. */
    var inputBuffer: seq<Byte>
    /** The device behind `ftHandle`. */
    const ft: Device
    /** The queued commands, `outputBuffer[..outputSize]`. */
    ghost var pending: seq<Byte>

    ghost predicate Valid()
      reads this, outputBuffer
    {
      outputBuffer.Length == BufferSize && outputSize <= Capacity && pending == outputBuffer[..outputSize]
    }

    /** The state as a session value. */
    ghost function State(): Session
      reads this, ft
    {
      Session(pending, ftStatus, inputBuffer, ft.log, ft.writeStatuses, ft.replies)
    }

    /** A master with an empty command buffer on an opened device. */
    constructor (device: Device)
      ensures Valid() && ft == device && fresh(outputBuffer)
      ensures State() == Session([], FtOk, [], device.log, device.writeStatuses, device.replies)
    {
      outputBuffer := new Byte[BufferSize](_ => 0);
      outputSize := 0;
      ftStatus := FtOk;
      inputBuffer := [];
      ft := device;
      pending := [];
    }

    /** `append(data)`: -1, and nothing stored, once 1023 bytes are queued; else the byte is queued. */
    method Append(data: Byte) returns (r: int)
      requires Valid()
      modifies this, outputBuffer
      ensures Valid() && pending == AppendByte(old(pending), data)
      ensures ftStatus == old(ftStatus) && inputBuffer == old(inputBuffer)
      ensures r == (if old(outputSize) >= Capacity then -1 else 0)
    {
      if outputSize >= outputBuffer.Length - 1 {
        return -1;
      }
      outputBuffer[outputSize] := data;
      outputSize := outputSize + 1;
      pending := pending + [data];
      assert outputBuffer[..outputSize] == old(outputBuffer[..outputSize]) + [data];
      return 0;
    }

    /** `flush`: the queued commands are dropped. */
    method Flush()
      requires Valid()
      modifies this
      ensures Valid() && State() == old(State()).(pending := [])
    {
      outputSize := 0;
      pending := [];
    }

    /** `execute`: one `FT_Write` of the queued commands, if any; the buffer is emptied whatever the
        write returns. */
    method Execute() returns (status: int)
      requires Valid()
      modifies this, ft
      ensures Valid() && State() == Executed(old(State())).0 && status == Executed(old(State())).1
    {
      if outputSize == 0 {
        return 0;
      }
      ftStatus := ft.Write(outputBuffer[..outputSize]);
      outputSize := 0;
      pending := [];
      return ftStatus;
    }

    /** `set_bits(level)`: one SET_BITS_LOW_BYTE command with the pin levels and both pins as
        outputs. The results of `append` are not looked at. */
    method SetBits(level: Byte)
      requires Valid()
      modifies this, outputBuffer
      ensures Valid() && pending == Fill(old(pending), SetBitsCommands(level))
      ensures ftStatus == old(ftStatus) && inputBuffer == old(inputBuffer)
    {
      ghost var p0 := pending;
      var _ := Append(SetBitsLowByte);
      var _ := Append(level);
      var _ := Append(SdaOutScl);
      FillThreeBytes(p0, SetBitsLowByte, level, SdaOutScl);
    }

    /** `i2c_start_bk`: both lines high, then SDA low with SCL high, then both low, each level
        repeated 40 times. */
    method Start()
      requires Valid()
      modifies this, outputBuffer
      ensures Valid() && State() == Started(old(State()))
    {
      ghost var s0 := State();
      var repeat := Hold;
      var i;
      i := 0;
      while i < repeat
        invariant 0 <= i <= repeat && Valid()
        invariant pending == Fill(s0.pending, HoldLevel(SdaOutScl, i))
        invariant ftStatus == s0.status && inputBuffer == s0.input
      {
        SetBits(SdaOutScl);
        FillFill(s0.pending, HoldLevel(SdaOutScl, i), SetBitsCommands(SdaOutScl));
        HoldLevelStep(SdaOutScl, i);
        i := i + 1;
      }
      ghost var p1 := pending;
      i := 0;
      while i < repeat
        invariant 0 <= i <= repeat && Valid()
        invariant pending == Fill(p1, HoldLevel(Scl, i))
        invariant ftStatus == s0.status && inputBuffer == s0.input
      {
        SetBits(Scl);
        FillFill(p1, HoldLevel(Scl, i), SetBitsCommands(Scl));
        HoldLevelStep(Scl, i);
        i := i + 1;
      }
      ghost var p2 := pending;
      i := 0;
      while i < repeat
        invariant 0 <= i <= repeat && Valid()
        invariant pending == Fill(p2, HoldLevel(0, i))
        invariant ftStatus == s0.status && inputBuffer == s0.input
      {
        SetBits(0);
        FillFill(p2, HoldLevel(0, i), SetBitsCommands(0));
        HoldLevelStep(0, i);
        i := i + 1;
      }
      FillParts(s0.pending, HoldLevel(SdaOutScl, Hold), HoldLevel(Scl, Hold), HoldLevel(0, Hold));
    }

    /** `i2c_stop_bk`: both lines low, then SCL high with SDA low, then both high, each level
        repeated 40 times. */
    method Stop()
      requires Valid()
      modifies this, outputBuffer
      ensures Valid() && State() == Appended(old(State()), StopCommands())
    {
      ghost var s0 := State();
      var repeat := Hold;
      var i;
      i := 0;
      while i < repeat
        invariant 0 <= i <= repeat && Valid()
        invariant pending == Fill(s0.pending, HoldLevel(0, i))
        invariant ftStatus == s0.status && inputBuffer == s0.input
      {
        SetBits(0);
        FillFill(s0.pending, HoldLevel(0, i), SetBitsCommands(0));
        HoldLevelStep(0, i);
        i := i + 1;
      }
      ghost var p1 := pending;
      i := 0;
      while i < repeat
        invariant 0 <= i <= repeat && Valid()
        invariant pending == Fill(p1, HoldLevel(Scl, i))
        invariant ftStatus == s0.status && inputBuffer == s0.input
      {
        SetBits(Scl);
        FillFill(p1, HoldLevel(Scl, i), SetBitsCommands(Scl));
        HoldLevelStep(Scl, i);
        i := i + 1;
      }
      ghost var p2 := pending;
      i := 0;
      while i < repeat
        invariant 0 <= i <= repeat && Valid()
        invariant pending == Fill(p2, HoldLevel(SdaOutScl, i))
        invariant ftStatus == s0.status && inputBuffer == s0.input
      {
        SetBits(SdaOutScl);
        FillFill(p2, HoldLevel(SdaOutScl, i), SetBitsCommands(SdaOutScl));
        HoldLevelStep(SdaOutScl, i);
        i := i + 1;
      }
      FillParts(s0.pending, HoldLevel(0, Hold), HoldLevel(Scl, Hold), HoldLevel(SdaOutScl, Hold));
    }

    /** `i2c_send_bk(data)`: clock `data` out, release SDA, clock the slave's answer bit in, run the
        commands and read the bit; -2 when the read failed or returned nothing, -1 on a refusal, and
        on an acknowledge SDA is driven again and the result is 0. */
    method Send(data: Byte) returns (r: int)
      requires Valid()
      modifies this, outputBuffer, ft
      ensures Valid() && State() == Sent(old(State()), data).0 && r == Sent(old(State()), data).1
    {
      ghost var s0 := State();
      var _ := Append(ClockByteOutMsbFalling);
      var _ := Append(0x00);
      var _ := Append(0x00);
      var _ := Append(data);
      FillFourBytes(s0.pending, ClockByteOutMsbFalling, 0x00, 0x00, data);
      SetBits(SdaOut);
      ghost var p1 := pending;
      var _ := Append(ClockBitInMsbRising);
      var _ := Append(0x00);
      var _ := Append(SendImmediate);
      FillThreeBytes(p1, ClockBitInMsbRising, 0x00, SendImmediate);
      FillParts(s0.pending, [ClockByteOutMsbFalling, 0x00, 0x00, data], SetBitsCommands(SdaOut),
                [ClockBitInMsbRising, 0x00, SendImmediate]);
      assert State() == Appended(s0, SendCommands(data));
      var _ := Execute();
      ghost var e := State();
      var inputRead: seq<Byte>;
      ftStatus, inputRead := ft.Read(1);
      inputBuffer := inputRead;
      assert State() == Received(e, 1);
      if ftStatus != FtOk || |inputRead| == 0 {
        return -2;
      } else if inputBuffer[0] % 2 != 0 {
        return -1;
      } else {
        SetBits(SdaOut);
        var _ := Execute();
        return 0;
      }
    }

    /** The loop of `read_bytes(count)`: for each byte, clock it in, then clock the master's answer
        bit out, a refusal after the last byte and an acknowledge after every other. */
    method QueueReads(count: nat)
      requires Valid()
      modifies this, outputBuffer
      ensures Valid() && pending == Fill(old(pending), ReadGroups(count, count))
      ensures ftStatus == old(ftStatus) && inputBuffer == old(inputBuffer)
    {
      ghost var p0 := pending;
      var i := 0;
      while i < count
        invariant 0 <= i <= count && Valid()
        invariant pending == Fill(p0, ReadGroups(count, i))
        invariant ftStatus == old(ftStatus) && inputBuffer == old(inputBuffer)
      {
        ReadGroupsStep(p0, count, i);
        var _ := Append(ClockByteInMsbFalling);
        var _ := Append(0x00);
        var _ := Append(0x00);
        var _ := Append(ClockBitOutMsbFalling);
        var _ := Append(0x00);
        var _ := Append(if i == count - 1 then MasterNak else MasterAck);
        i := i + 1;
      }
    }

    /** `read_bytes(count)`: -1 for `count <= 0`; otherwise the read commands for `count` bytes,
        one execute and one read of `count` bytes, whose status and length are not looked at: the
        result is 0. */
    method ReadBytes(count: int) returns (r: int)
      requires Valid()
      modifies this, outputBuffer, ft
      ensures Valid() && State() == BytesRead(old(State()), count).0 && r == BytesRead(old(State()), count).1
    {
      if count <= 0 {
        return -1;
      }
      ghost var s0 := State();
      QueueReads(count);
      var _ := Append(SendImmediate);
      FillStep(s0.pending, ReadGroups(count, count), SendImmediate);
      assert State() == Appended(s0, ReadCommands(count));
      FillNonEmpty(s0.pending, ReadCommands(count));
      var _ := Execute();
      ghost var e := State();
      var inputRead: seq<Byte>;
      ftStatus, inputRead := ft.Read(count);
      inputBuffer := inputRead;
      assert State() == Received(e, count);
      return 0;
    }

    /** `i2c_transaction(addr, nread, |wbuf|, wbuf)`: a write phase when there are bytes to write
        (START, the write address, the bytes), a read phase when `nread != 0` (START or repeated
        START, the read address, `read_bytes(nread)`), then a STOP if either phase ran. A refused
        address ends the transaction with a STOP and SLAVE_NAK_ADDR, a refused data byte with a STOP
        and SLAVE_NAK_DATA; a failed read of an answer bit counts as a refusal. */
    method Transaction(addr: Byte, nread: int, wbuf: seq<Byte>) returns (r: int)
      requires Valid()
      modifies this, outputBuffer, ft
      ensures Valid() && State() == Transacted(old(State()), addr, nread, wbuf).0
      ensures r == Transacted(old(State()), addr, nread, wbuf).1
    {
      ghost var s0 := State();
      if |wbuf| != 0 {
        Start();
        var sent := Send(AsByte(WriteAddress(addr)));
        if sent != 0 {
          Stop();
          var _ := Execute();
          return SlaveNakAddr;
        }
        ghost var s1 := State();
        var i := 0;
        while i < |wbuf|
          invariant 0 <= i <= |wbuf| && Valid()
          invariant DataPhase(State(), wbuf, i) == DataPhase(s1, wbuf, 0)
        {
          sent := Send(wbuf[i]);
          if sent != 0 {
            Stop();
            var _ := Execute();
            return SlaveNakData;
          }
          i := i + 1;
        }
      }
      if nread != 0 {
        Start();
        var sent := Send(AsByte(ReadAddress(addr)));
        if sent != 0 {
          Stop();
          var _ := Execute();
          return SlaveNakAddr;
        }
        var _ := ReadBytes(nread);
      }
      if nread != 0 || |wbuf| != 0 {
        Stop();
        var _ := Execute();
      }
      return 0;
    }

    /** The bus scan of `main`: for each address 0 .. 0x7E, a START, the read address, a STOP and an
        execute; the addresses whose read address was acknowledged are reported, in order. */
    method BusScan() returns (found: seq<Byte>)
      requires Valid()
      modifies this, outputBuffer, ft
      ensures Valid() && State() == Scanned(old(State()), 0x7F).0 && found == Scanned(old(State()), 0x7F).1
    {
      ghost var s0 := State();
      found := [];
      var i := 0;
      while i < 0x7F
        invariant 0 <= i <= 0x7F && Valid()
        invariant State() == Scanned(s0, i).0 && found == Scanned(s0, i).1
      {
        ScannedStep(s0, i);
        ghost var t := State();
        Start();
        var sent := Send(AsByte(ReadAddress(i)));
        ghost var u := State();
        if sent == 0 {
          found := found + [i];
        }
        Stop();
        var _ := Execute();
        assert State() == Closed(u);
        i := i + 1;
      }
    }

    /** The command part of `ftdi_configure_i2c(speedKhz)`: four batches, each executed, with the
        clock divisor chosen from the speed and sent low byte first. */
    method Configure(speedKhz: int)
      requires Valid()
      modifies this, outputBuffer, ft
      ensures Valid() && State() == Configured(old(State()), speedKhz)
    {
      var divisor := DivisorBytes(ClockDivisor(speedKhz));
      var low, high := divisor[0], divisor[1];
      ConfiguredBytes(old(State()), speedKhz, low, high);
      ghost var s0 := State();
      var _ := Append(DisableClockDivide5);
      var _ := Append(DisableClockDivide5);
      var _ := Append(EnableThreePhaseClock);
      FillThreeBytes(s0.pending, DisableClockDivide5, DisableClockDivide5, EnableThreePhaseClock);
      assert State() == Appended(s0, [DisableClockDivide5, DisableClockDivide5, EnableThreePhaseClock]);
      FillNonEmpty(s0.pending, [DisableClockDivide5, DisableClockDivide5, EnableThreePhaseClock]);
      var _ := Execute();
      ghost var s1 := State();
      var _ := Append(SetBitsLowByte);
      var _ := Append(SdaOutScl);
      var _ := Append(SdaOutScl);
      var _ := Append(SetClockDivisor);
      var _ := Append(low);
      var _ := Append(high);
      FillSixBytes(s1.pending, SetBitsLowByte, SdaOutScl, SdaOutScl, SetClockDivisor, low, high);
      assert State() == Appended(s1, [SetBitsLowByte, SdaOutScl, SdaOutScl, SetClockDivisor, low, high]);
      FillNonEmpty(s1.pending, [SetBitsLowByte, SdaOutScl, SdaOutScl, SetClockDivisor, low, high]);
      var _ := Execute();
      ghost var s2 := State();
      var _ := Append(OpenDrain);
      var _ := Append(SdaOutScl);
      var _ := Append(0x00);
      FillThreeBytes(s2.pending, OpenDrain, SdaOutScl, 0x00);
      assert State() == Appended(s2, [OpenDrain, SdaOutScl, 0x00]);
      FillNonEmpty(s2.pending, [OpenDrain, SdaOutScl, 0x00]);
      var _ := Execute();
      ghost var s3 := State();
      var _ := Append(DisableLoopback);
      FillOneByte(s3.pending, DisableLoopback);
      assert State() == Appended(s3, [DisableLoopback]);
      FillNonEmpty(s3.pending, [DisableLoopback]);
      var _ := Execute();
    }
  }
}
