/** The I2C operations of `i2c.c` as functions of a session value: the command buffer's contents,
    the global status and input bytes, and the device stub. The class in module I2c is proved to
    behave as these functions; the lemmas here say what the functions do to the request log, for
    every sequence of device answers. */
module I2cModel {
  import opened Mpsse
  import opened CommandBuffer
  import opened Transport

  /** `SLAVE_NAK_ADDR` and `SLAVE_NAK_DATA`. */
  const SlaveNakAddr: int := -2
  const SlaveNakData: int := -3

  /** The state the I2C code works on: `outputBuffer[..outputSize]`, `ftStatus`, the bytes of the
      last read (`inputBuffer[..inputRead]`), and the device: its request log, the statuses its next
      writes return and the answers its next reads return. */
  datatype Session = Session(pending: seq<Byte>, status: int, input: seq<Byte>,
                             log: seq<Event>, writeStatuses: seq<int>, replies: seq<Reply>)

  /** An answer `i2c_send_bk` reads as an acknowledge: a good read of at least one byte, bit 0 clear. */
  predicate IsAck(reply: Reply) {
    reply.status == FtOk && |reply.data| > 0 && reply.data[0] % 2 == 0
  }

  /** An answer `i2c_send_bk` reads as a refusal: a good read of at least one byte, bit 0 set. */
  predicate IsNak(reply: Reply) {
    reply.status == FtOk && |reply.data| > 0 && reply.data[0] % 2 == 1
  }

  // ---------------------------------------------------------------------------------------------
  // The operations

  /** A run of `append` calls. */
  function Appended(s: Session, bytes: seq<Byte>): Session {
    s.(pending := Fill(s.pending, bytes))
  }

  /** `execute`: nothing on an empty buffer, else one write of the whole buffer, which is emptied
      whatever the write returns. */
  function Executed(s: Session): (Session, int) {
    if s.pending == [] then (s, FtOk)
    else
      var status := NextStatus(s.writeStatuses);
      (s.(pending := [], status := status, log := s.log + [Wrote(s.pending)],
          writeStatuses := Drop(s.writeStatuses, 1)), status)
  }

  /** `ftStatus = FT_Read(ftHandle, inputBuffer, count, &inputRead)`. */
  function Received(s: Session, count: nat): Session {
    var reply := ReplyAt(s.replies, 0);
    s.(status := reply.status, input := Take(reply.data, count), log := s.log + [Requested(count)],
       replies := Drop(s.replies, 1))
  }

  /** `i2c_start_bk`. */
  function Started(s: Session): Session {
    Appended(s, StartCommands())
  }

  /** `i2c_stop_bk` followed by `execute`, as every caller does. */
  function Closed(s: Session): Session {
    Executed(Appended(s, StopCommands())).0
  }

  /** `i2c_send_bk(data)`: 0 on an acknowledge, -1 on a refusal, -2 when the read failed or was empty. */
  function Sent(s: Session, data: Byte): (Session, int) {
    var t := Received(Executed(Appended(s, SendCommands(data))).0, 1);
    if t.status != FtOk || |t.input| == 0 then (t, -2)
    else if t.input[0] % 2 != 0 then (t, -1)
    else (Executed(Appended(t, ReleaseCommands())).0, 0)
  }

  /** `read_bytes(count)`: the status and the number of bytes of the read are not looked at. */
  function BytesRead(s: Session, count: int): (Session, int) {
    if count <= 0 then (s, -1)
    else (Received(Executed(Appended(s, ReadCommands(count))).0, count), 0)
  }

  /** The data loop of `i2c_transaction` from byte `i` on: false when a byte was not acknowledged. */
  function DataPhase(s: Session, wbuf: seq<Byte>, i: nat): (Session, bool)
    decreases |wbuf| - i
  {
    if i >= |wbuf| then (s, true)
    else
      var sent := Sent(s, wbuf[i]);
      if sent.1 != 0 then (sent.0, false) else DataPhase(sent.0, wbuf, i + 1)
  }

  /** The read half of `i2c_transaction`, after a write phase (`wrote`) or not. */
  function ReadPhase(s: Session, addr: Byte, nread: int, wrote: bool): (Session, int) {
    if nread != 0 then
      var sent := Sent(Started(s), AsByte(ReadAddress(addr)));
      if sent.1 != 0 then (Closed(sent.0), SlaveNakAddr)
      else (Closed(BytesRead(sent.0, nread).0), 0)
    else if wrote then (Closed(s), 0)
    else (s, 0)
  }

  /** `i2c_transaction(addr, nread, |wbuf|, wbuf)`. */
  function Transacted(s: Session, addr: Byte, nread: int, wbuf: seq<Byte>): (Session, int) {
    if wbuf != [] then
      var sent := Sent(Started(s), AsByte(WriteAddress(addr)));
      if sent.1 != 0 then (Closed(sent.0), SlaveNakAddr)
      else
        var data := DataPhase(sent.0, wbuf, 0);
        if !data.1 then (Closed(data.0), SlaveNakData)
        else ReadPhase(data.0, addr, nread, true)
    else ReadPhase(s, addr, nread, false)
  }

  /** The first `count` rounds of the bus scan in `main`, and the addresses that answered. */
  function Scanned(s: Session, count: nat): (Session, seq<Byte>)
    requires count <= 0x80
  {
    if count == 0 then (s, [])
    else
      var before := Scanned(s, count - 1);
      var sent := Sent(Started(before.0), AsByte(ReadAddress(count - 1)));
      (Closed(sent.0), if sent.1 == 0 then before.1 + [count - 1] else before.1)
  }

  /** One more round of the scan: START, the read address of `count`, STOP and execute. */
  lemma ScannedStep(s: Session, count: nat)
    requires count < 0x80
    ensures var sent := Sent(Started(Scanned(s, count).0), AsByte(ReadAddress(count)));
            Scanned(s, count + 1).0 == Closed(sent.0) &&
            Scanned(s, count + 1).1 == if sent.1 == 0 then Scanned(s, count).1 + [count] else Scanned(s, count).1
  {
  }

  /** The queued set-up of `ftdi_configure_i2c` for a bus speed: four batches, each executed. */
  function Configured(s: Session, speedKhz: int): Session {
    var batches := ConfigBatches(ClockDivisor(speedKhz));
    var s1 := Executed(Appended(s, batches[0])).0;
    var s2 := Executed(Appended(s1, batches[1])).0;
    var s3 := Executed(Appended(s2, batches[2])).0;
    Executed(Appended(s3, batches[3])).0
  }

  /** The four batches of `Configured`, written out byte by byte, with the divisor's operand bytes
      `low` and `high`. */
  lemma ConfiguredBytes(s: Session, speedKhz: int, low: Byte, high: Byte)
    requires DivisorBytes(ClockDivisor(speedKhz)) == [low, high]
    ensures Configured(s, speedKhz) ==
            Executed(Appended(Executed(Appended(Executed(Appended(Executed(Appended(s,
              [DisableClockDivide5, DisableClockDivide5, EnableThreePhaseClock])).0,
              [SetBitsLowByte, SdaOutScl, SdaOutScl, SetClockDivisor, low, high])).0,
              [OpenDrain, SdaOutScl, 0x00])).0,
              [DisableLoopback])).0
  {
    var d := ClockDivisor(speedKhz);
    assert ConfigBatches(d)[1] == [SetBitsLowByte, SdaOutScl, SdaOutScl, SetClockDivisor] + DivisorBytes(d);
    assert ConfigBatches(d)[1] == [SetBitsLowByte, SdaOutScl, SdaOutScl, SetClockDivisor, low, high];
  }

  // ---------------------------------------------------------------------------------------------
  // Reference transcripts: the requests each protocol step makes of the device

  /** One byte sent on an empty buffer after `prefix` was queued, and its answer read. */
  function Attempt(prefix: seq<Byte>, data: Byte): seq<Event> {
    [Wrote(prefix + SendCommands(data)), Requested(1)]
  }

  /** One byte sent and acknowledged: SDA is then driven again. */
  function Acked(prefix: seq<Byte>, data: Byte): seq<Event> {
    Attempt(prefix, data) + [Wrote(ReleaseCommands())]
  }

  /** Data bytes, each acknowledged. */
  function AckedData(data: seq<Byte>): seq<Event>
    decreases |data|
  {
    if data == [] then [] else Acked([], data[0]) + AckedData(data[1..])
  }

  /** The STOP condition, sent on its own. */
  function StopEvent(): Event {
    Wrote(StopCommands())
  }

  /** The requests of an acknowledged read half: START with the read address, the read itself when
      `nread > 0`, and STOP when anything was done. */
  function AckedReadPhase(addr: Byte, nread: int, wrote: bool): seq<Event> {
    (if nread != 0 then Acked(StartCommands(), AsByte(ReadAddress(addr))) else []) +
    (if nread > 0 then [Wrote(Fill([], ReadCommands(nread))), Requested(nread)] else []) +
    (if wrote || nread != 0 then [StopEvent()] else [])
  }

  /** The whole transcript of a transaction in which every byte is acknowledged: START, address with
      write bit, the data, (repeated) START, address with read bit, the read, STOP. */
  function AckedTransaction(addr: Byte, nread: int, wbuf: seq<Byte>): seq<Event> {
    (if wbuf != [] then Acked(StartCommands(), AsByte(WriteAddress(addr))) + AckedData(wbuf) else []) +
    AckedReadPhase(addr, nread, wbuf != [])
  }

  /** One round of the bus scan: START, address with read bit, STOP. */
  function Probe(addr: Byte, ack: bool): seq<Event> {
    (if ack then Acked(StartCommands(), AsByte(ReadAddress(addr))) else Attempt(StartCommands(), AsByte(ReadAddress(addr))))
    + [StopEvent()]
  }

  /** The first `count` rounds of the bus scan, round `a` answered by answer `a`. */
  function ScanTranscript(replies: seq<Reply>, count: nat): seq<Event>
    requires count <= 0x80
  {
    if count == 0 then []
    else ScanTranscript(replies, count - 1) + Probe(count - 1, IsAck(ReplyAt(replies, count - 1)))
  }

  /** The result code of a transaction, read off the answers: answer 0 belongs to the write address,
      answers 1 .. |wbuf| to the data, and the next one to the read address. */
  function ExpectedOutcome(replies: seq<Reply>, nwrite: nat, nread: int): int {
    if nwrite > 0 && !IsAck(ReplyAt(replies, 0)) then SlaveNakAddr
    else if nwrite > 0 && exists i :: 1 <= i <= nwrite && !IsAck(ReplyAt(replies, i)) then SlaveNakData
    else if nread != 0 && !IsAck(ReplyAt(replies, if nwrite > 0 then nwrite + 1 else 0)) then SlaveNakAddr
    else 0
  }

  // ---------------------------------------------------------------------------------------------
  // Lemmas: single operations

  /** Appending `a` and then `b` is appending `a + b`: a run of `append` calls can be split anywhere. */
  lemma AppendedTwice(s: Session, a: seq<Byte>, b: seq<Byte>)
    ensures Appended(Appended(s, a), b) == Appended(s, a + b)
  {
    FillFill(s.pending, a, b);
  }

  /** `execute` on an empty buffer does nothing and returns 0; otherwise it writes exactly the buffer
      once, returns that write's status and empties the buffer. */
  lemma ExecuteOutcome(s: Session)
    ensures var (t, status) := Executed(s);
            t.pending == [] && t.replies == s.replies && t.input == s.input &&
            (s.pending == [] ==> t == s && status == FtOk) &&
            (s.pending != [] ==> t.log == s.log + [Wrote(s.pending)] && status == NextStatus(s.writeStatuses))
  {
  }

  /** `i2c_send_bk(data)` writes the buffer with the send commands, reads one answer, and returns 0
      exactly on an acknowledge (then SDA is driven again in a write of its own), -1 exactly on a
      refusal and -2 exactly when the read failed or returned nothing. The buffer is left empty. */
  lemma SendOutcome(s: Session, data: Byte)
    ensures var (t, r) := Sent(s, data);
            var reply := ReplyAt(s.replies, 0);
            (r == 0 <==> IsAck(reply)) && (r == -1 <==> IsNak(reply)) &&
            (r == -2 <==> !IsAck(reply) && !IsNak(reply)) &&
            t.pending == [] && t.replies == Drop(s.replies, 1) && t.input == Take(reply.data, 1) &&
            t.log == s.log + [Wrote(Fill(s.pending, SendCommands(data))), Requested(1)]
                           + (if r == 0 then [Wrote(ReleaseCommands())] else [])
  {
    FillNonEmpty(s.pending, SendCommands(data));
    var e := Executed(Appended(s, SendCommands(data))).0;
    var t := Received(e, 1);
    assert t.log == s.log + [Wrote(Fill(s.pending, SendCommands(data))), Requested(1)];
    if t.status == FtOk && |t.input| > 0 && t.input[0] % 2 == 0 {
      FillIntoEmpty(ReleaseCommands());
      assert Executed(Appended(t, ReleaseCommands())).0.log == t.log + [Wrote(ReleaseCommands())];
    }
  }

  /** `read_bytes(count)`: for `count <= 0` nothing happens and the result is -1; otherwise the read
      commands are written in one batch, one read of `count` bytes follows, and the result is 0
      whatever that read returned. */
  lemma ReadBytesOutcome(s: Session, count: int)
    ensures var (t, r) := BytesRead(s, count);
            (count <= 0 ==> t == s && r == -1) &&
            (count > 0 ==>
               r == 0 && t.pending == [] && t.replies == Drop(s.replies, 1) &&
               t.input == Take(ReplyAt(s.replies, 0).data, count) &&
               t.log == s.log + [Wrote(Fill(s.pending, ReadCommands(count))), Requested(count)])
  {
    if count > 0 {
      ReadCommandsLayout(count);
      FillNonEmpty(s.pending, ReadCommands(count));
    }
  }

  /** STOP on an empty buffer, executed, is one write of exactly the STOP commands. */
  lemma CloseOutcome(s: Session)
    requires s.pending == []
    ensures var t := Closed(s);
            t.pending == [] && t.log == s.log + [StopEvent()] && t.replies == s.replies && t.input == s.input
  {
    StartStopLength();
    FillIntoEmpty(StopCommands());
  }

  /** Configuring on an empty buffer writes the four set-up batches, in order, and nothing else. */
  lemma ConfigureTranscript(s: Session, speedKhz: int)
    requires s.pending == []
    ensures var t := Configured(s, speedKhz);
            var batches := ConfigBatches(ClockDivisor(speedKhz));
            t.pending == [] && t.replies == s.replies &&
            t.log == s.log + [Wrote(batches[0]), Wrote(batches[1]), Wrote(batches[2]), Wrote(batches[3])]
  {
    var batches := ConfigBatches(ClockDivisor(speedKhz));
    assert |batches[1]| == 6;
    FillIntoEmpty(batches[0]);
    FillIntoEmpty(batches[1]);
    FillIntoEmpty(batches[2]);
    FillIntoEmpty(batches[3]);
    var s1 := Executed(Appended(s, batches[0])).0;
    var s2 := Executed(Appended(s1, batches[1])).0;
    var s3 := Executed(Appended(s2, batches[2])).0;
    assert s3.log == s.log + [Wrote(batches[0]), Wrote(batches[1]), Wrote(batches[2])];
  }

  // ---------------------------------------------------------------------------------------------
  // Lemmas: the transaction

  /** With nothing to write and nothing to read, a transaction changes nothing and returns 0. */
  lemma TransactionIdle(s: Session, addr: Byte)
    ensures Transacted(s, addr, 0, []) == (s, 0)
  {
  }

  /** A send on a buffer holding `prefix`, when everything fits: one write of `prefix` and the send
      commands, one read, and a write of its own to drive SDA again exactly on an acknowledge. */
  lemma SendLog(s: Session, data: Byte)
    requires |s.pending| + 10 <= Capacity
    ensures Sent(s, data).0.pending == [] && Sent(s, data).0.replies == Drop(s.replies, 1)
    ensures Sent(s, data).1 == 0 <==> IsAck(ReplyAt(s.replies, 0))
    ensures Sent(s, data).1 == 0 ==> Sent(s, data).0.log == s.log + Acked(s.pending, data)
    ensures Sent(s, data).1 != 0 ==> Sent(s, data).0.log == s.log + Attempt(s.pending, data)
  {
    SendOutcome(s, data);
    FillBounds(s.pending, SendCommands(data));
    var w := [Wrote(s.pending + SendCommands(data)), Requested(1)];
    assert s.log + w + [Wrote(ReleaseCommands())] == s.log + (w + [Wrote(ReleaseCommands())]);
    assert s.log + w + [] == s.log + w;
  }

  /** START queued on an empty buffer leaves exactly the START commands, with room for a send. */
  lemma StartedPending(s: Session)
    requires s.pending == []
    ensures Started(s).pending == StartCommands() && |Started(s).pending| + 10 <= Capacity
    ensures Started(s).log == s.log && Started(s).replies == s.replies
  {
    StartStopLength();
    FillIntoEmpty(StartCommands());
  }

  /** Peeling the first byte off the acknowledged-data transcript of `wbuf[i..k]`. */
  lemma AckedDataStep(wbuf: seq<Byte>, i: nat, k: nat)
    requires i < k <= |wbuf|
    ensures AckedData(wbuf[i..k]) == Acked([], wbuf[i]) + AckedData(wbuf[i + 1..k])
  {
    assert wbuf[i..k][0] == wbuf[i] && wbuf[i..k][1..] == wbuf[i + 1..k];
  }

  /** Peeling the first byte off the acknowledged-data transcript of `wbuf[i..]`: `AckedDataStep` at
      `k = |wbuf|`, kept as a lemma of its own because the induction in `DataPhaseAcked` then needs no
      slice identities, which keeps that proof small for the solver. */
  lemma AckedDataTail(wbuf: seq<Byte>, i: nat)
    requires i < |wbuf|
    ensures AckedData(wbuf[i..]) == Acked([], wbuf[i]) + AckedData(wbuf[i + 1..])
  {
    assert wbuf[i..][0] == wbuf[i] && wbuf[i..][1..] == wbuf[i + 1..];
  }

  /** Requests logged in two steps are the concatenation of both steps. */
  lemma LogAssoc(log: seq<Event>, a: seq<Event>, b: seq<Event>)
    ensures log + a + b == log + (a + b)
  {
  }

  /** Acknowledges among the first `n + 1` answers remain acknowledges once one answer is used. */
  lemma AcksAfterOne(replies: seq<Reply>, n: nat)
    requires forall j :: 0 <= j < n + 1 ==> IsAck(ReplyAt(replies, j))
    ensures forall j :: 0 <= j < n ==> IsAck(ReplyAt(Drop(replies, 1), j))
  {
    forall j | 0 <= j < n ensures IsAck(ReplyAt(Drop(replies, 1), j)) {
      ReplyAtDrop(replies, 1, j);
    }
  }

  /** One round of the data loop on an empty buffer whose byte is acknowledged: the loop goes on with
      the next byte after the requests of an acknowledged send. */
  lemma DataPhaseAckedStep(s: Session, wbuf: seq<Byte>, i: nat)
    requires s.pending == [] && i < |wbuf| && IsAck(ReplyAt(s.replies, 0))
    ensures var t := Sent(s, wbuf[i]).0;
            t.pending == [] && t.log == s.log + Acked([], wbuf[i]) && t.replies == Drop(s.replies, 1) &&
            DataPhase(s, wbuf, i).1 == DataPhase(t, wbuf, i + 1).1 &&
            DataPhase(s, wbuf, i).0.pending == DataPhase(t, wbuf, i + 1).0.pending &&
            DataPhase(s, wbuf, i).0.log == DataPhase(t, wbuf, i + 1).0.log &&
            DataPhase(s, wbuf, i).0.replies == DataPhase(t, wbuf, i + 1).0.replies
  {
    SendLog(s, wbuf[i]);
  }

  /** One round of the data loop on an empty buffer whose byte is not acknowledged: the loop stops. */
  lemma DataPhaseRefusedStep(s: Session, wbuf: seq<Byte>, i: nat)
    requires s.pending == [] && i < |wbuf| && !IsAck(ReplyAt(s.replies, 0))
    ensures !DataPhase(s, wbuf, i).1 && DataPhase(s, wbuf, i).0.pending == []
    ensures DataPhase(s, wbuf, i).0.log == s.log + Attempt([], wbuf[i])
  {
    SendLog(s, wbuf[i]);
  }

  /** Sends from an empty buffer, byte `i` on, while every answer is an acknowledge. */
  lemma {:induction false} DataPhaseAcked(s: Session, wbuf: seq<Byte>, i: nat)
    requires s.pending == [] && i <= |wbuf|
    requires forall j :: 0 <= j < |wbuf| - i ==> IsAck(ReplyAt(s.replies, j))
    ensures DataPhase(s, wbuf, i).1 && DataPhase(s, wbuf, i).0.pending == []
    ensures DataPhase(s, wbuf, i).0.log == s.log + AckedData(wbuf[i..])
    ensures DataPhase(s, wbuf, i).0.replies == Drop(s.replies, |wbuf| - i)
    decreases |wbuf| - i
  {
    if i < |wbuf| {
      DataPhaseAckedStep(s, wbuf, i);
      var t := Sent(s, wbuf[i]).0;
      AcksAfterOne(s.replies, |wbuf| - (i + 1));
      DataPhaseAcked(t, wbuf, i + 1);
      DropDrop(s.replies, 1, |wbuf| - (i + 1));
      AckedDataTail(wbuf, i);
      LogAssoc(s.log, Acked([], wbuf[i]), AckedData(wbuf[i + 1..]));
    } else {
      assert wbuf[i..] == [];
      assert s.log + [] == s.log;
      assert Drop(s.replies, 0) == s.replies;
    }
  }

  /** Sends from an empty buffer, byte `i` on, when byte `k` is the first one not acknowledged: the
      loop stops right after byte `k`'s answer. */
  lemma {:induction false} DataPhaseRefused(s: Session, wbuf: seq<Byte>, i: nat, k: nat)
    requires s.pending == [] && i <= k < |wbuf|
    requires forall j :: 0 <= j < k - i ==> IsAck(ReplyAt(s.replies, j))
    requires !IsAck(ReplyAt(s.replies, k - i))
    ensures !DataPhase(s, wbuf, i).1 && DataPhase(s, wbuf, i).0.pending == []
    ensures DataPhase(s, wbuf, i).0.log == s.log + AckedData(wbuf[i..k]) + Attempt([], wbuf[k])
    decreases k - i
  {
    if i == k {
      DataPhaseRefusedStep(s, wbuf, i);
      assert wbuf[i..k] == [];
      assert AckedData(wbuf[i..k]) == [];
      assert s.log + [] == s.log;
    } else {
      DataPhaseAckedStep(s, wbuf, i);
      var t := Sent(s, wbuf[i]).0;
      AcksAfterOne(s.replies, k - (i + 1));
      ReplyAtDrop(s.replies, 1, k - (i + 1));
      DataPhaseRefused(t, wbuf, i + 1, k);
      AckedDataStep(wbuf, i, k);
      LogAssoc(s.log, Acked([], wbuf[i]), AckedData(wbuf[i + 1..k]));
    }
  }

  /** A write phase whose address is refused (or whose answer read failed): one batch with START and
      the address, one read, STOP; no data byte and no read phase follow, and the result is -2. */
  lemma TransactionWriteAddressRefused(s: Session, addr: Byte, nread: int, wbuf: seq<Byte>)
    requires s.pending == [] && wbuf != []
    requires !IsAck(ReplyAt(s.replies, 0))
    ensures Transacted(s, addr, nread, wbuf).1 == SlaveNakAddr
    ensures Transacted(s, addr, nread, wbuf).0.pending == []
    ensures Transacted(s, addr, nread, wbuf).0.log
            == s.log + Attempt(StartCommands(), AsByte(WriteAddress(addr))) + [StopEvent()]
  {
    var w := AsByte(WriteAddress(addr));
    StartedPending(s);
    SendLog(Started(s), w);
    var t := Sent(Started(s), w).0;
    CloseOutcome(t);
    assert Transacted(s, addr, nread, wbuf) == (Closed(t), SlaveNakAddr);
  }

  /** The state once the write address has been sent (from an empty buffer) and acknowledged. */
  lemma WriteAddressAcked(s: Session, addr: Byte)
    requires s.pending == [] && IsAck(ReplyAt(s.replies, 0))
    ensures Sent(Started(s), AsByte(WriteAddress(addr))).1 == 0
    ensures Sent(Started(s), AsByte(WriteAddress(addr))).0.pending == []
    ensures Sent(Started(s), AsByte(WriteAddress(addr))).0.replies == Drop(s.replies, 1)
    ensures Sent(Started(s), AsByte(WriteAddress(addr))).0.log
            == s.log + Acked(StartCommands(), AsByte(WriteAddress(addr)))
  {
    StartedPending(s);
    SendLog(Started(s), AsByte(WriteAddress(addr)));
  }

  /** A write phase in which data byte `k` is the first one refused: START and address, the bytes
      before `k`, byte `k`, STOP; no read phase follows, and the result is -3. */
  lemma TransactionDataRefused(s: Session, addr: Byte, nread: int, wbuf: seq<Byte>, k: nat)
    requires s.pending == [] && k < |wbuf|
    requires IsAck(ReplyAt(s.replies, 0))
    requires forall j :: 1 <= j <= k ==> IsAck(ReplyAt(s.replies, j))
    requires !IsAck(ReplyAt(s.replies, 1 + k))
    ensures Transacted(s, addr, nread, wbuf).1 == SlaveNakData
    ensures Transacted(s, addr, nread, wbuf).0.pending == []
    ensures Transacted(s, addr, nread, wbuf).0.log
            == s.log + Acked(StartCommands(), AsByte(WriteAddress(addr))) + AckedData(wbuf[..k])
                     + Attempt([], wbuf[k]) + [StopEvent()]
  {
    var w := AsByte(WriteAddress(addr));
    WriteAddressAcked(s, addr);
    var t := Sent(Started(s), w).0;
    forall j | 0 <= j < k ensures IsAck(ReplyAt(t.replies, j)) {
      ReplyAtDrop(s.replies, 1, j);
    }
    ReplyAtDrop(s.replies, 1, k);
    DataPhaseRefused(t, wbuf, 0, k);
    var u := DataPhase(t, wbuf, 0).0;
    CloseOutcome(u);
    assert Transacted(s, addr, nread, wbuf) == (Closed(u), SlaveNakData);
    assert wbuf[0..k] == wbuf[..k];
  }

  /** The read half, on an empty buffer, when the read address is refused: START and address, STOP,
      result -2. */
  lemma ReadPhaseRefused(s: Session, addr: Byte, nread: int, wrote: bool)
    requires s.pending == [] && nread != 0
    requires !IsAck(ReplyAt(s.replies, 0))
    ensures ReadPhase(s, addr, nread, wrote).1 == SlaveNakAddr
    ensures ReadPhase(s, addr, nread, wrote).0.pending == []
    ensures ReadPhase(s, addr, nread, wrote).0.log
            == s.log + Attempt(StartCommands(), AsByte(ReadAddress(addr))) + [StopEvent()]
  {
    var a := AsByte(ReadAddress(addr));
    StartedPending(s);
    SendLog(Started(s), a);
    var t := Sent(Started(s), a).0;
    CloseOutcome(t);
    assert ReadPhase(s, addr, nread, wrote) == (Closed(t), SlaveNakAddr);
  }

  /** The read half, on an empty buffer, when the read address is acknowledged (or nothing is read). */
  lemma ReadPhaseAcked(s: Session, addr: Byte, nread: int, wrote: bool)
    requires s.pending == []
    requires nread != 0 ==> IsAck(ReplyAt(s.replies, 0))
    ensures ReadPhase(s, addr, nread, wrote).1 == 0
    ensures ReadPhase(s, addr, nread, wrote).0.pending == []
    ensures nread > 0 ==> ReadPhase(s, addr, nread, wrote).0.input == Take(ReplyAt(s.replies, 1).data, nread)
    ensures ReadPhase(s, addr, nread, wrote).0.log == s.log + AckedReadPhase(addr, nread, wrote)
  {
    if nread != 0 {
      var a := AsByte(ReadAddress(addr));
      StartedPending(s);
      SendLog(Started(s), a);
      var t := Sent(Started(s), a).0;
      ReadBytesOutcome(t, nread);
      ReplyAtDrop(s.replies, 1, 0);
      var u := BytesRead(t, nread).0;
      CloseOutcome(u);
      assert ReadPhase(s, addr, nread, wrote) == (Closed(u), 0);
      if nread > 0 {
        assert s.log + Acked(StartCommands(), a) + [Wrote(Fill([], ReadCommands(nread))), Requested(nread)]
                 + [StopEvent()] == s.log + AckedReadPhase(addr, nread, wrote);
      } else {
        assert u == t;
        assert s.log + Acked(StartCommands(), a) + [StopEvent()] == s.log + AckedReadPhase(addr, nread, wrote);
      }
    } else if wrote {
      CloseOutcome(s);
      assert AckedReadPhase(addr, nread, wrote) == [StopEvent()];
    } else {
      assert AckedReadPhase(addr, nread, wrote) == [];
      assert s.log + [] == s.log;
    }
  }

  /** `ReadPhaseAcked` on a session whose log is `before + pre`. */
  lemma ReadPhaseAckedAfter(u: Session, addr: Byte, nread: int, before: seq<Event>, pre: seq<Event>)
    requires u.pending == [] && u.log == before + pre
    requires nread != 0 ==> IsAck(ReplyAt(u.replies, 0))
    ensures ReadPhase(u, addr, nread, true).1 == 0 && ReadPhase(u, addr, nread, true).0.pending == []
    ensures nread > 0 ==> ReadPhase(u, addr, nread, true).0.input == Take(ReplyAt(u.replies, 1).data, nread)
    ensures ReadPhase(u, addr, nread, true).0.log == before + (pre + AckedReadPhase(addr, nread, true))
  {
    ReadPhaseAcked(u, addr, nread, true);
    LogAssoc(before, pre, AckedReadPhase(addr, nread, true));
  }

  /** The state after a write phase started on `s`. */
  function WritePhaseState(s: Session, addr: Byte, wbuf: seq<Byte>): Session {
    DataPhase(Sent(Started(s), AsByte(WriteAddress(addr))).0, wbuf, 0).0
  }

  /** Once the write address and every data byte are acknowledged, the transaction is its read half
      run on the state the write phase leaves. */
  lemma WritePhaseThenRead(s: Session, addr: Byte, nread: int, wbuf: seq<Byte>)
    requires wbuf != [] && Sent(Started(s), AsByte(WriteAddress(addr))).1 == 0
    requires DataPhase(Sent(Started(s), AsByte(WriteAddress(addr))).0, wbuf, 0).1
    ensures Transacted(s, addr, nread, wbuf) == ReadPhase(WritePhaseState(s, addr, wbuf), addr, nread, true)
  {
  }

  /** The data loop on an empty buffer, after the first of the answers `replies` was used for the
      address, when the address and every data byte are acknowledged. */
  lemma DataAfterAddress(t: Session, wbuf: seq<Byte>, replies: seq<Reply>)
    requires t.pending == [] && t.replies == Drop(replies, 1)
    requires forall j :: 0 <= j <= |wbuf| ==> IsAck(ReplyAt(replies, j))
    ensures DataPhase(t, wbuf, 0).1 && DataPhase(t, wbuf, 0).0.pending == []
    ensures DataPhase(t, wbuf, 0).0.replies == Drop(replies, |wbuf| + 1)
    ensures DataPhase(t, wbuf, 0).0.log == t.log + AckedData(wbuf)
  {
    forall j | 0 <= j < |wbuf| ensures IsAck(ReplyAt(t.replies, j)) {
      ReplyAtDrop(replies, 1, j);
    }
    DataPhaseAcked(t, wbuf, 0);
    DropDrop(replies, 1, |wbuf|);
    assert wbuf[0..] == wbuf;
  }

  /** A write phase in which every byte is acknowledged leaves the buffer empty, uses `|wbuf| + 1`
      answers, and lets the transaction go on with the read half. */
  lemma AckedWritePhase(s: Session, addr: Byte, wbuf: seq<Byte>)
    requires s.pending == [] && wbuf != []
    requires forall j :: 0 <= j <= |wbuf| ==> IsAck(ReplyAt(s.replies, j))
    ensures WritePhaseState(s, addr, wbuf).pending == []
    ensures WritePhaseState(s, addr, wbuf).replies == Drop(s.replies, |wbuf| + 1)
    ensures WritePhaseState(s, addr, wbuf).log
            == s.log + Acked(StartCommands(), AsByte(WriteAddress(addr))) + AckedData(wbuf)
    ensures Sent(Started(s), AsByte(WriteAddress(addr))).1 == 0
    ensures DataPhase(Sent(Started(s), AsByte(WriteAddress(addr))).0, wbuf, 0).1
  {
    WriteAddressAcked(s, addr);
    DataAfterAddress(Sent(Started(s), AsByte(WriteAddress(addr))).0, wbuf, s.replies);
  }

  /** A write phase in which every byte is acknowledged, then a refused read address: the result is
      -2 and STOP follows the read address. */
  lemma TransactionReadAddressRefused(s: Session, addr: Byte, nread: int, wbuf: seq<Byte>)
    requires s.pending == [] && wbuf != [] && nread != 0
    requires forall j :: 0 <= j <= |wbuf| ==> IsAck(ReplyAt(s.replies, j))
    requires !IsAck(ReplyAt(s.replies, |wbuf| + 1))
    ensures Transacted(s, addr, nread, wbuf).1 == SlaveNakAddr
    ensures Transacted(s, addr, nread, wbuf).0.pending == []
    ensures Transacted(s, addr, nread, wbuf).0.log
            == s.log + (Acked(StartCommands(), AsByte(WriteAddress(addr))) + AckedData(wbuf))
                     + Attempt(StartCommands(), AsByte(ReadAddress(addr))) + [StopEvent()]
  {
    AckedWritePhase(s, addr, wbuf);
    WritePhaseThenRead(s, addr, nread, wbuf);
    ReplyAtDrop(s.replies, |wbuf| + 1, 0);
    ReadPhaseRefused(WritePhaseState(s, addr, wbuf), addr, nread, true);
    LogAssoc(s.log, Acked(StartCommands(), AsByte(WriteAddress(addr))), AckedData(wbuf));
  }

  /** The result, the buffer and the input bytes of a transaction whose write phase and read address
      are all acknowledged. */
  lemma AckedWriteTransactionResult(s: Session, addr: Byte, nread: int, wbuf: seq<Byte>)
    requires s.pending == [] && wbuf != []
    requires forall j :: 0 <= j <= |wbuf| ==> IsAck(ReplyAt(s.replies, j))
    requires nread != 0 ==> IsAck(ReplyAt(s.replies, |wbuf| + 1))
    ensures Transacted(s, addr, nread, wbuf).1 == 0 && Transacted(s, addr, nread, wbuf).0.pending == []
    ensures nread > 0 ==> Transacted(s, addr, nread, wbuf).0.input
                          == Take(ReplyAt(s.replies, |wbuf| + 2).data, nread)
  {
    AckedWritePhase(s, addr, wbuf);
    WritePhaseThenRead(s, addr, nread, wbuf);
    var u := WritePhaseState(s, addr, wbuf);
    ReplyAtDrop(s.replies, |wbuf| + 1, 0);
    ReplyAtDrop(s.replies, |wbuf| + 1, 1);
    ReadPhaseAcked(u, addr, nread, true);
  }

  /** The requests of a transaction whose write phase and read address are all acknowledged. */
  lemma AckedWriteTransactionLog(s: Session, addr: Byte, nread: int, wbuf: seq<Byte>)
    requires s.pending == [] && wbuf != []
    requires forall j :: 0 <= j <= |wbuf| ==> IsAck(ReplyAt(s.replies, j))
    requires nread != 0 ==> IsAck(ReplyAt(s.replies, |wbuf| + 1))
    ensures Transacted(s, addr, nread, wbuf).0.log == s.log + AckedTransaction(addr, nread, wbuf)
  {
    AckedWritePhase(s, addr, wbuf);
    WritePhaseThenRead(s, addr, nread, wbuf);
    var u := WritePhaseState(s, addr, wbuf);
    var pre := Acked(StartCommands(), AsByte(WriteAddress(addr))) + AckedData(wbuf);
    LogAssoc(s.log, Acked(StartCommands(), AsByte(WriteAddress(addr))), AckedData(wbuf));
    assert u.log == s.log + pre;
    ReplyAtDrop(s.replies, |wbuf| + 1, 0);
    assert nread != 0 ==> IsAck(ReplyAt(u.replies, 0));
    assert AckedTransaction(addr, nread, wbuf) == pre + AckedReadPhase(addr, nread, true);
    ReadPhaseAckedAfter(u, addr, nread, s.log, pre);
  }

  /** A transaction that only reads, with its read address acknowledged. */
  lemma AckedReadTransaction(s: Session, addr: Byte, nread: int)
    requires s.pending == []
    requires nread != 0 ==> IsAck(ReplyAt(s.replies, 0))
    ensures Transacted(s, addr, nread, []).1 == 0 && Transacted(s, addr, nread, []).0.pending == []
    ensures Transacted(s, addr, nread, []).0.log == s.log + AckedTransaction(addr, nread, [])
    ensures nread > 0 ==> Transacted(s, addr, nread, []).0.input == Take(ReplyAt(s.replies, 1).data, nread)
  {
    ReadPhaseAcked(s, addr, nread, false);
    assert AckedTransaction(addr, nread, []) == [] + AckedReadPhase(addr, nread, false);
  }

  /** A transaction in which every byte is acknowledged follows the reference transcript, returns 0
      and, when it reads, leaves the bytes of the read's answer (never more than asked for) in the
      input buffer. */
  lemma TransactionAcked(s: Session, addr: Byte, nread: int, wbuf: seq<Byte>)
    requires s.pending == []
    requires forall j :: 0 <= j <= |wbuf| && wbuf != [] ==> IsAck(ReplyAt(s.replies, j))
    requires nread != 0 ==> IsAck(ReplyAt(s.replies, if wbuf != [] then |wbuf| + 1 else 0))
    ensures Transacted(s, addr, nread, wbuf).1 == 0
    ensures Transacted(s, addr, nread, wbuf).0.pending == []
    ensures Transacted(s, addr, nread, wbuf).0.log == s.log + AckedTransaction(addr, nread, wbuf)
    ensures nread > 0 ==> Transacted(s, addr, nread, wbuf).0.input
                          == Take(ReplyAt(s.replies, (if wbuf != [] then |wbuf| + 1 else 0) + 1).data, nread)
  {
    if wbuf != [] {
      AckedWriteTransactionResult(s, addr, nread, wbuf);
      AckedWriteTransactionLog(s, addr, nread, wbuf);
    } else {
      AckedReadTransaction(s, addr, nread);
    }
  }

  /** The first data answer, among answers 1 .. n, that is not an acknowledge, counted from 0. */
  function FirstRefused(replies: seq<Reply>, n: nat): (k: nat)
    requires exists i :: 1 <= i <= n && !IsAck(ReplyAt(replies, i))
    ensures k < n && !IsAck(ReplyAt(replies, 1 + k))
    ensures forall j :: 1 <= j <= k ==> IsAck(ReplyAt(replies, j))
    decreases n
  {
    if exists i :: 1 <= i < n && !IsAck(ReplyAt(replies, i)) then FirstRefused(replies, n - 1)
    else n - 1
  }

  /** The result of a transaction is the code the answers call for: -2 for a refused address,
      -3 for a refused data byte, 0 otherwise. */
  lemma TransactionOutcome(s: Session, addr: Byte, nread: int, wbuf: seq<Byte>)
    requires s.pending == []
    ensures Transacted(s, addr, nread, wbuf).1 == ExpectedOutcome(s.replies, |wbuf|, nread)
  {
    var R := s.replies;
    if wbuf != [] && !IsAck(ReplyAt(R, 0)) {
      TransactionWriteAddressRefused(s, addr, nread, wbuf);
    } else if wbuf != [] && exists i :: 1 <= i <= |wbuf| && !IsAck(ReplyAt(R, i)) {
      var k := FirstRefused(R, |wbuf|);
      TransactionDataRefused(s, addr, nread, wbuf, k);
    } else if wbuf != [] && nread != 0 && !IsAck(ReplyAt(R, |wbuf| + 1)) {
      TransactionReadAddressRefused(s, addr, nread, wbuf);
    } else if wbuf == [] && nread != 0 && !IsAck(ReplyAt(R, 0)) {
      ReadPhaseRefused(s, addr, nread, false);
    } else {
      TransactionAcked(s, addr, nread, wbuf);
    }
  }

  // ---------------------------------------------------------------------------------------------
  // Lemmas: exactly one STOP

  /** No request in `events` is the STOP batch. */
  predicate NoStop(events: seq<Event>) {
    forall e :: e in events ==> e != StopEvent()
  }

  /** `after` extends `before` by requests of which only the last is the STOP batch. */
  predicate StopsOnce(before: seq<Event>, after: seq<Event>) {
    |after| > |before| && after[..|before|] == before &&
    after[|after| - 1] == StopEvent() && NoStop(after[|before|..|after| - 1])
  }

  lemma StopsOnceAfter(log: seq<Event>, body: seq<Event>)
    requires NoStop(body)
    ensures StopsOnce(log, log + body + [StopEvent()])
  {
    var after := log + body + [StopEvent()];
    assert after[..|log|] == log;
    assert after[|log|..|after| - 1] == body;
  }

  /** No batch of a send is the STOP batch, which is longer than either. */
  lemma AttemptNoStop(prefix: seq<Byte>, data: Byte)
    requires |prefix| == 0 || |prefix| == 360
    ensures NoStop(Attempt(prefix, data)) && NoStop(Acked(prefix, data))
  {
    StartStopLength();
    assert |prefix + SendCommands(data)| != 360;
    assert |ReleaseCommands()| != 360;
  }

  lemma {:induction false} AckedDataNoStop(data: seq<Byte>)
    ensures NoStop(AckedData(data))
    decreases |data|
  {
    if data != [] {
      AttemptNoStop([], data[0]);
      AckedDataNoStop(data[1..]);
    }
  }

  lemma NoStopJoin(a: seq<Event>, b: seq<Event>)
    requires NoStop(a) && NoStop(b)
    ensures NoStop(a + b)
  {
  }

  /** STOP after a refused write address is the only one. */
  lemma WriteAddressRefusedStopsOnce(s: Session, addr: Byte, nread: int, wbuf: seq<Byte>)
    requires s.pending == [] && wbuf != [] && !IsAck(ReplyAt(s.replies, 0))
    ensures StopsOnce(s.log, Transacted(s, addr, nread, wbuf).0.log)
  {
    TransactionWriteAddressRefused(s, addr, nread, wbuf);
    StartStopLength();
    AttemptNoStop(StartCommands(), AsByte(WriteAddress(addr)));
    StopsOnceAfter(s.log, Attempt(StartCommands(), AsByte(WriteAddress(addr))));
  }

  /** STOP after a refused data byte is the only one. */
  lemma DataRefusedStopsOnce(s: Session, addr: Byte, nread: int, wbuf: seq<Byte>, k: nat)
    requires s.pending == [] && k < |wbuf|
    requires IsAck(ReplyAt(s.replies, 0))
    requires forall j :: 1 <= j <= k ==> IsAck(ReplyAt(s.replies, j))
    requires !IsAck(ReplyAt(s.replies, 1 + k))
    ensures StopsOnce(s.log, Transacted(s, addr, nread, wbuf).0.log)
  {
    TransactionDataRefused(s, addr, nread, wbuf, k);
    var a := Acked(StartCommands(), AsByte(WriteAddress(addr)));
    var b := AckedData(wbuf[..k]);
    var c := Attempt([], wbuf[k]);
    StartStopLength();
    AttemptNoStop(StartCommands(), AsByte(WriteAddress(addr)));
    AckedDataNoStop(wbuf[..k]);
    AttemptNoStop([], wbuf[k]);
    NoStopJoin(a, b);
    NoStopJoin(a + b, c);
    LogAssoc(s.log, a, b);
    LogAssoc(s.log, a + b, c);
    StopsOnceAfter(s.log, a + b + c);
  }

  /** STOP after a refused read address, following an acknowledged write phase, is the only one. */
  lemma ReadAddressRefusedStopsOnce(s: Session, addr: Byte, nread: int, wbuf: seq<Byte>)
    requires s.pending == [] && wbuf != [] && nread != 0
    requires forall j :: 0 <= j <= |wbuf| ==> IsAck(ReplyAt(s.replies, j))
    requires !IsAck(ReplyAt(s.replies, |wbuf| + 1))
    ensures StopsOnce(s.log, Transacted(s, addr, nread, wbuf).0.log)
  {
    TransactionReadAddressRefused(s, addr, nread, wbuf);
    var a := Acked(StartCommands(), AsByte(WriteAddress(addr))) + AckedData(wbuf);
    var c := Attempt(StartCommands(), AsByte(ReadAddress(addr)));
    StartStopLength();
    AttemptNoStop(StartCommands(), AsByte(WriteAddress(addr)));
    AttemptNoStop(StartCommands(), AsByte(ReadAddress(addr)));
    AckedDataNoStop(wbuf);
    NoStopJoin(Acked(StartCommands(), AsByte(WriteAddress(addr))), AckedData(wbuf));
    NoStopJoin(a, c);
    LogAssoc(s.log, a, c);
    StopsOnceAfter(s.log, a + c);
  }

  /** STOP after a refused read address, with nothing written, is the only one. */
  lemma ReadOnlyRefusedStopsOnce(s: Session, addr: Byte, nread: int)
    requires s.pending == [] && nread != 0 && !IsAck(ReplyAt(s.replies, 0))
    ensures StopsOnce(s.log, Transacted(s, addr, nread, []).0.log)
  {
    ReadPhaseRefused(s, addr, nread, false);
    StartStopLength();
    AttemptNoStop(StartCommands(), AsByte(ReadAddress(addr)));
    StopsOnceAfter(s.log, Attempt(StartCommands(), AsByte(ReadAddress(addr))));
  }

  /** STOP at the end of a fully acknowledged transaction is the only one. */
  lemma AckedStopsOnce(s: Session, addr: Byte, nread: int, wbuf: seq<Byte>)
    requires s.pending == [] && (wbuf != [] || nread != 0)
    requires forall j :: 0 <= j <= |wbuf| && wbuf != [] ==> IsAck(ReplyAt(s.replies, j))
    requires nread != 0 ==> IsAck(ReplyAt(s.replies, if wbuf != [] then |wbuf| + 1 else 0))
    ensures StopsOnce(s.log, Transacted(s, addr, nread, wbuf).0.log)
  {
    TransactionAcked(s, addr, nread, wbuf);
    AckedTransactionStopsOnce(addr, nread, wbuf);
    var tr := AckedTransaction(addr, nread, wbuf);
    var body := tr[..|tr| - 1];
    assert tr == body + [StopEvent()];
    StopsOnceAfter(s.log, body);
    LogAssoc(s.log, body, [StopEvent()]);
  }

  /** Whatever the answers, a transaction that enters a phase (something to write or to read) and
      starts on an empty buffer ends with exactly one STOP: its last request is the STOP batch, no
      earlier request of it is, and the buffer is left empty. */
  lemma TransactionStopsOnce(s: Session, addr: Byte, nread: int, wbuf: seq<Byte>)
    requires s.pending == [] && (wbuf != [] || nread != 0)
    ensures StopsOnce(s.log, Transacted(s, addr, nread, wbuf).0.log)
    ensures Transacted(s, addr, nread, wbuf).0.pending == []
  {
    var R := s.replies;
    if wbuf != [] && !IsAck(ReplyAt(R, 0)) {
      WriteAddressRefusedStopsOnce(s, addr, nread, wbuf);
      TransactionWriteAddressRefused(s, addr, nread, wbuf);
    } else if wbuf != [] && exists i :: 1 <= i <= |wbuf| && !IsAck(ReplyAt(R, i)) {
      var k := FirstRefused(R, |wbuf|);
      DataRefusedStopsOnce(s, addr, nread, wbuf, k);
      TransactionDataRefused(s, addr, nread, wbuf, k);
    } else if wbuf != [] && nread != 0 && !IsAck(ReplyAt(R, |wbuf| + 1)) {
      ReadAddressRefusedStopsOnce(s, addr, nread, wbuf);
      TransactionReadAddressRefused(s, addr, nread, wbuf);
    } else if wbuf == [] && !IsAck(ReplyAt(R, 0)) {
      ReadOnlyRefusedStopsOnce(s, addr, nread);
      ReadPhaseRefused(s, addr, nread, false);
    } else {
      AckedStopsOnce(s, addr, nread, wbuf);
      TransactionAcked(s, addr, nread, wbuf);
    }
  }

  /** The reference transcript of a transaction that does something ends with its only STOP. */
  lemma AckedTransactionStopsOnce(addr: Byte, nread: int, wbuf: seq<Byte>)
    requires wbuf != [] || nread != 0
    ensures var tr := AckedTransaction(addr, nread, wbuf);
            |tr| > 0 && tr[|tr| - 1] == StopEvent() && NoStop(tr[..|tr| - 1])
  {
    StartStopLength();
    var w := AsByte(WriteAddress(addr));
    var a := AsByte(ReadAddress(addr));
    AttemptNoStop(StartCommands(), w);
    AttemptNoStop(StartCommands(), a);
    AckedDataNoStop(wbuf);
    var p1 := if wbuf != [] then Acked(StartCommands(), w) + AckedData(wbuf) else [];
    var p2 := if nread != 0 then Acked(StartCommands(), a) else [];
    var p3 := if nread > 0 then [Wrote(Fill([], ReadCommands(nread))), Requested(nread)] else [];
    if nread > 0 {
      ReadCommandsLayout(nread);
      FillBounds([], ReadCommands(nread));
      assert |Fill([], ReadCommands(nread))| != 360;
    }
    NoStopJoin(p1, p2);
    NoStopJoin(p1 + p2, p3);
    var tr := AckedTransaction(addr, nread, wbuf);
    assert tr == p1 + p2 + p3 + [StopEvent()];
    assert tr[..|tr| - 1] == p1 + p2 + p3;
  }

  // ---------------------------------------------------------------------------------------------
  // Lemmas: the bus scan

  /** The addresses below `count` whose answer is an acknowledge, in increasing order. */
  function Responders(replies: seq<Reply>, count: nat): seq<Byte>
    requires count <= 0x80
  {
    if count == 0 then []
    else Responders(replies, count - 1) + (if IsAck(ReplyAt(replies, count - 1)) then [count - 1] else [])
  }

  /** `Responders` holds exactly the acknowledged addresses below `count`, each once, in increasing
      order. */
  lemma {:induction false} RespondersSpec(replies: seq<Reply>, count: nat)
    requires count <= 0x80
    ensures forall a: Byte :: a in Responders(replies, count) <==> a < count && IsAck(ReplyAt(replies, a))
    ensures forall i, j :: 0 <= i < j < |Responders(replies, count)| ==>
              Responders(replies, count)[i] < Responders(replies, count)[j]
    ensures forall i :: 0 <= i < |Responders(replies, count)| ==> Responders(replies, count)[i] < count
  {
    if count > 0 {
      RespondersSpec(replies, count - 1);
    }
  }

  /** One round of the scan on an empty buffer: START, the address with read bit, STOP, one answer
      used; the address counts as found exactly when that answer is an acknowledge. */
  lemma ProbeRound(t: Session, a: Byte)
    requires t.pending == []
    ensures Sent(Started(t), AsByte(ReadAddress(a))).1 == 0 <==> IsAck(ReplyAt(t.replies, 0))
    ensures Closed(Sent(Started(t), AsByte(ReadAddress(a))).0).pending == []
    ensures Closed(Sent(Started(t), AsByte(ReadAddress(a))).0).replies == Drop(t.replies, 1)
    ensures Closed(Sent(Started(t), AsByte(ReadAddress(a))).0).log
            == t.log + Probe(a, IsAck(ReplyAt(t.replies, 0)))
  {
    var x := AsByte(ReadAddress(a));
    StartedPending(t);
    SendLog(Started(t), x);
    CloseOutcome(Sent(Started(t), x).0);
    var ack := IsAck(ReplyAt(t.replies, 0));
    LogAssoc(t.log, if ack then Acked(StartCommands(), x) else Attempt(StartCommands(), x), [StopEvent()]);
  }

  /** The first `count` rounds of the scan, from an empty buffer: round `a` probes address `a` alone
      with START, address with read bit and STOP, and uses answer `a`; the scan reports the
      acknowledged addresses. */
  lemma {:induction false} ScanReports(s: Session, count: nat)
    requires s.pending == [] && count <= 0x7F
    ensures Scanned(s, count).0.pending == []
    ensures Scanned(s, count).0.replies == Drop(s.replies, count)
    ensures Scanned(s, count).0.log == s.log + ScanTranscript(s.replies, count)
    ensures Scanned(s, count).1 == Responders(s.replies, count)
  {
    if count > 0 {
      ScanReports(s, count - 1);
      var t := Scanned(s, count - 1).0;
      ScannedStep(s, count - 1);
      ProbeRound(t, count - 1);
      ReplyAtDrop(s.replies, count - 1, 0);
      DropDrop(s.replies, count - 1, 1);
      LogAssoc(s.log, ScanTranscript(s.replies, count - 1), Probe(count - 1, IsAck(ReplyAt(s.replies, count - 1))));
    } else {
      assert s.log + [] == s.log;
    }
  }

  /** Below `count`, when only address 0x3C answers, it is the one responder once the scan has passed it. */
  lemma {:induction false} OnlyResponder(replies: seq<Reply>, count: nat)
    requires count <= 0x7F
    requires forall a :: 0 <= a < 0x7F ==> (IsAck(ReplyAt(replies, a)) <==> a == 0x3C)
    ensures Responders(replies, count) == if count > 0x3C then [0x3C] else []
  {
    if count > 0 {
      OnlyResponder(replies, count - 1);
    }
  }

  /** The bus scan covers addresses 0 .. 0x7E: with answers that acknowledge only round 0x3C, it
      reports 0x3C alone. */
  lemma ScanFindsOnlyResponder(s: Session)
    requires s.pending == []
    requires forall a :: 0 <= a < 0x7F ==> (IsAck(ReplyAt(s.replies, a)) <==> a == 0x3C)
    ensures Scanned(s, 0x7F).1 == [0x3C]
  {
    ScanReports(s, 0x7F);
    OnlyResponder(s.replies, 0x7F);
  }
}
