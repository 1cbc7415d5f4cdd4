# Software I2C master over an FTDI MPSSE engine

`i2c.c` drives an I2C bus from a PC through the MPSSE command processor of an FTDI chip.
The chip's low pins carry SCL (ADBUS0), SDA out (ADBUS1) and SDA in (ADBUS2). The program:

- queues MPSSE opcodes into a 1024-byte command buffer;
- writes the buffer to the chip in one `FT_Write`;
- reads back the bits and bytes the chip sampled with `FT_Read`.

The building blocks are these:

- START and STOP are bit-banged with `set_bits`. Each bus level is held for 40 identical pin
  commands.
- A byte is sent by clocking it out and then clocking in the slave's acknowledge bit. One byte is
  read back for that bit.
- A read clocks in `n` bytes. The master acknowledges each byte except the last.

On top of these, `i2c_transaction` runs one write phase and then one read phase behind a repeated
START, and `main` can scan the bus for addresses that answer.

This project models that core in Dafny. It has six modules:

- `Mpsse` (mpsse.dfy) holds the byte values, opcodes and pins, and the command sequence each
  primitive queues. It also holds the address macros, the `-a` address mask and the clock divisor.
  Its lemmas say that what `i2c_start_bk` and `i2c_stop_bk` queue is, pin level by pin level, a
  START and a STOP condition in the sense of section 3.1.4 of the I2C-bus specification UM10204.
- `CommandBuffer` (command_buffer.dfy) is what `append` does to the buffer contents. A byte is
  refused once 1023 are stored. The callers never look at the result of `append`, so a run of
  appends keeps the longest prefix that fits and silently drops the rest.
- `Transport` (transport.dfy) is the D2XX driver as a stub. `Device` logs every `FT_Write` batch
  and every `FT_Read` request. It answers from sequences of write statuses and read replies that
  are fixed in advance, so every lemma holds for every behaviour of the device.
- `I2cModel` (i2c_model.dfy) is each C operation as a function on a `Session` value. A session
  holds the buffer contents, `ftStatus`, the bytes of the last read, and the device's log and
  pending answers. The lemmas about transactions and the bus scan live here, stated for every
  sequence of answers.
- `I2c` (i2c.dfy) is the running code: class `Master` has the global buffer as an `array`, plus
  `outputSize`, `ftStatus` and the read bytes. Each method has the C function's loops and early
  returns. Each is proved to leave exactly the state that the matching `I2cModel` function
  computes, so the model's lemmas hold of the methods.
- `StrSep` (strsep.dfy) is `mystrsep` on a character array. A pointer into the array is modelled
  as an index, and NULL as `None`.

The following behaviours of the code are modelled as written:

- `i2c_send_bk` returns -2 when the acknowledge read fails or returns nothing. Every caller tests
  `!= 0`, so a failed read counts as a refusal, the same as a NAK.
- `read_bytes` ignores the status and the byte count of its `FT_Read`, and returns 0.
- The results of `append` are never checked. A batch of more than 1023 bytes queued between two
  `execute` calls loses its tail. Only a read of more than 170 bytes queues one
  (`ReadCommandsFit`); a long write does not, since `i2c_send_bk` executes after every byte.
- `ftdi_configure_i2c` queues DISABLE_CLK_DIV_5 (0x8A) twice, where its comment announces
  "disable adaptive clocking". DISABLE_ADAPTIVE_CLK (0x97) is never sent (`ConfigBatchContents`).
- The bus scan probes addresses 0 to 0x7E. Address 0x7F is never probed.
- `set_bits` always drives SDA_OUT|SCL as outputs. The open-drain mode enabled by 0x9E does the
  rest.

## Model

| member | source | states |
|---|---|---|
| Mpsse.AddressBytes | i2c.c:44-45 | for a 7-bit address, WRITE and READ fit in a byte, carry the address in bits 7..1, and differ only in bit 0 (write 0, read 1) |
| Mpsse.MaskAddress | i2c.c:575-576 | the cast to `unsigned char` then `& 0x7F` gives the parsed value modulo 128, always below 0x80 |
| Mpsse.ClockDivisor | i2c.c:317-322 | 400 kHz selects a divisor, every other speed another; both fit in 16 bits; 60 MHz / ((1 + d) * 2) gives 400 kHz and 100 kHz respectively |
| Mpsse.DivisorBytes | i2c.c:392-394 | the two SET_CLK_DIV operands are the divisor little-endian: low + 256 * high == divisor |
| Mpsse.ConfigBatchContents | i2c.c:369-408 | the set-up is four batches; the first is 0x8A, 0x8A, 0x8C; the second sets both lines high and programs the divisor low byte first; no batch holds 0x97 |
| Mpsse.ReadCommandsLayout | i2c.c:271-292 | a read of `count` bytes queues `count` six-byte groups and a final SEND_IMMEDIATE; the answer bit acknowledges every byte but the last, which gets a NAK |
| Mpsse.StartIsStartCondition | i2c.c:184-200 | for any positive repeat count, START is a stream of pin commands only, 9 bytes per repeat, whose levels form a START condition: idle bus, SDA falls while SCL is high, SCL falls after SDA |
| Mpsse.StopIsStopCondition | i2c.c:203-219 | for any positive repeat count, STOP is a stream of pin commands only, 9 bytes per repeat, whose levels form a STOP condition: SCL rises while SDA is low, SDA rises while SCL is high, idle bus at the end |
| Mpsse.StartStopLength | i2c.c:184-219 | with 40 repeats, START and STOP queue 360 bytes each |
| CommandBuffer.FillStep | i2c.c:135-143 | filling with `s + [x]` is filling with `s` and then one `append(x)`, which stores `x` exactly when fewer than 1023 bytes are queued |
| CommandBuffer.FillFill | i2c.c:135-143 | two runs of appends are one run of their concatenation |
| CommandBuffer.FillBounds | i2c.c:135-143 | appends never push the contents past 1023 bytes and never change a stored byte; the contents gain a prefix of the bytes, and all of them exactly when they fit |
| CommandBuffer.ReadCommandsFit | i2c.c:264-295 | on an empty buffer, the whole read stream is stored exactly when `count <= 170` |
| Transport.Device.Write | i2c.c:157 | `FT_Write` logs the batch and returns the next write status; the read replies are untouched |
| Transport.Device.Read | i2c.c:246 | `FT_Read` logs the request and returns the next reply's status and at most `count` of its bytes |
| I2cModel.AppendedTwice | i2c.c:135-143 | queuing `a` then `b` is queuing `a + b` |
| I2cModel.ExecuteOutcome | i2c.c:152-160 | `execute` on an empty buffer changes nothing and returns 0; otherwise it logs exactly one write of the whole buffer, returns that write's status and leaves the buffer empty |
| I2cModel.SendOutcome | i2c.c:222-261 | a send writes the queued bytes and the send commands in one batch and reads one reply; the result is 0 exactly on an acknowledge (and then SDA is driven in a second write), -1 exactly on a NAK, -2 exactly when the read failed or was empty |
| I2cModel.SendLog | i2c.c:222-261 | on a buffer with room, a send returns 0 exactly on an acknowledge, consumes one reply, and logs the attempt, plus the release write when acknowledged |
| I2cModel.ReadBytesOutcome | i2c.c:264-299 | `count <= 0` changes nothing and returns -1; otherwise one write of the read stream and one read of `count` bytes, whose bytes (at most `count`) are kept, and 0 whatever the read returned |
| I2cModel.CloseOutcome | i2c.c:486-491 | STOP plus `execute` on an empty buffer is one write of exactly the STOP stream |
| I2cModel.ConfigureTranscript | i2c.c:369-410 | configuring on an empty buffer logs the four set-up batches, in order, and nothing else |
| I2cModel.TransactionIdle | i2c.c:418-492 | nothing to write and nothing to read: no request at all, result 0 |
| I2cModel.TransactionWriteAddressRefused | i2c.c:418-432 | a refused write address gives START with the address, the answer read, STOP, and -2; no data byte is sent |
| I2cModel.FirstRefused | i2c.c:440-447 | the first data byte whose answer is not an acknowledge |
| I2cModel.TransactionDataRefused | i2c.c:440-447 | when data byte `k` is the first refused, the bytes before it are sent and acknowledged, byte `k` is attempted, then STOP and -3; there is no read phase |
| I2cModel.ReadPhaseRefused | i2c.c:455-469 | a refused read address gives (repeated) START with the read address, STOP, and -2 |
| I2cModel.TransactionReadAddressRefused | i2c.c:418-469 | every write byte acknowledged and the read address refused: write phase, read-address attempt, STOP, -2 |
| I2cModel.ReadPhaseAcked | i2c.c:455-491 | with an acknowledged read address, the read half logs the address, the read and STOP, returns 0 and keeps at most `nread` bytes of the next reply |
| I2cModel.TransactionAcked | i2c.c:414-493 | when every answer is an acknowledge, a transaction logs exactly the reference transcript, returns 0, leaves the buffer empty and holds the reply bytes of its read |
| I2cModel.TransactionOutcome | i2c.c:414-493 | for every sequence of answers, the result is -2 for a refused write or read address, -3 for a refused data byte, and 0 otherwise |
| I2cModel.TransactionStopsOnce | i2c.c:414-493 | for every sequence of answers, a transaction with something to write or read ends with a STOP write, and no earlier request of it is a STOP |
| I2cModel.AckedTransactionStopsOnce | i2c.c:455-491 | the reference transcript ends with its only STOP |
| I2cModel.RespondersSpec | i2c.c:660-674 | the reported list holds exactly the acknowledged addresses below the bound, each once and in increasing order |
| I2cModel.ProbeRound | i2c.c:662-673 | one scan round is START, read address, STOP, using one answer; the address counts as found exactly on an acknowledge |
| I2cModel.ScanReports | i2c.c:660-674 | the first `count` scan rounds log one probe per address in order, use one answer each, and report exactly the responders |
| I2cModel.ScanFindsOnlyResponder | i2c.c:660-674 | when only address 0x3C acknowledges, the full scan reports just 0x3C |
| StrSep.Scan | i2c.c:536 | `strpbrk` as an index: the first NUL or delimiter at or after the start, with none before it |
| StrSep.SplitJoins | i2c.c:538-543 | cutting at the delimiter splits the original string into the token, the delimiter and the rest, nothing lost |
| StrSep.Separate | i2c.c:531-546 | returns the start; NULL in gives NULL out and no change; at the end of the string the next pointer is NULL and nothing changes; at a delimiter only that character becomes NUL and the next pointer follows it; the token is the characters up to the first delimiter |
| I2c.Master.constructor | i2c.c:94-102 | an empty command buffer on an opened device |
| I2c.Master.Append | i2c.c:135-143 | -1 and no change once 1023 bytes are queued; otherwise the byte is queued and the result is 0; status and input are unchanged |
| I2c.Master.Flush | i2c.c:146-149 | empties the buffer and changes nothing else |
| I2c.Master.Execute | i2c.c:152-160 | the new state and the result are those of `ExecuteOutcome` |
| I2c.Master.SetBits | i2c.c:163-181 | queues SET_BITS_LOW_BYTE, the level and SDA_OUT\|SCL, subject to the buffer limit |
| I2c.Master.Start | i2c.c:184-200 | the buffer gains the START stream of `StartIsStartCondition` |
| I2c.Master.Stop | i2c.c:203-219 | the buffer gains the STOP stream of `StopIsStopCondition` |
| I2c.Master.Send | i2c.c:222-261 | the new state and the result are those of `SendOutcome` |
| I2c.Master.QueueReads | i2c.c:271-292 | the buffer gains the `count` six-byte groups of `ReadCommandsLayout` |
| I2c.Master.ReadBytes | i2c.c:264-299 | the new state and the result are those of `ReadBytesOutcome` |
| I2c.Master.Transaction | i2c.c:414-493 | the new state and the result are those of `TransactionOutcome`, `TransactionAcked` and `TransactionStopsOnce` |
| I2c.Master.BusScan | i2c.c:660-674 | the new state and the found addresses are those of `ScanReports` |
| I2c.Master.Configure | i2c.c:369-410 | the new state is that of `ConfigureTranscript` |

## Left out

- Device enumeration, opening and closing are not modelled, and neither are the driver set-up calls
  before the MPSSE commands. These are `scan_devices`, `FT_OpenEx`, `FT_ResetDevice`, the purge
  through `FT_GetQueueStatus`/`FT_Read`, `FT_SetUSBParameters`, `FT_SetChars`, `FT_SetTimeouts`,
  `FT_SetLatencyTimer`, `FT_SetBitMode` and `FT_Close`. They are driver calls
  outside the I2C logic, so `Configure` starts at the first `append`.
- Timing is not modelled: the 40 repeats are counted as commands, not as time.
- Output is not modelled: `fprintf`, `dump_hex`, `usage` and the verbose messages. The scan's
  "ACKed" lines are the `found` list, and the bytes `dump_hex` prints are the input state.
- Argument parsing with `getopt` and `strtoul` is not modelled. `MaskAddress` takes the parsed
  value as a `nat`, and `Transaction` takes the data bytes as a `seq<Byte>`.
- The tokenising loop in `main` around `mystrsep` is not modelled, including the doubling
  `realloc` of `wbuf`. It is memory management; only `mystrsep` itself is modelled.
- `inputBuffer` is the sequence of bytes the last read returned, not a fixed 1024-byte array. The
  C code would overflow that array on a read of more than 1024 bytes; the stub never returns more
  bytes than asked for.
- The 40 held pin commands are a `Hold` constant, not a local variable initialised in each function.
- I2c.Master.QueueReads: the loop of `read_bytes` is its own method. Its two-branch choice of the
  answer bit (0x80 for the last byte, 0x00 otherwise) is one `append` of the chosen value. Neither
  changes which bytes are queued.
- StrSep.Separate: `*stringp` is a returned index rather than a pointer that is written through,
  and the NUL-terminated argument is an array with a NUL at or after the start.
