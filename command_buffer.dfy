/** The contents of the 1024-byte command buffer as a sequence, and what appending does to it.
    `append` refuses a byte once 1023 are stored, so a run of appends keeps the longest prefix of
    the bytes that fits; the callers never look at `append`'s result, so the rest is dropped. */
module CommandBuffer {
  import opened Mpsse

  /** `sizeof(outputBuffer)`. */
  const BufferSize: nat := 1024

  /** The most bytes `append` ever stores: it refuses once `outputSize >= sizeof(outputBuffer) - 1`. */
  const Capacity: nat := BufferSize - 1

  /** One `append(x)` on buffer contents `c`. */
  function AppendByte(c: seq<Byte>, x: Byte): seq<Byte> {
    if |c| >= Capacity then c else c + [x]
  }

  /** The contents after appending every byte of `s`, in order, to contents `c`. */
  function Fill(c: seq<Byte>, s: seq<Byte>): seq<Byte> {
    if |c| >= Capacity then c
    else if |c| + |s| <= Capacity then c + s
    else (c + s)[..Capacity]
  }

  /** Filling with `s + [x]` is filling with `s`, then one `append(x)`: `Fill` is the byte-by-byte
      behaviour of `append`. */
  lemma FillStep(c: seq<Byte>, s: seq<Byte>, x: Byte)
    ensures Fill(c, s + [x]) == AppendByte(Fill(c, s), x)
  {
    if |c| < Capacity && |c| + |s| >= Capacity {
      assert (c + (s + [x]))[..Capacity] == (c + s)[..Capacity];
    }
  }

  /** Filling with nothing leaves the contents alone. */
  lemma FillEmpty(c: seq<Byte>)
    ensures Fill(c, []) == c
  {
    assert c + [] == c;
  }

  /** Two fills in a row are one fill with both sequences. */
  lemma FillFill(c: seq<Byte>, s: seq<Byte>, t: seq<Byte>)
    ensures Fill(Fill(c, s), t) == Fill(c, s + t)
  {
    assert c + s + t == c + (s + t);
    if |c| < Capacity && |c| + |s| > Capacity {
      assert (c + s)[..Capacity] + t == (c + s + t)[..Capacity] + t;
    }
  }

  /** One `append` call. */
  lemma FillOneByte(c: seq<Byte>, x: Byte)
    ensures Fill(c, [x]) == AppendByte(c, x)
  {
    FillEmpty(c);
    FillStep(c, [], x);
  }

  /** Three `append` calls in a row. */
  lemma FillThreeBytes(c: seq<Byte>, x: Byte, y: Byte, z: Byte)
    ensures Fill(c, [x, y, z]) == AppendByte(AppendByte(AppendByte(c, x), y), z)
  {
    FillEmpty(c);
    FillStep(c, [], x);
    FillStep(c, [x], y);
    FillStep(c, [x, y], z);
  }

  /** Four `append` calls in a row. */
  lemma FillFourBytes(c: seq<Byte>, w: Byte, x: Byte, y: Byte, z: Byte)
    ensures Fill(c, [w, x, y, z]) == AppendByte(AppendByte(AppendByte(AppendByte(c, w), x), y), z)
  {
    FillThreeBytes(c, w, x, y);
    FillStep(c, [w, x, y], z);
    assert [w, x, y] + [z] == [w, x, y, z];
  }

  /** The six bytes `read_bytes` queues for byte `i` are two runs of three `append` calls. */
  lemma ReadGroupQueued(c: seq<Byte>, i: nat, count: nat)
    ensures Fill(c, ReadGroup(i, count)) ==
            Fill(Fill(c, [ClockByteInMsbFalling, 0x00, 0x00]), [ClockBitOutMsbFalling, 0x00, ReadGroup(i, count)[5]])
  {
    FillFill(c, [ClockByteInMsbFalling, 0x00, 0x00], [ClockBitOutMsbFalling, 0x00, ReadGroup(i, count)[5]]);
    assert [ClockByteInMsbFalling, 0x00, 0x00] + [ClockBitOutMsbFalling, 0x00, ReadGroup(i, count)[5]] == ReadGroup(i, count);
  }

  /** One more round of `read_bytes`' loop is six `append` calls. */
  lemma ReadGroupsStep(c: seq<Byte>, count: nat, i: nat)
    ensures Fill(c, ReadGroups(count, i + 1)) ==
            AppendByte(AppendByte(AppendByte(AppendByte(AppendByte(AppendByte(Fill(c, ReadGroups(count, i)),
              ClockByteInMsbFalling), 0x00), 0x00), ClockBitOutMsbFalling), 0x00),
              if i == count - 1 then MasterNak else MasterAck)
  {
    var p1 := Fill(c, ReadGroups(count, i));
    FillFill(c, ReadGroups(count, i), ReadGroup(i, count));
    ReadGroupQueued(p1, i, count);
    FillThreeBytes(p1, ClockByteInMsbFalling, 0x00, 0x00);
    FillThreeBytes(Fill(p1, [ClockByteInMsbFalling, 0x00, 0x00]), ClockBitOutMsbFalling, 0x00, ReadGroup(i, count)[5]);
  }

  /** Six `append` calls in a row. */
  lemma FillSixBytes(c: seq<Byte>, a: Byte, b: Byte, d: Byte, w: Byte, x: Byte, y: Byte)
    ensures Fill(c, [a, b, d, w, x, y]) ==
            AppendByte(AppendByte(AppendByte(AppendByte(AppendByte(AppendByte(c, a), b), d), w), x), y)
  {
    FillThreeBytes(c, a, b, d);
    FillThreeBytes(Fill(c, [a, b, d]), w, x, y);
    FillFill(c, [a, b, d], [w, x, y]);
    assert [a, b, d] + [w, x, y] == [a, b, d, w, x, y];
  }

  /** Filling with three parts one after the other is filling with all three at once. */
  lemma FillParts(c: seq<Byte>, a: seq<Byte>, b: seq<Byte>, d: seq<Byte>)
    ensures Fill(Fill(Fill(c, a), b), d) == Fill(c, a + b + d)
  {
    FillFill(c, a, b);
    FillFill(c, a + b, d);
  }

  /** Appending never grows the contents past the capacity, never changes a stored byte, and stores
      all of `s` exactly when it fits. */
  lemma FillBounds(c: seq<Byte>, s: seq<Byte>)
    requires |c| <= Capacity
    ensures |Fill(c, s)| <= Capacity
    ensures c <= Fill(c, s) <= c + s
    ensures Fill(c, s) == c + s <==> |c| + |s| <= Capacity
  {
  }

  /** Bytes that fit, appended to an empty buffer, are stored unchanged. */
  lemma FillIntoEmpty(s: seq<Byte>)
    requires |s| <= Capacity
    ensures Fill([], s) == s
  {
    assert [] + s == s;
  }

  /** Appending something to any contents leaves a non-empty buffer. */
  lemma FillNonEmpty(c: seq<Byte>, s: seq<Byte>)
    requires s != []
    ensures Fill(c, s) != []
  {
  }

  /** A read of `count > 0` bytes, queued on an empty buffer, is stored in full exactly when
      `count <= 170`. */
  lemma ReadCommandsFit(count: nat)
    requires count > 0
    ensures Fill([], ReadCommands(count)) == ReadCommands(count) <==> count <= 170
  {
    ReadCommandsLayout(count);
    FillBounds([], ReadCommands(count));
  }
}
