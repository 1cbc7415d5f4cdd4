/** The D2XX driver calls the I2C code depends on, `FT_Write` and `FT_Read`, as a stub: every write
    and every read request is logged, and each answer is the next one of a sequence fixed in advance.
    When the answers run out, a write succeeds and a read returns FT_OK with no bytes, as a read
    that times out does. */
module Transport {
  import opened Mpsse

  /** `FT_OK`. */
  const FtOk: int := 0

  /** The answer to one `FT_Read`: its status and the bytes the device returned. */
  datatype Reply = Reply(status: int, data: seq<Byte>)

  /** What the I2C code asked of the device: one `FT_Write` of a batch, or one `FT_Read` of `count` bytes. */
  datatype Event = Wrote(batch: seq<Byte>) | Requested(count: int)

  /** The answer with index `k`; past the end, a read that timed out. */
  function ReplyAt(replies: seq<Reply>, k: nat): Reply {
    if k < |replies| then replies[k] else Reply(FtOk, [])
  }

  /** The status of the next `FT_Write`. */
  function NextStatus(statuses: seq<int>): int {
    if statuses == [] then FtOk else statuses[0]
  }

  /** The answers left once `k` have been used. */
  function Drop<T>(xs: seq<T>, k: nat): seq<T> {
    if k <= |xs| then xs[k..] else []
  }

  /** At most the first `n` of `data`: a read never returns more bytes than it asked for. */
  function Take(data: seq<Byte>, n: nat): seq<Byte> {
    if |data| <= n then data else data[..n]
  }

  /** Using `j` answers after `k` is using `k + j` answers. */
  lemma DropDrop<T>(xs: seq<T>, k: nat, j: nat)
    ensures Drop(Drop(xs, k), j) == Drop(xs, k + j)
  {
  }

  /** The answer at `j` after `k` have been used is the answer at `k + j`. */
  lemma ReplyAtDrop(replies: seq<Reply>, k: nat, j: nat)
    ensures ReplyAt(Drop(replies, k), j) == ReplyAt(replies, k + j)
  {
  }

  class Device {
    /** Every request the I2C code made, in order. */
    var log: seq<Event>
    /** The statuses the next writes return. */
    var writeStatuses: seq<int>
    /** The answers the next reads return. */
    var replies: seq<Reply>

    constructor (writeStatuses: seq<int>, replies: seq<Reply>)
      ensures log == [] && this.writeStatuses == writeStatuses && this.replies == replies
    {
      log := [];
      this.writeStatuses := writeStatuses;
      this.replies := replies;
    }

    /** `FT_Write(handle, batch, |batch|, &sent)`. */
    method Write(batch: seq<Byte>) returns (status: int)
      modifies this
      ensures status == NextStatus(old(writeStatuses))
      ensures log == old(log) + [Wrote(batch)]
      ensures writeStatuses == Drop(old(writeStatuses), 1) && replies == old(replies)
    {
      status := NextStatus(writeStatuses);
      log := log + [Wrote(batch)];
      writeStatuses := Drop(writeStatuses, 1);
    }

    /** `FT_Read(handle, buffer, count, &received)`: the status and the bytes received, never more
        than `count`. */
    method Read(count: nat) returns (status: int, data: seq<Byte>)
      modifies this
      ensures status == ReplyAt(old(replies), 0).status
      ensures data == Take(ReplyAt(old(replies), 0).data, count) && |data| <= count
      ensures log == old(log) + [Requested(count)]
      ensures replies == Drop(old(replies), 1) && writeStatuses == old(writeStatuses)
    {
      var reply := ReplyAt(replies, 0);
      status := reply.status;
      data := Take(reply.data, count);
      log := log + [Requested(count)];
      replies := Drop(replies, 1);
    }
  }
}
