/**
 * publish_get_payload: read the payload of an inbound PUBLISH into payload_buf,
 * calling the library's read function until `length` bytes have arrived. The
 * library's answers (and the poll that follows a would-block answer) are inputs,
 * one per call, in call order.
 */
module Payload {
  import opened Bytes
  import opened Mqtt

  /** One answer of mqtt_read_publish_payload. */
  datatype ReadReply =
    | Got(bytes: seq<byte>)                   // ret == |bytes| >= 0: the bytes written at buf
    | WouldBlock(pollRet: int, pollIn: bool)  // ret == -EAGAIN; then poll returned pollRet, POLLIN set or not
    | Failed(err: Errno)                      // any other negative ret

  /** What the function returns; `Waiting` when the answers given run out before it does. */
  datatype Status = Ok | Err(err: Errno) | Waiting

  /** The status, and the bytes placed at the start of payload_buf by then. */
  datatype Fetch = Fetch(status: Status, bytes: seq<byte>)

  /** All the bytes a sequence of answers hands over, in order. */
  function Delivered(replies: seq<ReadReply>): (d: seq<byte>)
  {
    if replies == [] then []
    else (if replies[0].Got? then replies[0].bytes else []) + Delivered(replies[1..])
  }

  /**
   * The read loop from `got` bytes on. The library never hands over more bytes than
   * the message holds, so what has been read plus what is still to come is at most
   * `length`.
   */
  function ReadLoop(replies: seq<ReadReply>, length: nat, got: seq<byte>): (r: Fetch)
    requires |got| + |Delivered(replies)| <= length
    ensures got <= r.bytes && r.bytes <= got + Delivered(replies)
    ensures |r.bytes| <= length
    decreases |replies|
  {
    if |got| >= length then Fetch(Ok, got)
    else if replies == [] then Fetch(Waiting, got)
    else match replies[0]
      case Got(b) => if b == [] then Fetch(Err(EIO), got) else ReadLoop(replies[1..], length, got + b)
      case WouldBlock(p, pollIn) => if p > 0 && pollIn then ReadLoop(replies[1..], length, got) else Fetch(Err(EIO), got)
      case Failed(e) => Fetch(Err(e), got)
  }

  /** The whole function, for a buffer of `capacity` bytes. */
  function FetchPayload(replies: seq<ReadReply>, length: nat, capacity: nat): (r: Fetch)
    requires |Delivered(replies)| <= length
    ensures length > capacity ==> r == Fetch(Err(EMSGSIZE), [])
    ensures r.bytes <= Delivered(replies) && |r.bytes| <= length
  {
    if length > capacity then Fetch(Err(EMSGSIZE), []) else ReadLoop(replies, length, [])
  }

  /** A payload longer than payload_buf is refused with -EMSGSIZE before anything is read. */
  lemma OversizedRefused(replies: seq<ReadReply>, length: nat, capacity: nat)
    requires |Delivered(replies)| <= length
    requires length > capacity
    ensures FetchPayload(replies, length, capacity) == Fetch(Err(EMSGSIZE), [])
  {
  }

  /** A zero-byte read before the payload is complete gives -EIO. */
  lemma EmptyReadFails(b: seq<byte>, replies: seq<ReadReply>, length: nat)
    requires |b| + |Delivered(replies)| <= length
    requires |b| < length
    ensures ReadLoop([Got([])] + replies, length, b) == Fetch(Err(EIO), b)
  {
  }

  /** A would-block answer followed by a poll that fails or sees no POLLIN gives -EIO. */
  lemma StalledPollFails(b: seq<byte>, p: int, pollIn: bool, replies: seq<ReadReply>, length: nat)
    requires |b| + |Delivered(replies)| <= length
    requires |b| < length
    requires !(p > 0 && pollIn)
    ensures ReadLoop([WouldBlock(p, pollIn)] + replies, length, b) == Fetch(Err(EIO), b)
  {
  }

  /** The loop succeeds only with exactly `length` bytes, all the answers handed over, in order. */
  lemma {:induction false} ReadLoopOk(replies: seq<ReadReply>, length: nat, got: seq<byte>)
    requires |got| + |Delivered(replies)| <= length
    requires ReadLoop(replies, length, got).status == Ok
    ensures ReadLoop(replies, length, got).bytes == got + Delivered(replies)
    ensures |ReadLoop(replies, length, got).bytes| == length
    decreases |replies|
  {
    if |got| >= length {
      assert Delivered(replies) == [];
    } else {
      match replies[0]
      case Got(b) =>
        ReadLoopOk(replies[1..], length, got + b);
      case WouldBlock(p, pollIn) =>
        ReadLoopOk(replies[1..], length, got);
      case Failed(e) =>
    }
  }

  /** Success means: the payload fits payload_buf and exactly its `length` bytes were read. */
  lemma FetchOk(replies: seq<ReadReply>, length: nat, capacity: nat)
    requires |Delivered(replies)| <= length
    requires FetchPayload(replies, length, capacity).status == Ok
    ensures length <= capacity
    ensures FetchPayload(replies, length, capacity).bytes == Delivered(replies)
    ensures |Delivered(replies)| == length
  {
    ReadLoopOk(replies, length, []);
  }

  /** Every answer hands over bytes, or would block with a poll that then sees POLLIN. */
  predicate Clean(replies: seq<ReadReply>)
  {
    forall i :: 0 <= i < |replies| ==>
      match replies[i]
      case Got(b) => b != []
      case WouldBlock(p, pollIn) => p > 0 && pollIn
      case Failed(_) => false
  }

  /** A message delivered cleanly, however it is split, is read back whole. */
  lemma {:induction false} CleanReadLoop(replies: seq<ReadReply>, length: nat, got: seq<byte>)
    requires Clean(replies)
    requires |got| + |Delivered(replies)| == length
    ensures ReadLoop(replies, length, got) == Fetch(Ok, got + Delivered(replies))
    decreases |replies|
  {
    if |got| >= length {
      assert Delivered(replies) == [];
    } else {
      assert replies != [];
      assert Clean(replies[1..]) by {
        forall i | 0 <= i < |replies[1..]| ensures replies[1..][i] == replies[i + 1] { }
      }
      match replies[0]
      case Got(b) =>
        assert got + Delivered(replies) == (got + b) + Delivered(replies[1..]);
        CleanReadLoop(replies[1..], length, got + b);
      case WouldBlock(p, pollIn) =>
        CleanReadLoop(replies[1..], length, got);
    }
  }

  lemma CleanDeliveryRead(replies: seq<ReadReply>, length: nat, capacity: nat)
    requires Clean(replies)
    requires |Delivered(replies)| == length <= capacity
    ensures FetchPayload(replies, length, capacity) == Fetch(Ok, Delivered(replies))
  {
    CleanReadLoop(replies, length, []);
    assert [] + Delivered(replies) == Delivered(replies);
  }

  /** The library writing the bytes of one answer at buf. */
  method WriteAt(payload: array<byte>, pos: nat, b: seq<byte>)
    requires pos + |b| <= payload.Length
    modifies payload
    ensures payload[..pos + |b|] == old(payload[..pos]) + b
    ensures payload[pos + |b|..] == old(payload[pos + |b|..])
  {
    forall j | 0 <= j < |b| {
      payload[pos + j] := b[j];
    }
  }

  /**
   * The loop in place: `pos` is buf - payload_buf, `k` counts the read calls made.
   * The bytes of each answer are written at buf, as the library does.
   */
  method GetPayload(payload: array<byte>, length: nat, replies: seq<ReadReply>) returns (status: Status)
    requires |Delivered(replies)| <= length
    modifies payload
    ensures status == FetchPayload(replies, length, payload.Length).status
    ensures var got := FetchPayload(replies, length, payload.Length).bytes;
            |got| <= payload.Length && payload[..|got|] == got
            && payload[|got|..] == old(payload[|got|..])
  {
    if length > payload.Length {
      return Err(EMSGSIZE);
    }
    var pos: nat, k: nat := 0, 0;
    while pos < length
      invariant k <= |replies| && pos <= length
      invariant pos + |Delivered(replies[k..])| <= length
      invariant ReadLoop(replies[k..], length, payload[..pos]) == ReadLoop(replies, length, [])
      invariant payload[pos..] == old(payload[pos..])
      decreases |replies| - k
    {
      if k == |replies| {
        return Waiting;
      }
      assert replies[k..][1..] == replies[k + 1..];
      match replies[k] {
        case Got(b) =>
          if b == [] {
            return Err(EIO);
          }
          assert Delivered(replies[k..]) == b + Delivered(replies[k + 1..]);
          assert pos + |b| <= length;
          assert payload[pos + |b|..] == payload[pos..][|b|..];
          assert old(payload[pos + |b|..]) == old(payload[pos..])[|b|..];
          WriteAt(payload, pos, b);
          pos := pos + |b|;
        case WouldBlock(p, pollIn) =>
          if !(p > 0 && pollIn) {
            return Err(EIO);
          }
        case Failed(e) =>
          return Err(e);
      }
      k := k + 1;
    }
    return Ok;
  }
}
