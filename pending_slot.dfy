/**
 * The single-slot pending message: `data_uart` and its busy flag `unsent_data`.
 * The UART callback fills it (only while the flag is clear) and submits the relay
 * work item; the work handler publishes it and clears the flag.
 */
module PendingSlot {
  import opened Bytes
  import opened Mqtt
  import opened UartFrame

  class Slot {
    /** data_uart */
    const data: array<byte>
    /** unsent_data */
    var unsent: bool

    /** The slot always ends in a NUL, so strlen never reads past it. */
    ghost predicate Valid()
      reads this, data
    {
      data.Length == BufSize && data[BufSize - 1] == 0
    }

    /** Both are statics: zero-initialised at start-up. */
    constructor ()
      ensures Valid() && fresh(data)
      ensures data[..] == Zeros(BufSize) && !unsent
    {
      data := new byte[BufSize](_ => 0);
      unsent := false;
    }

    /**
     * The writer's half (uart_cb): clear data_uart, strncpy the first `n` bytes of
     * `src` into it, and mark it unsent. The copy stops at the first NUL of `src`.
     */
    method Fill(src: array<byte>, n: nat)
      requires Valid() && src != data
      requires n < BufSize && n <= src.Length
      modifies this`unsent, data
      ensures Valid() && unsent
      ensures data[..] == ZeroPad(CString(src[..n]), BufSize)
    {
      Memset(data);
      var i := 0;
      while i < n && src[i] != 0
        invariant i <= n
        invariant forall j :: 0 <= j < i ==> data[j] == src[j] && src[j] != 0
        invariant forall j :: i <= j < BufSize ==> data[j] == 0
      {
        data[i] := src[i];
        i := i + 1;
      }
      // strncpy pads the rest of the n bytes with NUL
      var k := i;
      while k < n
        invariant i <= k <= n
        invariant forall j :: 0 <= j < i ==> data[j] == src[j]
        invariant forall j :: i <= j < BufSize ==> data[j] == 0
      {
        data[k] := 0;
        k := k + 1;
      }
      CStrLenAt(src[..n], i);
      assert data[..] == ZeroPad(CString(src[..n]), BufSize);
      unsent := true;
    }

    /**
     * work_handler_msg_send with sendCloudMsg: publish strlen(data_uart) bytes of
     * data_uart at QoS 1 on the publish topic, then clear the flag whatever the
     * publish returned. The message id is the random number the firmware draws.
     */
    method Relay(messageId: nat) returns (request: PublishParam)
      requires Valid()
      modifies this`unsent
      ensures Valid() && !unsent
      ensures request == RelayRequest(data[..], messageId)
      ensures request.payload == CString(data[..]) && |request.payload| < BufSize
      ensures request.qos == AtLeastOnce && request.topic == PubTopic
    {
      request := PublishParams(AtLeastOnce, data[..], CStrLen(data[..]), messageId);
      unsent := false;
    }
  }

  /** What the relay hands to the MQTT library for slot contents `data`. */
  function RelayRequest(data: seq<byte>, messageId: nat): (p: PublishParam)
    ensures p.payload == CString(data) && |p.payload| == CStrLen(data)
    ensures p.topic == PubTopic && p.qos == AtLeastOnce && p.messageId == messageId
    ensures !p.dup && !p.retain
  {
    PublishParams(AtLeastOnce, data, CStrLen(data), messageId)
  }

  /**
   * End to end: a record sent over the serial link, however it is split into
   * bursts, arrives at a free slot and is published unchanged, without its CR LF,
   * at QoS 1 on the publish topic.
   */
  lemma {:induction false} RecordIsRelayed(record: seq<byte>, data: seq<byte>, bursts: seq<seq<byte>>, messageId: nat)
    requires IsRecord(record)
    requires Flatten(bursts) == record + [CR, LF]
    ensures Feed(Reception([], data, false), bursts).unsent
    ensures RelayRequest(Feed(Reception([], data, false), bursts).dataUart, messageId).payload == record
    ensures RelayRequest(Feed(Reception([], data, false), bursts).dataUart, messageId).qos == AtLeastOnce
  {
    RecordSurvivesChunking(record, data, bursts);
  }
}
