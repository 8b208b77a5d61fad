/**
 * mqtt_evt_handler: the MQTT library's event callback. It keeps the flags
 * `connected`, `nRun` and `numPublished`, subscribes once a connection is
 * acknowledged, and echoes every inbound message back on the publish topic.
 */
module Events {
  import opened Bytes
  import opened Mqtt
  import opened Payload

  /** The events the handler tells apart, with the fields it reads. */
  datatype Event =
    | ConnAck(result: int)
    | Disconnected(result: int)
    | Published(result: int, payloadLen: nat)
    | PubAck(result: int, messageId: nat)
    | SubAck(result: int, messageId: nat)
    | Unhandled(kind: nat)   // PUBREC, PUBREL, PUBCOMP, UNSUBACK, PINGRESP: logged only

  /** The requests the handler makes of the MQTT library. */
  datatype Action =
    | Subscribe(list: SubscriptionList)
    | Publish(param: PublishParam)
    | Disconnect

  /** connected, nRun (uint16_t) and numPublished (uint32_t). */
  datatype Flags = Flags(connected: bool, nRun: nat, numPublished: nat)

  const U16: nat := 0x1_0000
  const U32: nat := 0x1_0000_0000

  predicate InRange(f: Flags)
  {
    f.nRun < U16 && f.numPublished < U32
  }

  /**
   * The handler on values. For a PUBLISH, `status` is what publish_get_payload
   * returned and `buf` what payload_buf then holds.
   */
  function Dispatch(f: Flags, e: Event, status: Status, buf: seq<byte>, messageId: nat): (r: (Flags, seq<Action>))
    requires e.Published? && status.Ok? ==> e.payloadLen <= |buf|
    ensures InRange(f) ==> InRange(r.0)
    ensures |r.1| <= 1
  {
    match e
    case ConnAck(result) =>
      if result != 0 then (f, []) else (f.(connected := true), [Subscribe(SubscribeParams())])
    case Disconnected(_) =>
      (f.(connected := false), [])
    case Published(_, len) =>
      (match status
       case Ok => (f, [Publish(PublishParams(AtLeastOnce, buf, len, messageId))])
       case Err(_) => (f, [Disconnect])
       case Waiting => (f, []))
    case PubAck(result, _) =>
      if result != 0 then (f, []) else (f.(nRun := 0, numPublished := (f.numPublished + 1) % U32), [])
    case SubAck(_, _) =>
      (f, [])
    case Unhandled(_) =>
      (f, [])
  }

  /** A successful CONNACK sets `connected` and subscribes; a failed one changes nothing. */
  lemma ConnAckConnects(f: Flags, result: int, status: Status, buf: seq<byte>, messageId: nat)
    ensures result == 0 ==>
              Dispatch(f, ConnAck(result), status, buf, messageId)
                == (f.(connected := true), [Subscribe(SubscribeParams())])
    ensures result != 0 ==> Dispatch(f, ConnAck(result), status, buf, messageId) == (f, [])
  {
  }

  /** DISCONNECT clears `connected` and nothing else. */
  lemma DisconnectClears(f: Flags, result: int, status: Status, buf: seq<byte>, messageId: nat)
    ensures Dispatch(f, Disconnected(result), status, buf, messageId) == (f.(connected := false), [])
  {
  }

  /**
   * A successful PUBACK zeroes `nRun` and counts one more published message (modulo
   * 2^32, the width of numPublished); a failed one changes nothing.
   */
  lemma PubAckCounts(f: Flags, result: int, id: nat, status: Status, buf: seq<byte>, messageId: nat)
    requires InRange(f)
    ensures var r := Dispatch(f, PubAck(result, id), status, buf, messageId);
            r.1 == [] &&
            r.0.connected == f.connected &&
            (result == 0 ==> r.0.nRun == 0 &&
                             (f.numPublished + 1 < U32 ==> r.0.numPublished == f.numPublished + 1) &&
                             (f.numPublished + 1 == U32 ==> r.0.numPublished == 0)) &&
            (result != 0 ==> r.0 == f)
  {
  }

  /** Only a successful CONNACK, a DISCONNECT or a successful PUBACK changes the flags. */
  lemma OnlyAcksChangeFlags(f: Flags, e: Event, status: Status, buf: seq<byte>, messageId: nat)
    requires e.Published? && status.Ok? ==> e.payloadLen <= |buf|
    requires Dispatch(f, e, status, buf, messageId).0 != f
    ensures e == ConnAck(0) || e.Disconnected? || (e.PubAck? && e.result == 0)
  {
  }

  /** When the payload cannot be read the handler asks for a disconnect and publishes nothing. */
  lemma ReadFailureDisconnects(f: Flags, result: int, len: nat, err: Errno, buf: seq<byte>, messageId: nat)
    ensures Dispatch(f, Published(result, len), Err(err), buf, messageId) == (f, [Disconnect])
  {
  }

  /**
   * Echo: an inbound message whose payload the library hands over cleanly, however it
   * is split, is published back exactly once, with the same bytes and length, at
   * QoS 1 on the publish topic.
   */
  lemma EchoIsIdentical(f: Flags, result: int, replies: seq<ReadReply>, buf: seq<byte>, messageId: nat)
    requires Clean(replies) && |Delivered(replies)| <= |buf|
    requires buf[..|Delivered(replies)|] == Delivered(replies)
    ensures var len := |Delivered(replies)|;
            FetchPayload(replies, len, |buf|).status == Ok &&
            Dispatch(f, Published(result, len), Ok, buf, messageId)
              == (f, [Publish(PublishParam(PubTopic, AtLeastOnce, Delivered(replies), messageId, false, false))])
  {
    CleanDeliveryRead(replies, |Delivered(replies)|, |buf|);
  }

  class Handler {
    var connected: bool
    /** volatile uint16_t nRun */
    var nRun: nat
    /** uint32_t numPublished */
    var numPublished: nat
    /** payload_buf */
    const payloadBuf: array<byte>

    ghost predicate Valid()
      reads this
    {
      InRange(Flags(connected, nRun, numPublished))
    }

    ghost function State(): Flags
      reads this
    {
      Flags(connected, nRun, numPublished)
    }

    /** All statics: zero at start-up; `capacity` is CONFIG_MQTT_PAYLOAD_BUFFER_SIZE. */
    constructor (capacity: nat)
      ensures Valid() && fresh(payloadBuf) && payloadBuf.Length == capacity
      ensures State() == Flags(false, 0, 0)
    {
      connected, nRun, numPublished := false, 0, 0;
      payloadBuf := new byte[capacity](_ => 0);
    }

    /**
     * One event. `replies` are the library's answers to the payload reads of a
     * PUBLISH (the library never hands over more than the payload length), and
     * `messageId` the random id of the echo.
     */
    method OnEvent(e: Event, replies: seq<ReadReply>, messageId: nat) returns (actions: seq<Action>)
      requires Valid()
      requires e.Published? ==> |Delivered(replies)| <= e.payloadLen
      modifies this, payloadBuf
      ensures Valid()
      ensures !e.Published? ==> payloadBuf[..] == old(payloadBuf[..])
      ensures e.Published? ==>
                var fetched := FetchPayload(replies, e.payloadLen, payloadBuf.Length);
                |fetched.bytes| <= payloadBuf.Length &&
                payloadBuf[..|fetched.bytes|] == fetched.bytes &&
                (fetched.status.Ok? ==> e.payloadLen <= payloadBuf.Length) &&
                (State(), actions) == Dispatch(old(State()), e, fetched.status, payloadBuf[..], messageId)
      ensures !e.Published? ==> (State(), actions) == Dispatch(old(State()), e, Ok, payloadBuf[..], messageId)
    {
      actions := [];
      match e {
        case ConnAck(result) =>
          if result == 0 {
            connected := true;
            actions := [Subscribe(SubscribeParams())];
          }
        case Disconnected(_) =>
          connected := false;
        case Published(_, len) =>
          var status := GetPayload(payloadBuf, len, replies);
          match status {
            case Ok =>
              FetchOk(replies, len, payloadBuf.Length);
              actions := [Publish(PublishParams(AtLeastOnce, payloadBuf[..], len, messageId))];
            case Err(_) =>
              actions := [Disconnect];
            case Waiting =>
          }
        case PubAck(result, _) =>
          if result == 0 {
            nRun := 0;
            numPublished := (numPublished + 1) % U32;
          }
        case SubAck(_, _) =>
        case Unhandled(_) =>
      }
    }
  }
}
