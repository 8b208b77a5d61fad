/**
 * The parameter records the firmware hands to the MQTT library (publish and
 * subscribe), and the error codes it distinguishes. The library itself, and the
 * wire encoding, are not part of this model: its calls are results given as inputs.
 */
module Mqtt {
  import opened Bytes

  /** Quality of service levels of MQTT Version 3.1.1, section 4.3. */
  datatype QoS = AtMostOnce | AtLeastOnce | ExactlyOnce

  /** The two build-time configured topics (their text is a build setting, not modelled). */
  datatype Topic = PubTopic | SubTopic

  /** Error codes the firmware tells apart; any other code is carried as it is. */
  datatype Errno = EIO | EMSGSIZE | Other(code: int)

  /** The publish request `data_publish` fills in. */
  datatype PublishParam = PublishParam(
    topic: Topic,
    qos: QoS,
    payload: seq<byte>,
    messageId: nat,
    dup: bool,
    retain: bool)

  datatype TopicFilter = TopicFilter(topic: Topic, qos: QoS)

  /** The subscription request `subscribe` builds. */
  datatype SubscriptionList = SubscriptionList(list: seq<TopicFilter>, messageId: nat)

  /**
   * data_publish: the first `len` bytes of `data` on the publish topic, with the
   * requested QoS, a caller-supplied message id (random in the firmware), and
   * neither the DUP nor the RETAIN flag.
   */
  function PublishParams(qos: QoS, data: seq<byte>, len: nat, messageId: nat): (p: PublishParam)
    requires len <= |data|
    ensures |p.payload| == len && p.payload == data[..len]
    ensures p.topic == PubTopic && p.qos == qos && p.messageId == messageId
    ensures !p.dup && !p.retain
  {
    PublishParam(PubTopic, qos, data[..len], messageId, false, false)
  }

  /** subscribe: one filter, the subscribe topic at QoS 1, message id 1234. */
  function SubscribeParams(): (s: SubscriptionList)
    ensures |s.list| == 1 && s.list[0] == TopicFilter(SubTopic, AtLeastOnce)
    ensures s.messageId == 1234
  {
    SubscriptionList([TopicFilter(SubTopic, AtLeastOnce)], 1234)
  }
}
