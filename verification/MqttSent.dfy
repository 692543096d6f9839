/** What the MQTT senders queue is a stream that the receive loop takes apart again. */
module MqttSent {
  import opened Bytes
  import opened Chars
  import opened Streams
  import opened MqttSpec
  import opened MqttRoundTrip
  import opened MqttRuns
  import opened MqttFields

  /** A call of one of the senders, of a client or a broker. */
  datatype SendCall =
    | Publishing(topic: seq<byte>, id: nat, flags: nat, data: seq<byte>)
    | Subscribing(topics: seq<Expression>, subscription: nat)
    | Connecting(clientId: seq<byte>, opts: HandshakeOpts)
    | Accepting(code: byte)
    | Acknowledging(cmd: nat, acked: nat)
    | Granting(codes: seq<byte>, granted: nat)
    | Signalling(signal: nat)
  {
    /** The strings fit their 16-bit lengths, and the rest its fields. */
    ghost predicate Fits() {
      match this
      case Publishing(topic, id, flags, data) => flags < 16 && id < 0x1_0000 && |data| < TWO31 && |topic| < 0x1_0000
      case Subscribing(topics, id) =>
        id < 0x1_0000 && TopicsLength(topics) < TWO31 && forall t <- topics :: |t.topic| < 0x1_0000
      case Connecting(clientId, opts) =>
        && opts.Usable()
        && |clientId| < 0x1_0000 && |opts.WillTopic()| < 0x1_0000 && |opts.WillMessage()| < 0x1_0000
        && |opts.userName.OrEmpty([])| < 0x1_0000 && |opts.password.OrEmpty([])| < 0x1_0000
      case Accepting(code) => true
      case Acknowledging(cmd, id) => cmd in {PUBACK, PUBREC, PUBREL, PUBCOMP, UNSUBACK} && id < 0x1_0000
      case Granting(codes, id) => |codes| < TWO31 && id < 0x1_0000
      case Signalling(cmd) => cmd in {PINGREQ, PINGRESP, DISCONNECT}
    }

    /** The packet that is queued. */
    ghost function Sent(): seq<byte>
      requires Fits()
    {
      match this
      case Publishing(topic, id, flags, data) => PublishBytes(topic, id, flags, data)
      case Subscribing(topics, id) => SubscribeBytes(topics, id)
      case Connecting(clientId, opts) => HandshakeBytes(clientId, opts)
      case Accepting(code) => ConnackBytes(code)
      case Acknowledging(cmd, id) => ShortBytes(cmd, id)
      case Granting(codes, id) => SubackBytes(codes, id)
      case Signalling(cmd) => Header(cmd, 0, 0)
    }

    /** What the handler at the other end is to be given. */
    ghost function Meant(): Message
      requires Fits()
    {
      match this
      case Publishing(topic, id, flags, data) =>
        Message(PUBLISH, Qos(flags), Publish(topic, if Qos(flags) > 0 then id else 0, data))
      case Subscribing(topics, id) => Message(SUBSCRIBE, 1, Subscribe(id, TopicsBytes(topics)))
      case Connecting(clientId, opts) => Message(CONNECT, 0, Requested(clientId, opts))
      case Accepting(code) => Message(CONNACK, 0, Connack(code))
      case Acknowledging(cmd, id) =>
        Message(cmd, if cmd == PUBREL then 1 else 0, if cmd == UNSUBACK then Unhandled else Acknowledged(id))
      case Granting(codes, id) => Message(SUBACK, 1, Acknowledged(id))
      case Signalling(cmd) => Message(cmd, 0, Unhandled)
    }
  }

  /** The flags that table 2.2 of MQTT 3.1.1 reserves for commands other than PUBLISH. */
  function Reserved(cmd: nat): nat {
    if cmd in {PUBREL, SUBSCRIBE, 10} then 2 else 0
  }

  /** All packets but a SUBACK are sent with the reserved flags. */
  lemma ReservedFlagsIff(c: SendCall)
    requires c.Fits() && !c.Publishing?
    ensures var first := c.Sent()[0]; first % 16 == Reserved(first / 16) <==> !c.Granting?
  {
    hide LengthBytes, HandshakeBody, TopicsBytes, ToBigEndian;
  }

  ghost predicate AllFit(calls: seq<SendCall>) {
    forall c <- calls :: c.Fits()
  }

  ghost function Queued(calls: seq<SendCall>): (ps: seq<seq<byte>>)
    requires AllFit(calls)
    ensures |ps| == |calls| && forall i :: 0 <= i < |calls| ==> ps[i] == calls[i].Sent()
  {
    seq(|calls|, i requires 0 <= i < |calls| => calls[i].Sent())
  }

  ghost function Intended(calls: seq<SendCall>): (ms: seq<Message>)
    requires AllFit(calls)
    ensures |ms| == |calls| && forall i :: 0 <= i < |calls| ==> ms[i] == calls[i].Meant()
  {
    seq(|calls|, i requires 0 <= i < |calls| => calls[i].Meant())
  }

  /** Each sender queues a well-formed packet that reads as it is meant. */
  lemma SentIsMeant(c: SendCall)
    requires c.Fits()
    ensures WellFormed(c.Sent()) && MessageOf(c.Sent()) == c.Meant()
  {
    hide Parse, PublishBytes, SubscribeBytes, HandshakeBytes, TopicsBytes, Requested, Header, ToBigEndian;
    var sent := c.Sent();
    assert sent + [] == sent;
    match c {
      case Publishing(topic, id, flags, data) => PublishArrives(topic, id, flags, data, []);
      case Subscribing(topics, id) => SubscribeArrives(topics, id, []);
      case Connecting(clientId, opts) => ConnectArrives(clientId, opts, []);
      case Accepting(code) => ConnackRead(0, 0, code, [], []);
        assert [0, code] + [] == [0, code];
      case Acknowledging(cmd, id) => AcknowledgementRead(cmd, id);
      case Granting(codes, id) => AckRead(SUBACK, 2, id, codes, []);
        Rebracket(Header(SUBACK, 2, 2 + |codes|), ToBigEndian(id, 2), codes);
      case Signalling(cmd) => OthersRead(cmd, 0, [], []);
        assert Header(cmd, 0, 0) + [] == Header(cmd, 0, 0);
    }
  }

  lemma AcknowledgementRead(cmd: nat, id: nat)
    requires cmd in {PUBACK, PUBREC, PUBREL, PUBCOMP, UNSUBACK} && id < 0x1_0000
    ensures var body := if cmd == UNSUBACK then Unhandled else Acknowledged(id);
            Parse(ShortBytes(cmd, id) + [])
            == Packet(Message(cmd, if cmd == PUBREL then 1 else 0, body), |ShortBytes(cmd, id)|)
  {
    hide Parse, Header, ToBigEndian;
    var flags := if cmd == PUBREL then 2 else 0;
    var idBytes := ToBigEndian(id, 2);
    assert idBytes + [] == idBytes;
    if cmd == UNSUBACK {
      OthersRead(cmd, flags, idBytes, []);
    } else {
      AckRead(cmd, flags, id, [], []);
    }
  }

  /** Packets of other brokers, for `CuttingIsInvisible`: session octets, flags and octets behind may be any. */
  lemma AnswersAreWellFormed(session: byte, code: byte, cmd: nat, flags: nat, id: nat, more: seq<byte>)
    requires cmd in {4, 5, 6, 7, 9} && flags < 16 && id < 0x1_0000 && |more| < TWO31
    ensures var p := [0x20, 2, session, code];
            WellFormed(p) && MessageOf(p) == Message(2, 0, Connack(code))
    ensures var p := Header(cmd, flags, 2 + |more|) + (ToBigEndian(id, 2) + more);
            WellFormed(p) && MessageOf(p) == Message(cmd, Qos(flags), Acknowledged(id))
  {
    hide Parse, Header, ToBigEndian, Qos;
    var p, q := [0x20, 2, session, code], Header(cmd, flags, 2 + |more|) + (ToBigEndian(id, 2) + more);
    ConnackOctets(session, code, []);
    AckRead(cmd, flags, id, more, []);
    assert p + [] == p && q + [] == q;
  }

  lemma {:induction false} QueuedAreIntended(calls: seq<SendCall>)
    requires AllFit(calls)
    ensures (forall p <- Queued(calls) :: WellFormed(p)) && Messages(Queued(calls)) == Intended(calls)
    decreases |calls|
  {
    hide WellFormed, MessageOf, SendCall.Fits, SendCall.Sent, SendCall.Meant, Queued, Intended;
    if calls != [] {
      SentIsMeant(calls[0]);
      QueuedAreIntended(calls[1..]);
      assert Queued(calls) == [calls[0].Sent()] + Queued(calls[1..]);
      assert Intended(calls) == [calls[0].Meant()] + Intended(calls[1..]);
    }
  }

  /**
   * What one side queues with any calls, the handler at the other side is given, packet by packet, however the network
   * cuts it, if no packet exceeds the limit of the receive buffer; nothing is left in the buffer.
   */
  lemma ConversationArrives(calls: seq<SendCall>, chunks: seq<seq<byte>>, limit: nat)
    requires AllFit(calls) && Flat(chunks) == Flat(Queued(calls))
    requires limit > 0 ==> forall p <- Queued(calls) :: |p| <= limit
    ensures Session([], [], false).ReceiveAll(chunks, limit) == Session([], Intended(calls), false)
  {
    hide WellFormed, MessageOf, SendCall.Fits, SendCall.Sent, SendCall.Meant, Session.ReceiveAll, Queued, Intended;
    QueuedAreIntended(calls);
    CuttingIsInvisible(Queued(calls), chunks, limit);
  }
}
