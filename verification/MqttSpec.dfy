/** MQTT 3.1.1 packets: what the parser makes of octets and what the senders put on the wire. */
module MqttSpec {
  import opened Bytes
  import opened Chars

  const CONNECT := 1
  const CONNACK := 2
  const PUBLISH := 3
  const PUBACK := 4
  const PUBREC := 5
  const PUBREL := 6
  const PUBCOMP := 7
  const SUBSCRIBE := 8
  const SUBACK := 9
  const UNSUBACK := 11
  const PINGREQ := 12
  const PINGRESP := 13
  const DISCONNECT := 14

  const HAS_WILL := 0x04
  const HAS_PASSWORD := 0x40
  const HAS_USER_NAME := 0x80

  predicate Has(flags: byte, bit: nat)
    requires bit > 0
  {
    flags / bit % 2 == 1
  }

  function Qos(flags: byte): nat {
    flags / 2 % 4
  }

  /** The fields a packet carries; those it does not carry keep in the C struct what an earlier packet left there. */
  datatype Body =
    | Connect(protocolName: seq<byte>, version: byte, flags: byte, keepAlive: nat, clientId: seq<byte>,
              willTopic: seq<byte>, willMessage: seq<byte>, userName: seq<byte>, password: seq<byte>)
    | Connack(code: byte)
    | Acknowledged(id: nat)
    | Publish(topic: seq<byte>, id: nat, payload: seq<byte>)
    | Subscribe(id: nat, payload: seq<byte>)
    | Unhandled

  datatype Message = Message(cmd: nat, qos: nat, body: Body)

  // ---- Parsing ----

  datatype Length = Length(value: nat, octets: nat) | MoreNeeded | TooLong

  /** The variable length encoding of section 2.2.3, added up in 32 bits; d begins with its i-th octet. */
  function ReadLength(d: seq<byte>, i: nat, acc: nat): (r: Length)
    requires i <= 4
    ensures r.Length? ==> i < r.octets <= i + |d| && r.octets <= 5
    decreases 5 - i
  {
    if d == [] then MoreNeeded
    else
      var len := (acc + Shifted(d[0] % 128, i)) % TWO32;
      if d[0] < 128 then Length(len, i + 1)
      else if i + 1 > 4 then TooLong
      else ReadLength(d[1..], i + 1, len)
  }

  /** v << 7 * i */
  function Shifted(v: nat, i: nat): nat {
    if i == 0 then v else 128 * Shifted(v, i - 1)
  }

  datatype Scanned = Overrun | Scanned(text: seq<byte>, rest: seq<byte>)

  /**
   * A string with its length before it. When the length or the string runs over the end of the packet, whatever
   * the C code then reads it goes on to report the packet malformed.
   */
  function Scan(b: seq<byte>): (s: Scanned)
    ensures s.Scanned? ==> |s.rest| + 2 + |s.text| == |b|
  {
    if |b| < 2 || 2 + U16(b[0], b[1]) > |b| then Overrun
    else Scanned(b[2..2 + U16(b[0], b[1])], b[2 + U16(b[0], b[1])..])
  }

  /** A string that is there only if asked for. */
  function ScanIf(wanted: bool, b: seq<byte>): (s: Scanned) {
    if wanted then Scan(b) else Scanned([], b)
  }

  datatype BodyResult = BadBody | GoodBody(body: Body)

  function ParseConnect(b: seq<byte>): BodyResult {
    match Scan(b)
    case Overrun => BadBody
    case Scanned(name, r) =>
      if |r| < 4 then BadBody
      else ParseConnectPayload(name, r[0], r[1], U16(r[2], r[3]), r[4..])
  }

  function ParseConnectPayload(name: seq<byte>, version: byte, flags: byte, keepAlive: nat, b: seq<byte>): BodyResult {
    match Scan(b)
    case Overrun => BadBody
    case Scanned(clientId, r1) =>
      match ScanIf(Has(flags, HAS_WILL), r1)
      case Overrun => BadBody
      case Scanned(willTopic, r2) =>
        match ScanIf(Has(flags, HAS_WILL), r2)
        case Overrun => BadBody
        case Scanned(willMessage, r3) =>
          match ScanIf(Has(flags, HAS_USER_NAME), r3)
          case Overrun => BadBody
          case Scanned(userName, r4) =>
            match ScanIf(Has(flags, HAS_PASSWORD), r4)
            case Overrun => BadBody
            case Scanned(password, r5) =>
              if r5 != [] then BadBody
              else
                GoodBody(Connect(name, version, flags, keepAlive, clientId, willTopic, willMessage, userName, password))
  }

  function ParsePublish(qos: nat, b: seq<byte>): BodyResult {
    match Scan(b)
    case Overrun => BadBody
    case Scanned(topic, r) =>
      if qos == 0 then GoodBody(Publish(topic, 0, r))
      else if |r| < 2 then BadBody
      else GoodBody(Publish(topic, U16(r[0], r[1]), r[2..]))
  }

  function ParseBody(cmd: nat, qos: nat, b: seq<byte>): BodyResult {
    if cmd == CONNECT then ParseConnect(b)
    else if cmd == PUBLISH then ParsePublish(qos, b)
    else if cmd == CONNACK then if |b| < 2 then BadBody else GoodBody(Connack(b[1]))
    else if cmd == SUBSCRIBE then if |b| < 2 then BadBody else GoodBody(Subscribe(U16(b[0], b[1]), b[2..]))
    else if cmd in {PUBACK, PUBREC, PUBREL, PUBCOMP, SUBACK} then
      if |b| < 2 then BadBody else GoodBody(Acknowledged(U16(b[0], b[1])))
    else GoodBody(Unhandled)
  }

  datatype Result = Incomplete | Malformed | Packet(msg: Message, len: nat)

  /** `parse_mqtt` on what the receive buffer holds. */
  function Parse(d: seq<byte>): (r: Result)
    ensures r.Packet? ==> 2 <= r.len <= |d|
  {
    if |d| < 2 then Incomplete
    else
      match ReadLength(d[1..], 0, 0)
      case MoreNeeded => Incomplete
      case TooLong => Malformed
      case Length(len, octets) =>
        var start := 1 + octets;
        if start + len > |d| then Incomplete
        else
          var cmd, qos := d[0] / 16, Qos(d[0]);
          match ParseBody(cmd, qos, d[start..start + len])
          case BadBody => Malformed
          case GoodBody(body) => Packet(Message(cmd, qos, body), start + len)
  }

  /** `mg_mqtt_next_subscribe_topic`: the topic at pos, or none. */
  datatype NextTopic = NoTopic | NextTopic(topic: seq<byte>, qos: byte, pos: nat)

  function NextSubscribeTopic(payload: seq<byte>, pos: nat): (t: NextTopic)
    ensures t.NextTopic? ==> pos < t.pos <= |payload|
  {
    if pos + 2 > |payload| then NoTopic
    else
      var len := U16(payload[pos], payload[pos + 1]);
      if pos + 2 + len + 1 > |payload| then NoTopic
      else NextTopic(payload[pos + 2..pos + 2 + len], payload[pos + 2 + len], pos + 2 + len + 1)
  }

  datatype Expression = Expression(topic: seq<byte>, qos: byte)

  /** The topics a caller gets by asking for the next one until there is none. */
  function SubscribeTopics(payload: seq<byte>, pos: nat): seq<Expression>
    decreases |payload| - pos
  {
    match NextSubscribeTopic(payload, pos)
    case NoTopic => []
    case NextTopic(topic, qos, next) => [Expression(topic, qos)] + SubscribeTopics(payload, next)
  }

  // ---- Sending ----

  /** The loop of `mg_send_mqtt_header` that encodes the length. */
  function LengthBytes(n: nat): (s: seq<byte>)
    ensures |s| >= 1
  {
    if n < 128 then [n] else [n % 128 + 128] + LengthBytes(n / 128)
  }

  function Header(cmd: nat, flags: nat, len: nat): seq<byte>
    requires cmd < 16 && flags < 16
  {
    [cmd * 16 + flags] + LengthBytes(len)
  }

  /** A length stored in 16 bits and as many octets of the string. */
  function Text(s: seq<byte>): seq<byte> {
    var n := |s| % 0x1_0000;
    ToBigEndian(n, 2) + s[..n]
  }

  /** `mg_mqtt_publish`. */
  function PublishBytes(topic: seq<byte>, id: nat, flags: nat, data: seq<byte>): seq<byte>
    requires flags < 16
  {
    var idBytes := if Qos(flags) > 0 then ToBigEndian(id, 2) else [];
    Header(PUBLISH, flags, 2 + |topic| % 0x1_0000 + |data| + |idBytes|) + Text(topic) + idBytes + ThroughInt(data)
  }

  datatype HandshakeOpts = HandshakeOpts(flags: byte, keepAlive: nat, willTopic: Option<seq<byte>>,
                                         willMessage: Option<seq<byte>>, userName: Option<seq<byte>>,
                                         password: Option<seq<byte>>) {
    /** A flag that announces a name or password needs one. */
    predicate Usable() {
      && keepAlive < 0x1_0000
      && (Has(flags, HAS_USER_NAME) ==> userName.Some?)
      && (Has(flags, HAS_PASSWORD) ==> password.Some?)
    }

    function Will(): bool {
      Has(flags, HAS_WILL) || (willTopic.Some? && willMessage.Some?)
    }

    /** The flags sent. */
    function Flags(): byte {
      With(With(With(flags, HAS_USER_NAME, userName.Some?), HAS_PASSWORD, password.Some?), HAS_WILL,
           willTopic.Some? && willMessage.Some?)
    }

    function KeepAlive(): nat {
      if keepAlive == 0 then 60 else keepAlive
    }

    function WillTopic(): seq<byte> {
      if willTopic.Some? && willMessage.Some? then willTopic.value else []
    }

    function WillMessage(): seq<byte> {
      if willTopic.Some? && willMessage.Some? then willMessage.value else []
    }
  }

  /** flags with the bit set, if wanted. */
  function With(flags: byte, bit: nat, wanted: bool): byte
    requires bit in {HAS_WILL, HAS_PASSWORD, HAS_USER_NAME}
  {
    if wanted && !Has(flags, bit) then flags + bit else flags
  }

  const PROTOCOL_NAME: seq<byte> := [77, 81, 84, 84] // "MQTT"

  function TextIf(wanted: bool, s: seq<byte>): seq<byte> {
    if wanted then Text(s) else []
  }

  /** What `mg_send_mqtt_handshake_opt` sends behind the header. */
  function HandshakeBody(clientId: seq<byte>, opts: HandshakeOpts): seq<byte> {
    [0, 4] + PROTOCOL_NAME + [4, opts.Flags()] + ToBigEndian(opts.KeepAlive(), 2)
    + Text(clientId)
    + TextIf(opts.Will(), opts.WillTopic())
    + TextIf(opts.Will(), opts.WillMessage())
    + TextIf(opts.userName.Some?, opts.userName.OrEmpty([]))
    + TextIf(opts.password.Some?, opts.password.OrEmpty([]))
  }

  function HandshakeBytes(clientId: seq<byte>, opts: HandshakeOpts): seq<byte> {
    Header(CONNECT, 0, |HandshakeBody(clientId, opts)|) + HandshakeBody(clientId, opts)
  }

  /** `mg_mqtt_connack`. */
  function ConnackBytes(code: byte): seq<byte> {
    Header(CONNACK, 0, 2) + [0, code]
  }

  /** `mg_send_mqtt_short_command`: an identifier and nothing else. */
  function ShortBytes(cmd: nat, id: nat): seq<byte>
    requires cmd < 16
  {
    Header(cmd, if cmd == PUBREL then 2 else 0, 2) + ToBigEndian(id, 2)
  }

  /** `mg_mqtt_suback`. */
  function SubackBytes(codes: seq<byte>, id: nat): seq<byte> {
    Header(SUBACK, 2, 2 + |codes|) + ToBigEndian(id, 2) + codes
  }

  /** The length announced by `mg_mqtt_subscribe` for the topics: string lengths are not cut here. */
  function TopicsLength(topics: seq<Expression>): nat {
    if topics == [] then 0 else 2 + |topics[0].topic| + 1 + TopicsLength(topics[1..])
  }

  function TopicsBytes(topics: seq<Expression>): seq<byte> {
    if topics == [] then [] else Text(topics[0].topic) + [topics[0].qos] + TopicsBytes(topics[1..])
  }

  /** `mg_mqtt_subscribe`. */
  function SubscribeBytes(topics: seq<Expression>, id: nat): seq<byte> {
    Header(SUBSCRIBE, 2, 2 + TopicsLength(topics)) + ToBigEndian(id, 2) + TopicsBytes(topics)
  }
}
