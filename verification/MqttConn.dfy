/** The MQTT code of the library, working on the connection's buffers. */
module MqttConn {
  import opened Bytes
  import opened Chars
  import opened Buffers
  import opened MqttSpec
  import opened MqttRoundTrip
  import opened MqttRuns

  // ---- Sending ----

  method SendHeader(out: Mbuf, cmd: nat, flags: nat, len: nat)
    requires out.Valid() && cmd < 16 && flags < 16
    modifies out, out.buf
    ensures out.Valid() && (fresh(out.buf) || out.buf == old(out.buf))
    ensures out.Contents() == old(out.Contents()) + Header(cmd, flags, len)
  {
    var buf: seq<byte> := [cmd * 16 + flags];
    var n, more := len, true;
    while more
      invariant if more then buf + LengthBytes(n) == Header(cmd, flags, len) else buf == Header(cmd, flags, len)
      decreases more, n
    {
      var octet := n % 0x80;
      n := n / 0x80;
      more := n > 0;
      buf := buf + [if more then octet + 0x80 else octet];
    }
    out.Add(buf);
  }

  /** A string behind its length, both as far as 16 bits reach. */
  method SendText(out: Mbuf, s: seq<byte>)
    requires out.Valid()
    modifies out, out.buf
    ensures out.Valid() && (fresh(out.buf) || out.buf == old(out.buf))
    ensures out.Contents() == old(out.Contents()) + Text(s)
  {
    var n := |s| % 0x1_0000;
    Rebracket(out.Contents(), ToBigEndian(n, 2), s[..n]);
    out.Add(ToBigEndian(n, 2));
    out.Add(s[..n]);
  }

  method SendPublish(out: Mbuf, topic: seq<byte>, id: nat, flags: nat, data: seq<byte>)
    requires out.Valid() && flags < 16
    modifies out, out.buf
    ensures out.Valid() && (fresh(out.buf) || out.buf == old(out.buf))
    ensures out.Contents() == old(out.Contents()) + PublishBytes(topic, id, flags, data)
  {
    hide Header, Text, ThroughInt, ToBigEndian;
    ghost var before := out.Contents();
    var qos := Qos(flags);
    var total := 2 + |topic| % 0x1_0000 + |data| + if qos > 0 then 2 else 0;
    ghost var idBytes := if qos > 0 then ToBigEndian(id, 2) else [];
    ghost var h := Header(PUBLISH, flags, total);
    SendHeader(out, PUBLISH, flags, total);
    SendText(out, topic);
    if qos > 0 {
      out.Add(ToBigEndian(id, 2));
    }
    Queue(out, data);
    assert out.Contents() == before + h + Text(topic) + idBytes + ThroughInt(data);
    Rebracket(before, h, Text(topic));
    Rebracket(before, h + Text(topic), idBytes);
    Rebracket(before, h + Text(topic) + idBytes, ThroughInt(data));
  }

  method SendSubscribe(out: Mbuf, topics: seq<Expression>, id: nat)
    requires out.Valid()
    modifies out, out.buf
    ensures out.Valid() && (fresh(out.buf) || out.buf == old(out.buf))
    ensures out.Contents() == old(out.Contents()) + SubscribeBytes(topics, id)
  {
    hide Header, Text, ToBigEndian;
    ghost var before := out.Contents();
    var total := 2;
    for i := 0 to |topics|
      invariant total + TopicsLength(topics[i..]) == 2 + TopicsLength(topics)
      invariant out.Valid() && out.Contents() == before && out.buf == old(out.buf)
    {
      assert topics[i..][1..] == topics[i + 1..];
      total := total + 2 + |topics[i].topic| + 1;
    }
    assert topics[|topics|..] == [];
    SendHeader(out, SUBSCRIBE, 2, total);
    out.Add(ToBigEndian(id, 2));
    ghost var start := out.Contents();
    SendTopics(out, topics);
    Rebracket(before, Header(SUBSCRIBE, 2, total), ToBigEndian(id, 2));
    Rebracket(before, Header(SUBSCRIBE, 2, total) + ToBigEndian(id, 2), TopicsBytes(topics));
  }

  method SendTopics(out: Mbuf, topics: seq<Expression>)
    requires out.Valid()
    modifies out, out.buf
    ensures out.Valid() && (fresh(out.buf) || out.buf == old(out.buf))
    ensures out.Contents() == old(out.Contents()) + TopicsBytes(topics)
  {
    hide Text;
    ghost var goal := out.Contents() + TopicsBytes(topics);
    for i := 0 to |topics|
      invariant out.Valid() && (fresh(out.buf) || out.buf == old(out.buf))
      invariant out.Contents() + TopicsBytes(topics[i..]) == goal
    {
      var t := topics[i];
      assert topics[i..][1..] == topics[i + 1..];
      ghost var more := TopicsBytes(topics[i + 1..]);
      Rebracket(out.Contents(), Text(t.topic) + [t.qos], more);
      Rebracket(out.Contents(), Text(t.topic), [t.qos]);
      SendText(out, t.topic);
      out.Add([t.qos]);
    }
    assert topics[|topics|..] == [] && out.Contents() + [] == out.Contents();
  }

  method SendConnack(out: Mbuf, code: byte)
    requires out.Valid()
    modifies out, out.buf
    ensures out.Valid() && (fresh(out.buf) || out.buf == old(out.buf))
    ensures out.Contents() == old(out.Contents()) + ConnackBytes(code)
  {
    hide Header;
    ghost var before := out.Contents();
    SendHeader(out, CONNACK, 0, 2);
    out.Add([0]);
    out.Add([code]);
    assert out.Contents() == before + ConnackBytes(code);
  }

  method SendShortCommand(out: Mbuf, cmd: nat, id: nat)
    requires out.Valid() && cmd < 16
    modifies out, out.buf
    ensures out.Valid() && (fresh(out.buf) || out.buf == old(out.buf))
    ensures out.Contents() == old(out.Contents()) + ShortBytes(cmd, id)
  {
    hide Header, ToBigEndian;
    ghost var before := out.Contents();
    var flags := if cmd == PUBREL then 2 else 0;
    SendHeader(out, cmd, flags, 2);
    out.Add(ToBigEndian(id, 2));
    Rebracket(before, Header(cmd, flags, 2), ToBigEndian(id, 2));
  }

  method SendSuback(out: Mbuf, codes: seq<byte>, id: nat)
    requires out.Valid()
    modifies out, out.buf
    ensures out.Valid() && (fresh(out.buf) || out.buf == old(out.buf))
    ensures out.Contents() == old(out.Contents()) + SubackBytes(codes, id)
  {
    hide Header, ToBigEndian;
    ghost var before, h := out.Contents(), Header(SUBACK, 2, 2 + |codes|);
    SendHeader(out, SUBACK, 2, 2 + |codes|);
    out.Add(ToBigEndian(id, 2));
    ghost var start := out.Contents();
    for i := 0 to |codes|
      invariant out.Valid() && (fresh(out.buf) || out.buf == old(out.buf))
      invariant out.Contents() == start + codes[..i]
    {
      Rebracket(start, codes[..i], [codes[i]]);
      assert codes[..i + 1] == codes[..i] + [codes[i]];
      out.Add([codes[i]]);
    }
    assert codes[..|codes|] == codes;
    Rebracket(before, h, ToBigEndian(id, 2));
    Rebracket(before, h + ToBigEndian(id, 2), codes);
  }

  method SendTextIf(out: Mbuf, wanted: bool, s: seq<byte>)
    requires out.Valid()
    modifies out, out.buf
    ensures out.Valid() && (fresh(out.buf) || out.buf == old(out.buf))
    ensures out.Contents() == old(out.Contents()) + TextIf(wanted, s)
  {
    if wanted {
      SendText(out, s);
    }
  }

  method SendHandshake(out: Mbuf, clientId: seq<byte>, opts: HandshakeOpts)
    requires out.Valid() && opts.Usable()
    modifies out, out.buf
    ensures out.Valid() && (fresh(out.buf) || out.buf == old(out.buf))
    ensures out.Contents() == old(out.Contents()) + HandshakeBytes(clientId, opts)
  {
    hide Header, HandshakeBody;
    var total := HandshakeLength(clientId, opts);
    Rebracket(out.Contents(), Header(CONNECT, 0, total), HandshakeBody(clientId, opts));
    SendHeader(out, CONNECT, 0, total);
    SendHandshakeBody(out, clientId, opts);
  }

  method SendHandshakeBody(out: Mbuf, clientId: seq<byte>, opts: HandshakeOpts)
    requires out.Valid() && opts.Usable()
    modifies out, out.buf
    ensures out.Valid() && (fresh(out.buf) || out.buf == old(out.buf))
    ensures out.Contents() == old(out.Contents()) + HandshakeBody(clientId, opts)
  {
    hide Text, TextIf, HandshakeOpts.Flags, HandshakeOpts.Will, HandshakeOpts.WillTopic, HandshakeOpts.WillMessage,
         ToBigEndian;
    var start := [0, 4] + PROTOCOL_NAME + [4, opts.Flags()] + ToBigEndian(opts.KeepAlive(), 2);
    ghost var t0 := Text(clientId);
    ghost var t1, t2 := TextIf(opts.Will(), opts.WillTopic()), TextIf(opts.Will(), opts.WillMessage());
    ghost var t3 := TextIf(opts.userName.Some?, opts.userName.OrEmpty([]));
    ghost var t4 := TextIf(opts.password.Some?, opts.password.OrEmpty([]));
    ghost var before := out.Contents();
    SixInARow(before + start, t0, t1, t2, t3, t4);
    SixInARow(start, t0, t1, t2, t3, t4);
    Rebracket(before, start, t0 + (t1 + (t2 + (t3 + (t4 + [])))));
    hide PROTOCOL_NAME;
    out.Add(start);
    SendText(out, clientId);
    SendTextIf(out, opts.Will(), opts.WillTopic());
    SendTextIf(out, opts.Will(), opts.WillMessage());
    SendTextIf(out, opts.userName.Some?, opts.userName.OrEmpty([]));
    SendTextIf(out, opts.password.Some?, opts.password.OrEmpty([]));
  }

  /** The length announced before anything is sent. */
  method HandshakeLength(clientId: seq<byte>, opts: HandshakeOpts) returns (total: nat)
    requires opts.Usable()
    ensures total == |HandshakeBody(clientId, opts)|
  {
    hide HandshakeOpts.Flags, HandshakeOpts.Will, HandshakeOpts.WillTopic, HandshakeOpts.WillMessage;
    total := 12 + |clientId| % 0x1_0000;
    if opts.Will() {
      total := total + 2 + |opts.WillTopic()| % 0x1_0000 + 2 + |opts.WillMessage()| % 0x1_0000;
    }
    if opts.userName.Some? {
      total := total + 2 + |opts.userName.value| % 0x1_0000;
    }
    if opts.password.Some? {
      total := total + 2 + |opts.password.value| % 0x1_0000;
    }
  }

  // ---- Receiving ----

  /** The variable length at the front of the buffer. */
  method ReadPacketLength(io: Mbuf) returns (r: Length)
    requires io.Valid() && io.len >= 2
    ensures r == ReadLength(io.Contents()[1..], 0, 0)
  {
    hide Shifted;
    ghost var d := io.Contents();
    var p, lenLen := 1, 0;
    var len: nat := 0;
    r := MoreNeeded;
    while p < io.len
      invariant p == 1 + lenLen <= io.len && lenLen <= 4
      invariant ReadLength(d[p..], lenLen, len) == ReadLength(d[1..], 0, 0)
    {
      var lc := io.buf[p];
      assert d[p..][1..] == d[p + 1..];
      len := (len + Shifted(lc % 128, lenLen)) % TWO32;
      p := p + 1;
      lenLen := lenLen + 1;
      if lc < 128 {
        return Length(len, lenLen);
      }
      if lenLen > 4 {
        return TooLong;
      }
    }
  }

  /** `parse_mqtt`. */
  method ParsePacket(io: Mbuf) returns (r: Result)
    requires io.Valid()
    ensures r == Parse(io.Contents())
  {
    hide MqttSpec.ParseBody, ReadLength;
    ghost var d := io.Contents();
    if io.len < 2 {
      return Incomplete;
    }
    var header := io.buf[0];
    var length := ReadPacketLength(io);
    match length
    case MoreNeeded => return Incomplete;
    case TooLong => return Malformed;
    case Length(len, octets) =>
      var start := 1 + octets;
      if start + len > io.len {
        return Incomplete;
      }
      SliceAgain(io.buf[..], 0, io.len, start, start + len);
      assert io.buf[..][0..io.len] == d;
      match MqttSpec.ParseBody(header / 16, Qos(header), io.buf[start..start + len])
      case BadBody => return Malformed;
      case GoodBody(body) => return Packet(Message(header / 16, Qos(header), body), start + len);
  }

  class Conn {
    const recv: Mbuf
    const limit: nat
    var closed: bool
    var log: seq<Message> // what the handler was called with

    constructor (limit: nat)
      ensures recv.Valid() && State() == Session([], [], false) && fresh(recv) && fresh(recv.buf)
      ensures this.limit == limit
    {
      recv := new Mbuf(0);
      this.limit := limit;
      closed := false;
      log := [];
    }

    ghost function State(): Session
      requires recv.Valid()
      reads this, recv, recv.buf
    {
      Session(recv.Contents(), log, closed)
    }

    /** `MG_EV_RECV`: every packet in the buffer is handled and removed. */
    method Receive(chunk: seq<byte>)
      requires recv.Valid()
      modifies this, recv, recv.buf
      ensures recv.Valid() && (fresh(recv.buf) || recv.buf == old(recv.buf))
      ensures State() == old(State()).Receive(chunk, limit)
    {
      hide Parse;
      recv.Add(chunk);
      ghost var goal := State().HandleAll(limit);
      while true
        invariant recv.Valid() && (fresh(recv.buf) || recv.buf == old(recv.buf))
        invariant State().HandleAll(limit) == goal
        decreases recv.len
      {
        var r := ParsePacket(recv);
        match r
        case Malformed =>
          closed := true;
          return;
        case Incomplete =>
          if limit > 0 && recv.len >= limit {
            closed := true;
          }
          return;
        case Packet(msg, len) =>
          log := log + [msg];
          recv.Remove(len);
      }
    }
  }
}
