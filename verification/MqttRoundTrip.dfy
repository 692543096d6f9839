/** What the MQTT senders send, the parser reads back. */
module MqttRoundTrip {
  import opened Bytes
  import opened Chars
  import opened MqttSpec

  // ---- The length ----

  lemma {:induction false} LengthRead(m: nat, i: nat, acc: nat, rest: seq<byte>)
    requires i <= 4 && acc + Shifted(m, i) < TWO32
    ensures ReadLength(LengthBytes(m) + rest, i, acc) == Length(acc + Shifted(m, i), i + |LengthBytes(m)|)
    decreases m
  {
    hide Shifted;
    if m < 128 {
      LastLengthOctet(m, i, acc, rest);
    } else {
      SplitShift(m, i);
      ShiftGrows(m, i);
      var len := acc + Shifted(m % 128, i);
      LengthOctet(m, i, acc, rest);
      hide ReadLength;
      LengthRead(m / 128, i + 1, len, rest);
    }
  }

  lemma LastLengthOctet(m: nat, i: nat, acc: nat, rest: seq<byte>)
    requires m < 128 && i <= 4 && acc + Shifted(m, i) < TWO32
    ensures ReadLength([m] + rest, i, acc) == Length(acc + Shifted(m, i), i + 1)
  {
    hide Shifted;
    assert ([m] + rest)[0] % 128 == m;
  }

  lemma LengthOctet(m: nat, i: nat, acc: nat, rest: seq<byte>)
    requires m >= 128 && i < 4 && acc + Shifted(m % 128, i) < TWO32
    ensures ReadLength(LengthBytes(m) + rest, i, acc)
            == ReadLength(LengthBytes(m / 128) + rest, i + 1, acc + Shifted(m % 128, i))
  {
    hide Shifted;
    var d := LengthBytes(m) + rest;
    assert d[0] % 128 == m % 128 && d[1..] == LengthBytes(m / 128) + rest;
  }

  lemma {:induction false} SplitShift(m: nat, i: nat)
    ensures Shifted(m, i) == Shifted(m % 128, i) + Shifted(m / 128, i + 1)
  {
    if i == 0 {
      assert Shifted(m / 128, 1) == 128 * Shifted(m / 128, 0);
    } else {
      SplitShift(m, i - 1);
    }
  }

  lemma ShiftGrows(m: nat, i: nat)
    requires m >= 128 && Shifted(m, i) < TWO32 && i <= 4
    ensures i < 4
  {
    assert Shifted(m, 1) == 128 * m;
    assert Shifted(m, 2) == 0x4000 * m;
    assert Shifted(m, 3) == 0x20_0000 * m;
    assert Shifted(m, 4) == 0x1000_0000 * m;
  }

  /** A packet is read as its body, whatever follows it in the buffer. */
  lemma PacketRead(cmd: nat, flags: nat, body: seq<byte>, rest: seq<byte>)
    requires cmd < 16 && flags < 16 && |body| < TWO32
    ensures var h := Header(cmd, flags, |body|);
            Parse(h + body + rest)
            == match ParseBody(cmd, Qos(flags), body)
               case BadBody => Malformed
               case GoodBody(b) => Packet(Message(cmd, Qos(flags), b), |h + body|)
  {
    hide ParseBody, LengthBytes, ReadLength, Qos;
    FirstOctet(cmd, flags);
    LengthRead(|body|, 0, 0, body + rest);
    var h := Header(cmd, flags, |body|);
    var d := h + body + rest;
    assert d[1..] == LengthBytes(|body|) + (body + rest);
    assert d[|h|..|h| + |body|] == body;
  }

  lemma FirstOctet(cmd: nat, flags: nat)
    requires cmd < 16 && flags < 16
    ensures (cmd * 16 + flags) / 16 == cmd && Qos(cmd * 16 + flags) == Qos(flags)
  {
    assert (cmd * 16 + flags) / 2 == cmd * 8 + flags / 2;
    assert (cmd * 8 + flags / 2) % 4 == flags / 2 % 4;
  }

  // ---- Strings ----

  lemma TextRead(s: seq<byte>, rest: seq<byte>)
    ensures Scan(Text(s) + rest) == Scanned(s[..|s| % 0x1_0000], rest)
  {
    var n := |s| % 0x1_0000;
    PowersOf256();
    BigEndianRoundTrip(n, 2);
    var b := Text(s) + rest;
    var l := ToBigEndian(n, 2);
    assert b[0] == l[0] && b[1] == l[1] && l == [l[0], l[1]];
    BigEndian2(l[0], l[1]);
    assert U16(b[0], b[1]) == n;
    assert b[2..2 + n] == s[..n] && b[2 + n..] == rest;
  }

  lemma IdRead(id: nat, rest: seq<byte>)
    requires id < 0x1_0000
    ensures var b := ToBigEndian(id, 2) + rest;
            U16(b[0], b[1]) == id && b[2..] == rest
  {
    PowersOf256();
    BigEndianRoundTrip(id, 2);
    var l := ToBigEndian(id, 2);
    assert l == [l[0], l[1]];
    BigEndian2(l[0], l[1]);
  }

  // ---- PUBLISH ----

  /** A published message is read back, id and payload included, exactly when its topic is shorter than 2^16 octets. */
  lemma PublishArrives(topic: seq<byte>, id: nat, flags: nat, data: seq<byte>, rest: seq<byte>)
    requires flags < 16 && id < 0x1_0000 && |data| < TWO31
    ensures var sent := PublishBytes(topic, id, flags, data);
            var body := Publish(topic, if Qos(flags) > 0 then id else 0, data);
            Parse(sent + rest) == Packet(Message(PUBLISH, Qos(flags), body), |sent|) <==> |topic| < 0x1_0000
  {
    hide Parse, Header, Qos, PublishBytes, Text, ToBigEndian, ParsePublish;
    var qos := Qos(flags);
    var idBytes := if qos > 0 then ToBigEndian(id, 2) else [];
    var body := Text(topic) + idBytes + data;
    PublishParts(topic, id, flags, data);
    PacketRead(PUBLISH, flags, body, rest);
    PublishBodyRead(topic, id, qos, data);
    ShortEnough(topic);
  }

  lemma ShortEnough(topic: seq<byte>)
    ensures topic[..|topic| % 0x1_0000] == topic <==> |topic| < 0x1_0000
  {}

  lemma PublishParts(topic: seq<byte>, id: nat, flags: nat, data: seq<byte>)
    requires flags < 16 && id < 0x1_0000 && |data| < TWO31
    ensures var body := Text(topic) + (if Qos(flags) > 0 then ToBigEndian(id, 2) else []) + data;
            && |body| < TWO32 && PublishBytes(topic, id, flags, data) == Header(PUBLISH, flags, |body|) + body
  {
    hide Header, Qos, ToBigEndian;
    var idBytes := if Qos(flags) > 0 then ToBigEndian(id, 2) else [];
    var body := Text(topic) + idBytes + data;
    Rebracket(Header(PUBLISH, flags, |body|), Text(topic), idBytes);
    Rebracket(Header(PUBLISH, flags, |body|), Text(topic) + idBytes, data);
  }

  lemma PublishBodyRead(topic: seq<byte>, id: nat, qos: nat, data: seq<byte>)
    requires id < 0x1_0000
    ensures var idBytes := if qos > 0 then ToBigEndian(id, 2) else [];
            ParsePublish(qos, Text(topic) + idBytes + data)
            == GoodBody(Publish(topic[..|topic| % 0x1_0000], if qos > 0 then id else 0, data))
  {
    hide Scan, Text, ToBigEndian;
    var idBytes := if qos > 0 then ToBigEndian(id, 2) else [];
    Rebracket(Text(topic), idBytes, data);
    TextRead(topic, idBytes + data);
    IdRead(id, data);
    assert [] + data == data;
  }

  // ---- CONNECT ----

  lemma WithBit(flags: byte, bit: nat, wanted: bool, other: nat)
    requires bit in {HAS_WILL, HAS_PASSWORD, HAS_USER_NAME} && other in {HAS_WILL, HAS_PASSWORD, HAS_USER_NAME}
    ensures Has(With(flags, bit, wanted), other) == (Has(flags, other) || (wanted && bit == other))
  {
    if wanted && !Has(flags, bit) {
      if bit == HAS_WILL {
        AddWill(flags);
      } else if bit == HAS_PASSWORD {
        AddPassword(flags);
      } else {
        AddUserName(flags);
      }
    }
  }

  lemma AddWill(flags: nat)
    requires flags / 4 % 2 == 0
    ensures (flags + 4) / 4 % 2 == 1 && (flags + 4) / 64 == flags / 64 && (flags + 4) / 128 == flags / 128
  {
    DivMod(flags + 4, 4, flags / 4 + 1, flags % 4);
    OddNext(flags / 4);
    NoCarry(flags, flags / 64, flags % 64, 8);
    DivMod(flags + 4, 64, flags / 64, flags % 64 + 4);
    NoCarry(flags, flags / 128, flags % 128, 16);
    DivMod(flags + 4, 128, flags / 128, flags % 128 + 4);
  }

  lemma OddNext(n: nat)
    requires n % 2 == 0
    ensures (n + 1) % 2 == 1
  {}

  lemma NoCarry(n: nat, q: nat, r: nat, k: nat)
    requires n / 4 % 2 == 0 && n == 8 * k * q + r && r < 8 * k
    ensures r + 4 < 8 * k
  {
    var half := n / 4 / 2;
    assert 4 * (2 * half) <= n < 4 * (2 * half) + 4;
    assert 8 * k * q == 8 * (k * q);
    assert r - 8 * (half - k * q) < 4;
  }

  lemma AddPassword(flags: nat)
    requires flags / 64 % 2 == 0
    ensures (flags + 64) / 4 % 2 == flags / 4 % 2 && (flags + 64) / 64 % 2 == 1 && (flags + 64) / 128 == flags / 128
  {
    var q, r := Pieces(flags);
    Over64(q, r);
    SixteenFours(flags);
  }

  lemma Pieces(flags: nat) returns (q: nat, r: nat)
    requires flags / 64 % 2 == 0
    ensures flags == 128 * q + r && r < 64
  {
    q := flags / 64 / 2;
    assert flags / 64 == 2 * q;
    r := flags - 128 * q;
  }

  lemma Over64(q: nat, r: nat)
    requires r < 64
    ensures (128 * q + r) / 128 == q && (128 * q + r + 64) / 128 == q && (128 * q + r + 64) / 64 % 2 == 1
  {
    assert (128 * q + r + 64) / 64 == 2 * q + 1;
  }

  lemma SixteenFours(n: nat)
    ensures (n + 64) / 4 % 2 == n / 4 % 2
  {
    assert (n + 64) / 4 == n / 4 + 16;
  }

  lemma AddUserName(flags: nat)
    requires flags < 128
    ensures (flags + 128) / 4 % 2 == flags / 4 % 2 && (flags + 128) / 64 % 2 == flags / 64 % 2
    ensures (flags + 128) / 128 % 2 == 1
  {
    assert (flags + 128) / 4 == flags / 4 + 32 && (flags + 128) / 64 == flags / 64 + 2;
  }

  lemma FlagsAnnounce(opts: HandshakeOpts)
    requires opts.Usable()
    ensures Has(opts.Flags(), HAS_WILL) == opts.Will()
    ensures Has(opts.Flags(), HAS_USER_NAME) == opts.userName.Some?
    ensures Has(opts.Flags(), HAS_PASSWORD) == opts.password.Some?
  {
    hide With, Has;
    var f1 := With(opts.flags, HAS_USER_NAME, opts.userName.Some?);
    var f2 := With(f1, HAS_PASSWORD, opts.password.Some?);
    forall other | other in {HAS_WILL, HAS_PASSWORD, HAS_USER_NAME}
      ensures Has(opts.Flags(), other) == (Has(opts.flags, other) || (other == HAS_USER_NAME && opts.userName.Some?)
        || (other == HAS_PASSWORD && opts.password.Some?)
        || (other == HAS_WILL && opts.willTopic.Some? && opts.willMessage.Some?))
    {
      WithBit(opts.flags, HAS_USER_NAME, opts.userName.Some?, other);
      WithBit(f1, HAS_PASSWORD, opts.password.Some?, other);
      WithBit(f2, HAS_WILL, opts.willTopic.Some? && opts.willMessage.Some?, other);
    }
  }

  /** A string as it comes through a 16-bit length. */
  function Cut(s: seq<byte>): (r: seq<byte>)
    ensures r == s <==> |s| < 0x1_0000
  {
    s[..|s| % 0x1_0000]
  }

  lemma TextIfRead(wanted: bool, s: seq<byte>, rest: seq<byte>)
    requires wanted || s == []
    ensures ScanIf(wanted, TextIf(wanted, s) + rest) == Scanned(Cut(s), rest)
  {
    if wanted {
      TextRead(s, rest);
    } else {
      assert [] + rest == rest;
    }
  }

  /** The five strings of a CONNECT payload, of which three are optional, one behind the other. */
  lemma PayloadRead(name: seq<byte>, version: byte, flags: byte, keepAlive: nat, clientId: seq<byte>,
                    willTopic: seq<byte>, willMessage: seq<byte>, userName: seq<byte>, password: seq<byte>)
    requires Has(flags, HAS_WILL) || (willTopic == [] && willMessage == [])
    requires Has(flags, HAS_USER_NAME) || userName == []
    requires Has(flags, HAS_PASSWORD) || password == []
    ensures var w, u, p := Has(flags, HAS_WILL), Has(flags, HAS_USER_NAME), Has(flags, HAS_PASSWORD);
            ParseConnectPayload(name, version, flags, keepAlive,
              Text(clientId) + (TextIf(w, willTopic) + (TextIf(w, willMessage)
              + (TextIf(u, userName) + (TextIf(p, password) + [])))))
            == GoodBody(Connect(name, version, flags, keepAlive, Cut(clientId), Cut(willTopic), Cut(willMessage),
                                Cut(userName), Cut(password)))
  {
    hide Has, Text, TextIf, Scan, ScanIf;
    var w, u, p := Has(flags, HAS_WILL), Has(flags, HAS_USER_NAME), Has(flags, HAS_PASSWORD);
    var r4 := TextIf(p, password) + [];
    var r3 := TextIf(u, userName) + r4;
    var r2 := TextIf(w, willMessage) + r3;
    var r1 := TextIf(w, willTopic) + r2;
    TextRead(clientId, r1);
    TextIfRead(w, willTopic, r2);
    TextIfRead(w, willMessage, r3);
    TextIfRead(u, userName, r4);
    TextIfRead(p, password, []);
  }

  lemma ConnectBodyRead(opts: HandshakeOpts, keep: seq<byte>, payload: seq<byte>)
    requires keep == ToBigEndian(opts.KeepAlive(), 2) && opts.KeepAlive() < 0x1_0000
    ensures ParseConnect([0, 4] + PROTOCOL_NAME + [4, opts.Flags()] + keep + payload)
            == ParseConnectPayload(PROTOCOL_NAME, 4, opts.Flags(), opts.KeepAlive(), payload)
  {
    hide ParseConnectPayload, HandshakeOpts.Flags;
    var b := [0, 4] + PROTOCOL_NAME + [4, opts.Flags()] + keep + payload;
    assert b[2..6] == PROTOCOL_NAME;
    var r := b[6..];
    assert r == [4, opts.Flags()] + (keep + payload);
    IdRead(opts.KeepAlive(), payload);
    assert r[2] == keep[0] && r[3] == keep[1] && r[4..] == payload;
  }

  /** What a client asks for in its CONNECT packet. */
  function Requested(clientId: seq<byte>, opts: HandshakeOpts): Body {
    Connect(PROTOCOL_NAME, 4, opts.Flags(), opts.KeepAlive(), clientId, opts.WillTopic(), opts.WillMessage(),
            opts.userName.OrEmpty([]), opts.password.OrEmpty([]))
  }

  /**
   * A CONNECT packet, with any combination of will, user name and password, is read back exactly when its strings are
   * shorter than 2^16 octets.
   */
  lemma ConnectArrives(clientId: seq<byte>, opts: HandshakeOpts, rest: seq<byte>)
    requires opts.Usable()
    ensures var sent := HandshakeBytes(clientId, opts);
            Parse(sent + rest) == Packet(Message(CONNECT, 0, Requested(clientId, opts)), |sent|)
            <==> |clientId| < 0x1_0000 && |opts.WillTopic()| < 0x1_0000 && |opts.WillMessage()| < 0x1_0000
                 && |opts.userName.OrEmpty([])| < 0x1_0000 && |opts.password.OrEmpty([])| < 0x1_0000
  {
    hide Parse, Header, Text, TextIf, Has, ParseConnect,
         HandshakeOpts.Flags, HandshakeOpts.Will, HandshakeOpts.WillTopic,
         HandshakeOpts.WillMessage, HandshakeOpts.KeepAlive;
    FlagsAnnounce(opts);
    NoWill(opts);
    var keep := ToBigEndian(opts.KeepAlive(), 2);
    var t0 := Text(clientId);
    var t1, t2 := TextIf(opts.Will(), opts.WillTopic()), TextIf(opts.Will(), opts.WillMessage());
    var t3 := TextIf(opts.userName.Some?, opts.userName.OrEmpty([]));
    var t4 := TextIf(opts.password.Some?, opts.password.OrEmpty([]));
    var front := [0, 4] + PROTOCOL_NAME + [4, opts.Flags()] + keep;
    var payload := t0 + (t1 + (t2 + (t3 + (t4 + []))));
    SixInARow(front, t0, t1, t2, t3, t4);
    assert HandshakeBody(clientId, opts) == front + payload;
    BodySmall(clientId, opts);
    PacketRead(CONNECT, 0, front + payload, rest);
    ConnectBodyRead(opts, keep, payload);
    PayloadRead(PROTOCOL_NAME, 4, opts.Flags(), opts.KeepAlive(), clientId, opts.WillTopic(), opts.WillMessage(),
                opts.userName.OrEmpty([]), opts.password.OrEmpty([]));
  }

  lemma NoWill(opts: HandshakeOpts)
    requires opts.Usable()
    ensures !opts.Will() ==> opts.WillTopic() == [] && opts.WillMessage() == []
    ensures opts.KeepAlive() < 0x1_0000
  {}

  lemma SixInARow(f: seq<byte>, a: seq<byte>, b: seq<byte>, c: seq<byte>, d: seq<byte>, e: seq<byte>)
    ensures f + a + b + c + d + e == f + (a + (b + (c + (d + (e + [])))))
  {
    assert e + [] == e;
    Rebracket(c, d, e);
    Rebracket(b, c, d + e);
    Rebracket(f, a, b);
    Rebracket(f + a + b, c, d);
    Rebracket(f + a + b, c + d, e);
    Rebracket(f + a, b, c + (d + e));
    Rebracket(f, a, b + (c + (d + e)));
  }

  lemma BodySmall(clientId: seq<byte>, opts: HandshakeOpts)
    ensures |HandshakeBody(clientId, opts)| < TWO32
  {}

  // ---- SUBSCRIBE ----

  lemma {:induction false} TopicsRead(done: seq<byte>, topics: seq<Expression>)
    requires forall t <- topics :: |t.topic| < 0x1_0000
    ensures SubscribeTopics(done + TopicsBytes(topics), |done|) == topics
    decreases |topics|
  {
    hide Text, NextSubscribeTopic;
    if topics == [] {
      assert done + [] == done;
      NoTopicAtEnd(done);
    } else {
      var t, more := topics[0], TopicsBytes(topics[1..]);
      var next := done + (Text(t.topic) + [t.qos]);
      assert t in topics && forall u <- topics[1..] :: u in topics;
      Rebracket(done, Text(t.topic) + [t.qos], more);
      TopicAt(done, t, more);
      TopicsRead(next, topics[1..]);
    }
  }

  lemma NoTopicAtEnd(payload: seq<byte>)
    ensures NextSubscribeTopic(payload, |payload|) == NoTopic
  {}

  lemma TopicAt(done: seq<byte>, t: Expression, more: seq<byte>)
    requires |t.topic| < 0x1_0000
    ensures NextSubscribeTopic(done + (Text(t.topic) + [t.qos]) + more, |done|)
            == NextTopic(t.topic, t.qos, |done + (Text(t.topic) + [t.qos])|)
  {
    hide ToBigEndian, NextSubscribeTopic, U16;
    var n, l := |t.topic|, ToBigEndian(|t.topic|, 2);
    IdRead(n, []);
    assert l + [] == l && t.topic[..n] == t.topic;
    assert l == [l[0], l[1]];
    TopicOctets(done, l[0], l[1], t.topic, t.qos, more);
    assert Text(t.topic) + [t.qos] == [l[0], l[1]] + t.topic + [t.qos];
  }

  lemma TopicOctets(done: seq<byte>, high: byte, low: byte, topic: seq<byte>, qos: byte, more: seq<byte>)
    requires U16(high, low) == |topic|
    ensures var entry := [high, low] + topic + [qos];
            NextSubscribeTopic(done + entry + more, |done|) == NextTopic(topic, qos, |done + entry|)
  {
    hide U16;
    var payload := done + ([high, low] + topic + [qos]) + more;
    assert payload[|done| + 2..|done| + 2 + |topic|] == topic;
  }

  lemma {:induction false} TopicsLengths(topics: seq<Expression>)
    ensures |TopicsBytes(topics)| <= TopicsLength(topics)
    ensures |TopicsBytes(topics)| == TopicsLength(topics) <==> forall t <- topics :: |t.topic| < 0x1_0000
  {
    if topics != [] {
      TopicsLengths(topics[1..]);
      assert topics == [topics[0]] + topics[1..];
      assert |topics[0].topic| % 0x1_0000 == |topics[0].topic| <==> |topics[0].topic| < 0x1_0000;
    }
  }

  /** A SUBSCRIBE packet gives back its topics, asked for one by one, exactly when they are shorter than 2^16 octets. */
  lemma SubscribeArrives(topics: seq<Expression>, id: nat, rest: seq<byte>)
    requires id < 0x1_0000 && TopicsLength(topics) < TWO31
    ensures var sent := SubscribeBytes(topics, id);
            && (Parse(sent + rest) == Packet(Message(SUBSCRIBE, 1, Subscribe(id, TopicsBytes(topics))), |sent|)
                <==> forall t <- topics :: |t.topic| < 0x1_0000)
            && ((forall t <- topics :: |t.topic| < 0x1_0000) ==> SubscribeTopics(TopicsBytes(topics), 0) == topics)
  {
    hide Parse, Header, NextSubscribeTopic, Text, ToBigEndian, TopicsBytes, TopicsLength, SubscribeTopics;
    TopicsLengths(topics);
    var bytes, body := TopicsBytes(topics), ToBigEndian(id, 2) + TopicsBytes(topics);
    var h := Header(SUBSCRIBE, 2, 2 + TopicsLength(topics));
    Rebracket(h, ToBigEndian(id, 2), bytes);
    Rebracket(h, body, rest);
    if forall t <- topics :: |t.topic| < 0x1_0000 {
      PacketRead(SUBSCRIBE, 2, body, rest);
      IdRead(id, bytes);
      TopicsRead([], topics);
      assert [] + bytes == bytes;
    } else {
      LongerRead(SUBSCRIBE, 2, 2 + TopicsLength(topics), body + rest);
    }
  }

  /** However it goes on, a packet that announces more than it has is not read as what it has. */
  lemma LongerRead(cmd: nat, flags: nat, len: nat, after: seq<byte>)
    requires cmd < 16 && flags < 16 && len < TWO32
    ensures var r := Parse(Header(cmd, flags, len) + after);
            r.Packet? ==> r.len == |Header(cmd, flags, len)| + len
  {
    hide ParseBody, LengthBytes;
    var d := Header(cmd, flags, len) + after;
    assert d[1..] == LengthBytes(len) + after;
    LengthRead(len, 0, 0, after);
  }
}
