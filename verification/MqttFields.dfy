/** MQTT packets octet by octet: first octets, flags, the fields of CONNECT, and the answers of a broker. */
module MqttFields {
  import opened Bytes
  import opened Chars
  import opened MqttSpec
  import opened MqttRoundTrip

  // ---- Section 2.2: the fixed header ----

  /** The first octet gives back the command and all four flags. */
  lemma FirstOctetSays(cmd: nat, flags: nat, len: nat)
    requires cmd < 16 && flags < 16
    ensures var first := Header(cmd, flags, len)[0]; first / 16 == cmd && first % 16 == flags
  {
    DivMod(cmd * 16 + flags, 16, cmd, flags);
  }

  /** So RETAIN and DUP are sent as asked for. */
  lemma PublishFlags(topic: seq<byte>, id: nat, flags: nat, data: seq<byte>)
    requires flags < 16
    ensures var first := PublishBytes(topic, id, flags, data)[0]; first / 16 == PUBLISH && first % 16 == flags
  {
    FirstOctetSays(PUBLISH, flags, 0);
  }

  /** QoS is the second and third of them. */
  lemma QosBits(flags: byte)
    ensures Qos(flags) == 2 * Bit(flags, 2) + Bit(flags, 1)
  {
    assert Pow2(1) == 2 && Pow2(2) == 4;
    assert flags / 4 == flags / 2 / 2;
  }

  /** 128 to the power k. */
  function Pow128(k: nat): (p: nat)
    ensures p >= 1
  {
    if k == 0 then 1 else 128 * Pow128(k - 1)
  }

  /** Section 2.2.3: octet i has seven bits of the length, and says whether more follow. */
  lemma {:induction false} LengthOctets(n: nat, i: nat)
    requires i < |LengthBytes(n)|
    ensures LengthBytes(n)[i] == n / Pow128(i) % 128 + if i < |LengthBytes(n)| - 1 then 128 else 0
  {
    if i == 0 {
      assert n / 1 == n;
    } else {
      LengthOctets(n / 128, i - 1);
      Nested(n, Pow128(i - 1));
    }
  }

  lemma Nested(n: nat, p: nat)
    requires p > 0
    ensures n / 128 / p == n / (128 * p)
  {
    var q, r := n / 128 / p, n / 128 % p;
    assert n == 128 * (p * q + r) + n % 128;
    assert n == (128 * p) * q + (128 * r + n % 128);
    DivMod(n, 128 * p, q, 128 * r + n % 128);
  }

  /** There are no more octets than it takes. */
  lemma {:induction false} LengthSizes(n: nat, k: nat)
    requires k > 0
    ensures |LengthBytes(n)| <= k <==> n < Pow128(k)
  {
    if n >= 128 && k > 1 {
      LengthSizes(n / 128, k - 1);
    }
  }

  // ---- Section 3.1: the fields of CONNECT ----

  /** The number of a flag's bit. */
  function BitOf(flag: nat): nat
    requires flag in {HAS_WILL, HAS_PASSWORD, HAS_USER_NAME}
  {
    if flag == HAS_WILL then 2 else if flag == HAS_PASSWORD then 6 else 7
  }

  lemma FlagBits()
    ensures Pow2(2) == HAS_WILL && Pow2(6) == HAS_PASSWORD && Pow2(7) == HAS_USER_NAME
  {
    assert Pow2(4) == 16;
  }

  lemma HasBit(flags: byte, flag: nat)
    requires flag in {HAS_WILL, HAS_PASSWORD, HAS_USER_NAME}
    ensures Has(flags, flag) <==> Bit(flags, BitOf(flag)) == 1
  {
    FlagBits();
  }

  lemma WithSets(flags: byte, flag: nat, wanted: bool, j: nat)
    requires flag in {HAS_WILL, HAS_PASSWORD, HAS_USER_NAME}
    ensures Bit(With(flags, flag, wanted), j) == if wanted && j == BitOf(flag) then 1 else Bit(flags, j)
  {
    hide Bit, Has;
    FlagBits();
    HasBit(flags, flag);
    if wanted && !Has(flags, flag) {
      SetBit(flags, BitOf(flag), j);
    }
  }

  /** The flags sent: those asked for, and the three that say which strings follow. */
  lemma FlagsSent(opts: HandshakeOpts, j: nat)
    ensures Bit(opts.Flags(), j)
            == if (j == 7 && opts.userName.Some?) || (j == 6 && opts.password.Some?)
                  || (j == 2 && opts.willTopic.Some? && opts.willMessage.Some?)
               then 1 else Bit(opts.flags, j)
  {
    hide Bit, With;
    var f1 := With(opts.flags, HAS_USER_NAME, opts.userName.Some?);
    var f2 := With(f1, HAS_PASSWORD, opts.password.Some?);
    WithSets(opts.flags, HAS_USER_NAME, opts.userName.Some?, j);
    WithSets(f1, HAS_PASSWORD, opts.password.Some?, j);
    WithSets(f2, HAS_WILL, opts.willTopic.Some? && opts.willMessage.Some?, j);
  }

  /** What a broker reads is what the options say. */
  lemma ConnectFields(clientId: seq<byte>, opts: HandshakeOpts, rest: seq<byte>)
    requires opts.Usable() && |clientId| < 0x1_0000
    requires opts.willTopic.Some? ==> |opts.willTopic.value| < 0x1_0000
    requires opts.willMessage.Some? ==> |opts.willMessage.value| < 0x1_0000
    requires opts.userName.Some? ==> |opts.userName.value| < 0x1_0000
    requires opts.password.Some? ==> |opts.password.value| < 0x1_0000
    ensures var r := Parse(HandshakeBytes(clientId, opts) + rest);
            && r.Packet? && r.msg.cmd == 1 && r.msg.body.Connect?
            && var b := r.msg.body;
               var will := opts.willTopic.Some? && opts.willMessage.Some?;
               && b.protocolName == [77, 81, 84, 84] && b.version == 4 && b.clientId == clientId
               && b.keepAlive == (if opts.keepAlive == 0 then 60 else opts.keepAlive)
               && b.willTopic == (if will then opts.willTopic.value else [])
               && b.willMessage == (if will then opts.willMessage.value else [])
               && b.userName == (if opts.userName.Some? then opts.userName.value else [])
               && b.password == (if opts.password.Some? then opts.password.value else [])
               && forall j :: 0 <= j < 8 ==>
                                (Bit(b.flags, j) == 1
                                 <==> (j == 7 && opts.userName.Some?) || (j == 6 && opts.password.Some?)
                                      || (j == 2 && will) || Bit(opts.flags, j) == 1)
  {
    hide Parse, HandshakeBytes, Bit, HandshakeOpts.Flags, Has;
    ConnectArrives(clientId, opts, rest);
    forall j: nat | j < 8
      ensures Bit(opts.Flags(), j)
              == if (j == 7 && opts.userName.Some?) || (j == 6 && opts.password.Some?)
                    || (j == 2 && opts.willTopic.Some? && opts.willMessage.Some?)
                 then 1 else Bit(opts.flags, j)
    {
      FlagsSent(opts, j);
    }
  }

  // ---- Sections 3.2, 3.4 to 3.7 and 3.9: the answers of a broker ----

  /** A CONNACK is read as its return code, its second octet, whatever its flags and whatever follows. */
  lemma ConnackRead(flags: nat, session: byte, code: byte, more: seq<byte>, rest: seq<byte>)
    requires flags < 16 && |more| < TWO32 - 2
    ensures var sent := Header(CONNACK, flags, 2 + |more|) + ([session, code] + more);
            Parse(sent + rest) == Packet(Message(2, Qos(flags), Connack(code)), |sent|)
  {
    hide Parse, Header, Qos;
    PacketRead(CONNACK, flags, [session, code] + more, rest);
  }

  /** Four octets. */
  lemma ConnackOctets(session: byte, code: byte, rest: seq<byte>)
    ensures Parse([0x20, 2, session, code] + rest) == Packet(Message(2, 0, Connack(code)), 4)
  {
    hide Parse;
    ConnackRead(0, session, code, [], rest);
    assert Header(CONNACK, 0, 2) == [0x20, 2];
    assert [0x20, 2] + ([session, code] + []) == [0x20, 2, session, code];
  }

  /** An acknowledgement is read as its identifier; a SUBACK has return codes behind it. */
  lemma AckRead(cmd: nat, flags: nat, id: nat, more: seq<byte>, rest: seq<byte>)
    requires cmd in {4, 5, 6, 7, 9} && flags < 16 && id < 0x1_0000 && |more| < TWO32 - 2
    ensures var sent := Header(cmd, flags, 2 + |more|) + (ToBigEndian(id, 2) + more);
            Parse(sent + rest) == Packet(Message(cmd, Qos(flags), Acknowledged(id)), |sent|)
  {
    hide Parse, Header, Qos, ToBigEndian;
    IdRead(id, more);
    PacketRead(cmd, flags, ToBigEndian(id, 2) + more, rest);
  }

  lemma AckOctets(cmd: nat, flags: nat, id: nat, rest: seq<byte>)
    requires cmd in {4, 5, 6, 7, 9} && flags < 16 && id < 0x1_0000
    ensures Parse([cmd * 16 + flags, 2] + ToBigEndian(id, 2) + rest)
            == Packet(Message(cmd, Qos(flags), Acknowledged(id)), 4)
  {
    hide Parse, Qos, ToBigEndian;
    AckRead(cmd, flags, id, [], rest);
    assert Header(cmd, flags, 2) == [cmd * 16 + flags, 2];
    assert ToBigEndian(id, 2) + [] == ToBigEndian(id, 2);
  }

  /** Answers and subscriptions with less than two octets are malformed. */
  lemma TooShort(cmd: nat, flags: nat, body: seq<byte>, rest: seq<byte>)
    requires cmd in {2, 4, 5, 6, 7, 8, 9} && flags < 16 && |body| < 2
    ensures Parse(Header(cmd, flags, |body|) + body + rest) == Malformed
  {
    hide Parse, Header, Qos;
    PacketRead(cmd, flags, body, rest);
  }

  /** Other commands are handed on without their contents. */
  lemma OthersRead(cmd: nat, flags: nat, body: seq<byte>, rest: seq<byte>)
    requires cmd in {0, 10, 11, 12, 13, 14, 15} && flags < 16 && |body| < TWO32
    ensures var sent := Header(cmd, flags, |body|) + body;
            Parse(sent + rest) == Packet(Message(cmd, Qos(flags), Unhandled), |sent|)
  {
    hide Parse, Header, Qos;
    PacketRead(cmd, flags, body, rest);
  }

  // ---- What is no packet ----

  /** How many octets in front have their high bit set. */
  function Continued(d: seq<byte>): (k: nat)
    ensures k <= |d| && (forall i :: 0 <= i < k ==> d[i] >= 128) && (k < |d| ==> d[k] < 128)
  {
    if d == [] || d[0] < 128 then 0 else 1 + Continued(d[1..])
  }

  /** The seven bits of each octet, the first the lowest. */
  function SevenBits(d: seq<byte>): nat {
    if d == [] then 0 else d[0] % 128 + 128 * SevenBits(d[1..])
  }

  /** The length ends with the first octet below 128, of five; it is taken in 32 bits. */
  lemma {:induction false} LengthDecides(d: seq<byte>, i: nat, acc: nat)
    requires i <= 4 && acc < TWO32
    ensures ReadLength(d, i, acc)
            == if Continued(d) + i >= 5 then TooLong
               else if Continued(d) == |d| then MoreNeeded
               else Length((acc + Pow128(i) * SevenBits(d[..Continued(d) + 1])) % TWO32, i + Continued(d) + 1)
    decreases |d|
  {
    if d != [] {
      var len := (acc + Shifted(d[0] % 128, i)) % TWO32;
      ShiftedIs(d[0] % 128, i);
      if d[0] >= 128 {
        if i < 4 {
          LengthDecides(d[1..], i + 1, len);
          var more := d[1..][..Continued(d[1..]) + if Continued(d[1..]) < |d[1..]| then 1 else 0];
          if Continued(d[1..]) < |d[1..]| {
            assert d[..Continued(d) + 1][1..] == more;
            Carry(acc, d[0] % 128, Pow128(i), SevenBits(more));
          }
        }
      } else {
        assert d[..1][1..] == [] && SevenBits(d[..1]) == d[0] % 128;
      }
    }
  }

  lemma {:induction false} ShiftedIs(v: nat, i: nat)
    ensures Shifted(v, i) == Pow128(i) * v
  {
    if i > 0 {
      ShiftedIs(v, i - 1);
    }
  }

  lemma Carry(acc: nat, low: nat, p: nat, high: nat)
    ensures ((acc + p * low) % TWO32 + (128 * p) * high) % TWO32 == (acc + p * (low + 128 * high)) % TWO32
  {
    var n := acc + p * low;
    var more := (128 * p) * high;
    assert p * (low + 128 * high) == p * low + more;
    var q, r := (n % TWO32 + more) / TWO32, (n % TWO32 + more) % TWO32;
    DivMod(n + more, TWO32, q + n / TWO32, r);
  }

  /** What is no packet yet: less than two octets, or a length or contents that have not all come. */
  lemma IncompleteIff(d: seq<byte>)
    ensures Parse(d) == Incomplete
            <==> |d| < 2 || (Continued(d[1..]) < 5 && Continued(d[1..]) == |d| - 1)
                 || (Continued(d[1..]) < 5 && Continued(d[1..]) < |d| - 1
                     && |d| < 2 + Continued(d[1..]) + SevenBits(d[1..2 + Continued(d[1..])]) % TWO32)
  {
    hide ParseBody;
    if |d| >= 2 {
      LengthDecides(d[1..], 0, 0);
      var k := Continued(d[1..]);
      if k < |d| - 1 {
        assert d[1..][..k + 1] == d[1..2 + k];
      }
    }
  }

  /** A string is what a length of two octets says. */
  lemma Written(b: seq<byte>)
    requires Scan(b).Scanned?
    ensures var s := Scan(b); |s.text| < 0x1_0000 && b == Text(s.text) + s.rest
  {
    hide ToBigEndian, U16;
    var s := Scan(b);
    TwoOctets(b[0], b[1]);
    AllOf(s.text);
    assert b == [b[0], b[1]] + s.text + s.rest;
  }

  lemma WrittenIf(wanted: bool, b: seq<byte>)
    requires ScanIf(wanted, b).Scanned?
    ensures var s := ScanIf(wanted, b);
            |s.text| < 0x1_0000 && b == TextIf(wanted, s.text) + s.rest && (wanted || s.text == [])
  {
    if wanted {
      Written(b);
    }
  }

  /** The octets of a CONNECT with these fields. */
  function ConnectBytes(c: Body): seq<byte>
    requires c.Connect? && c.keepAlive < 0x1_0000
  {
    Text(c.protocolName) + ([c.version, c.flags] + ToBigEndian(c.keepAlive, 2)
    + (Text(c.clientId) + (TextIf(Has(c.flags, HAS_WILL), c.willTopic) + (TextIf(Has(c.flags, HAS_WILL), c.willMessage)
    + (TextIf(Has(c.flags, HAS_USER_NAME), c.userName) + (TextIf(Has(c.flags, HAS_PASSWORD), c.password) + []))))))
  }

  /** Strings of less than 2^16 octets, and none that the flags do not announce. */
  predicate Announced(c: Body)
    requires c.Connect?
  {
    && c.keepAlive < 0x1_0000
    && |c.protocolName| < 0x1_0000 && |c.clientId| < 0x1_0000 && |c.willTopic| < 0x1_0000
    && |c.willMessage| < 0x1_0000 && |c.userName| < 0x1_0000 && |c.password| < 0x1_0000
    && (Has(c.flags, HAS_WILL) || (c.willTopic == [] && c.willMessage == []))
    && (Has(c.flags, HAS_USER_NAME) || c.userName == []) && (Has(c.flags, HAS_PASSWORD) || c.password == [])
  }

  /** Section 3.1: a CONNECT is accepted exactly when it is the octets of some fields, and then those are its fields. */
  lemma ConnectIff(b: seq<byte>, c: Body)
    requires c.Connect?
    ensures ParseConnect(b) == GoodBody(c) <==> Announced(c) && b == ConnectBytes(c)
  {
    hide Text, TextIf, Has, ToBigEndian;
    if ParseConnect(b) == GoodBody(c) {
      ConnectWritten(b, c);
    }
    if Announced(c) && b == ConnectBytes(c) {
      ConnectRead(c);
    }
  }

  lemma ConnectWritten(b: seq<byte>, c: Body)
    requires c.Connect? && ParseConnect(b) == GoodBody(c)
    ensures Announced(c) && b == ConnectBytes(c)
  {
    hide Text, TextIf, Has, ToBigEndian, Scan, ScanIf;
    Written(b);
    var r := Scan(b).rest;
    TwoOctets(r[2], r[3]);
    assert r == [r[0], r[1]] + [r[2], r[3]] + r[4..];
    PayloadWritten(c, r[4..]);
  }

  lemma TwoOctets(a: byte, b: byte)
    ensures ToBigEndian(U16(a, b), 2) == [a, b]
  {
    U16Halves(a, b);
    OctetOfBigEndian(U16(a, b), 2, 0);
    OctetOfBigEndian(U16(a, b), 2, 1);
    assert Pow256(1) == 256 && Pow256(0) == 1;
  }

  lemma PayloadWritten(c: Body, b: seq<byte>)
    requires c.Connect? && ParseConnectPayload(c.protocolName, c.version, c.flags, c.keepAlive, b) == GoodBody(c)
    ensures var w := Has(c.flags, HAS_WILL);
            && |c.clientId| < 0x1_0000 && |c.willTopic| < 0x1_0000 && |c.willMessage| < 0x1_0000
            && |c.userName| < 0x1_0000 && |c.password| < 0x1_0000
            && (w || (c.willTopic == [] && c.willMessage == []))
            && (Has(c.flags, HAS_USER_NAME) || c.userName == []) && (Has(c.flags, HAS_PASSWORD) || c.password == [])
            && b == Text(c.clientId) + (TextIf(w, c.willTopic) + (TextIf(w, c.willMessage)
                    + (TextIf(Has(c.flags, HAS_USER_NAME), c.userName)
                       + (TextIf(Has(c.flags, HAS_PASSWORD), c.password) + []))))
  {
    hide Text, TextIf, Has, Scan, ScanIf;
    var w, u, p := Has(c.flags, HAS_WILL), Has(c.flags, HAS_USER_NAME), Has(c.flags, HAS_PASSWORD);
    Written(b);
    var r1 := Scan(b).rest;
    WrittenIf(w, r1);
    var r2 := ScanIf(w, r1).rest;
    WrittenIf(w, r2);
    var r3 := ScanIf(w, r2).rest;
    WrittenIf(u, r3);
    WrittenIf(p, ScanIf(u, r3).rest);
  }

  lemma ConnectRead(c: Body)
    requires c.Connect? && Announced(c)
    ensures ParseConnect(ConnectBytes(c)) == GoodBody(c)
  {
    hide Text, TextIf, Has, ToBigEndian, Scan, ScanIf, ParseConnectPayload;
    var keep := ToBigEndian(c.keepAlive, 2);
    var payload := Text(c.clientId) + (TextIf(Has(c.flags, HAS_WILL), c.willTopic)
                   + (TextIf(Has(c.flags, HAS_WILL), c.willMessage)
                      + (TextIf(Has(c.flags, HAS_USER_NAME), c.userName)
                         + (TextIf(Has(c.flags, HAS_PASSWORD), c.password) + []))));
    var r := [c.version, c.flags] + keep + payload;
    TextRead(c.protocolName, r);
    AllOf(c.protocolName);
    IdRead(c.keepAlive, payload);
    assert r[2..] == keep + payload;
    assert r[2] == (keep + payload)[0] && r[3] == (keep + payload)[1] && r[4..] == (keep + payload)[2..];
    PayloadRead(c.protocolName, c.version, c.flags, c.keepAlive, c.clientId, c.willTopic, c.willMessage, c.userName,
                c.password);
  }

  lemma AllOf(s: seq<byte>)
    requires |s| < 0x1_0000
    ensures s[..|s| % 0x1_0000] == s
  {}

  /** Section 3.3: a PUBLISH is accepted exactly when it is a topic, an identifier if there is QoS, and a payload. */
  lemma PublishIff(qos: nat, b: seq<byte>, topic: seq<byte>, id: nat, payload: seq<byte>)
    ensures ParsePublish(qos, b) == GoodBody(Publish(topic, id, payload))
            <==> |topic| < 0x1_0000 && id < 0x1_0000 && (qos == 0 ==> id == 0)
                 && b == Text(topic) + (if qos == 0 then [] else ToBigEndian(id, 2)) + payload
  {
    hide Text, ToBigEndian, Scan;
    var idBytes := if qos == 0 then [] else ToBigEndian(id, 2);
    if ParsePublish(qos, b) == GoodBody(Publish(topic, id, payload)) {
      Written(b);
      var r := Scan(b).rest;
      if qos > 0 {
        TwoOctets(r[0], r[1]);
        assert r == [r[0], r[1]] + r[2..];
        Rebracket(Text(topic), idBytes, payload);
      } else {
        assert Text(topic) + [] == Text(topic);
      }
    }
    if |topic| < 0x1_0000 && id < 0x1_0000 && (qos == 0 ==> id == 0) && b == Text(topic) + idBytes + payload {
      PublishBodyRead(topic, id, qos, payload);
      AllOf(topic);
    }
  }

  /** A CONNECT, a PUBLISH and a SUBSCRIBE, octet by octet. */
  lemma Octets()
    ensures HandshakeBytes([97], HandshakeOpts(2, 0, None, None, None, None))
            == [0x10, 13, 0, 4, 77, 81, 84, 84, 4, 2, 0, 60, 0, 1, 97]
    ensures PublishBytes([97, 47, 98], 10, 2, [120]) == [0x32, 8, 0, 3, 97, 47, 98, 0, 10, 120]
    ensures PublishBytes([97], 10, 1, [120]) == [0x31, 4, 0, 1, 97, 120]
    ensures SubscribeBytes([Expression([97, 47, 98], 1)], 10) == [0x82, 8, 0, 10, 0, 3, 97, 47, 98, 1]
  {
    hide ToBigEndian, Text, ThroughInt, HandshakeBody, SubscribeBytes;
    Smalls();
    ConnectOctets();
    SubscribeOctets();
    assert Qos(2) == 1 && Qos(1) == 0;
  }

  lemma SubscribeOctets()
    ensures SubscribeBytes([Expression([97, 47, 98], 1)], 10) == [0x82, 8, 0, 10, 0, 3, 97, 47, 98, 1]
  {
    hide ToBigEndian, Text, ThroughInt;
    Smalls();
    var ts := [Expression([97, 47, 98], 1)];
    assert ts[1..] == [] && TopicsBytes(ts) == Text([97, 47, 98]) + [1] + [];
    assert TopicsLength(ts) == 6;
  }

  /** The answers of a broker, and a ping, a pong and a disconnect. */
  lemma AnswerOctets()
    ensures ConnackBytes(5) == [0x20, 2, 0, 5] && SubackBytes([1], 10) == [0x92, 3, 0, 10, 1]
    ensures ShortBytes(PUBACK, 10) == [0x40, 2, 0, 10] && ShortBytes(PUBREC, 10) == [0x50, 2, 0, 10]
    ensures ShortBytes(PUBREL, 10) == [0x62, 2, 0, 10] && ShortBytes(PUBCOMP, 10) == [0x70, 2, 0, 10]
    ensures ShortBytes(UNSUBACK, 10) == [0xB0, 2, 0, 10]
    ensures Header(PINGREQ, 0, 0) == [0xC0, 0] && Header(PINGRESP, 0, 0) == [0xD0, 0]
    ensures Header(DISCONNECT, 0, 0) == [0xE0, 0]
  {
    hide ToBigEndian;
    Smalls();
  }

  lemma ConnectOctets()
    ensures HandshakeBody([97], HandshakeOpts(2, 0, None, None, None, None))
            == [0, 4, 77, 81, 84, 84, 4, 2, 0, 60, 0, 1, 97]
  {
    hide ToBigEndian, Text, Has;
    Smalls();
    var o := HandshakeOpts(2, 0, None, None, None, None);
    NoFlags();
    assert o.Flags() == 2 && !o.Will();
  }

  lemma NoFlags()
    ensures !Has(2, HAS_USER_NAME) && !Has(2, HAS_PASSWORD) && !Has(2, HAS_WILL)
  {}

  lemma Smalls()
    ensures ToBigEndian(10, 2) == [0, 10] && ToBigEndian(60, 2) == [0, 60]
    ensures Text([97]) == [0, 1, 97] && Text([97, 47, 98]) == [0, 3, 97, 47, 98]
    ensures ThroughInt([120]) == [120]
  {
    assert ToBigEndian(1, 2) == [0, 1] && ToBigEndian(3, 2) == [0, 3];
    assert [97 as byte][..1] == [97] && [97, 47, 98][..3] == [97, 47, 98];
  }
}
