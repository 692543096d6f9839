/** Frames octet by octet and bit by bit, and the examples of section 5.7 of RFC 6455. */
module WebSocketRfc {
  import opened Bytes
  import opened Streams
  import opened WebSocketSpec
  import opened WebSocketStream
  import opened WebSocketRuns
  import opened WebSocketSend

  /** The first octet: FIN unless it is asked to be left out, no reserved bits, the opcode. */
  lemma HeadSays(op: nat)
    ensures Bit(Head(op), 7) == 1 <==> Bit(op, 8) == 0
    ensures Head(op) / 16 % 8 == 0 && Head(op) % 16 == op % 16
  {
    assert Pow2(4) == 16 && Pow2(7) == 128 && Pow2(8) == DONT_FIN;
  }

  /** Section 5.3: octet i is the exclusive or with octet i modulo 4 of the key. */
  lemma MaskBits(data: seq<byte>, key: Key, i: nat, k: nat)
    requires i < |data| && k < 8
    ensures Bit(Mask(data, key)[i], k) == 1 <==> Bit(data[i], k) != if key == [] then 0 else Bit(key[i % 4], k)
  {
    hide Bit, Xor;
    if key != [] {
      XorIsExclusive(data[i], key[i % 4], k);
    }
  }

  /** How long the header is, key included. */
  lemma HeaderLength(op: nat, n: nat, key: Key)
    ensures |HeaderFor(op, n, key)| == |key| + if n < 126 then 2 else if n < 65535 then 4 else 10
  {}

  /** Section 5.2 wants the shortest form of the length: it is, but for a payload of 65535 octets. */
  lemma ShortestIff(n: nat)
    requires n < TWO64
    ensures n != 65535
            <==> forall form :: Fits(form, n) ==> |LengthBytes(FormFor(n), n, [])| <= |LengthBytes(form, n, [])|
  {
    hide ToBigEndian;
    assert n == 65535 ==> Fits(Medium, n) && |LengthBytes(Medium, n, [])| == 3 && FormFor(n) == Long;
  }

  /** A close is answered with its own payload; one length is taken for a request to look for a zero. */
  lemma CloseIsEchoed(data: seq<byte>, after: seq<byte>)
    ensures |data| % 0x1_0000_0000 != 0xFFFF_FFFF ==> CloseBody(data, after) == data
  {}

  /** A message sent whole is delivered with its opcode, once, however it is cut; a ping and a close are answered. */
  lemma MessageArrives(op: nat, data: seq<byte>, key: Key, chunks: seq<seq<byte>>, defrag: bool)
    requires 1 <= op < 16 && |data| < TWO31 && (op in {OP_CLOSE, OP_PING, OP_PONG} ==> |data| < 126)
    requires Flat(chunks) == SentBytes(op, data, key)
    ensures FRESH.ReceiveAll(chunks, defrag)
            == Session(Rx([], 0), [Delivered(128 + op, data)],
                       if op == 8 || op == 9 then [Reply(if op == 8 then 8 else 10, data)] else [])
  {
    hide SentBytes, Session.ReceiveAll, Frame.WellFormed, FrameFor;
    var calls := [SendCall(op, data, key)];
    assert calls[1..] == [] && AllSent([]) == [] && Frames([]) == [];
    assert AllSent(calls) == SentBytes(op, data, key) + [] == SentBytes(op, data, key);
    assert Frames(calls) == [FrameFor(op, data, key)] + [] == [FrameFor(op, data, key)];
    FrameAsAsked(op, data, key);
    OneFrame(FrameFor(op, data, key), op, defrag);
    ConversationArrives(calls, chunks, defrag);
  }

  lemma OneFrame(f: Frame, op: nat, defrag: bool)
    requires 1 <= op < 16 && f.head == Head(op) && f.WellFormed()
    requires op in {OP_CLOSE, OP_PING, OP_PONG} ==> |f.payload| < 126
    ensures Conforming(IDLE, [f], defrag)
    ensures AcceptAll(IDLE, [f], defrag)
            == Receiver(Nothing, [Delivered(128 + op, f.payload)],
                        if op == 8 || op == 9 then [Reply(if op == 8 then 8 else 10, f.payload)] else [])
  {
    hide Frame.WellFormed;
    assert [f][1..] == [];
    assert Head(op) == 128 + op;
  }

  // ---- Frames that are not allowed where they come ----

  /** The opcode and the FIN bit of a first octet decide, with whether a message is being put together. */
  ghost predicate Fragmented(flags: byte) {
    flags / 128 == 0 || flags % 16 == 0
  }

  /**
   * Section 5.4: a control frame in fragments, and, while fragments are put together, a whole message that is no
   * control frame, are answered with a close; nothing is delivered and the buffer stays as it is. No others are.
   */
  lemma RefusedIff(rx: Rx, defrag: bool)
    requires rx.Valid() && rx.reass < |rx.buf|
    ensures var flags := rx.buf[rx.reass];
            var control := flags % 16 in {8, 9, 10};
            var fragment := defrag && Fragmented(flags);
            var o := Deliver(rx, defrag);
            if fragment && control then o == Outcome(rx, false, [], [Reply(8, Ascii(FRAGMENTED_CONTROL))])
            else if !fragment && !control && rx.reass > 0 then
              o == Outcome(rx, false, [], [Reply(8, Ascii(NOT_A_CONTINUATION))])
            else o == DeliverNext(rx, flags, fragment, ReadHeader(rx.buf[rx.reass..]))
  {
    hide DeliverNext, ReadHeader;
  }

  /** A length of more than 64 bits is answered with a close, too; otherwise a frame waits until it has all come. */
  lemma OverflowIff(rx: Rx, flags: byte, reass: bool, h: Header)
    requires rx.Valid() && (reass ==> IsFragment(flags)) && h.dataLen < TWO64 && 2 <= h.headerLen <= 14
    requires h.headerLen >= 2 + h.maskLen && h.maskLen in {0, 4}
    ensures var o := DeliverNext(rx, flags, reass, h);
            if h.headerLen + h.dataLen >= TWO64 then o == Outcome(rx, false, [], [Reply(8, Ascii(OVERFLOWED))])
            else if rx.reass + h.headerLen + h.dataLen > |rx.buf| then o == Outcome(rx, false, [], [])
            else o.ok
  {
    var n := h.headerLen + h.dataLen;
    if n >= TWO64 {
      DivMod(n, TWO64, 1, n - TWO64);
    } else {
      DivMod(n, TWO64, 0, n);
    }
  }

  // ---- Section 5.7 ----

  const HELLO: seq<byte> := [0x48, 0x65, 0x6c, 0x6c, 0x6f]
  const KEY: Key := [0x37, 0xfa, 0x21, 0x3d]
  const MASKED_HELLO: seq<byte> := [0x7f, 0x9f, 0x4d, 0x51, 0x58]

  lemma HelloIsMasked()
    ensures Mask(HELLO, KEY) == MASKED_HELLO
  {
    hide Xor;
    Octet1();
    Octet2();
    Octet3();
    Octet4();
    Octet5();
  }

  lemma Octet1()
    ensures Xor(0x48, 0x37) == 0x7f
  {
    assert XorBits(0x01, 0x00, 2) == 0x01;
    assert XorBits(0x04, 0x03, 4) == 0x07;
    assert XorBits(0x12, 0x0d, 6) == 0x1f;
  }

  lemma Octet2()
    ensures Xor(0x65, 0xfa) == 0x9f
  {
    assert XorBits(0x01, 0x03, 2) == 0x02;
    assert XorBits(0x06, 0x0f, 4) == 0x09;
    assert XorBits(0x19, 0x3e, 6) == 0x27;
  }

  lemma Octet3()
    ensures Xor(0x6c, 0x21) == 0x4d
  {
    assert XorBits(0x01, 0x00, 2) == 0x01;
    assert XorBits(0x06, 0x02, 4) == 0x04;
    assert XorBits(0x1b, 0x08, 6) == 0x13;
  }

  lemma Octet4()
    ensures Xor(0x6c, 0x3d) == 0x51
  {
    assert XorBits(0x01, 0x00, 2) == 0x01;
    assert XorBits(0x06, 0x03, 4) == 0x05;
    assert XorBits(0x1b, 0x0f, 6) == 0x14;
  }

  lemma Octet5()
    ensures Xor(0x6f, 0x37) == 0x58
  {
    assert XorBits(0x01, 0x00, 2) == 0x01;
    assert XorBits(0x06, 0x03, 4) == 0x05;
    assert XorBits(0x1b, 0x0d, 6) == 0x16;
  }

  /** The octets of the six examples; the payloads of the last two are any. */
  lemma Examples(some: seq<byte>, more: seq<byte>)
    requires |some| == 256 && |more| == 65536
    ensures Frame(0x81, Short, [], HELLO).Encode() == [0x81, 0x05] + HELLO
    ensures Frame(0x81, Short, KEY, HELLO).Encode() == [0x81, 0x85] + KEY + MASKED_HELLO
    ensures Frame(0x01, Short, [], HELLO[..3]).Encode() == [0x01, 0x03, 0x48, 0x65, 0x6c]
    ensures Frame(0x80, Short, [], HELLO[3..]).Encode() == [0x80, 0x02, 0x6c, 0x6f]
    ensures Frame(0x89, Short, [], HELLO).Encode() == [0x89, 0x05] + HELLO
    ensures Frame(0x8a, Short, KEY, HELLO).Encode() == [0x8a, 0x85] + KEY + MASKED_HELLO
    ensures Frame(0x82, Medium, [], some).Encode() == [0x82, 0x7e, 0x01, 0x00] + some
    ensures Frame(0x82, Long, [], more).Encode() == [0x82, 0x7f, 0, 0, 0, 0, 0, 1, 0, 0] + more
  {
    hide Mask, ToBigEndian;
    HelloIsMasked();
    Unmasked(HELLO);
    Unmasked(HELLO[..3]);
    Unmasked(HELLO[3..]);
    Unmasked(some);
    Unmasked(more);
    Lengths();
    HelloParts();
  }

  lemma HelloParts()
    ensures |HELLO| == 5 && |KEY| == 4 && HELLO[..3] == [0x48, 0x65, 0x6c] && HELLO[3..] == [0x6c, 0x6f]
  {}

  lemma Unmasked(data: seq<byte>)
    ensures Mask(data, []) == data
  {}

  lemma Lengths()
    ensures ToBigEndian(256, 2) == [0x01, 0x00] && ToBigEndian(65536, 8) == [0, 0, 0, 0, 0, 1, 0, 0]
  {
    assert ToBigEndian(1, 6) == [0, 0, 0, 0, 0, 1];
  }

  /** What comes of them: the text four times, the ping answered, the two binary messages. */
  lemma ExamplesArrive(some: seq<byte>, more: seq<byte>, chunks: seq<seq<byte>>)
    requires |some| == 256 && |more| == 65536
    requires Flat(chunks) == Flat([[0x81, 0x05] + HELLO, [0x81, 0x85] + KEY + MASKED_HELLO,
                                   [0x01, 0x03, 0x48, 0x65, 0x6c], [0x80, 0x02, 0x6c, 0x6f],
                                   [0x89, 0x05] + HELLO, [0x8a, 0x85] + KEY + MASKED_HELLO,
                                   [0x82, 0x7e, 0x01, 0x00] + some, [0x82, 0x7f, 0, 0, 0, 0, 0, 1, 0, 0] + more])
    ensures FRESH.ReceiveAll(chunks, true)
            == Session(Rx([], 0), [Delivered(0x81, HELLO), Delivered(0x81, HELLO), Delivered(0x81, HELLO),
                                   Delivered(0x89, HELLO), Delivered(0x8a, HELLO), Delivered(0x82, some),
                                   Delivered(0x82, more)], [Reply(OP_PONG, HELLO)])
  {
    hide Session.ReceiveAll, Flat, ExampleFrames;
    ExampleOctets(some, more);
    ExampleMessages(some, more);
    CuttingIsInvisible(ExampleFrames(some, more), chunks, true);
  }

  function ExampleFrames(some: seq<byte>, more: seq<byte>): seq<Frame> {
    [Frame(0x81, Short, [], HELLO), Frame(0x81, Short, KEY, HELLO), Frame(0x01, Short, [], HELLO[..3]),
     Frame(0x80, Short, [], HELLO[3..]), Frame(0x89, Short, [], HELLO), Frame(0x8a, Short, KEY, HELLO),
     Frame(0x82, Medium, [], some), Frame(0x82, Long, [], more)]
  }

  lemma ExampleOctets(some: seq<byte>, more: seq<byte>)
    requires |some| == 256 && |more| == 65536
    ensures Packets(ExampleFrames(some, more))
            == [[0x81, 0x05] + HELLO, [0x81, 0x85] + KEY + MASKED_HELLO, [0x01, 0x03, 0x48, 0x65, 0x6c],
                [0x80, 0x02, 0x6c, 0x6f], [0x89, 0x05] + HELLO, [0x8a, 0x85] + KEY + MASKED_HELLO,
                [0x82, 0x7e, 0x01, 0x00] + some, [0x82, 0x7f, 0, 0, 0, 0, 0, 1, 0, 0] + more]
  {
    hide Frame.Encode, Frame.WellFormed;
    Examples(some, more);
  }

  lemma ExampleMessages(some: seq<byte>, more: seq<byte>)
    requires |some| == 256 && |more| == 65536
    ensures Conforming(IDLE, ExampleFrames(some, more), true)
    ensures AcceptAll(IDLE, ExampleFrames(some, more), true)
            == Receiver(Nothing, [Delivered(0x81, HELLO), Delivered(0x81, HELLO), Delivered(0x81, HELLO),
                                  Delivered(0x89, HELLO), Delivered(0x8a, HELLO), Delivered(0x82, some),
                                  Delivered(0x82, more)], [Reply(OP_PONG, HELLO)])
  {
    hide Frame.WellFormed, Conforming, AcceptAll;
    AllWellFormed(some, more);
    var fs := ExampleFrames(some, more);
    EightFrames(fs[0], fs[1], fs[2], fs[3], fs[4], fs[5], fs[6], fs[7]);
    assert fs == [fs[0], fs[1], fs[2], fs[3], fs[4], fs[5], fs[6], fs[7]];
  }

  lemma AllWellFormed(some: seq<byte>, more: seq<byte>)
    requires |some| == 256 && |more| == 65536
    ensures Frame(0x81, Short, [], HELLO).WellFormed() && Frame(0x81, Short, KEY, HELLO).WellFormed()
    ensures Frame(0x01, Short, [], HELLO[..3]).WellFormed() && Frame(0x80, Short, [], HELLO[3..]).WellFormed()
    ensures Frame(0x89, Short, [], HELLO).WellFormed() && Frame(0x8a, Short, KEY, HELLO).WellFormed()
    ensures Frame(0x82, Medium, [], some).WellFormed() && Frame(0x82, Long, [], more).WellFormed()
    ensures |HELLO| == 5 && HELLO[..3] + HELLO[3..] == HELLO
  {}

  lemma EightFrames(f1: Frame, f2: Frame, f3: Frame, f4: Frame, f5: Frame, f6: Frame, f7: Frame, f8: Frame)
    requires f1.WellFormed() && f2.WellFormed() && f3.WellFormed() && f4.WellFormed()
    requires f5.WellFormed() && f6.WellFormed() && f7.WellFormed() && f8.WellFormed()
    requires f1.head == 0x81 == f2.head && f3.head == 0x01 && f4.head == 0x80 && f5.head == 0x89 && f6.head == 0x8a
    requires f7.head == 0x82 == f8.head && |f5.payload| < 126 && |f6.payload| < 126
    ensures var fs := [f1, f2, f3, f4, f5, f6, f7, f8];
            && Conforming(IDLE, fs, true)
            && AcceptAll(IDLE, fs, true)
               == Receiver(Nothing, [Delivered(0x81, f1.payload), Delivered(0x81, f2.payload),
                                     Delivered(0x81, f3.payload + f4.payload), Delivered(0x89, f5.payload),
                                     Delivered(0x8a, f6.payload), Delivered(0x82, f7.payload),
                                     Delivered(0x82, f8.payload)], [Reply(OP_PONG, f5.payload)])
  {
    hide Frame.WellFormed, Accept, MayFollow, AcceptAll, Conforming;
    var r1 := Whole(IDLE, f1, [f2, f3, f4, f5, f6, f7, f8]);
    assert [f1] + [f2, f3, f4, f5, f6, f7, f8] == [f1, f2, f3, f4, f5, f6, f7, f8];
    var r2 := Whole(r1, f2, [f3, f4, f5, f6, f7, f8]);
    assert [f2] + [f3, f4, f5, f6, f7, f8] == [f2, f3, f4, f5, f6, f7, f8];
    var r3 := TwoFragments(r2, f3, f4, [f5, f6, f7, f8]);
    assert [f3, f4] + [f5, f6, f7, f8] == [f3, f4, f5, f6, f7, f8];
    var r4 := Whole(r3, f5, [f6, f7, f8]);
    assert [f5] + [f6, f7, f8] == [f5, f6, f7, f8];
    var r5 := Whole(r4, f6, [f7, f8]);
    assert [f6] + [f7, f8] == [f6, f7, f8];
    var r6 := Whole(r5, f7, [f8]);
    assert [f7] + [f8] == [f7, f8];
    var r7 := Whole(r6, f8, []);
    assert [f8] + [] == [f8];
    NoFrames(r7);
    assert r7.events == [Delivered(0x81, f1.payload), Delivered(0x81, f2.payload),
                         Delivered(0x81, f3.payload + f4.payload), Delivered(0x89, f5.payload),
                         Delivered(0x8a, f6.payload), Delivered(0x82, f7.payload), Delivered(0x82, f8.payload)];
    assert r7.replies == [Reply(OP_PONG, f5.payload)];
  }

  lemma NoFrames(r: Receiver)
    ensures Conforming(r, [], true) && AcceptAll(r, [], true) == r
  {}

  /** A whole message, between messages. */
  lemma Whole(r: Receiver, f: Frame, fs: seq<Frame>) returns (t: Receiver)
    requires r.pending.Nothing? && f.WellFormed() && f.head > 128 && f.head < 0x8b
    requires IsControl(f.head) ==> |f.payload| < 126 && f.head != 0x88
    ensures t == Receiver(Nothing, r.events + [Delivered(f.head, f.payload)],
                          r.replies + if f.head == 0x89 then [Reply(OP_PONG, f.payload)] else [])
    ensures Conforming(r, [f] + fs, true) == Conforming(t, fs, true)
    ensures AcceptAll(r, [f] + fs, true) == AcceptAll(t, fs, true)
  {
    t := Accept(r, f, true);
    AcceptFirst(r, f, fs, true);
  }

  lemma TwoFragments(r: Receiver, f: Frame, g: Frame, fs: seq<Frame>) returns (t: Receiver)
    requires r.pending.Nothing? && f.WellFormed() && g.WellFormed() && f.head == 0x01 && g.head == 0x80
    ensures t == Receiver(Nothing, r.events + [Delivered(0x81, f.payload + g.payload)], r.replies)
    ensures Conforming(r, [f, g] + fs, true) == Conforming(t, fs, true)
    ensures AcceptAll(r, [f, g] + fs, true) == AcceptAll(t, fs, true)
  {
    var s := Accept(r, f, true);
    t := Accept(s, g, true);
    assert [f, g] + fs == [f] + ([g] + fs);
    AcceptFirst(r, f, [g] + fs, true);
    AcceptFirst(s, g, fs, true);
  }
}
