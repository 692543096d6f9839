/** What the library puts on the wire for a frame, and when it arrives. */
module WebSocketSend {
  import opened Bytes
  import opened Streams
  import opened WebSocketSpec
  import opened WebSocketStream
  import opened WebSocketRuns

  /** The FIN bit and the opcode. */
  function Head(op: nat): byte {
    (if (op / DONT_FIN) % 2 == 1 then 0 else 128) + op % 16
  }

  function FormFor(n: nat): LengthForm {
    if n < 126 then Short else if n < 65535 then Medium else Long
  }

  /** `mg_send_ws_header` for a payload of n octets. */
  function HeaderFor(op: nat, n: nat, key: Key): (s: seq<byte>)
    ensures |s| >= 2 + |key|
  {
    [Head(op)] + LengthBytes(FormFor(n), n, key) + key
  }

  /** The frame that `mg_send_websocket_frame` is asked for. */
  function FrameFor(op: nat, data: seq<byte>, key: Key): Frame {
    Frame(Head(op), FormFor(|data|), key, data)
  }

  /** The octets it sends. */
  function SentBytes(op: nat, data: seq<byte>, key: Key): (s: seq<byte>)
    ensures |data| < TWO31 ==> s == FrameFor(op, data, key).Encode()
  {
    HeaderFor(op, |data|, key) + Mask(ThroughInt(data), key)
  }

  // ---- Several pieces in one frame ----

  function Total(pieces: seq<seq<byte>>): nat {
    if pieces == [] then 0 else |pieces[0]| + Total(pieces[1..])
  }

  function SentPieces(pieces: seq<seq<byte>>): (s: seq<byte>)
    ensures |s| <= Total(pieces)
    ensures Total(pieces) < TWO31 ==> s == Flat(pieces)
  {
    if pieces == [] then [] else ThroughInt(pieces[0]) + SentPieces(pieces[1..])
  }

  lemma {:induction false} TotalIsLength(pieces: seq<seq<byte>>)
    ensures |Flat(pieces)| == Total(pieces)
  {
    if pieces != [] {
      TotalIsLength(pieces[1..]);
    }
  }

  /** The octets `mg_send_websocket_framev` sends: it adds the lengths up in an int and passes that as a size_t. */
  function SentVector(op: nat, pieces: seq<seq<byte>>, key: Key): (s: seq<byte>) {
    HeaderFor(op, Int32(Total(pieces)) % TWO64, key) + Mask(SentPieces(pieces), key)
  }

  // ---- Arrival ----

  /** With defragmentation off, a complete frame is delivered with as many octets as its header announces. */
  lemma Announced(d: seq<byte>, h: Header)
    requires d != [] && ReadHeader(d) == h && h.headerLen > 0
    ensures var o := Deliver(Rx(d, 0), false);
            var n := h.headerLen + h.dataLen;
            if n <= |d| && n < TWO64
            then o.ok && exists data :: |data| == h.dataLen && o.events == [Delivered(d[0], data)]
            else !o.ok && o.events == []
  {
    hide DeliverNext, DeliverFrame;
    var rx := Rx(d, 0);
    assert rx.buf[rx.reass..] == d;
    NextOutcome(rx, d[0], false, h);
    var n := h.headerLen + h.dataLen;
    if n < TWO64 && n <= |d| {
      var data := DeliveredData(rx, d[0], h);
    }
  }

  lemma DeliveredData(rx: Rx, flags: byte, h: Header) returns (data: seq<byte>)
    requires rx.Valid() && rx.reass + h.headerLen + h.dataLen <= |rx.buf|
    requires h.headerLen >= 2 + h.maskLen && h.maskLen in {0, 4}
    ensures |data| == h.dataLen && DeliverFrame(rx, flags, false, h).events == [Delivered(flags, data)]
  {
    hide Mask, Answers;
    var d := rx.buf[rx.reass..];
    data := Mask(d[h.headerLen..h.headerLen + h.dataLen], d[h.headerLen - h.maskLen..h.headerLen]);
  }

  lemma HeaderAnnounces(op: nat, n: nat, key: Key, sent: seq<byte>)
    requires n < TWO64
    ensures var d := HeaderFor(op, n, key) + Mask(sent, key);
            d[0] == Head(op) && ReadHeader(d) == Header(|key|, |HeaderFor(op, n, key)|, n)
  {
    hide Mask, LengthBytes, ReadHeader;
    var d := HeaderFor(op, n, key) + Mask(sent, key);
    var tail := key + Mask(sent, key);
    assert d == [Head(op)] + LengthBytes(FormFor(n), n, key) + tail;
    LengthRead(d, Head(op), FormFor(n), n, key, tail);
  }

  /** With defragmentation off, any frame, control or not, is delivered as it was made. */
  lemma FrameDelivered(f: Frame, rest: seq<byte>)
    requires f.WellFormed()
    ensures var o := Deliver(Rx(f.Encode() + rest, 0), false);
            o.ok && o.events == [Delivered(f.head, f.payload)] && o.rx == Rx(rest, 0)
  {
    hide DeliverNext, ReadHeader, LengthBytes, Mask, Fits;
    var d := f.Encode() + rest;
    var rx := Rx(d, 0);
    HeaderRead(f, rest);
    assert rx.buf[rx.reass..] == d;
    NextOutcome(rx, f.head, false, ReadHeader(d));
    assert [] + d == d;
    FrameParts(rx, [], f, rest);
  }

  /** A frame the library sends is complete for the receiver and gives back the opcode, FIN bit and payload. */
  lemma FrameArrives(op: nat, data: seq<byte>, key: Key, rest: seq<byte>)
    requires |data| < TWO63
    ensures var o := Deliver(Rx(FrameFor(op, data, key).Encode() + rest, 0), false);
            o.ok && o.events == [Delivered(Head(op), data)] && o.rx == Rx(rest, 0)
  {
    hide Deliver, Frame.Encode;
    FrameDelivered(FrameFor(op, data, key), rest);
  }

  /** `mg_send_websocket_frame` reaches the peer exactly when the payload is shorter than 2^31 octets. */
  lemma SentArrives(op: nat, data: seq<byte>, key: Key)
    requires |data| < TWO64
    ensures var o := Deliver(Rx(SentBytes(op, data, key), 0), false);
            (o.ok && o.events == [Delivered(Head(op), data)]) <==> |data| < TWO31
  {
    if |data| < TWO31 {
      var d := FrameFor(op, data, key).Encode();
      assert d + [] == d;
      FrameArrives(op, data, key, []);
    } else {
      hide Deliver, ReadHeader;
      HeaderAnnounces(op, |data|, key, ThroughInt(data));
      Announced(SentBytes(op, data, key), Header(|key|, |HeaderFor(op, |data|, key)|, |data|));
    }
  }

  /** An int cannot hold a total of 2^31 or more. */
  lemma TotalThroughInt(n: nat)
    requires n < TWO63
    ensures Int32(n) % TWO64 == n <==> n < TWO31
  {}

  lemma VectorFits(op: nat, pieces: seq<seq<byte>>, key: Key)
    requires Total(pieces) < TWO31
    ensures SentVector(op, pieces, key) == FrameFor(op, Flat(pieces), key).Encode()
  {
    hide Mask, LengthBytes;
    TotalIsLength(pieces);
    TotalThroughInt(Total(pieces));
  }

  /** `mg_send_websocket_framev` reaches the peer exactly when the pieces total less than 2^31 octets. */
  lemma VectorArrives(op: nat, pieces: seq<seq<byte>>, key: Key)
    requires Total(pieces) < TWO63
    ensures var o := Deliver(Rx(SentVector(op, pieces, key), 0), false);
            (o.ok && o.events == [Delivered(Head(op), Flat(pieces))]) <==> Total(pieces) < TWO31
  {
    hide Deliver, ReadHeader, Mask, LengthBytes, Frame.Encode, Int32, Head, FormFor;
    TotalIsLength(pieces);
    TotalThroughInt(Total(pieces));
    var n := Int32(Total(pieces)) % TWO64;
    if Total(pieces) < TWO31 {
      VectorFits(op, pieces, key);
      var d := FrameFor(op, Flat(pieces), key).Encode();
      assert d + [] == d;
      FrameArrives(op, Flat(pieces), key, []);
    } else {
      HeaderAnnounces(op, n, key, SentPieces(pieces));
      Announced(SentVector(op, pieces, key), Header(|key|, |HeaderFor(op, n, key)|, n));
    }
  }

  // ---- Conversations ----

  /** One call of `mg_send_websocket_frame`. */
  datatype SendCall = SendCall(op: nat, data: seq<byte>, key: Key)

  function Frames(calls: seq<SendCall>): (fs: seq<Frame>)
    ensures |fs| == |calls|
  {
    if calls == [] then []
    else [FrameFor(calls[0].op, calls[0].data, calls[0].key)] + Frames(calls[1..])
  }

  /** All the octets the calls put on the wire. */
  function AllSent(calls: seq<SendCall>): seq<byte> {
    if calls == [] then [] else SentBytes(calls[0].op, calls[0].data, calls[0].key) + AllSent(calls[1..])
  }

  /** What one side sends with conforming calls, the other side receives, however the network cuts it. */
  lemma ConversationArrives(calls: seq<SendCall>, chunks: seq<seq<byte>>, defrag: bool)
    requires Conforming(IDLE, Frames(calls), defrag) && forall c <- calls :: |c.data| < TWO31
    requires Flat(chunks) == AllSent(calls)
    ensures FRESH.ReceiveAll(chunks, defrag) == Holding(AcceptAll(IDLE, Frames(calls), defrag), [])
  {
    SentArePackets(calls);
    CuttingIsInvisible(Frames(calls), chunks, defrag);
  }

  lemma {:induction false} SentArePackets(calls: seq<SendCall>)
    requires forall c <- calls :: |c.data| < TWO31
    ensures AllSent(calls) == Flat(Packets(Frames(calls)))
  {
    hide Frame.Encode, SentBytes, FrameFor;
    if calls != [] {
      SentArePackets(calls[1..]);
      assert Packets(Frames(calls))[1..] == Packets(Frames(calls[1..]));
    }
  }

  /** The calls for a message in pieces, each with a key of its own: continuations, the last of them with FIN. */
  function Continuations(pieces: seq<seq<byte>>, keys: seq<Key>): seq<SendCall>
    requires |keys| == |pieces|
  {
    if pieces == [] then []
    else [SendCall(if |pieces| == 1 then 0 else DONT_FIN, pieces[0], keys[0])] + Continuations(pieces[1..], keys[1..])
  }

  /** A first fragment, and continuations. */
  function InPieces(op: nat, pieces: seq<seq<byte>>, keys: seq<Key>): seq<SendCall>
    requires |keys| == |pieces| >= 2
  {
    [SendCall(DONT_FIN + op, pieces[0], keys[0])] + Continuations(pieces[1..], keys[1..])
  }

  ghost predicate Sendable(pieces: seq<seq<byte>>) {
    forall p <- pieces :: |p| < TWO31
  }

  lemma SendableTail(pieces: seq<seq<byte>>)
    requires Sendable(pieces) && pieces != []
    ensures Sendable(pieces[1..]) && |pieces[0]| < TWO31
  {
    assert pieces[0] in pieces && forall p <- pieces[1..] :: p in pieces;
  }

  lemma {:induction false} ContinuationsJoin(r: Receiver, pieces: seq<seq<byte>>, keys: seq<Key>)
    requires r.pending.Message? && pieces != [] && |keys| == |pieces| && Sendable(pieces)
    ensures var p := r.pending;
            AcceptAll(r, Frames(Continuations(pieces, keys)), true)
            == Receiver(Nothing, r.events + [Delivered(WithFin(p.head), p.data + Flat(pieces))], r.replies)
    ensures Conforming(r, Frames(Continuations(pieces, keys)), true)
    decreases |pieces|
  {
    hide Accept, MayFollow, AcceptAll, Conforming, Sendable, Frame.WellFormed, Frames, Continuations;
    SendableTail(pieces);
    var more := Frames(Continuations(pieces[1..], keys[1..]));
    var f := NextPiece(pieces, keys);
    PieceFollows(r, f, |pieces| == 1);
    AcceptFirst(r, f, more, true);
    if |pieces| == 1 {
      NoMore(Accept(r, f, true), pieces, keys);
    } else {
      Rebracket(r.pending.data, pieces[0], Flat(pieces[1..]));
      ContinuationsJoin(Accept(r, f, true), pieces[1..], keys[1..]);
    }
  }

  lemma NoMore(r: Receiver, pieces: seq<seq<byte>>, keys: seq<Key>)
    requires |keys| == |pieces| == 1
    ensures var none := Frames(Continuations(pieces[1..], keys[1..]));
            Flat(pieces) == pieces[0] && AcceptAll(r, none, true) == r && Conforming(r, none, true)
  {
    assert pieces[0] + [] == pieces[0];
  }

  lemma NextPiece(pieces: seq<seq<byte>>, keys: seq<Key>) returns (f: Frame)
    requires |keys| == |pieces| >= 1 && |pieces[0]| < TWO31
    ensures f.head == Head(if |pieces| == 1 then 0 else DONT_FIN) && f.payload == pieces[0] && f.WellFormed()
    ensures Frames(Continuations(pieces, keys)) == [f] + Frames(Continuations(pieces[1..], keys[1..]))
  {
    f := FrameFor(if |pieces| == 1 then 0 else DONT_FIN, pieces[0], keys[0]);
    assert Continuations(pieces, keys)[1..] == Continuations(pieces[1..], keys[1..]);
  }

  lemma PieceFollows(r: Receiver, f: Frame, last: bool)
    requires r.pending.Message? && f.head == Head(if last then 0 else DONT_FIN) && f.WellFormed()
    ensures MayFollow(f, r.pending, true)
    ensures var p := r.pending;
            var data := p.data + f.payload;
            Accept(r, f, true)
            == if last then Receiver(Nothing, r.events + [Delivered(WithFin(p.head), data)], r.replies)
               else Receiver(Message(p.head, data), r.events, r.replies)
  {}

  /** The frames of a message in pieces are a conforming stream, and one message to the receiver of RFC 6455. */
  lemma PiecesAreOne(op: nat, pieces: seq<seq<byte>>, keys: seq<Key>)
    requires 1 <= op < 8 && |keys| == |pieces| >= 2 && Sendable(pieces)
    ensures Conforming(IDLE, Frames(InPieces(op, pieces, keys)), true)
    ensures AcceptAll(IDLE, Frames(InPieces(op, pieces, keys)), true)
            == Receiver(Nothing, [Delivered(128 + op, Flat(pieces))], [])
  {
    hide FrameFor, Accept, MayFollow, Continuations, Conforming, AcceptAll, Frames, InPieces, Sendable;
    SendableTail(pieces);
    var more := Frames(Continuations(pieces[1..], keys[1..]));
    var f := FirstOfPieces(op, pieces, keys);
    FirstPiece(op, f);
    ContinuationsJoin(Receiver(Message(op, pieces[0]), [], []), pieces[1..], keys[1..]);
    AcceptFirst(IDLE, f, more, true);
    NothingBefore(Delivered(128 + op, Flat(pieces)));
  }

  /**
   * A message sent in pieces, each masked with a key of its own, is delivered once, as the concatenation of its
   * pieces, however the network cuts what was sent; nothing is left in the buffer.
   */
  lemma PiecesArriveAsOne(op: nat, pieces: seq<seq<byte>>, keys: seq<Key>, chunks: seq<seq<byte>>)
    requires 1 <= op < 8 && |keys| == |pieces| >= 2 && Sendable(pieces)
    requires Flat(chunks) == AllSent(InPieces(op, pieces, keys))
    ensures FRESH.ReceiveAll(chunks, true) == Session(Rx([], 0), [Delivered(128 + op, Flat(pieces))], [])
  {
    hide Conforming, AcceptAll, AllSent, Frames, Session.ReceiveAll;
    PiecesAreOne(op, pieces, keys);
    PiecesAreSendable(op, pieces, keys);
    ConversationArrives(InPieces(op, pieces, keys), chunks, true);
  }

  lemma PiecesAreSendable(op: nat, pieces: seq<seq<byte>>, keys: seq<Key>)
    requires |keys| == |pieces| >= 2 && Sendable(pieces)
    ensures forall c <- InPieces(op, pieces, keys) :: |c.data| < TWO31
  {
    SendableTail(pieces);
    ContinuationsAreSendable(pieces[1..], keys[1..]);
  }

  lemma {:induction false} ContinuationsAreSendable(pieces: seq<seq<byte>>, keys: seq<Key>)
    requires |keys| == |pieces| && Sendable(pieces)
    ensures forall c <- Continuations(pieces, keys) :: |c.data| < TWO31
    decreases |pieces|
  {
    if pieces != [] {
      SendableTail(pieces);
      ContinuationsAreSendable(pieces[1..], keys[1..]);
    }
  }

  lemma NothingBefore(e: Event)
    ensures [] + [e] == [e]
  {}

  lemma AcceptFirst(r: Receiver, f: Frame, fs: seq<Frame>, defrag: bool)
    ensures AcceptAll(r, [f] + fs, defrag) == AcceptAll(Accept(r, f, defrag), fs, defrag)
    ensures Conforming(r, [f] + fs, defrag)
            <==> MayFollow(f, r.pending, defrag) && Conforming(Accept(r, f, defrag), fs, defrag)
  {
    hide Accept, MayFollow;
    assert ([f] + fs)[1..] == fs;
  }

  lemma FirstOfPieces(op: nat, pieces: seq<seq<byte>>, keys: seq<Key>) returns (f: Frame)
    requires 1 <= op < 8 && |keys| == |pieces| >= 2 && Sendable(pieces)
    ensures f.head == Head(DONT_FIN + op) && f.payload == pieces[0] && f.WellFormed()
    ensures Frames(InPieces(op, pieces, keys)) == [f] + Frames(Continuations(pieces[1..], keys[1..]))
    ensures Flat(pieces) == pieces[0] + Flat(pieces[1..])
  {
    hide Continuations, FrameFor, Sendable, Head, Frame.WellFormed;
    SendableTail(pieces);
    f := FrameFor(DONT_FIN + op, pieces[0], keys[0]);
    FrameAsAsked(DONT_FIN + op, pieces[0], keys[0]);
    assert InPieces(op, pieces, keys)[1..] == Continuations(pieces[1..], keys[1..]);
  }

  lemma FrameAsAsked(op: nat, data: seq<byte>, key: Key)
    requires |data| < TWO31
    ensures var f := FrameFor(op, data, key); f.head == Head(op) && f.payload == data && f.WellFormed()
  {}

  lemma FirstPiece(op: nat, f: Frame)
    requires 1 <= op < 8 && f.head == Head(DONT_FIN + op) && f.WellFormed()
    ensures MayFollow(f, Nothing, true) && Accept(IDLE, f, true) == Receiver(Message(op, f.payload), [], [])
  {}
}
