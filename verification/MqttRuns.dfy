/** The MQTT receive loop on a stream of packets that is cut anywhere. */
module MqttRuns {
  import opened Bytes
  import opened Streams
  import opened MqttSpec

  /** What a connection holds, the packets its handler was given, and whether it is to be closed. */
  datatype Session = Session(buf: seq<byte>, events: seq<Message>, closed: bool) {

    /** The loop of `mqtt_handler`; limit is the most the receive buffer may hold, 0 for no limit. */
    function HandleAll(limit: nat): Session
      decreases |buf|
    {
      match Parse(buf)
      case Malformed => this.(closed := true)
      case Incomplete => this.(closed := closed || (limit > 0 && |buf| >= limit))
      case Packet(msg, len) => Session(buf[len..], events + [msg], closed).HandleAll(limit)
    }

    function Receive(chunk: seq<byte>, limit: nat): Session {
      this.(buf := buf + chunk).HandleAll(limit)
    }

    function ReceiveAll(chunks: seq<seq<byte>>, limit: nat): Session
      decreases |chunks|
    {
      if chunks == [] then this else Receive(chunks[0], limit).ReceiveAll(chunks[1..], limit)
    }
  }

  /** A packet and nothing else. */
  predicate WellFormed(p: seq<byte>) {
    Parse(p).Packet? && Parse(p).len == |p|
  }

  function MessageOf(p: seq<byte>): Message
    requires WellFormed(p)
  {
    Parse(p).msg
  }

  function Messages(packets: seq<seq<byte>>): seq<Message>
    requires forall p <- packets :: WellFormed(p)
  {
    if packets == [] then [] else [MessageOf(packets[0])] + Messages(packets[1..])
  }

  /** More octets do not change a length that was read, and fewer leave it unread. */
  lemma {:induction false} LengthStable(p: seq<byte>, d: seq<byte>, i: nat, acc: nat)
    requires p <= d && i <= 4
    ensures ReadLength(p, i, acc) == MoreNeeded || ReadLength(p, i, acc) == ReadLength(d, i, acc)
    decreases |p|
  {
    if p != [] && d[0] >= 128 && i < 4 {
      LengthStable(p[1..], d[1..], i + 1, (acc + Shifted(d[0] % 128, i)) % TWO32);
    }
  }

  /** What follows a packet does not change how it is read. */
  lemma WholePacket(p: seq<byte>, rest: seq<byte>)
    requires WellFormed(p)
    ensures Parse(p + rest) == Parse(p)
  {
    hide MqttSpec.ParseBody, ReadLength;
    var d := p + rest;
    assert d[1..] == p[1..] + rest;
    LengthStable(p[1..], d[1..], 0, 0);
    var start := 1 + ReadLength(p[1..], 0, 0).octets;
    assert d[start..|p|] == p[start..|p|];
  }

  /** A packet cut short is incomplete, never malformed. */
  lemma PrefixIncomplete(p: seq<byte>, packet: seq<byte>)
    requires WellFormed(packet) && StrictPrefix(p, packet)
    ensures Parse(p) == Incomplete
  {
    hide MqttSpec.ParseBody, ReadLength;
    if |p| >= 2 {
      LengthStable(p[1..], packet[1..], 0, 0);
    }
  }

  lemma {:induction false} Drain(done: seq<seq<byte>>, todo: seq<seq<byte>>, u: seq<byte>, events: seq<Message>,
                                 closed: bool, limit: nat)
    requires (forall p <- done + todo :: WellFormed(p)) && Streams.Incomplete(u, todo)
    requires limit > 0 ==> |u| < limit
    ensures forall p <- done :: WellFormed(p)
    ensures Session(Flat(done) + u, events, closed).HandleAll(limit) == Session(u, events + Messages(done), closed)
    decreases |done|
  {
    hide WellFormed;
    assert forall p <- done :: p in done + todo;
    if done == [] {
      assert Flat(done) + u == u && events + [] == events && done + todo == todo;
      if todo == [] {
        assert Parse([]) == MqttSpec.Incomplete;
      } else {
        assert todo[0] in todo;
        PrefixIncomplete(u, todo[0]);
      }
    } else {
      var p, later := done[0], Flat(done[1..]) + u;
      assert p in done + todo;
      assert (done + todo)[1..] == done[1..] + todo;
      assert forall q <- done[1..] + todo :: q in done + todo;
      Rebracket(p, Flat(done[1..]), u);
      Rebracket(events, [MessageOf(p)], Messages(done[1..]));
      OnePacket(p, later, events, closed, limit);
      Drain(done[1..], todo, u, events + [MessageOf(p)], closed, limit);
    }
  }

  lemma OnePacket(p: seq<byte>, later: seq<byte>, events: seq<Message>, closed: bool, limit: nat)
    requires WellFormed(p)
    ensures Session(p + later, events, closed).HandleAll(limit)
            == Session(later, events + [MessageOf(p)], closed).HandleAll(limit)
  {
    WholePacket(p, later);
    assert (p + later)[|p|..] == later;
  }

  lemma MessagesSplit(a: seq<seq<byte>>, b: seq<seq<byte>>)
    requires forall p <- a + b :: WellFormed(p)
    ensures (forall p <- a :: WellFormed(p)) && (forall p <- b :: WellFormed(p))
    ensures Messages(a + b) == Messages(a) + Messages(b)
  {
    hide WellFormed, MessageOf;
    assert forall p <- a :: p in a + b;
    assert forall p <- b :: p in a + b;
    if a == [] {
      assert a + b == b;
    } else {
      assert (a + b)[1..] == a[1..] + b;
      assert forall p <- a[1..] + b :: p in a + b;
      MessagesSplit(a[1..], b);
    }
  }

  lemma ReceiveChunk(s: Session, packets: seq<seq<byte>>, chunk: seq<byte>, limit: nat)
    returns (done: seq<seq<byte>>, todo: seq<seq<byte>>, v: seq<byte>)
    requires (forall p <- packets :: WellFormed(p)) && s.buf + chunk <= Flat(packets)
    requires limit > 0 ==> forall p <- packets :: |p| <= limit
    ensures packets == done + todo && s.buf + chunk == Flat(done) + v && Streams.Incomplete(v, todo)
    ensures forall p <- done :: WellFormed(p)
    ensures s.Receive(chunk, limit) == Session(v, s.events + Messages(done), s.closed)
  {
    hide WellFormed, Session.HandleAll;
    var k;
    k, v := Cut(packets, s.buf + chunk);
    done, todo := packets[..k], packets[k..];
    assert packets == done + todo;
    assert todo != [] ==> todo[0] in packets;
    Drain(done, todo, v, s.events, s.closed, limit);
  }

  /**
   * While a stream of packets arrives, cut in any way, the buffer holds exactly the unfinished tail and the
   * handler was given exactly the packets before it; a limit that no packet exceeds closes nothing.
   */
  lemma {:induction false} BufferInvariant(s: Session, packets: seq<seq<byte>>, chunks: seq<seq<byte>>, limit: nat)
    returns (done: seq<seq<byte>>, todo: seq<seq<byte>>, v: seq<byte>)
    requires (forall p <- packets :: WellFormed(p)) && s.buf + Flat(chunks) <= Flat(packets)
    requires Streams.Incomplete(s.buf, packets) && (limit > 0 ==> forall p <- packets :: |p| <= limit)
    ensures packets == done + todo && s.buf + Flat(chunks) == Flat(done) + v && Streams.Incomplete(v, todo)
    ensures forall p <- done :: WellFormed(p)
    ensures s.ReceiveAll(chunks, limit) == Session(v, s.events + Messages(done), s.closed)
    decreases |chunks|
  {
    hide WellFormed, Session.Receive, MessageOf;
    if chunks == [] {
      done, todo, v := [], packets, s.buf;
      assert s.buf + [] == [] + s.buf && s.events + [] == s.events;
    } else {
      var later := Flat(chunks[1..]);
      Rebracket(s.buf, chunks[0], later);
      var done1, todo1, w := ReceiveChunk(s, packets, chunks[0], limit);
      FlatSplit(done1, todo1);
      Rebracket(Flat(done1), w, later);
      PrefixCancel(Flat(done1), w + later, Flat(todo1));
      MessagesSplit(done1, todo1);
      assert forall p <- todo1 :: p in packets;
      var done2;
      done2, todo, v := BufferInvariant(s.Receive(chunks[0], limit), todo1, chunks[1..], limit);
      done := done1 + done2;
      Rebracket(done1, done2, todo);
      FlatSplit(done1, done2);
      Rebracket(Flat(done1), Flat(done2), v);
      MessagesSplit(done1, done2);
      Rebracket(s.events, Messages(done1), Messages(done2));
    }
  }

  /** Every packet of the stream reaches the handler, in order and however it is cut, and nothing stays behind. */
  lemma CuttingIsInvisible(packets: seq<seq<byte>>, chunks: seq<seq<byte>>, limit: nat)
    requires (forall p <- packets :: WellFormed(p)) && Flat(chunks) == Flat(packets)
    requires limit > 0 ==> forall p <- packets :: |p| <= limit
    ensures Session([], [], false).ReceiveAll(chunks, limit) == Session([], Messages(packets), false)
  {
    hide WellFormed, Session.ReceiveAll, MessageOf;
    assert [] + Flat(chunks) == Flat(chunks);
    assert packets != [] ==> packets[0] in packets;
    NotEmpty(packets);
    var done, todo, v := BufferInvariant(Session([], [], false), packets, chunks, limit);
    assert packets[..|done|] == done && packets[|done|..] == todo;
    CutAtEnd(packets, |done|, v);
    assert done == packets;
    assert [] + Messages(done) == Messages(done);
  }

  lemma NotEmpty(packets: seq<seq<byte>>)
    requires forall p <- packets :: WellFormed(p)
    ensures Streams.Incomplete([], packets)
  {
    assert packets != [] ==> packets[0] in packets;
  }
}
