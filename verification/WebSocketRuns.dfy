/** Whole runs: any conforming stream, cut into receive chunks anywhere. */
module WebSocketRuns {
  import opened Bytes
  import opened Streams
  import opened WebSocketSpec
  import opened WebSocketStream

  // ---- Streams ----

  lemma {:induction false} ConformingSplit(r: Receiver, a: seq<Frame>, b: seq<Frame>, defrag: bool)
    requires Conforming(r, a + b, defrag)
    ensures Conforming(r, a, defrag) && Conforming(AcceptAll(r, a, defrag), b, defrag)
    ensures AcceptAll(r, a + b, defrag) == AcceptAll(AcceptAll(r, a, defrag), b, defrag)
    decreases |a|
  {
    if a == [] {
      assert a + b == b;
    } else {
      assert (a + b)[1..] == a[1..] + b;
      ConformingSplit(Accept(r, a[0], defrag), a[1..], b, defrag);
    }
  }

  lemma PacketsSplit(a: seq<Frame>, b: seq<Frame>)
    ensures Flat(Packets(a + b)) == Flat(Packets(a)) + Flat(Packets(b))
  {
    PacketsAppend(a, b);
    FlatSplit(Packets(a), Packets(b));
  }

  lemma PacketsAppend(a: seq<Frame>, b: seq<Frame>)
    ensures Packets(a + b) == Packets(a) + Packets(b)
  {
    hide Frame.Encode, Packets;
  }

  lemma PacketsCons(fs: seq<Frame>, u: seq<byte>)
    requires fs != []
    ensures Flat(Packets(fs)) + u == fs[0].Encode() + (Flat(Packets(fs[1..])) + u)
  {
    hide Frame.Encode, Packets;
    assert Packets(fs)[1..] == Packets(fs[1..]);
    Rebracket(fs[0].Encode(), Flat(Packets(fs[1..])), u);
  }

  /** Two runs of frames received in turn are their concatenation received. */
  lemma InTurn(r: Receiver, a: seq<Frame>, b: seq<Frame>, c: seq<Frame>, defrag: bool)
    requires Conforming(r, a + (b + c), defrag)
    ensures Conforming(AcceptAll(r, a, defrag), b + c, defrag)
    ensures AcceptAll(AcceptAll(r, a, defrag), b, defrag) == AcceptAll(r, a + b, defrag)
    ensures a + (b + c) == (a + b) + c
  {
    hide Accept, MayFollow;
    ConformingSplit(r, a, b + c, defrag);
    assert a + (b + c) == (a + b) + c;
    ConformingSplit(r, a + b, c, defrag);
    ConformingSplit(r, a, b, defrag);
  }

  /** The octets left after the frames `done` still fit the frames after them. */
  lemma FitsAfter(done: seq<Frame>, todo: seq<Frame>, w: seq<byte>, later: seq<byte>)
    requires (Flat(Packets(done)) + w) + later <= Flat(Packets(done + todo))
    ensures w + later <= Flat(Packets(todo))
  {
    hide Packets;
    PacketsSplit(done, todo);
    Rebracket(Flat(Packets(done)), w, later);
    PrefixCancel(Flat(Packets(done)), w + later, Flat(Packets(todo)));
  }

  lemma OctetsInTurn(a: seq<Frame>, b: seq<Frame>, w: seq<byte>, later: seq<byte>, v: seq<byte>)
    requires w + later == Flat(Packets(b)) + v
    ensures (Flat(Packets(a)) + w) + later == Flat(Packets(a + b)) + v
  {
    hide Packets;
    PacketsSplit(a, b);
    Rebracket(Flat(Packets(a)), w, later);
    Rebracket(Flat(Packets(a)), Flat(Packets(b)), v);
  }

  // ---- The deliver loop ----

  /** The unread octets u are the beginning of the next frame of fs and no more. */
  ghost predicate Unread(u: seq<byte>, fs: seq<Frame>) {
    if fs == [] then u == [] else StrictPrefix(u, fs[0].Encode())
  }

  lemma Stop(r: Receiver, todo: seq<Frame>, u: seq<byte>, defrag: bool)
    requires Conforming(r, todo, defrag) && PendingOk(r.pending, defrag) && Unread(u, todo)
    ensures Holding(r, u).DeliverAll(defrag) == Holding(r, u)
  {
    if todo == [] {
      assert RxOf(r.pending, u).buf[|r.pending.Bytes()|..] == [];
    } else {
      DeliverPrefix(r, todo[0], u, defrag);
    }
  }

  lemma {:induction false} Drain(r: Receiver, done: seq<Frame>, todo: seq<Frame>, u: seq<byte>, defrag: bool)
    requires Conforming(r, done + todo, defrag) && PendingOk(r.pending, defrag) && Unread(u, todo)
    ensures Holding(r, Flat(Packets(done)) + u).DeliverAll(defrag) == Holding(AcceptAll(r, done, defrag), u)
    ensures PendingOk(AcceptAll(r, done, defrag).pending, defrag)
    decreases |done|
  {
    hide Session.Call, Holding, Accept, MayFollow, Frame.Encode, Packets, Flat, PendingOk, Unread;
    if done == [] {
      NoPackets(done, u);
      assert done + todo == todo;
      Stop(r, todo, u, defrag);
    } else {
      var f := done[0];
      assert (done + todo)[1..] == done[1..] + todo;
      PacketsCons(done, u);
      DeliverWhole(r, f, Flat(Packets(done[1..])) + u, defrag);
      Drain(Accept(r, f, defrag), done[1..], todo, u, defrag);
    }
  }

  lemma NoPackets(fs: seq<Frame>, u: seq<byte>)
    requires fs == []
    ensures Flat(Packets(fs)) + u == u
  {}

  // ---- Reception in chunks ----

  lemma ReceiveChunk(r: Receiver, fs: seq<Frame>, u: seq<byte>, chunk: seq<byte>, defrag: bool)
    returns (done: seq<Frame>, todo: seq<Frame>, v: seq<byte>)
    requires Conforming(r, fs, defrag) && PendingOk(r.pending, defrag)
    requires u + chunk <= Flat(Packets(fs))
    ensures fs == done + todo && u + chunk == Flat(Packets(done)) + v && Unread(v, todo)
    ensures Holding(r, u).Receive(chunk, defrag) == Holding(AcceptAll(r, done, defrag), v)
    ensures PendingOk(AcceptAll(r, done, defrag).pending, defrag)
  {
    hide Session.DeliverAll, Accept, AcceptAll, MayFollow, Frame.Encode, Packets, Flat, PendingOk, Conforming;
    var k;
    k, v := Cut(Packets(fs), u + chunk);
    done, todo := fs[..k], fs[k..];
    assert Packets(fs)[..k] == Packets(done);
    assert done + todo == fs;
    Drain(r, done, todo, v, defrag);
    assert r.pending.Bytes() + u + chunk == r.pending.Bytes() + (u + chunk);
  }

  /**
   * While a conforming stream arrives, cut in any way, the buffer is the opcode octet and payload of the message
   * in progress followed by the octets of one incomplete frame, and what was delivered and answered is what the
   * complete frames call for.
   */
  lemma {:induction false} BufferInvariant(r: Receiver, fs: seq<Frame>, u: seq<byte>, chunks: seq<seq<byte>>,
                                           defrag: bool)
    returns (done: seq<Frame>, todo: seq<Frame>, v: seq<byte>)
    requires Conforming(r, fs, defrag) && PendingOk(r.pending, defrag) && Unread(u, fs)
    requires u + Flat(chunks) <= Flat(Packets(fs))
    ensures fs == done + todo && u + Flat(chunks) == Flat(Packets(done)) + v && Unread(v, todo)
    ensures Holding(r, u).ReceiveAll(chunks, defrag) == Holding(AcceptAll(r, done, defrag), v)
    decreases |chunks|
  {
    if chunks == [] {
      done, todo, v := [], fs, u;
      assert Flat(Packets([])) == [];
    } else {
      hide Session.Receive, Accept, MayFollow, Conforming, Frame.Encode, Holding, Packets, AcceptAll;
      Rebracket(u, chunks[0], Flat(chunks[1..]));
      var done1, todo1, w := ReceiveChunk(r, fs, u, chunks[0], defrag);
      FitsAfter(done1, todo1, w, Flat(chunks[1..]));
      ConformingSplit(r, done1, todo1, defrag);
      var done2;
      done2, todo, v := BufferInvariant(AcceptAll(r, done1, defrag), todo1, w, chunks[1..], defrag);
      done := done1 + done2;
      InTurn(r, done1, done2, todo, defrag);
      OctetsInTurn(done1, done2, w, Flat(chunks[1..]), v);
    }
  }

  /**
   * For every conforming stream and every way of cutting it, the user sees exactly the messages and control
   * frames of the stream, in order; pings and closes are answered; and the buffer ends up holding just the
   * message still in progress.
   */
  lemma CuttingIsInvisible(fs: seq<Frame>, chunks: seq<seq<byte>>, defrag: bool)
    requires Conforming(IDLE, fs, defrag) && Flat(chunks) == Flat(Packets(fs))
    ensures FRESH.ReceiveAll(chunks, defrag) == Holding(AcceptAll(IDLE, fs, defrag), [])
  {
    hide Conforming, Session.ReceiveAll, AcceptAll, Packets;
    assert [] + Flat(chunks) == Flat(chunks);
    assert FRESH == Holding(IDLE, []);
    var done, todo, v := BufferInvariant(IDLE, fs, [], chunks, defrag);
    NothingIsLeft(done, todo, v);
    assert done + [] == done;
  }

  lemma NothingIsLeft(done: seq<Frame>, todo: seq<Frame>, v: seq<byte>)
    requires Flat(Packets(done)) + v == Flat(Packets(done + todo)) && Unread(v, todo)
    ensures todo == [] && v == []
  {
    PacketsSplit(done, todo);
    assert v == Flat(Packets(todo));
  }
}
