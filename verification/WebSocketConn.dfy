/** The WebSocket code of the library, working in place on the connection's two buffers. */
module WebSocketConn {
  import opened Bytes
  import opened Buffers
  import opened WebSocketSpec
  import opened WebSocketStream
  import opened WebSocketSend

  /** Appends the header and returns where the octets to mask begin, 0 for none. */
  method SendHeader(out: Mbuf, op: nat, n: nat, key: Key) returns (pos: nat)
    requires out.Valid()
    modifies out, out.buf
    ensures out.Valid() && (fresh(out.buf) || out.buf == old(out.buf))
    ensures out.Contents() == old(out.Contents()) + HeaderFor(op, n, key)
    ensures pos == if key == [] then 0 else |out.Contents()|
  {
    var header := [Head(op)];
    var masked := if key == [] then 0 else 128;
    if n < 126 {
      header := header + [masked + n];
    } else if n < 65535 {
      header := header + [masked + 126] + ToBigEndian(n, 2);
    } else {
      header := header + [masked + 127] + ToBigEndian(n, 8);
    }
    assert header == [Head(op)] + LengthBytes(FormFor(n), n, key);
    out.Add(header);
    if key == [] {
      pos := 0;
    } else {
      out.Add(key);
      pos := out.len;
    }
  }

  /** Masks the octets from pos on where they lie. */
  method MaskFrame(out: Mbuf, pos: nat, key: Key)
    requires out.Valid() && pos <= out.len && (pos == 0 || key != [])
    modifies out.buf
    ensures out.Valid()
    ensures out.Contents() == if pos == 0 then old(out.Contents())
                              else old(out.Contents()[..pos]) + Mask(old(out.Contents()[pos..]), key)
  {
    if pos > 0 {
      MaskRange(out, pos, out.len - pos, key);
    }
  }

  method MaskRange(b: Mbuf, at: nat, n: nat, key: Key)
    requires b.Valid() && at + n <= b.len && key != []
    modifies b.buf
    ensures b.Valid()
    ensures b.Contents()
            == old(b.Contents()[..at]) + Mask(old(b.Contents()[at..at + n]), key) + old(b.Contents()[at + n..])
  {
    ghost var was := b.Contents();
    ghost var masked := Mask(was[at..at + n], key);
    for i := 0 to n
      invariant forall j :: 0 <= j < b.len && !(at <= j < at + i) ==> b.buf[j] == was[j]
      invariant forall j :: 0 <= j < i ==> b.buf[at + j] == masked[j]
    {
      b.buf[at + i] := Xor(b.buf[at + i], key[i % 4]);
    }
    assert b.Contents() == was[..at] + masked + was[at + n..];
  }

  method SendFrame(out: Mbuf, op: nat, data: seq<byte>, key: Key)
    requires out.Valid()
    modifies out, out.buf
    ensures out.Valid() && (fresh(out.buf) || out.buf == old(out.buf))
    ensures out.Contents() == old(out.Contents()) + SentBytes(op, data, key)
  {
    hide Mask, HeaderFor, ThroughInt;
    var pos := SendHeader(out, op, |data|, key);
    ghost var before := out.Contents();
    Queue(out, data);
    MaskFrame(out, pos, key);
    Masked(before, ThroughInt(data), key, pos);
    Rebracket(old(out.Contents()), HeaderFor(op, |data|, key), Mask(ThroughInt(data), key));
  }

  lemma NoKey(data: seq<byte>)
    ensures Mask(data, []) == data
  {}

  lemma Masked(before: seq<byte>, sent: seq<byte>, key: Key, pos: nat)
    requires before != [] && pos == if key == [] then 0 else |before|
    ensures (if pos == 0 then before + sent else (before + sent)[..pos] + Mask((before + sent)[pos..], key))
            == before + Mask(sent, key)
  {
    assert (before + sent)[|before|..] == sent;
  }

  /** The lengths added up in an int. */
  method AddLengths(pieces: seq<seq<byte>>) returns (len: int)
    ensures len == Int32(Total(pieces))
  {
    len := 0;
    for i := 0 to |pieces|
      invariant len == Int32(Total(pieces[..i]))
    {
      hide Int32;
      TotalSnoc(pieces, i);
      WrapsLate(Total(pieces[..i]), |pieces[i]|);
      len := Int32(len + |pieces[i]|);
    }
    assert pieces[..|pieces|] == pieces;
  }

  lemma WrapsLate(a: int, b: int)
    ensures Int32(Int32(a) + b) == Int32(a + b)
  {
    var q, r := a / TWO32, (a % TWO32 + b) / TWO32;
    var low := a % TWO32 + b - TWO32 * r;
    assert a + b == TWO32 * (q + r) + low;
    DivMod(a + b, TWO32, q + r, low);
    DivMod(Int32(a) + b, TWO32, if Int32(a) == a % TWO32 then r else r - 1, low);
  }

  method SendFrameVector(out: Mbuf, op: nat, pieces: seq<seq<byte>>, key: Key)
    requires out.Valid()
    modifies out, out.buf
    ensures out.Valid() && (fresh(out.buf) || out.buf == old(out.buf))
    ensures out.Contents() == old(out.Contents()) + SentVector(op, pieces, key)
  {
    hide Mask, HeaderFor, ThroughInt, Int32;
    var len := AddLengths(pieces);
    var pos := SendHeader(out, op, len % TWO64, key);
    ghost var before := out.Contents();
    for i := 0 to |pieces|
      invariant out.Valid() && (fresh(out.buf) || out.buf == old(out.buf))
      invariant out.Contents() == before + SentPieces(pieces[..i])
    {
      SentSnoc(pieces, i);
      Rebracket(before, SentPieces(pieces[..i]), ThroughInt(pieces[i]));
      Queue(out, pieces[i]);
    }
    assert pieces[..|pieces|] == pieces;
    MaskFrame(out, pos, key);
    Masked(before, SentPieces(pieces), key, pos);
    Rebracket(old(out.Contents()), HeaderFor(op, len % TWO64, key), Mask(SentPieces(pieces), key));
  }

  lemma {:induction false} TotalSnoc(pieces: seq<seq<byte>>, i: nat)
    requires i < |pieces|
    ensures Total(pieces[..i + 1]) == Total(pieces[..i]) + |pieces[i]|
  {
    if i > 0 {
      TotalSnoc(pieces[1..], i - 1);
      assert pieces[1..][..i] == pieces[..i + 1][1..] && pieces[1..][..i - 1] == pieces[..i][1..];
    }
  }

  lemma {:induction false} SentSnoc(pieces: seq<seq<byte>>, i: nat)
    requires i < |pieces|
    ensures SentPieces(pieces[..i + 1]) == SentPieces(pieces[..i]) + ThroughInt(pieces[i])
  {
    hide ThroughInt;
    if i > 0 {
      SentSnoc(pieces[1..], i - 1);
      assert pieces[1..][..i] == pieces[..i + 1][1..] && pieces[1..][..i - 1] == pieces[..i][1..];
    }
  }

  /** The frames the replies are sent in, each masked with its own key. */
  function ReplyBytes(replies: seq<Reply>, keys: seq<Key>): seq<byte>
    requires |keys| == |replies|
  {
    if replies == [] then []
    else SentBytes(replies[0].op, replies[0].data, keys[0]) + ReplyBytes(replies[1..], keys[1..])
  }

  lemma {:induction false} ReplyBytesSplit(a: seq<Reply>, j: seq<Key>, b: seq<Reply>, k: seq<Key>)
    requires |a| == |j| && |b| == |k|
    ensures ReplyBytes(a + b, j + k) == ReplyBytes(a, j) + ReplyBytes(b, k)
  {
    hide SentBytes;
    if a == [] {
      assert a + b == b && j + k == k;
    } else {
      assert (a + b)[1..] == a[1..] + b && (j + k)[1..] == j[1..] + k;
      ReplyBytesSplit(a[1..], j[1..], b, k);
      Rebracket(SentBytes(a[0].op, a[0].data, j[0]), ReplyBytes(a[1..], j[1..]), ReplyBytes(b, k));
    }
  }

  /** Each key is a later draw than the one before it, or there are none. */
  predicate Drawn(keys: seq<Key>, draws: seq<nat>, client: bool, rand: nat -> Key) {
    && |keys| == |draws|
    && (forall i :: 0 <= i < |keys| ==> keys[i] == if client then rand(draws[i]) else [])
    && forall i, j :: 0 <= i < j < |draws| ==> draws[i] < draws[j]
  }

  predicate AllBefore(draws: seq<nat>, i: nat) {
    forall j :: 0 <= j < |draws| ==> draws[j] < i
  }

  function Again(i: nat, n: nat): (s: seq<nat>)
    ensures |s| == n && forall j :: 0 <= j < n ==> s[j] == i
  {
    seq(n, _ => i)
  }

  lemma NothingDrawn(client: bool, rand: nat -> Key)
    ensures Drawn([], [], client, rand) && AllBefore([], 0)
  {}

  lemma DrawMore(keys: seq<Key>, draws: seq<nat>, client: bool, rand: nat -> Key, i: nat, more: seq<Key>)
    requires Drawn(keys, draws, client, rand) && AllBefore(draws, i)
    requires |more| <= 1 && forall k <- more :: k == if client then rand(i) else []
    ensures Drawn(keys + more, draws + Again(i, |more|), client, rand)
    ensures AllBefore(draws + Again(i, |more|), i + 1)
  {
    if more != [] {
      assert more[0] in more;
    }
  }

  lemma AtMostOneReply(rx: Rx, defrag: bool)
    requires rx.Valid()
    ensures |WebSocketSpec.Deliver(rx, defrag).replies| <= 1
  {
    hide ReadHeader, CloseBody, Mask;
  }

  function Repeat(key: Key, n: nat): (keys: seq<Key>)
    ensures |keys| == n
  {
    seq(n, _ => key)
  }

  predicate Closes(replies: seq<Reply>) {
    exists r <- replies :: r.op == OP_CLOSE
  }

  class Conn {
    const recv: Mbuf
    const out: Mbuf
    const client: bool // no listener: frames sent are masked
    const noDefrag: bool
    var reassLen: nat
    var sendAndClose: bool
    var log: seq<Event> // what the user's handler was called with

    ghost predicate Valid()
      reads this, recv, out
    {
      && recv != out && recv.buf != out.buf
      && recv.Valid() && out.Valid()
      && reassLen <= recv.len
    }

    ghost function Rx(): (rx: Rx)
      requires Valid()
      reads this, recv, recv.buf, out
      ensures rx.Valid()
    {
      WebSocketSpec.Rx(recv.Contents(), reassLen)
    }

    constructor (client: bool, noDefrag: bool)
      ensures Valid() && fresh(recv) && fresh(out) && fresh(recv.buf) && fresh(out.buf)
      ensures Rx() == FRESH.rx && log == [] && out.Contents() == []
      ensures this.client == client && this.noDefrag == noDefrag && !sendAndClose
    {
      recv := new Mbuf(0);
      out := new Mbuf(0);
      this.client := client;
      this.noDefrag := noDefrag;
      reassLen := 0;
      sendAndClose := false;
      log := [];
    }

    method Reply(op: nat, data: seq<byte>, key: Key)
      requires Valid()
      modifies this`sendAndClose, out, out.buf
      ensures Valid() && (fresh(out.buf) || out.buf == old(out.buf))
      ensures out.Contents() == old(out.Contents()) + ReplyBytes([WebSocketSpec.Reply(op, data)], Repeat(key, 1))
      ensures sendAndClose == (old(sendAndClose) || op == OP_CLOSE)
    {
      SendFrame(out, op, data, key);
      if op == OP_CLOSE {
        sendAndClose := true;
      }
    }

    /** Appends the payload at dataAt to the message under reassembly, over the header. */
    method JoinFragment(flags: byte, dataAt: nat, dataLen: nat,
                        ghost before: seq<byte>, ghost payload: seq<byte>, ghost rest: seq<byte>)
      requires Valid() && recv.Contents() == before + payload + rest
      requires reassLen + 2 <= |before| == dataAt && dataLen == |payload|
      requires before[reassLen] == flags && IsFragment(flags)
      modifies this`reassLen, this`log, recv, recv.buf
      ensures Valid() && recv.buf == old(recv.buf)
      ensures var o := Conclude(before[..old(reassLen)], flags, true, payload, rest);
              Rx() == o.rx && log == old(log) + o.events
    {
      hide IsFragment, WithFin;
      assert flags >= 128 ==> !IsFirstFragment(flags);
      ghost var joined := before[..reassLen] + (if IsFirstFragment(flags) then [flags] else []) + payload;
      var newData := reassLen;
      if IsFirstFragment(flags) {
        newData := newData + 1;
        reassLen := 1;
      }
      recv.CloseGap(newData, dataAt);
      reassLen := reassLen + dataLen;
      assert recv.Contents() == joined + rest;
      if flags >= 128 {
        EmitMessage(joined, rest);
      }
    }

    /** Delivers the reassembled message and removes it from the buffer. */
    method EmitMessage(ghost joined: seq<byte>, ghost rest: seq<byte>)
      requires Valid() && recv.Contents() == joined + rest && reassLen == |joined|
      modifies this`reassLen, this`log, recv, recv.buf
      ensures Valid() && recv.buf == old(recv.buf) && Rx() == WebSocketSpec.Rx(rest, 0)
      ensures log == old(log) + [if joined == [] then Wild else Delivered(WithFin(joined[0]), joined[1..])]
    {
      if reassLen == 0 {
        log := log + [Wild];
      } else {
        assert recv.Contents()[1..reassLen] == joined[1..];
        assert recv.Contents()[0] == joined[0] && recv.buf[1..reassLen] == recv.Contents()[1..reassLen];
        log := log + [Delivered(WithFin(recv.buf[0]), recv.buf[1..reassLen])];
      }
      recv.Remove(reassLen);
      reassLen := 0;
    }

    /** Reacts on a control frame. */
    method Answer(flags: byte, data: seq<byte>, after: seq<byte>, key: Key)
      requires Valid()
      modifies this`sendAndClose, out, out.buf
      ensures Valid() && (fresh(out.buf) || out.buf == old(out.buf))
      ensures var replies := Answers(flags, data, after);
              && out.Contents() == old(out.Contents()) + ReplyBytes(replies, Repeat(key, |replies|))
              && sendAndClose == (old(sendAndClose) || Closes(replies))
    {
      hide SentBytes;
      if flags % 16 == OP_PING {
        Reply(OP_PONG, data, key);
      } else if flags % 16 == OP_CLOSE {
        Reply(OP_CLOSE, CloseBody(data, after), key);
      }
    }

    /** Answers and delivers the frame, then closes the gap it leaves. */
    method WholeFrame(flags: byte, dataAt: nat, dataLen: nat, key: Key,
                      ghost before: seq<byte>, ghost payload: seq<byte>, ghost rest: seq<byte>)
      requires Valid() && recv.Contents() == before + payload + rest
      requires reassLen <= |before| == dataAt && dataLen == |payload|
      modifies this`sendAndClose, this`log, recv, recv.buf, out, out.buf
      ensures Valid() && recv.buf == old(recv.buf) && (fresh(out.buf) || out.buf == old(out.buf))
      ensures var o := Conclude(before[..old(reassLen)], flags, false, payload, rest);
              && Rx() == o.rx && log == old(log) + o.events
              && out.Contents() == old(out.Contents()) + ReplyBytes(o.replies, Repeat(key, |o.replies|))
              && sendAndClose == (old(sendAndClose) || Closes(o.replies))
    {
      hide ReplyBytes, Closes, CloseBody;
      var data, after := recv.buf[dataAt..dataAt + dataLen], recv.buf[dataAt + dataLen..recv.len];
      assert data == payload && after == rest;
      Answer(flags, data, after, key);
      log := log + [Delivered(flags, data)];
      Closed(before, payload, rest, reassLen);
      recv.CloseGap(reassLen, dataAt + dataLen);
    }

    lemma Closed(before: seq<byte>, payload: seq<byte>, rest: seq<byte>, from: nat)
      requires from <= |before|
      ensures var all := before + payload + rest;
              all[..from] + all[|before| + |payload|..] == before[..from] + rest
    {}

    /** The payload in front of which h is the header, unmasked. */
    ghost function Payload(was: seq<byte>, at: nat, h: Header): (p: seq<byte>)
      requires h.maskLen <= at <= at + h.dataLen <= |was| && h.maskLen in {0, 4}
      ensures |p| == h.dataLen
    {
      Mask(was[at..at + h.dataLen], was[at - h.maskLen..at])
    }

    lemma DeliverParts(was: seq<byte>, base: nat, flags: byte, reass: bool, h: Header)
      requires base + h.headerLen + h.dataLen <= |was|
      requires h.headerLen >= 2 + h.maskLen && h.maskLen in {0, 4} && (reass ==> IsFragment(flags))
      ensures var at := base + h.headerLen;
              WebSocketSpec.DeliverFrame(WebSocketSpec.Rx(was, base), flags, reass, h)
              == Conclude(was[..at][..base], flags, reass, Payload(was, at, h), was[at + h.dataLen..])
    {
      hide Conclude, Mask;
      SliceAgain(was, 0, base + h.headerLen, 0, base);
      assert was[base..|was|] == was[base..];
      assert was[base..][h.headerLen + h.dataLen..] == was[base + h.headerLen + h.dataLen..];
      SliceAgain(was, base, |was|, h.headerLen, h.headerLen + h.dataLen);
      SliceAgain(was, base, |was|, h.headerLen - h.maskLen, h.headerLen);
    }

    /** Unmasks the payload where it lies. */
    method UnmaskPayload(h: Header)
      requires Valid() && reassLen + h.headerLen + h.dataLen <= recv.len
      requires h.headerLen >= 2 + h.maskLen && h.maskLen in {0, 4}
      modifies recv.buf
      ensures Valid()
      ensures var was, at := old(recv.Contents()), reassLen + h.headerLen;
              recv.Contents() == was[..at] + Payload(was, at, h) + was[at + h.dataLen..]
    {
      hide Mask;
      ghost var was := recv.Contents();
      var at := reassLen + h.headerLen;
      NoKey(was[at..at + h.dataLen]);
      ThreeParts(was, at, at + h.dataLen);
      if h.maskLen > 0 {
        var mask := recv.buf[at - h.maskLen..at];
        assert mask == was[at - h.maskLen..at];
        MaskRange(recv, at, h.dataLen, mask);
      } else {
        assert was[at - h.maskLen..at] == [];
      }
    }

    /** The parts of the buffer when the payload is unmasked. */
    method Unmask(flags: byte, reass: bool, h: Header)
      returns (ghost before: seq<byte>, ghost payload: seq<byte>, ghost rest: seq<byte>)
      requires Valid() && reassLen + h.headerLen + h.dataLen <= recv.len
      requires h.headerLen >= 2 + h.maskLen && h.maskLen in {0, 4}
      requires flags == recv.buf[reassLen] && (reass ==> IsFragment(flags))
      modifies recv.buf
      ensures Valid() && recv.Contents() == before + payload + rest
      ensures |before| == reassLen + h.headerLen && |payload| == h.dataLen && before[reassLen] == flags
      ensures WebSocketSpec.DeliverFrame(old(Rx()), flags, reass, h)
              == Conclude(before[..reassLen], flags, reass, payload, rest)
    {
      hide Conclude, Payload, WebSocketSpec.DeliverFrame, IsFragment;
      ghost var was := recv.Contents();
      ghost var at := reassLen + h.headerLen;
      before, rest := was[..at], was[at + h.dataLen..];
      payload := Payload(was, at, h);
      DeliverParts(was, reassLen, flags, reass, h);
      assert before[reassLen] == flags;
      UnmaskPayload(h);
    }

    method DeliverFrame(flags: byte, reass: bool, h: Header, key: Key)
      requires Valid() && reassLen + h.headerLen + h.dataLen <= recv.len
      requires h.headerLen >= 2 + h.maskLen && h.maskLen in {0, 4}
      requires flags == recv.buf[reassLen] && (reass ==> IsFragment(flags))
      modifies this, recv, recv.buf, out, out.buf
      ensures Valid() && recv.buf == old(recv.buf) && (fresh(out.buf) || out.buf == old(out.buf))
      ensures var o := WebSocketSpec.DeliverFrame(old(Rx()), flags, reass, h);
              && Rx() == o.rx && log == old(log) + o.events
              && out.Contents() == old(out.Contents()) + ReplyBytes(o.replies, Repeat(key, |o.replies|))
              && sendAndClose == (old(sendAndClose) || Closes(o.replies))
    {
      hide Conclude, Mask, ReplyBytes, WebSocketSpec.DeliverFrame, Closes, IsFragment;
      ghost var before, payload, rest := Unmask(flags, reass, h);
      var at := reassLen + h.headerLen;
      if reass {
        NoReplies(before[..reassLen], flags, payload, rest, key);
        JoinFragment(flags, at, h.dataLen, before, payload, rest);
      } else {
        WholeFrame(flags, at, h.dataLen, key, before, payload, rest);
      }
    }

    lemma OneReply(r: WebSocketSpec.Reply)
      ensures Closes([r]) <==> r.op == OP_CLOSE
    {
      assert r in [r];
    }

    lemma NoReply(key: Key)
      ensures ReplyBytes([], Repeat(key, 0)) == [] && !Closes([])
    {}

    lemma NoReplies(kept: seq<byte>, flags: byte, payload: seq<byte>, rest: seq<byte>, key: Key)
      requires IsFragment(flags)
      ensures var replies := Conclude(kept, flags, true, payload, rest).replies;
              replies == [] && ReplyBytes(replies, Repeat(key, |replies|)) == [] && !Closes(replies)
    {}

    method DeliverNext(flags: byte, reass: bool, h: Header, key: Key) returns (ok: bool)
      requires Valid() && reassLen < recv.len && flags == recv.buf[reassLen]
      requires reass ==> IsFragment(flags)
      requires h == ReadHeader(recv.Contents()[reassLen..])
      modifies this, recv, recv.buf, out, out.buf
      ensures Valid() && recv.buf == old(recv.buf) && (fresh(out.buf) || out.buf == old(out.buf))
      ensures var o := WebSocketSpec.DeliverNext(old(Rx()), flags, reass, h);
              && ok == o.ok && Rx() == o.rx && log == old(log) + o.events
              && out.Contents() == old(out.Contents()) + ReplyBytes(o.replies, Repeat(key, |o.replies|))
              && sendAndClose == (old(sendAndClose) || Closes(o.replies))
    {
      hide WebSocketSpec.DeliverFrame, ReadHeader, SentBytes, Ascii, IsFragment, Closes, Repeat, ReplyBytes;
      OneReply(WebSocketSpec.Reply(OP_CLOSE, Ascii(OVERFLOWED)));
      NoReply(key);
      var frameLen := (h.headerLen + h.dataLen) % TWO64;
      if frameLen < h.headerLen || frameLen < h.dataLen {
        Reply(OP_CLOSE, Ascii(OVERFLOWED), key);
        return false;
      }
      ok := 0 < frameLen <= recv.len - reassLen;
      if ok {
        DeliverFrame(flags, reass, h, key);
      }
    }

    /** One call of `mg_deliver_websocket_data`; key masks the reply it may send. */
    method Deliver(key: Key) returns (ok: bool)
      requires Valid()
      modifies this, recv, recv.buf, out, out.buf
      ensures Valid() && recv.buf == old(recv.buf) && (fresh(out.buf) || out.buf == old(out.buf))
      ensures var o := WebSocketSpec.Deliver(old(Rx()), !noDefrag);
              && ok == o.ok && Rx() == o.rx && log == old(log) + o.events
              && out.Contents() == old(out.Contents()) + ReplyBytes(o.replies, Repeat(key, |o.replies|))
              && sendAndClose == (old(sendAndClose) || Closes(o.replies))
    {
      var base := reassLen;
      if recv.len == base {
        return false;
      }
      var flags := recv.buf[base];
      var reass := !noDefrag && IsFragment(flags);
      var refusal := Refusal(flags, reass, base > 0);
      ghost var d := recv.Contents()[base..];
      assert d[0] == flags;
      if refusal != [] {
        Reply(refusal[0].op, refusal[0].data, key);
        return false;
      }
      var h := ReadHeaderAt(recv.buf, base, recv.len);
      assert recv.buf[base..recv.len] == d;
      ok := DeliverNext(flags, reass, h, key);
    }
  
    /**
     * `MG_EV_RECV`: the chunk is in the buffer and the deliver loop runs. `rand` gives a masking key for each call;
     * keys are those the replies went out with: on a client's connection a new one each, otherwise none.
     */
    method Receive(chunk: seq<byte>, rand: nat -> Key) returns (ghost keys: seq<Key>, ghost draws: seq<nat>)
      requires Valid()
      modifies this, recv, recv.buf, out, out.buf
      ensures Valid() && (fresh(recv.buf) || recv.buf == old(recv.buf)) && (fresh(out.buf) || out.buf == old(out.buf))
      ensures var s := Session(old(Rx()), old(log), []).Receive(chunk, !noDefrag);
              && Rx() == s.rx && log == s.events && |keys| == |s.replies| == |draws|
              && out.Contents() == old(out.Contents()) + ReplyBytes(s.replies, keys)
      ensures Drawn(keys, draws, client, rand)
    {
      hide WebSocketSpec.Deliver, SentBytes, Drawn, AllBefore, Again, Closes;
      recv.Add(chunk);
      ghost var s0 := Session(old(Rx()), old(log), []);
      ghost var goal := s0.Receive(chunk, !noDefrag);
      ghost var replies: seq<WebSocketSpec.Reply> := [];
      keys, draws := [], [];
      NothingDrawn(client, rand);
      var i: nat, ok := 0, true;
      while ok
        invariant Valid() && |keys| == |replies| == |draws|
        invariant Drawn(keys, draws, client, rand) && AllBefore(draws, i)
        invariant (fresh(recv.buf) || recv.buf == old(recv.buf)) && (fresh(out.buf) || out.buf == old(out.buf))
        invariant out.Contents() == old(out.Contents()) + ReplyBytes(replies, keys)
        invariant if ok then Session(Rx(), log, replies).DeliverAll(!noDefrag) == goal
                  else goal == Session(Rx(), log, replies)
        decreases ok, recv.len
      {
        ghost var o := WebSocketSpec.Deliver(Rx(), !noDefrag);
        AtMostOneReply(Rx(), !noDefrag);
        ghost var more := Repeat(if client then rand(i) else [], |o.replies|);
        ok := Deliver(if client then rand(i) else []);
        ReplyBytesSplit(replies, keys, o.replies, more);
        Rebracket(old(out.Contents()), ReplyBytes(replies, keys), ReplyBytes(o.replies, more));
        DrawMore(keys, draws, client, rand, i, more);
        draws := draws + Again(i, |more|);
        replies, keys := replies + o.replies, keys + more;
        i := i + 1;
      }
    }
  }

  /** Reads the header of the frame that begins at `at` in the first `len` octets of a. */
  method ReadHeaderAt(a: array<byte>, at: nat, len: nat) returns (h: Header)
    requires at <= len <= a.Length
    ensures h == ReadHeader(a[at..len])
  {
    ghost var d := a[at..len];
    var n := len - at;
    if n < 2 {
      return Header(0, 0, 0);
    }
    var b := a[at + 1];
    var maskLen := if b >= 128 then 4 else 0;
    if b % 128 < 126 && n >= maskLen {
      return Header(maskLen, 2 + maskLen, b % 128);
    } else if b % 128 == 126 && n >= 4 + maskLen {
      SliceAgain(a[..], at, len, 2, 4);
      assert a[..][at..len] == d && a[..][at + 2..at + 4] == a[at + 2..at + 4];
      return Header(maskLen, 4 + maskLen, BigEndian(a[at + 2..at + 4]));
    } else if n >= 10 + maskLen {
      SliceAgain(a[..], at, len, 2, 10);
      assert a[..][at..len] == d && a[..][at + 2..at + 10] == a[at + 2..at + 10];
      return Header(maskLen, 10 + maskLen, BigEndian(a[at + 2..at + 10]));
    }
    return Header(maskLen, 0, 0);
  }
}
