/** Frames as section 5.2 of RFC 6455 lays them out, the streams sections 5.4 and 5.5 allow, and their reception. */
module WebSocketStream {
  import opened Bytes
  import opened WebSocketSpec

  /** Which of the three length fields a frame uses. */
  datatype LengthForm = Short | Medium | Long

  predicate Fits(form: LengthForm, n: nat) {
    match form
    case Short => n < 126
    case Medium => n < 0x1_0000
    case Long => n < TWO64
  }

  /** The mask bit and the payload length n, in the given form. */
  function LengthBytes(form: LengthForm, n: nat, key: Key): (s: seq<byte>)
    ensures |s| in {1, 3, 9}
  {
    var masked := if key == [] then 0 else 128;
    match form
    case Short => [masked + n % 128]
    case Medium => [masked + 126] + ToBigEndian(n, 2)
    case Long => [masked + 127] + ToBigEndian(n, 8)
  }

  /** `head` is the FIN bit, the reserved bits and the opcode; `key` is empty in an unmasked frame. */
  datatype Frame = Frame(head: byte, form: LengthForm, key: Key, payload: seq<byte>) {

    predicate WellFormed() {
      Fits(form, |payload|) && |payload| < TWO63
    }

    /** The octets of the frame before its payload. */
    function HeaderBytes(): (s: seq<byte>)
      ensures |s| == 1 + |LengthBytes(form, |payload|, key)| + |key|
    {
      [head] + LengthBytes(form, |payload|, key) + key
    }

    function Encode(): (s: seq<byte>)
      ensures |s| == |HeaderBytes()| + |payload| && s[0] == head
    {
      HeaderBytes() + Mask(payload, key)
    }
  }

  function Packets(fs: seq<Frame>): (ps: seq<seq<byte>>)
    ensures |ps| == |fs| && forall i :: 0 <= i < |fs| ==> ps[i] == fs[i].Encode()
  {
    seq(|fs|, i requires 0 <= i < |fs| => fs[i].Encode())
  }

  // ---- The receiver that RFC 6455 describes, on frames instead of octets ----

  /** The message of which some fragments have come. */
  datatype Pending = Nothing | Message(head: byte, data: seq<byte>) {
    /** How the receive buffer holds it: the opcode octet, then the payload so far. */
    function Bytes(): seq<byte> {
      if Nothing? then [] else [head] + data
    }
  }

  datatype Receiver = Receiver(pending: Pending, events: seq<Event>, replies: seq<Reply>)

  const IDLE := Receiver(Nothing, [], [])

  /** Section 5.4: control frames are whole, continuations follow a first fragment, no message starts inside another. */
  ghost predicate MayFollow(f: Frame, p: Pending, defrag: bool) {
    && f.WellFormed()
    && (IsControl(f.head) ==> f.head >= 128 && |f.payload| < 126)
    && (defrag && !IsControl(f.head) ==> (f.head % 16 == 0 <==> p.Message?))
  }

  /** A fragmented message is one event, and every other frame is an event of its own. */
  function Accept(r: Receiver, f: Frame, defrag: bool): Receiver {
    if !defrag || !IsFragment(f.head) then
      var replies :=
        if f.head % 16 == OP_PING then [Reply(OP_PONG, f.payload)]
        else if f.head % 16 == OP_CLOSE then [Reply(OP_CLOSE, f.payload)]
        else [];
      Receiver(r.pending, r.events + [Delivered(f.head, f.payload)], r.replies + replies)
    else if r.pending.Nothing? then r.(pending := Message(f.head, f.payload))
    else if f.head < 128 then r.(pending := Message(r.pending.head, r.pending.data + f.payload))
    else
      var whole := Delivered(WithFin(r.pending.head), r.pending.data + f.payload);
      Receiver(Nothing, r.events + [whole], r.replies)
  }

  function AcceptAll(r: Receiver, fs: seq<Frame>, defrag: bool): Receiver
    decreases |fs|
  {
    if fs == [] then r else AcceptAll(Accept(r, fs[0], defrag), fs[1..], defrag)
  }

  /** The frames of fs may be sent to a receiver in state r, one after the other. */
  ghost predicate Conforming(r: Receiver, fs: seq<Frame>, defrag: bool)
    decreases |fs|
  {
    fs == [] || (MayFollow(fs[0], r.pending, defrag) && Conforming(Accept(r, fs[0], defrag), fs[1..], defrag))
  }

  // ---- Headers ----

  lemma LengthRead(d: seq<byte>, head: byte, form: LengthForm, n: nat, key: Key, tail: seq<byte>)
    requires Fits(form, n) && d == [head] + LengthBytes(form, n, key) + tail && |tail| >= |key|
    ensures ReadHeader(d) == Header(|key|, 1 + |LengthBytes(form, n, key)| + |key|, n)
  {
    hide ToBigEndian, BigEndian;
    PowersOf256();
    match form
    case Short =>
    case Medium =>
      assert d[2..4] == ToBigEndian(n, 2);
      BigEndianRoundTrip(n, 2);
    case Long =>
      assert d[2..10] == ToBigEndian(n, 8);
      BigEndianRoundTrip(n, 8);
  }

  lemma HeaderRead(f: Frame, rest: seq<byte>)
    requires f.WellFormed()
    ensures ReadHeader(f.Encode() + rest) == Header(|f.key|, |f.HeaderBytes()|, |f.payload|)
  {
    var tail := f.key + Mask(f.payload, f.key) + rest;
    assert f.Encode() + rest == [f.head] + LengthBytes(f.form, |f.payload|, f.key) + tail;
    LengthRead(f.Encode() + rest, f.head, f.form, |f.payload|, f.key, tail);
  }

  /** Octets that have yet to come do not change what was read of a header. */
  lemma HeaderStable(p: seq<byte>, e: seq<byte>)
    requires p <= e
    ensures var h := ReadHeader(p); (h.headerLen == 0 && h.dataLen == 0) || h == ReadHeader(e)
  {
    if |p| >= 4 {
      assert p[2..4] == e[2..4];
    }
    if |p| >= 10 {
      assert p[2..10] == e[2..10];
    }
  }

  lemma MaskTwice(data: seq<byte>, key: Key)
    ensures Mask(Mask(data, key), key) == data
  {
    forall i | 0 <= i < |data| && key != []
      ensures Mask(Mask(data, key), key)[i] == data[i]
    {
      XorTwice(data[i], key[i % 4]);
    }
  }

  // ---- One frame ----

  function RxOf(p: Pending, unread: seq<byte>): (rx: Rx)
    ensures rx.Valid()
  {
    Rx(p.Bytes() + unread, |p.Bytes()|)
  }

  /** The state an encoder of section 5.4 leaves behind: a pending message began with an unfinished data frame. */
  ghost predicate PendingOk(p: Pending, defrag: bool) {
    p.Message? ==> defrag && p.head < 128 && p.head % 16 != 0
  }

  /** A frame is handled when it is complete, left alone when it is not, and refused when its length overflows. */
  lemma NextOutcome(rx: Rx, flags: byte, reass: bool, h: Header)
    requires rx.Valid() && (reass ==> IsFragment(flags))
    requires h.dataLen < TWO64 && h.headerLen <= 14
    requires h.headerLen > 0 ==> h.headerLen >= 2 + h.maskLen && h.maskLen in {0, 4}
    requires h.headerLen == 0 ==> h.dataLen == 0
    ensures var n := h.headerLen + h.dataLen;
            var o := DeliverNext(rx, flags, reass, h);
            if n < TWO64 && 0 < n <= |rx.buf| - rx.reass then o == DeliverFrame(rx, flags, reass, h)
            else !o.ok && o.rx == rx && o.events == [] && (n < TWO64 ==> o.replies == [])
  {
    hide DeliverFrame, Ascii;
    Wraps(h.headerLen, h.dataLen);
  }

  lemma Wraps(a: nat, b: nat)
    requires a < TWO64 && b < TWO64
    ensures (a + b) % TWO64 == if a + b < TWO64 then a + b else a + b - TWO64
  {}

  lemma DeliverComplete(p: Pending, f: Frame, rest: seq<byte>, defrag: bool)
    requires MayFollow(f, p, defrag) && PendingOk(p, defrag)
    ensures var rx := RxOf(p, f.Encode() + rest);
            var reass := defrag && IsFragment(f.head);
            var h := Header(|f.key|, |f.HeaderBytes()|, |f.payload|);
            && rx.reass + h.headerLen + h.dataLen <= |rx.buf|
            && Deliver(rx, defrag) == DeliverFrame(rx, f.head, reass, h)
  {
    hide DeliverNext, DeliverFrame, ReadHeader, Refusal, MayFollow, PendingOk;
    hide Frame.Encode, Frame.HeaderBytes, Pending.Bytes;
    var rx := RxOf(p, f.Encode() + rest);
    var d := f.Encode() + rest;
    assert rx.buf[rx.reass..] == d && d[0] == f.head;
    NotRefused(p, f, defrag);
    HeaderRead(f, rest);
    NextOutcome(rx, f.head, defrag && IsFragment(f.head), ReadHeader(d));
  }

  lemma NotRefused(p: Pending, f: Frame, defrag: bool)
    requires MayFollow(f, p, defrag) && PendingOk(p, defrag)
    ensures Refusal(f.head, defrag && IsFragment(f.head), |p.Bytes()| > 0) == [] && f.WellFormed()
  {
    hide Frame.WellFormed;
  }

  lemma FrameParts(rx: Rx, before: seq<byte>, f: Frame, rest: seq<byte>)
    requires f.WellFormed() && rx == Rx(before + (f.Encode() + rest), |before|)
    ensures var d := rx.buf[rx.reass..];
            var n := |f.HeaderBytes()|;
            && rx.buf[..rx.reass] == before
            && |d| == n + |f.payload| + |rest|
            && Mask(d[n..n + |f.payload|], d[n - |f.key|..n]) == f.payload
            && d[n + |f.payload|..] == rest
  {
    var d := rx.buf[rx.reass..];
    assert d == f.HeaderBytes() + Mask(f.payload, f.key) + rest;
    var n := |f.HeaderBytes()|;
    assert d[n..n + |f.payload|] == Mask(f.payload, f.key);
    assert d[n - |f.key|..n] == f.key;
    MaskTwice(f.payload, f.key);
  }

  /** What the code makes of a frame is what the receiver of RFC 6455 makes of it. */
  ghost predicate Concludes(r: Receiver, f: Frame, rest: seq<byte>, defrag: bool) {
    var o := Conclude(r.pending.Bytes(), f.head, defrag && IsFragment(f.head), f.payload, rest);
    && o.rx == RxOf(Accept(r, f, defrag).pending, rest)
    && r.events + o.events == Accept(r, f, defrag).events
    && r.replies + o.replies == Accept(r, f, defrag).replies
    && PendingOk(Accept(r, f, defrag).pending, defrag)
  }

  lemma WholeConcludes(r: Receiver, f: Frame, rest: seq<byte>, defrag: bool)
    requires MayFollow(f, r.pending, defrag) && PendingOk(r.pending, defrag) && !(defrag && IsFragment(f.head))
    ensures Concludes(r, f, rest, defrag)
  {}

  lemma FragmentConcludes(r: Receiver, f: Frame, rest: seq<byte>)
    requires MayFollow(f, r.pending, true) && PendingOk(r.pending, true) && IsFragment(f.head) && f.head < 128
    ensures Concludes(r, f, rest, true)
  {
    var first := if IsFirstFragment(f.head) then [f.head] else [];
    assert r.pending.Bytes() + first + f.payload == Accept(r, f, true).pending.Bytes();
  }

  lemma LastConcludes(r: Receiver, f: Frame, rest: seq<byte>)
    requires MayFollow(f, r.pending, true) && PendingOk(r.pending, true) && IsFragment(f.head) && f.head >= 128
    ensures Concludes(r, f, rest, true)
  {
    hide Frame.WellFormed;
    var joined := r.pending.Bytes() + [] + f.payload;
    assert joined[0] == r.pending.head && joined[1..] == r.pending.data + f.payload;
  }

  lemma ConcludeAccepts(r: Receiver, f: Frame, rest: seq<byte>, defrag: bool)
    requires MayFollow(f, r.pending, defrag) && PendingOk(r.pending, defrag)
    ensures Concludes(r, f, rest, defrag)
  {
    hide Concludes, MayFollow, PendingOk;
    if !(defrag && IsFragment(f.head)) {
      WholeConcludes(r, f, rest, defrag);
    } else if f.head < 128 {
      FragmentConcludes(r, f, rest);
    } else {
      LastConcludes(r, f, rest);
    }
  }

  /** The connection that has done what r did and holds the unread octets u. */
  function Holding(r: Receiver, u: seq<byte>): (s: Session)
    ensures s.rx.Valid()
  {
    Session(RxOf(r.pending, u), r.events, r.replies)
  }

  lemma DeliverWhole(r: Receiver, f: Frame, rest: seq<byte>, defrag: bool)
    requires MayFollow(f, r.pending, defrag) && PendingOk(r.pending, defrag)
    ensures Holding(r, f.Encode() + rest).Call(defrag) == (Holding(Accept(r, f, defrag), rest), true)
    ensures PendingOk(Accept(r, f, defrag).pending, defrag)
  {
    hide DeliverNext, Frame.Encode, ReadHeader, Mask, LengthBytes;
    DeliverComplete(r.pending, f, rest, defrag);
    FrameParts(RxOf(r.pending, f.Encode() + rest), r.pending.Bytes(), f, rest);
    ConcludeAccepts(r, f, rest, defrag);
  }

  lemma PrefixHeader(f: Frame, part: seq<byte>)
    requires f.WellFormed() && StrictPrefix(part, f.Encode()) && part != []
    ensures var h := ReadHeader(part);
            part[0] == f.head && h.headerLen + h.dataLen < TWO64
            && (h.headerLen + h.dataLen == 0 || h.headerLen + h.dataLen > |part|)
  {
    hide Mask, LengthBytes, ReadHeader;
    HeaderStable(part, f.Encode());
    HeaderRead(f, []);
    assert f.Encode() + [] == f.Encode();
  }

  /** A frame cut short is never taken for a frame, nor for an error. */
  lemma DeliverPrefix(r: Receiver, f: Frame, part: seq<byte>, defrag: bool)
    requires MayFollow(f, r.pending, defrag) && PendingOk(r.pending, defrag) && StrictPrefix(part, f.Encode())
    ensures Holding(r, part).Call(defrag) == (Holding(r, part), false)
  {
    hide DeliverNext, Frame.Encode, ReadHeader;
    var rx := RxOf(r.pending, part);
    assert rx.buf[rx.reass..] == part;
    if part != [] {
      PrefixHeader(f, part);
      NextOutcome(rx, f.head, defrag && IsFragment(f.head), ReadHeader(part));
    }
    assert Deliver(rx, defrag) == Outcome(rx, false, [], []);
    assert r.events + [] == r.events && r.replies + [] == r.replies;
  }
}
