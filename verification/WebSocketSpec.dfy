/** What one pass over the receive buffer of a WebSocket connection does, as a function of its state. */
module WebSocketSpec {
  import opened Bytes

  const OP_CLOSE := 8
  const OP_PING := 9
  const OP_PONG := 10
  const DONT_FIN := 0x100

  predicate IsFragment(flags: byte) {
    flags < 128 || flags % 16 == 0
  }

  predicate IsFirstFragment(flags: byte) {
    flags < 128 && flags % 16 != 0
  }

  predicate IsControl(flags: byte) {
    flags % 16 in {OP_CLOSE, OP_PING, OP_PONG}
  }

  /** What the receiver read of a frame header; headerLen is 0 while the header is incomplete. */
  datatype Header = Header(maskLen: nat, headerLen: nat, dataLen: nat)

  function ReadHeader(d: seq<byte>): (h: Header)
    ensures h.dataLen < TWO64 && h.headerLen <= 14
    ensures h.headerLen > 0 ==> |d| >= 2 && h.headerLen >= 2 + h.maskLen && h.maskLen in {0, 4}
    ensures h.headerLen == 0 ==> h.dataLen == 0
  {
    if |d| < 2 then Header(0, 0, 0)
    else
      var len := d[1] % 128;
      var maskLen := if d[1] >= 128 then 4 else 0;
      if len < 126 && |d| >= maskLen then Header(maskLen, 2 + maskLen, len)
      else if len == 126 && |d| >= 4 + maskLen then
        PowersOf256();
        Header(maskLen, 4 + maskLen, BigEndian(d[2..4]))
      else if |d| >= 10 + maskLen then
        PowersOf256();
        Header(maskLen, 10 + maskLen, BigEndian(d[2..10]))
      else Header(maskLen, 0, 0)
  }

  /** A masking key of four octets, or none. */
  type Key = k: seq<byte> | |k| == 0 || |k| == 4

  /** Masks or unmasks data; no key means no masking. */
  function Mask(data: seq<byte>, key: Key): (r: seq<byte>)
    ensures |r| == |data|
  {
    if key == [] then data else seq(|data|, i requires 0 <= i < |data| => Xor(data[i], key[i % 4]))
  }

  /** What the user's handler is given. `Wild` stands for a payload whose length wrapped to 2^64 - 1. */
  datatype Event = Delivered(flags: byte, data: seq<byte>) | Wild

  /** A frame the library sends on its own account. */
  datatype Reply = Reply(op: nat, data: seq<byte>)

  /** The receive buffer; its first `reass` octets are the message being reassembled. */
  datatype Rx = Rx(buf: seq<byte>, reass: nat) {
    predicate Valid() {
      reass <= |buf|
    }
  }

  datatype Outcome = Outcome(rx: Rx, ok: bool, events: seq<Event>, replies: seq<Reply>)

  const FRAGMENTED_CONTROL := "fragmented control frames are illegal"
  const NOT_A_CONTINUATION := "non-continuation in the middle of a fragmented message"
  const OVERFLOWED := "overflowed message"

  function Ascii(s: string): (b: seq<byte>)
    ensures |b| == |s|
  {
    seq(|s|, i requires 0 <= i < |s| => s[i] as int % 256)
  }

  /** The octets before the first NUL. */
  function CString(s: seq<byte>): seq<byte> {
    if s == [] || s[0] == 0 then [] else [s[0]] + CString(s[1..])
  }

  /** `mg_ws_close` takes a length whose low 32 bits are all ones as a request to use strlen. */
  function CloseBody(data: seq<byte>, after: seq<byte>): seq<byte> {
    if |data| % TWO32 == TWO32 - 1 then CString(data + after) else data
  }

  /** The close frame that answers a frame not allowed at this point, if it is not. */
  function Refusal(flags: byte, reass: bool, midMessage: bool): seq<Reply> {
    if reass && IsControl(flags) then [Reply(OP_CLOSE, Ascii(FRAGMENTED_CONTROL))]
    else if !reass && !IsControl(flags) && midMessage then [Reply(OP_CLOSE, Ascii(NOT_A_CONTINUATION))]
    else []
  }

  /** One call of `mg_deliver_websocket_data`. */
  function Deliver(rx: Rx, defrag: bool): (o: Outcome)
    requires rx.Valid()
    ensures o.rx.Valid()
    ensures o.ok ==> |o.rx.buf| < |rx.buf|
    ensures !o.ok ==> o.rx == rx && o.events == []
  {
    var d := rx.buf[rx.reass..];
    if d == [] then Outcome(rx, false, [], [])
    else
      var reass := defrag && IsFragment(d[0]);
      var refusal := Refusal(d[0], reass, rx.reass > 0);
      if refusal != [] then Outcome(rx, false, [], refusal) else DeliverNext(rx, d[0], reass, ReadHeader(d))
  }

  /** The part of the call that follows the reading of the header; lengths are added in 64 bits. */
  function DeliverNext(rx: Rx, flags: byte, reass: bool, h: Header): (o: Outcome)
    requires rx.Valid() && (reass ==> IsFragment(flags))
    requires h.dataLen < TWO64 && h.headerLen <= 14
    requires h.headerLen > 0 ==> h.headerLen >= 2 + h.maskLen && h.maskLen in {0, 4}
    requires h.headerLen == 0 ==> h.dataLen == 0
    ensures o.rx.Valid()
    ensures o.ok ==> |o.rx.buf| < |rx.buf|
    ensures !o.ok ==> o.rx == rx && o.events == []
  {
    var frameLen := (h.headerLen + h.dataLen) % TWO64;
    if frameLen < h.headerLen || frameLen < h.dataLen then
      Outcome(rx, false, [], [Reply(OP_CLOSE, Ascii(OVERFLOWED))])
    else if 0 < frameLen <= |rx.buf| - rx.reass then DeliverFrame(rx, flags, reass, h)
    else Outcome(rx, false, [], [])
  }

  /** The part of the call that handles a frame found complete: unmask it, then conclude. */
  function DeliverFrame(rx: Rx, flags: byte, reass: bool, h: Header): (o: Outcome)
    requires rx.Valid() && rx.reass + h.headerLen + h.dataLen <= |rx.buf|
    requires h.headerLen >= 2 + h.maskLen && h.maskLen in {0, 4}
    requires reass ==> IsFragment(flags)
    ensures o.ok && o.rx.Valid() && |o.rx.buf| < |rx.buf|
  {
    var d := rx.buf[rx.reass..];
    var payload := Mask(d[h.headerLen..h.headerLen + h.dataLen], d[h.headerLen - h.maskLen..h.headerLen]);
    Conclude(rx.buf[..rx.reass], flags, reass, payload, d[h.headerLen + h.dataLen..])
  }

  /** `kept` are the octets under reassembly, `rest` those after the frame. */
  function Conclude(kept: seq<byte>, flags: byte, reass: bool, payload: seq<byte>, rest: seq<byte>): (o: Outcome)
    requires reass ==> IsFragment(flags)
    ensures o.ok && o.rx.Valid() && |o.rx.buf| <= |kept| + 1 + |payload| + |rest|
  {
    if reass then
      var joined := kept + (if IsFirstFragment(flags) then [flags] else []) + payload;
      if flags >= 128 then
        Outcome(Rx(rest, 0), true, [if joined == [] then Wild else Delivered(WithFin(joined[0]), joined[1..])], [])
      else
        Outcome(Rx(joined + rest, (if IsFirstFragment(flags) then 1 else |kept|) + |payload|), true, [], [])
    else
      Outcome(Rx(kept + rest, |kept|), true, [Delivered(flags, payload)], Answers(flags, payload, rest))
  }

  /** The reaction on a control frame. */
  function Answers(flags: byte, payload: seq<byte>, after: seq<byte>): seq<Reply> {
    if flags % 16 == OP_PING then [Reply(OP_PONG, payload)]
    else if flags % 16 == OP_CLOSE then [Reply(OP_CLOSE, CloseBody(payload, after))]
    else []
  }

  function WithFin(flags: byte): byte {
    if flags >= 128 then flags else flags + 128
  }

  /** All a connection holds, was told and answered. */
  datatype Session = Session(rx: Rx, events: seq<Event>, replies: seq<Reply>) {

    /** One call of the deliver function; ok says whether to call it again. */
    function Call(defrag: bool): (r: (Session, bool))
      requires rx.Valid()
      ensures r.0.rx.Valid()
      ensures r.1 ==> |r.0.rx.buf| < |rx.buf|
    {
      var o := Deliver(rx, defrag);
      (Session(o.rx, events + o.events, replies + o.replies), o.ok)
    }

    /** The loop of `mg_ws_handler`: deliver until nothing more can be delivered. */
    function DeliverAll(defrag: bool): (s: Session)
      requires rx.Valid()
      ensures s.rx.Valid()
      decreases |rx.buf|
    {
      var (s, ok) := Call(defrag);
      if ok then s.DeliverAll(defrag) else s
    }

    /** One `MG_EV_RECV`: the chunk is appended and the deliver loop runs. */
    function Receive(chunk: seq<byte>, defrag: bool): (s: Session)
      requires rx.Valid()
      ensures s.rx.Valid()
    {
      this.(rx := Rx(rx.buf + chunk, rx.reass)).DeliverAll(defrag)
    }

    function ReceiveAll(chunks: seq<seq<byte>>, defrag: bool): (s: Session)
      requires rx.Valid()
      ensures s.rx.Valid()
      decreases |chunks|
    {
      if chunks == [] then this else Receive(chunks[0], defrag).ReceiveAll(chunks[1..], defrag)
    }
  }

  const FRESH := Session(Rx([], 0), [], [])
}
