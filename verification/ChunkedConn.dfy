/** Chunked bodies in the connection's buffers. */
module ChunkedConn {
  import opened Bytes
  import opened Chars
  import opened Buffers
  import opened ChunkedSpec

  /** `snprintf` with `%lX`. */
  method PrintHex(n: nat) returns (s: seq<byte>)
    ensures s == HexText(n)
  {
    var rest := n;
    s := [HexDigit(rest % 16, true)];
    while rest >= 16
      invariant (if rest < 16 then [] else HexText(rest / 16)) + s == HexText(n)
    {
      rest := rest / 16;
      Rebracket(if rest < 16 then [] else HexText(rest / 16), [HexDigit(rest % 16, true)], s);
      s := [HexDigit(rest % 16, true)] + s;
    }
    assert [] + s == s;
  }

  lemma SizeTextIsShort(n: nat)
    requires n < TWO64
    ensures |HexText(n)| <= 16
  {
    assert Pow16(8) == TWO32;
    assert Pow16(12) == TWO32 * 0x1_0000;
    assert Pow16(16) == TWO64;
    HexLength(n, 16);
  }

  /** `mg_send_http_chunk`; a length is a size_t. */
  method SendChunk(out: Mbuf, data: seq<byte>)
    requires out.Valid() && |data| < TWO64
    modifies out, out.buf
    ensures out.Valid() && (fresh(out.buf) || out.buf == old(out.buf))
    ensures out.Contents() == old(out.Contents()) + ChunkOf(data)
  {
    hide HexText, Int32;
    ghost var before := out.Contents();
    var size := PrintHex(|data|);
    SizeTextIsShort(|data|);
    size := size + CRLF;
    Queue(out, size);
    Queue(out, data);
    Queue(out, CRLF);
    assert out.Contents() == before + size + ThroughInt(data) + CRLF;
    Rebracket(before, size, ThroughInt(data));
    Rebracket(before, size + ThroughInt(data), CRLF);
  }

  /** `mg_http_parse_chunk`: the chunk's length, where its data is and how much; length 0 if there is none. */
  method FindChunk(s: seq<byte>) returns (length: nat, data: nat, n: nat)
    ensures var f := ParseChunk(s);
            if f.Nothing? then length == 0 else length == f.Length() && data == f.head && n == |f.data|
  {
    hide HexNumber, Digits;
    var i;
    i, n := ReadSize(s);
    data, length := 0, 0;
    if i > MAX_DIGITS || i == 0 || i + 2 > |s| || s[i] != CR || s[i + 1] != LF {
      return;
    }
    i := i + 2;
    data := i;
    i := i + n;
    if i + 2 > |s| || s[i] != CR || s[i + 1] != LF {
      return;
    }
    length := i + 2;
  }

  /** The digits in front, given up when there are too many. */
  method ReadSize(s: seq<byte>) returns (i: nat, n: nat)
    ensures if i > MAX_DIGITS then Digits(s) > MAX_DIGITS else i == Digits(s) && n == HexNumber(s[..i])
  {
    i, n := 0, 0;
    assert HexNumber(s[..0]) == 0;
    hide HexNumber, HexValue, IsHexDigit;
    while i < |s| && IsHexDigit(s[i])
      invariant i <= |s| && i <= MAX_DIGITS
      invariant forall k :: 0 <= k < i ==> IsHexDigit(s[k])
      invariant n == HexNumber(s[..i])
    {
      HexMore(s[..i + 1]);
      assert s[..i + 1][..i] == s[..i];
      n := n * 16 + HexValue(s[i]);
      i := i + 1;
      if i > MAX_DIGITS {
        DigitsFrom(s, i);
        return;
      }
    }
    DigitsFrom(s, i);
  }

  lemma HexMore(s: seq<byte>)
    requires s != [] && forall i :: 0 <= i < |s| ==> IsHexDigit(s[i])
    ensures HexNumber(s) == 16 * HexNumber(s[..|s| - 1]) + HexValue(s[|s| - 1])
  {}

  /** k digits in front are k digits in front of the count. */
  lemma DigitsFrom(s: seq<byte>, k: nat)
    requires k <= |s| && forall i :: 0 <= i < k ==> IsHexDigit(s[i])
    ensures Digits(s) >= k && (k == |s| || !IsHexDigit(s[k]) ==> Digits(s) == k)
  {
    hide Digits, IsHexDigit;
    DigitsOf(s[..k], s[k..]);
    assert s == s[..k] + s[k..];
    if k == |s| || !IsHexDigit(s[k]) {
      NoDigits(s[k..]);
    }
  }

  /** The parts of the buffer: the request's head, the body so far, and from i on what is not yet read. */
  ghost predicate View(c: seq<byte>, reqLen: nat, body: nat, i: nat, len: nat, head: seq<byte>, text: seq<byte>,
                       unread: seq<byte>)
  {
    && reqLen <= body <= i <= len <= |c|
    && c[..reqLen] == head && c[reqLen..body] == text && c[i..len] == unread
  }

  lemma Views(c: seq<byte>, reqLen: nat, from: nat, len: nat, head: seq<byte>, text: seq<byte>, unread: seq<byte>)
    requires |head| == reqLen && from == reqLen + |text| && len <= |c| && c[..len] == head + text + unread
    ensures View(c, reqLen, from, from, len, head, text, unread) && c[from..len] == unread
  {
    var front := c[..len];
    assert front[..reqLen] == head && front[reqLen..from] == text && front[from..] == unread;
  }

  /** What memmove leaves before, at and after its target. */
  lemma Moved(was: seq<byte>, now: seq<byte>, dst: nat, src: nat, n: nat)
    requires dst <= src && src + n <= |was| && now == was[..dst] + was[src..src + n] + was[dst + n..]
    ensures |now| == |was| && now[..dst] == was[..dst] && now[dst..dst + n] == was[src..src + n]
    ensures now[dst + n..] == was[dst + n..]
  {}

  /** One chunk's data moved down to the end of the body; what follows the chunk stays where it is. */
  lemma TakesChunk(was: seq<byte>, now: seq<byte>, reqLen: nat, body: nat, i: nat, len: nat, head: seq<byte>,
                   text: seq<byte>, unread: seq<byte>, data: nat, size: nat, next: nat)
    requires View(was, reqLen, body, i, len, head, text, unread) && data + size <= next <= |unread|
    requires now == was[..body] + was[i + data..i + data + size] + was[body + size..]
    ensures View(now, reqLen, body + size, i + next, len, head, text + unread[data..data + size], unread[next..])
    ensures |now| == |was| && now[i + next..len] == unread[next..]
  {
    Moved(was, now, body, i + data, size);
    SliceAgain(was, i, len, data, data + size);
    SliceAgain(was, i, len, next, len - i);
    assert unread[next..] == unread[next..len - i];
    assert now[..reqLen] == now[..body][..reqLen] && was[..reqLen] == was[..body][..reqLen];
    assert now[reqLen..body] == now[..body][reqLen..] && was[reqLen..body] == was[..body][reqLen..];
    assert now[reqLen..body + size] == now[reqLen..body] + now[body..body + size];
    SliceAgain(was, body + size, |was|, i + next - body - size, len - body - size);
    SliceAgain(now, body + size, |was|, i + next - body - size, len - body - size);
  }

  method TakeChunk(buf: array<byte>, ghost reqLen: nat, body: nat, i: nat, ghost len: nat, ghost head: seq<byte>,
                   ghost text: seq<byte>, ghost unread: seq<byte>, data: nat, size: nat, next: nat)
    requires View(buf[..], reqLen, body, i, len, head, text, unread) && data + size <= next <= |unread| == len - i
    modifies buf
    ensures View(buf[..], reqLen, body + size, i + next, len, head, text + unread[data..data + size], unread[next..])
    ensures buf[..][i + next..len] == unread[next..]
  {
    ghost var was := buf[..];
    assert was[..body] == buf[..body] && was[i + data..i + data + size] == buf[i + data..i + data + size];
    assert was[body + size..] == buf[body + size..];
    MemMove(buf, body, i + data, size);
    TakesChunk(was, buf[..], reqLen, body, i, len, head, text, unread, data, size, next);
  }

  /** The tail closed up to the body, and then over the body. */
  lemma Closes(c: seq<byte>, reqLen: nat, body: nat, i: nat, len: nat, head: seq<byte>, text: seq<byte>,
               unread: seq<byte>)
    requires View(c, reqLen, body, i, len, head, text, unread)
    ensures c[..body] == head + text
    ensures c[..len][..body] + c[..len][i..] == head + text + unread
    ensures (head + text + unread)[..reqLen] + (head + text + unread)[body..] == head + [] + unread
  {}

  /** The `chunk` part of the connection's HTTP state. */
  class Transfer {
    var bodyLen: nat // how much of the body has been put together, from the front of the buffer's body part

    constructor ()
      ensures bodyLen == 0
    {
      bodyLen := 0;
    }

    /** The buffer holds the request's head, the body so far and the unread octets of s. */
    ghost predicate Holds(io: Mbuf, reqLen: nat, head: seq<byte>, s: Session)
      reads this, io, io.buf
    {
      && io.Valid() && |head| == reqLen && bodyLen == |s.body.text|
      && io.Contents() == head + s.body.text + s.body.unread
    }

    /**
     * `mg_handle_chunked`, with the handler's choice to set MG_F_DELETE_CHUNK. The result is the length of the body
     * shown to the handler; `messageLen` is what the message's length is set to, if it is.
     */
    method Handle(io: Mbuf, reqLen: nat, delete: bool, ghost head: seq<byte>, ghost s: Session)
      returns (n: nat, event: bool, ended: bool, messageLen: nat)
      requires Holds(io, reqLen, head, s)
      modifies this, io`len, io.buf
      ensures Holds(io, reqLen, head, Step(s, [], delete))
      ensures var b := Collapse(s.body.text, s.body.unread);
              && event == (b.unread != s.body.unread) && ended == b.ended && n == |b.text|
              && (ended ==> messageLen == reqLen + bodyLen + |b.unread|)
              && (ended ==> (messageLen == reqLen + bodyLen <==> b.unread == []))
    {
      hide Collapse, View;
      var len := io.len;
      ghost var b := Collapse(s.body.text, s.body.unread);
      var body, i;
      body, i, ended := Gather(io.buf, reqLen, len, head, s);
      assert s.body.unread + [] == s.body.unread;
      n, messageLen, event := body - reqLen, 0, i > body;
      Closes(io.buf[..], reqLen, body, i, len, head, b.text, b.unread);
      if event {
        io.CloseGap(body, i);
        bodyLen := n;
        if delete {
          io.CloseGap(reqLen, body);
          bodyLen := 0;
        }
        if ended {
          messageLen := bodyLen + (len - i) + reqLen;
        }
      }
    }

    /** More octets arrive and are looked at. */
    method Receive(io: Mbuf, reqLen: nat, piece: seq<byte>, delete: bool, ghost head: seq<byte>, ghost s: Session)
      requires Holds(io, reqLen, head, s)
      modifies this, io, io.buf
      ensures Holds(io, reqLen, head, Step(s, piece, delete)) && (fresh(io.buf) || io.buf == old(io.buf))
    {
      hide Collapse;
      Rebracket(head + s.body.text, s.body.unread, piece);
      io.Add(piece);
      ghost var more := Session(s.gone, Body(s.body.text, s.body.unread + piece, false));
      assert more.body.unread + [] == more.body.unread;
      var _, _, _, _ := Handle(io, reqLen, delete, head, more);
    }

    /** The loop: the new end of the body, and where what is not yet read begins. */
    method Gather(buf: array<byte>, reqLen: nat, len: nat, ghost head: seq<byte>, ghost s: Session)
      returns (body: nat, i: nat, ended: bool)
      requires len <= buf.Length && |head| == reqLen && bodyLen == |s.body.text|
      requires buf[..len] == head + s.body.text + s.body.unread
      modifies buf
      ensures var b := Collapse(s.body.text, s.body.unread);
              && reqLen <= body <= i <= len && View(buf[..], reqLen, body, i, len, head, b.text, b.unread)
              && |b.text| == body - reqLen && |b.unread| == len - i && ended == b.ended
              && (i == body ==> buf[..len] == old(buf[..len]) && b == Body(s.body.text, s.body.unread, false))
              && (i > body ==> |b.unread| < |s.body.unread|)
    {
      hide ParseChunk, View;
      var from := reqLen + bodyLen;
      body, i, ended := from, from, false;
      ghost var goal := Collapse(s.body.text, s.body.unread);
      ghost var text, unread := s.body.text, s.body.unread;
      Views(buf[..], reqLen, from, len, head, text, unread);
      var length, data, size := FindChunk(buf[..][i..len]);
      while length > 0
        invariant from <= body <= i <= len && |unread| == len - i && |text| == body - reqLen
        invariant View(buf[..], reqLen, body, i, len, head, text, unread)
        invariant var f := ParseChunk(unread);
                  if f.Nothing? then length == 0 else length == f.Length() && data == f.head && size == |f.data|
        invariant Collapse(text, unread) == goal && !ended
        invariant i == from ==> i == body && buf[..len] == old(buf[..len]) && unread == s.body.unread
        invariant i > from ==> i > body && |unread| < |s.body.unread|
        decreases len - i
      {
        ghost var f := ParseChunk(unread);
        TakeChunk(buf, reqLen, body, i, len, head, text, unread, data, size, length);
        body, i := body + size, i + length;
        assert text + [] == text;
        text, unread := text + f.data, unread[f.Length()..];
        if size == 0 {
          ended := true;
          break;
        }
        length, data, size := FindChunk(buf[..][i..len]);
      }
    }
  }
}
