/** Bodies in chunks (section 4.1 of RFC 7230): written, and put together in place as they arrive. */
module ChunkedSpec {
  import opened Bytes
  import opened Chars
  import opened Streams

  const CR: byte := 13
  const LF: byte := 10
  const CRLF: seq<byte> := [CR, LF]
  const MAX_DIGITS := 6
  const LONGEST := 0x100_0000

  // ---- Sizes in hexadecimal ----

  /** What `%lX` prints. */
  function HexText(n: nat): (s: seq<byte>)
    ensures |s| > 0 && forall i :: 0 <= i < |s| ==> IsHexDigit(s[i])
  {
    (if n < 16 then [] else HexText(n / 16)) + [HexDigit(n % 16, true)]
  }

  /** How many hexadecimal digits s starts with. */
  function Digits(s: seq<byte>): (k: nat)
    ensures k <= |s| && forall i :: 0 <= i < k ==> IsHexDigit(s[i])
    ensures k < |s| ==> !IsHexDigit(s[k])
  {
    if s == [] || !IsHexDigit(s[0]) then 0 else 1 + Digits(s[1..])
  }

  function HexNumber(s: seq<byte>): nat
    requires forall i :: 0 <= i < |s| ==> IsHexDigit(s[i])
  {
    if s == [] then 0 else 16 * HexNumber(s[..|s| - 1]) + HexValue(s[|s| - 1])
  }

  // ---- One chunk ----

  /** A chunk found in front: where its data starts, and the data. */
  datatype Found = Nothing | Chunk(head: nat, data: seq<byte>) {
    function Length(): nat
      requires Chunk?
    {
      head + |data| + 2
    }
  }

  predicate NewLineAt(s: seq<byte>, i: nat) {
    i + 2 <= |s| && s[i] == CR && s[i + 1] == LF
  }

  /** `mg_http_parse_chunk`: no chunk may be behind more than six digits. */
  function ParseChunk(s: seq<byte>): (f: Found)
    ensures f.Chunk? ==> f.Length() <= |s| && f.data == s[f.head..f.head + |f.data|]
  {
    var k := Digits(s);
    if k == 0 || k > MAX_DIGITS || !NewLineAt(s, k) then Nothing
    else
      var n := HexNumber(s[..k]);
      if !NewLineAt(s, k + 2 + n) then Nothing else Chunk(k + 2, s[k + 2..k + 2 + n])
  }

  /** `mg_send_http_chunk`. */
  function ChunkOf(data: seq<byte>): seq<byte> {
    HexText(|data|) + CRLF + ThroughInt(data) + CRLF
  }

  lemma {:induction false} HexRoundTrip(n: nat)
    ensures HexNumber(HexText(n)) == n
  {
    var s := HexText(n);
    assert s[..|s| - 1] == if n < 16 then [] else HexText(n / 16);
    if n >= 16 {
      HexRoundTrip(n / 16);
    }
  }

  /** 16 to the power k. */
  function Pow16(k: nat): nat {
    if k == 0 then 1 else 16 * Pow16(k - 1)
  }

  lemma {:induction false} HexLength(n: nat, k: nat)
    requires k > 0
    ensures |HexText(n)| <= k <==> n < Pow16(k)
  {
    if k > 1 && n >= 16 {
      HexLength(n / 16, k - 1);
    } else if k > 1 {
      HexLength(n, k - 1);
    }
  }

  lemma SixDigits(n: nat)
    ensures |HexText(n)| <= MAX_DIGITS <==> n < LONGEST
  {
    HexLength(n, MAX_DIGITS);
    assert Pow16(4) == 0x1_0000;
    assert Pow16(6) == LONGEST;
  }

  lemma {:induction false} DigitsOf(h: seq<byte>, rest: seq<byte>)
    requires forall i :: 0 <= i < |h| ==> IsHexDigit(h[i])
    ensures Digits(h + rest) == |h| + Digits(rest)
  {
    if h == [] {
      assert h + rest == rest;
    } else {
      assert (h + rest)[1..] == h[1..] + rest;
      DigitsOf(h[1..], rest);
    }
  }

  lemma NoDigits(s: seq<byte>)
    requires s == [] || !IsHexDigit(s[0])
    ensures Digits(s) == 0
  {}

  lemma Layout(h: seq<byte>, d: seq<byte>, rest: seq<byte>)
    ensures var s, k := h + CRLF + d + CRLF + rest, |h| + 2;
            && s == h + (CRLF + d + CRLF + rest)
            && s[..|h|] == h && NewLineAt(s, |h|) && s[k..k + |d|] == d && NewLineAt(s, k + |d|)
  {}

  /** A chunk is read back, whatever follows it, exactly when it has less than 2^24 octets. */
  lemma ChunkArrives(data: seq<byte>, rest: seq<byte>)
    ensures var f := ParseChunk(ChunkOf(data) + rest);
            if |data| < LONGEST then f.Chunk? && f.data == data && f.Length() == |ChunkOf(data)| else f.Nothing?
  {
    hide HexText, Digits, HexNumber, ThroughInt, NewLineAt;
    var h, d := HexText(|data|), ThroughInt(data);
    Layout(h, d, rest);
    DigitsOf(h, CRLF + d + CRLF + rest);
    NoDigits(CRLF + d + CRLF + rest);
    SixDigits(|data|);
    if |data| < LONGEST {
      HexRoundTrip(|data|);
    }
  }

  /** Up to six hexadecimal digits, a line end, as many octets as they say, and a line end are a chunk. */
  lemma ChunkRead(h: seq<byte>, data: seq<byte>, rest: seq<byte>)
    requires 1 <= |h| <= 6 && (forall i :: 0 <= i < |h| ==> IsHexDigit(h[i])) && HexNumber(h) == |data|
    ensures ParseChunk(h + [13, 10] + data + [13, 10] + rest) == Chunk(|h| + 2, data)
  {
    hide ParseChunk, HexNumber;
    assert CRLF == [13, 10];
    BehindSize(h, data, rest);
  }

  lemma BehindSize(h: seq<byte>, data: seq<byte>, rest: seq<byte>)
    requires 1 <= |h| <= 6 && (forall i :: 0 <= i < |h| ==> IsHexDigit(h[i])) && HexNumber(h) == |data|
    ensures ParseChunk(h + CRLF + data + CRLF + rest) == Chunk(|h| + 2, data)
  {
    hide Digits, HexNumber, NewLineAt;
    var s := h + CRLF + data + CRLF + rest;
    Layout(h, data, rest);
    NotHex(CRLF + data + CRLF + rest);
    DigitsOf(h, CRLF + data + CRLF + rest);
    assert Digits(s) == |h|;
  }

  lemma NotHex(s: seq<byte>)
    requires s != [] && s[0] == CR
    ensures Digits(s) == 0
  {}

  /** And nothing else is. */
  lemma ChunkWritten(s: seq<byte>) returns (h: seq<byte>, rest: seq<byte>)
    requires ParseChunk(s).Chunk?
    ensures 1 <= |h| <= 6 && (forall i :: 0 <= i < |h| ==> IsHexDigit(h[i]))
    ensures var data := ParseChunk(s).data; HexNumber(h) == |data| && s == h + [13, 10] + data + [13, 10] + rest
  {
    hide HexNumber;
    var f := ParseChunk(s);
    h, rest := s[..Digits(s)], s[f.Length()..];
    var k := |h| + 2;
    assert s[|h|..k] == [13, 10] && s[k + |f.data|..k + |f.data| + 2] == [13, 10];
    assert s == s[..|h|] + s[|h|..k] + s[k..k + |f.data|] + s[k + |f.data|..k + |f.data| + 2] + s[k + |f.data| + 2..];
  }

  /** A chunk that has not wholly arrived is not yet read. */
  lemma UnfinishedChunk(data: seq<byte>, p: seq<byte>)
    requires |data| < LONGEST && StrictPrefix(p, ChunkOf(data))
    ensures ParseChunk(p).Nothing?
  {
    hide HexText, Digits, HexNumber;
    var h, s := HexText(|data|), ChunkOf(data);
    var k := |h|;
    assert s[..k] == h;
    if k + 2 <= |p| {
      assert p[..k] == h && p == h + p[k..];
      assert p[k] == s[k] == CR && p[k..][0] == CR;
      DigitsOf(h, p[k..]);
      HexRoundTrip(|data|);
    } else if |p| >= k {
      DigitsOf(h, p[k..]);
      assert p == h + p[k..];
    }
  }

  // ---- Many chunks, over many calls ----

  /** The body so far, what is not yet read of it, and whether an empty chunk ended it. */
  datatype Body = Body(text: seq<byte>, unread: seq<byte>, ended: bool)

  /** The loop of `mg_handle_chunked`. */
  function Collapse(text: seq<byte>, unread: seq<byte>): (b: Body)
    decreases |unread|
  {
    var f := ParseChunk(unread);
    if f.Nothing? then Body(text, unread, false)
    else if f.data == [] then Body(text, unread[f.Length()..], true)
    else Collapse(text + f.data, unread[f.Length()..])
  }

  /** Short enough chunks, of which none but the last may be empty. */
  ghost predicate Conforming(parts: seq<seq<byte>>) {
    && (forall i :: 0 <= i < |parts| ==> |parts[i]| < LONGEST)
    && (forall i :: 0 <= i < |parts| - 1 ==> parts[i] != [])
  }

  function Chunks(parts: seq<seq<byte>>): (cs: seq<seq<byte>>)
    ensures |cs| == |parts| && forall i :: 0 <= i < |cs| ==> cs[i] == ChunkOf(parts[i])
  {
    seq(|parts|, i requires 0 <= i < |parts| => ChunkOf(parts[i]))
  }

  lemma ChunksCons(parts: seq<seq<byte>>)
    requires parts != []
    ensures Flat(Chunks(parts)) == ChunkOf(parts[0]) + Flat(Chunks(parts[1..]))
  {
    assert Chunks(parts)[1..] == Chunks(parts[1..]);
  }

  /** Whole chunks are collapsed to their data, and what is unfinished behind them stays behind them. */
  lemma {:induction false} CollapseAll(text: seq<byte>, parts: seq<seq<byte>>, u: seq<byte>)
    requires Conforming(parts) && ParseChunk(u).Nothing?
    ensures var b := Collapse(text, Flat(Chunks(parts)) + u);
            && b.text == text + Flat(parts) && b.unread == u
            && (b.ended <==> parts != [] && parts[|parts| - 1] == [])
    decreases |parts|
  {
    hide ParseChunk, ChunkOf;
    if parts == [] {
      assert Flat(Chunks(parts)) + u == u && text + Flat(parts) == text;
    } else {
      var rest := Flat(Chunks(parts[1..])) + u;
      ChunksCons(parts);
      Rebracket(ChunkOf(parts[0]), Flat(Chunks(parts[1..])), u);
      ChunkArrives(parts[0], rest);
      assert (ChunkOf(parts[0]) + rest)[|ChunkOf(parts[0])|..] == rest;
      if parts[0] == [] {
        assert parts[1..] == [] && Flat(Chunks(parts[1..])) == [] && rest == u;
        assert text + Flat(parts) == text;
      } else {
        CollapseAll(text + parts[0], parts[1..], u);
        Rebracket(text, parts[0], Flat(parts[1..]));
      }
    }
  }

  /** A connection's chunked body: what handlers had deleted, and what is in the buffer. */
  datatype Session = Session(gone: seq<byte>, body: Body)

  /** What a call leaves, when something has arrived and the handler asks or does not ask for deletion. */
  function Step(s: Session, piece: seq<byte>, delete: bool): Session {
    var b := Collapse(s.body.text, s.body.unread + piece);
    if delete && b.unread != s.body.unread + piece
    then Session(s.gone + b.text, Body([], b.unread, b.ended))
    else Session(s.gone, b)
  }

  lemma {:induction false} CollapseAdds(text: seq<byte>, unread: seq<byte>)
    ensures var b := Collapse(text, unread);
            text <= b.text && |b.unread| <= |unread| && (b.unread == unread <==> ParseChunk(unread).Nothing?)
    decreases |unread|
  {
    hide ParseChunk;
    var f := ParseChunk(unread);
    if f.Chunk? && f.data != [] {
      CollapseAdds(text + f.data, unread[f.Length()..]);
    }
  }

  /** When a chunk has come and deletion is asked for, the buffer holds no body any more; otherwise none of it goes. */
  lemma DeletesOnRequest(s: Session, piece: seq<byte>, delete: bool)
    ensures var t := Step(s, piece, delete);
            if delete && ParseChunk(s.body.unread + piece).Chunk?
            then t.body.text == [] && s.gone + s.body.text <= t.gone
            else t.gone == s.gone && s.body.text <= t.body.text
  {
    hide Collapse, ParseChunk;
    CollapseAdds(s.body.text, s.body.unread + piece);
  }

  function Run(s: Session, pieces: seq<(seq<byte>, bool)>): Session
    decreases |pieces|
  {
    if pieces == [] then s else Run(Step(s, pieces[0].0, pieces[0].1), pieces[1..])
  }

  function Received(pieces: seq<(seq<byte>, bool)>): seq<byte> {
    if pieces == [] then [] else pieces[0].0 + Received(pieces[1..])
  }

  /** After `done` octets of the stream: all whole chunks have been collapsed, and the rest is unread. */
  ghost predicate At(s: Session, parts: seq<seq<byte>>, done: seq<byte>) {
    exists k :: 0 <= k <= |parts| && Consumed(s, parts, done, k)
  }

  ghost predicate Consumed(s: Session, parts: seq<seq<byte>>, done: seq<byte>, k: nat)
    requires k <= |parts|
  {
    && done == Flat(Chunks(parts[..k])) + s.body.unread
    && Incomplete(s.body.unread, Chunks(parts)[k..])
    && s.gone + s.body.text == Flat(parts[..k])
  }

  lemma ChunksSplit(parts: seq<seq<byte>>, j: nat, k: nat)
    requires j <= k <= |parts|
    ensures Chunks(parts)[..k] == Chunks(parts[..k]) && Chunks(parts)[j..][..k - j] == Chunks(parts[j..k])
    ensures parts[..k] == parts[..j] + parts[j..k]
    ensures Chunks(parts[..k]) == Chunks(parts[..j]) + Chunks(parts[j..k])
  {
    hide Chunks, ChunkOf;
    ChunksOfSlice(parts, 0, k);
    ChunksOfSlice(parts, 0, j);
    ChunksOfSlice(parts, j, k);
    SliceBehind(Chunks(parts), j, k - j);
    ThreeParts(parts[..k], j, k);
    ThreeParts(Chunks(parts)[..k], j, k);
  }

  lemma ChunksOfSlice(parts: seq<seq<byte>>, j: nat, k: nat)
    requires j <= k <= |parts|
    ensures Chunks(parts)[j..k] == Chunks(parts[j..k])
  {
    hide ChunkOf;
  }

  lemma NothingUnfinished(parts: seq<seq<byte>>, k: nat, u: seq<byte>)
    requires Conforming(parts) && k <= |parts| && Incomplete(u, Chunks(parts)[k..])
    ensures ParseChunk(u).Nothing?
  {
    if k < |parts| {
      assert Chunks(parts)[k..][0] == ChunkOf(parts[k]);
      UnfinishedChunk(parts[k], u);
    }
  }

  /** What is to be read, when the first j chunks have been, is some more chunks and an unfinished one. */
  lemma MoreChunks(parts: seq<seq<byte>>, j: nat, todo: seq<byte>) returns (k: nat, u: seq<byte>)
    requires j <= |parts| && Flat(Chunks(parts[..j])) + todo <= Flat(Chunks(parts))
    ensures j <= k <= |parts| && todo == Flat(Chunks(parts[j..k])) + u && Incomplete(u, Chunks(parts)[k..])
    ensures Flat(Chunks(parts[..j])) + todo == Flat(Chunks(parts[..k])) + u
    ensures Flat(parts[..k]) == Flat(parts[..j]) + Flat(parts[j..k])
  {
    hide ChunkOf, Chunks, StrictPrefix, Incomplete;
    var cs := Chunks(parts);
    ChunksSplit(parts, j, j);
    assert cs == cs[..j] + cs[j..];
    FlatSplit(cs[..j], cs[j..]);
    PrefixCancel(Flat(cs[..j]), todo, Flat(cs[j..]));
    var n: nat;
    n, u := Cut(cs[j..], todo);
    k := j + n;
    ChunksSplit(parts, j, k);
    assert cs[j..][n..] == cs[k..];
    FlatSplit(Chunks(parts[..j]), Chunks(parts[j..k]));
    FlatSplit(parts[..j], parts[j..k]);
    Rebracket(Flat(Chunks(parts[..j])), Flat(Chunks(parts[j..k])), u);
  }

  /** One more piece of a conforming stream, wherever it is cut. */
  lemma StepKeeps(s: Session, parts: seq<seq<byte>>, done: seq<byte>, piece: seq<byte>, delete: bool)
    requires Conforming(parts) && At(s, parts, done) && done + piece <= Flat(Chunks(parts))
    ensures At(Step(s, piece, delete), parts, done + piece)
  {
    hide Collapse, ParseChunk, ChunkOf, Chunks, StrictPrefix, Incomplete, Flat;
    var j :| 0 <= j <= |parts| && Consumed(s, parts, done, j);
    Rebracket(Flat(Chunks(parts[..j])), s.body.unread, piece);
    var k, u := MoreChunks(parts, j, s.body.unread + piece);
    NothingUnfinished(parts, k, u);
    CollapseAll(s.body.text, parts[j..k], u);
    var t, text := Step(s, piece, delete), Flat(parts[j..k]);
    Rebracket(s.gone, s.body.text, text);
    assert s.gone + (s.body.text + text) + [] == s.gone + (s.body.text + text);
    assert Consumed(t, parts, done + piece, k);
  }

  lemma {:induction false} RunKeeps(s: Session, parts: seq<seq<byte>>, done: seq<byte>, pieces: seq<(seq<byte>, bool)>)
    requires Conforming(parts) && At(s, parts, done) && done + Received(pieces) <= Flat(Chunks(parts))
    ensures At(Run(s, pieces), parts, done + Received(pieces))
    decreases |pieces|
  {
    hide At, Step, Chunks, Conforming;
    if pieces == [] {
      assert done + [] == done;
    } else {
      var (piece, delete) := pieces[0];
      Rebracket(done, piece, Received(pieces[1..]));
      StepKeeps(s, parts, done, piece, delete);
      RunKeeps(Step(s, piece, delete), parts, done + piece, pieces[1..]);
    }
  }

  const FRESH := Session([], Body([], [], false))

  lemma StartsFresh(parts: seq<seq<byte>>)
    ensures At(FRESH, parts, [])
  {
    hide HexText;
    if parts != [] {
      assert Chunks(parts)[0..][0] == ChunkOf(parts[0]);
    }
    assert Consumed(FRESH, parts, [], 0);
  }

  /** Whenever reading stops: the data of the whole chunks, less what was deleted, then the unread octets. */
  lemma BufferInvariant(parts: seq<seq<byte>>, pieces: seq<(seq<byte>, bool)>)
    requires Conforming(parts) && Received(pieces) <= Flat(Chunks(parts))
    ensures At(Run(FRESH, pieces), parts, Received(pieces))
  {
    hide Run, Received, HexText, Collapse, Conforming;
    StartsFresh(parts);
    assert [] + Received(pieces) == Received(pieces);
    RunKeeps(FRESH, parts, [], pieces);
  }

  /** However the stream is cut and whenever the handler deletes, the same body comes out, and nothing is left over. */
  lemma CuttingIsInvisible(parts: seq<seq<byte>>, pieces: seq<(seq<byte>, bool)>)
    requires Conforming(parts) && Received(pieces) == Flat(Chunks(parts))
    ensures var s := Run(FRESH, pieces); s.gone + s.body.text == Flat(parts) && s.body.unread == []
  {
    BufferInvariant(parts, pieces);
    var s := Run(FRESH, pieces);
    var k :| 0 <= k <= |parts| && Consumed(s, parts, Received(pieces), k);
    ChunksSplit(parts, k, k);
    CutAtEnd(Chunks(parts), k, s.body.unread);
    assert parts[..k] == parts;
  }
}
