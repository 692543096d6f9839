/** Percent-encoding and query strings in buffers. */
module Urls {
  import opened Bytes
  import opened Chars
  import opened Buffers
  import opened UrlSpec

  /** `mg_url_encode_opt`: the text, and a zero behind it. */
  method EncodeText(src: seq<byte>, safe: seq<byte>, f: Flags, avail: nat) returns (mb: Mbuf)
    ensures fresh(mb) && mb.Valid() && mb.Contents() == Encode(src, safe, f) + [0]
  {
    hide EncodeOne;
    mb := new Mbuf(|src|);
    for i := 0 to |src|
      invariant mb.Valid() && fresh(mb) && fresh(mb.buf)
      invariant mb.Contents() + Encode(src[i..], safe, f) == Encode(src, safe, f)
    {
      ghost var before := mb.Contents();
      AppendOne(mb, src[i], safe, f);
      assert src[i..][1..] == src[i + 1..];
      Rebracket(before, EncodeOne(src[i], safe, f), Encode(src[i + 1..], safe, f));
    }
    mb.Add([0]);
    mb.Trim(avail);
  }

  method AppendOne(mb: Mbuf, c: byte, safe: seq<byte>, f: Flags)
    requires mb.Valid()
    modifies mb, mb.buf
    ensures mb.Valid() && (fresh(mb.buf) || mb.buf == old(mb.buf))
    ensures mb.Contents() == old(mb.Contents()) + EncodeOne(c, safe, f)
  {
    if IsAlnum(c) || c in safe {
      mb.Add([c]);
    } else if c == SPACE && f.spaceAsPlus {
      mb.Add([PLUS]);
    } else {
      ghost var before := mb.Contents();
      var high, low := HexDigit(c / 16, f.upper), HexDigit(c % 16, f.upper);
      mb.Add([PERCENT]);
      mb.Add([high]);
      mb.Add([low]);
      assert mb.Contents() == before + [PERCENT, high, low];
    }
  }

  /**
   * `mg_url_decode` of n octets at `from`, written at `at`: into another block, or into the same one, not further on
   * than where it reads. Returns -1 when the text is malformed or does not fit.
   */
  method DecodeInto(src: array<byte>, from: nat, n: nat, dst: array<byte>, at: nat, room: int, form: bool)
    returns (len: int)
    requires from + n <= src.Length && at < dst.Length && at + room <= dst.Length
    requires src == dst ==> at <= from
    modifies dst
    ensures var d := Decode(old(src[from..from + n]), [], room, form);
            && dst[at..at + |d.text|] == d.text && len == (if d.ending.Complete? then |d.text| else -1)
            && (!d.ending.BadEscape? ==> dst[at + |d.text|] == 0)
    ensures dst[..at] == old(dst[..at])
  {
    hide Decode;
    var ok, i, j := DecodeLoop(src, from, n, dst, at, room, form);
    if !ok {
      return -1;
    }
    Put(dst, at, j, 0, src, from + n, from + n);
    assert dst[at..at + j + 1][..j] == dst[at..at + j];
    len := if i >= n then j else -1;
  }

  method DecodeLoop(src: array<byte>, from: nat, n: nat, dst: array<byte>, at: nat, room: int, form: bool)
    returns (ok: bool, i: nat, j: nat)
    requires from + n <= src.Length && at < dst.Length && at + room <= dst.Length
    requires src == dst ==> at <= from
    modifies dst
    ensures var d := Decode(old(src[from..from + n]), [], room, form);
            && (j == 0 || j < room) && dst[at..at + j] == d.text && j == |d.text| && dst[..at] == old(dst[..at])
            && ok == !d.ending.BadEscape? && (ok ==> (i >= n <==> d.ending.Complete?))
  {
    hide TakeChar, Decode;
    ghost var rest, out: seq<byte> := src[from..from + n], [];
    ghost var goal := Decode(rest, out, room, form);
    ghost var at0, end := dst[..at], from + n;
    i, j := 0, 0;
    while i < n && j < room - 1
      invariant i <= n && j <= i && (j == 0 || j < room) && |rest| == n - i && |out| == j
      invariant rest == src[from + i..end] && out == dst[at..at + j] && dst[..at] == at0
      invariant Decode(rest, out, room, form) == goal
    {
      var used;
      ok, used, rest, out := DecodeChar(src, from + i, from + n, dst, at, j, form, room, rest, out);
      if !ok {
        return;
      }
      i, j := i + used, j + 1;
    }
    DecodeTurn(rest, out, room, form);
    ok := true;
  }

  lemma DecodeTurn(src: seq<byte>, out: seq<byte>, room: int, form: bool)
    ensures Decode(src, out, room, form)
            == if src == [] then Decoded(out, Complete)
               else if |out| >= room - 1 then Decoded(out, NoRoom)
               else
                 var t := TakeChar(src, form);
                 if t.Bad? then Decoded(out, BadEscape) else Decode(src[t.used..], out + [t.c], room, form)
  {}

  /** One octet written at at + j; what is still to be read, from lo to hi, is elsewhere. */
  method Put(dst: array<byte>, at: nat, j: nat, c: byte, ghost src: array<byte>, ghost lo: nat, ghost hi: nat)
    requires at + j < dst.Length && lo <= hi <= src.Length && (src == dst ==> at + j < lo || lo == hi)
    modifies dst
    ensures dst[at..at + j + 1] == old(dst[at..at + j]) + [c] && dst[..at] == old(dst[..at])
    ensures src[lo..hi] == old(src[lo..hi])
  {
    dst[at + j] := c;
  }

  /** One character of `rest`, behind the j characters of `out`. */
  method DecodeChar(src: array<byte>, i: nat, end: nat, dst: array<byte>, at: nat, j: nat, form: bool,
                    ghost room: int, ghost rest: seq<byte>, ghost out: seq<byte>)
    returns (ok: bool, used: nat, ghost more: seq<byte>, ghost text: seq<byte>)
    requires i < end <= src.Length && at + j < dst.Length && (src == dst ==> at + j <= i)
    requires rest == src[i..end] && out == dst[at..at + j] && j < room - 1
    modifies dst
    ensures dst[..at] == old(dst[..at])
    ensures Decode(rest, out, room, form) == if ok then Decode(more, text, room, form) else Decoded(text, BadEscape)
    ensures |text| == j + (if ok then 1 else 0) && dst[at..at + |text|] == text
    ensures ok ==> 0 < used && i + used <= end && more == src[i + used..end]
  {
    hide TakeChar, Decode;
    DecodeTurn(rest, out, room, form);
    var c;
    more, text := [], out;
    ok, c, used := NextChar(src, i, end, form);
    if ok {
      more, text := rest[used..], out + [c];
      assert more == src[i + used..end];
      Put(dst, at, j, c, src, i + used, end);
    }
  }

  method NextChar(src: array<byte>, i: nat, end: nat, form: bool) returns (ok: bool, c: byte, used: nat)
    requires i < end <= src.Length
    ensures TakeChar(src[i..end], form) == if ok then Char(c, used) else Bad
  {
    ghost var rest := src[i..end];
    ok, c, used := true, src[i], 1;
    if c == PERCENT {
      if i < end - 2 && IsHexDigit(src[i + 1]) && IsHexDigit(src[i + 2]) {
        c := HexValue(src[i + 1]) * 16 + HexValue(src[i + 2]);
        used := 3;
      } else {
        ok := false;
      }
    } else if form && c == PLUS {
      c := SPACE;
    }
  }

  /** Written over its own input, a text is decoded as it would be into a fresh block. */
  method DecodeInPlace(a: array<byte>, from: nat, n: nat, room: int, form: bool) returns (len: int)
    requires from + n <= a.Length && from < a.Length && from + room <= a.Length
    modifies a
    ensures var d := Decode(old(a[from..from + n]), [], room, form);
            a[from..from + |d.text|] == d.text && len == (if d.ending.Complete? then |d.text| else -1)
  {
    len := DecodeInto(a, from, n, a, from, room, form);
  }

  /** `mg_ncasecmp(name, p, |name|) == 0` for a name without zeros. */
  method Same(name: seq<byte>, buf: array<byte>, p: nat) returns (same: bool)
    requires p + |name| <= buf.Length
    ensures same == SameText(name, buf[p..p + |name|])
  {
    for i := 0 to |name|
      invariant forall k :: 0 <= k < i ==> Lower(name[k]) == Lower(buf[p + k])
    {
      if Lower(name[i]) != Lower(buf[p + i]) {
        assert buf[p..p + |name|][i] == buf[p + i];
        return false;
      }
    }
    return true;
  }

  /** `mg_get_http_var`; dst gets what has been decoded. */
  method GetHttpVar(buf: array<byte>, name: seq<byte>, dst: array<byte>) returns (len: int)
    requires buf != dst
    modifies dst
    ensures if dst.Length == 0 then len == -2
            else
              var v := GetVar(buf[..], name, dst.Length);
              && len == v.code
              && (v.code >= 0 ==> |v.text| < dst.Length && dst[..|v.text|] == v.text && dst[|v.text|] == 0)
  {
    hide Decode, SameText, ThroughInt;
    if dst.Length == 0 {
      return -2;
    }
    dst[0] := 0;
    if buf.Length == 0 {
      return -1;
    }
    var e := buf.Length;
    var p: nat := 0;
    assert buf[0..e] == buf[..];
    while p + |name| < e
      invariant p <= e
      invariant Find(p == 0 || buf[p - 1] == AMPERSAND, buf[p..e], name) == Find(true, buf[..], name)
      decreases e - p
    {
      assert buf[p..e][..|name|] == buf[p..p + |name|] && buf[p..e][|name|] == buf[p + |name|];
      assert buf[p..e][|name| + 1..] == buf[p + |name| + 1..e] && buf[p..e][1..] == buf[p + 1..e];
      var here := (p == 0 || buf[p - 1] == AMPERSAND) && buf[p + |name|] == EQUALS;
      if here {
        here := Same(name, buf, p);
      }
      if here {
        len := Value(buf, p + |name| + 1, dst);
        return;
      }
      p := p + 1;
    }
    return -4;
  }

  /** What is taken through an int of the k octets at p. */
  lemma Taken(s: seq<byte>, p: nat, k: nat, taken: nat)
    requires p + k <= |s| && taken == if Int32(k) < 0 then 0 else Int32(k)
    ensures taken <= k && ThroughInt(s[p..][..k]) == s[p..p + taken]
  {
    IntAtMost(k);
    SliceBehind(s, p, k);
    SliceAgain(s, p, p + k, 0, taken);
  }

  lemma IntAtMost(n: nat)
    ensures Int32(n) <= n
  {}

  /** The value from p to the next '&', decoded. */
  method Value(buf: array<byte>, p: nat, dst: array<byte>) returns (len: int)
    requires buf != dst && p <= buf.Length && dst.Length > 0
    modifies dst
    ensures var value := buf[p..buf.Length];
            var d := Decode(ThroughInt(value[..FirstOf(value, AMPERSAND)]), [], Int32(dst.Length), true);
            && len == (if d.ending.Complete? then |d.text| else -3)
            && (len >= 0 ==> |d.text| < dst.Length && dst[..|d.text|] == d.text && dst[|d.text|] == 0)
  {
    hide Decode, Int32, ThroughInt;
    ghost var value := buf[p..buf.Length];
    var k: nat := 0;
    while p + k < buf.Length && buf[p + k] != AMPERSAND
      invariant p + k <= buf.Length && k + FirstOf(value[k..], AMPERSAND) == FirstOf(value, AMPERSAND)
    {
      assert value[k] == buf[p + k] && value[k..][1..] == value[k + 1..];
      k := k + 1;
    }
    assert k < |value| ==> value[k] == buf[p + k];
    var n := Int32(k);
    var taken: nat := if n < 0 then 0 else n;
    assert value == buf[..][p..];
    Taken(buf[..], p, k, taken);
    assert ThroughInt(value[..k]) == buf[p..p + taken];
    IntAtMost(dst.Length);
    len := DecodeInto(buf, p, taken, dst, 0, Int32(dst.Length), true);
    if len == -1 {
      len := -3;
    }
  }
}
