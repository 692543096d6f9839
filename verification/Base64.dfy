/** Base64 (section 4 of RFC 4648): encoded at once, or piece by piece, and decoded. */
module Base64 {
  import opened Bytes
  import opened Streams

  const PAD: byte := 61
  const PADDING := 200 // what the decoder's table holds for '='
  const INVALID := 255

  // ---- Characters ----

  /** `cs_base64_emit_code`. */
  function CharOf(v: nat): byte
    requires v < 64
  {
    if v < 26 then 65 + v
    else if v < 52 then 97 + v - 26
    else if v < 62 then 48 + v - 52
    else if v == 62 then 43
    else 47
  }

  /** `from_b64`, a table of 128 entries. */
  function FromB64(ch: byte): (v: nat)
    ensures v < 64 || v == PADDING || v == INVALID
  {
    var c := ch % 128;
    if 65 <= c <= 90 then c - 65
    else if 97 <= c <= 122 then c - 97 + 26
    else if 48 <= c <= 57 then c - 48 + 52
    else if c == 43 then 62
    else if c == 47 then 63
    else if c == PAD then PADDING
    else INVALID
  }

  lemma CharIsItsCode(v: nat)
    requires v < 64
    ensures FromB64(CharOf(v)) == v && CharOf(v) != PAD
  {}

  lemma PadIsPadding()
    ensures FromB64(PAD) == PADDING
  {}

  // ---- Encoding ----

  /** `cs_base64_emit_chunk` of n octets, one to three, the rest being zero. */
  function Group(a: byte, b: byte, c: byte, n: nat): (g: seq<byte>)
    requires 1 <= n <= 3
    ensures |g| == n + 1
  {
    [CharOf(a / 4), CharOf(a % 4 * 16 + b / 16)]
    + (if n > 1 then [CharOf(b % 16 * 4 + c / 64)] else [])
    + if n > 2 then [CharOf(c % 64)] else []
  }

  /** The text of s. */
  function Encode(s: seq<byte>): seq<byte> {
    if s == [] then []
    else if |s| == 1 then Group(s[0], 0, 0, 1) + [PAD, PAD]
    else if |s| == 2 then Group(s[0], s[1], 0, 2) + [PAD]
    else Group(s[0], s[1], s[2], 3) + Encode(s[3..])
  }

  lemma {:induction false} EncodeMore(s: seq<byte>, t: seq<byte>)
    requires |s| % 3 == 0
    ensures Encode(s + t) == Encode(s) + Encode(t)
  {
    if s == [] {
      assert s + t == t;
    } else {
      assert (s + t)[3..] == s[3..] + t;
      EncodeMore(s[3..], t);
    }
  }

  lemma {:induction false} EncodedLength(s: seq<byte>)
    ensures |Encode(s)| == (|s| + 2) / 3 * 4
  {
    if |s| > 3 {
      EncodedLength(s[3..]);
    }
  }

  // ---- Decoding ----

  /** The octets written, and how many characters were consumed. */
  datatype Decoded = Decoded(data: seq<byte>, used: nat)

  /** `cs_base64_decode`, with `data` written and `used` characters consumed. */
  function Decode(s: seq<byte>, data: seq<byte>, used: nat): (d: Decoded)
    ensures data <= d.data
    decreases |s|
  {
    if |s| < 4 then Decoded(data, used)
    else
      var a, b, c, d := FromB64(s[0]), FromB64(s[1]), FromB64(s[2]), FromB64(s[3]);
      if a == INVALID || b == INVALID || c == INVALID || d == INVALID then Decoded(data, used)
      else if a == PADDING || b == PADDING then Decoded(data, used + 4)
      else if c == PADDING then Decoded(data + [a * 4 + b / 16], used + 4)
      else if d == PADDING then Decoded(data + [a * 4 + b / 16, b % 16 * 16 + c / 4], used + 4)
      else Decode(s[4..], data + [a * 4 + b / 16, b % 16 * 16 + c / 4, c % 4 * 64 + d], used + 4)
  }

  /** Three octets, cut into four times six bits and put together again. */
  lemma SixBits(a: byte, b: byte, c: byte)
    ensures var w, x, y, z := a / 4, a % 4 * 16 + b / 16, b % 16 * 4 + c / 64, c % 64;
            w * 4 + x / 16 == a && x % 16 * 16 + y / 4 == b && y % 4 * 64 + z == c
  {}

  /** The decoder's table gives the six bits of each character of the group. */
  lemma CharsOfGroup(a: byte, b: byte, c: byte)
    ensures var w, x, y, z := a / 4, a % 4 * 16 + b / 16, b % 16 * 4 + c / 64, c % 64;
            FromB64(CharOf(w)) == w && FromB64(CharOf(x)) == x && FromB64(CharOf(y)) == y && FromB64(CharOf(z)) == z
  {
    hide FromB64, CharOf;
    CharIsItsCode(a / 4);
    CharIsItsCode(a % 4 * 16 + b / 16);
    CharIsItsCode(b % 16 * 4 + c / 64);
    CharIsItsCode(c % 64);
  }

  lemma DecodeThree(a: byte, b: byte, c: byte, rest: seq<byte>, data: seq<byte>, used: nat)
    ensures Decode(Group(a, b, c, 3) + rest, data, used) == Decode(rest, data + [a, b, c], used + 4)
  {
    hide FromB64, CharOf;
    SixBits(a, b, c);
    CharsOfGroup(a, b, c);
    assert (Group(a, b, c, 3) + rest)[4..] == rest;
  }

  lemma DecodeFew(a: byte, b: byte, n: nat, data: seq<byte>, used: nat)
    requires 1 <= n <= 2 && (n == 1 ==> b == 0)
    ensures Decode(Group(a, b, 0, n) + Pads(3 - n), data, used) == Decoded(data + [a, b][..n], used + 4)
  {
    hide FromB64, CharOf;
    assert Pads(1) == [PAD] && Pads(2) == [PAD, PAD];
    SixBits(a, b, 0);
    CharsOfGroup(a, b, 0);
    PadIsPadding();
  }

  lemma {:induction false} DecodeEncodeFrom(s: seq<byte>, data: seq<byte>, used: nat)
    ensures Decode(Encode(s), data, used) == Decoded(data + s, used + |Encode(s)|)
    decreases |s|
  {
    hide Decode, Group;
    if s == [] {
      assert data + s == data;
      NothingToDecode(data, used);
    } else if |s| < 3 {
      var b := if |s| == 2 then s[1] else 0;
      DecodeFew(s[0], b, |s|, data, used);
      EncodeFew(s, s[0], b, 0);
      assert [s[0], b][..|s|] == s;
    } else {
      DecodeThree(s[0], s[1], s[2], Encode(s[3..]), data, used);
      DecodeEncodeFrom(s[3..], data + [s[0], s[1], s[2]], used + 4);
      assert s == [s[0], s[1], s[2]] + s[3..];
      Rebracket(data, [s[0], s[1], s[2]], s[3..]);
    }
  }

  lemma NothingToDecode(data: seq<byte>, used: nat)
    ensures Decode([], data, used) == Decoded(data, used)
  {}

  /** Decoding gives back the octets and consumes the whole text. */
  lemma DecodeEncode(s: seq<byte>)
    ensures Decode(Encode(s), [], 0) == Decoded(s, |Encode(s)|)
  {
    DecodeEncodeFrom(s, [], 0);
    assert [] + s == s;
  }

  // ---- Any text, and the examples of RFC 4648 ----

  /** Table 1: A to Z, a to z, 0 to 9, '+' and '/'. */
  lemma Alphabet(v: nat)
    requires v < 64
    ensures CharOf(0) == 65 && CharOf(25) == 90 && CharOf(26) == 97 && CharOf(51) == 122 && CharOf(52) == 48
    ensures CharOf(61) == 57 && CharOf(62) == 43 && CharOf(63) == 47
    ensures v !in {25, 51, 61, 62, 63} ==> CharOf(v + 1) == CharOf(v) + 1
  {}

  /** Nothing else is in the table, but for the padding and what differs in the high bit. */
  lemma OnlyAlphabet(c: byte)
    ensures FromB64(c) < 64 ==> CharOf(FromB64(c)) == c % 128
    ensures FromB64(c) == PADDING <==> c % 128 == 61
  {}

  /** Four characters of the alphabet are three octets with the same 24 bits. */
  lemma WholeGroup(s: seq<byte>, data: seq<byte>, used: nat) returns (x: byte, y: byte, z: byte)
    requires |s| >= 4 && forall i :: 0 <= i < 4 ==> FromB64(s[i]) < 64
    ensures 0x1_0000 * x + 256 * y + z
            == 0x4_0000 * FromB64(s[0]) + 0x1000 * FromB64(s[1]) + 64 * FromB64(s[2]) + FromB64(s[3])
    ensures Decode(s, data, used) == Decode(s[4..], data + [x, y, z], used + 4)
  {
    hide FromB64;
    var a, b, c, d := FromB64(s[0]), FromB64(s[1]), FromB64(s[2]), FromB64(s[3]);
    x, y, z := a * 4 + b / 16, b % 16 * 16 + c / 4, c % 4 * 64 + d;
  }

  /** The end, or four characters of which one is neither in the alphabet nor padding, stops the decoder before them. */
  lemma StopsBefore(s: seq<byte>, data: seq<byte>, used: nat)
    requires |s| < 4 || exists i :: 0 <= i < 4 && FromB64(s[i]) == 255
    ensures Decode(s, data, used) == Decoded(data, used)
  {
    hide FromB64;
  }

  /** Padding stops it behind the group, which has as many octets as there are whole ones before the padding. */
  lemma StopsAtPadding(s: seq<byte>, data: seq<byte>, used: nat)
    requires |s| >= 4 && (forall i :: 0 <= i < 4 ==> FromB64(s[i]) != 255)
    requires exists i :: 0 <= i < 4 && FromB64(s[i]) == PADDING
    ensures var d := Decode(s, data, used);
            && d.used == used + 4
            && |d.data| == |data| + if FromB64(s[0]) == PADDING || FromB64(s[1]) == PADDING then 0
                                    else if FromB64(s[2]) == PADDING then 1 else 2
    ensures var d := Decode(s, data, used).data;
            var bits := 0x400 * FromB64(s[0]) + 16 * FromB64(s[1]) + FromB64(s[2]) / 4;
            && data <= d
            && (|d| > |data| ==> d[|data|] as int == 4 * FromB64(s[0]) + FromB64(s[1]) / 16)
            && (|d| > |data| + 1 ==> 256 * (d[|data|] as int) + d[|data| + 1] as int == bits)
  {
    hide FromB64;
  }

  /** Section 10. */
  lemma Vectors()
    ensures Encode([]) == []
    ensures Encode([102]) == [90, 103, 61, 61]
    ensures Encode([102, 111]) == [90, 109, 56, 61]
    ensures Encode([102, 111, 111]) == [90, 109, 57, 118]
    ensures Encode([102, 111, 111, 98]) == [90, 109, 57, 118, 89, 103, 61, 61]
    ensures Encode([102, 111, 111, 98, 97]) == [90, 109, 57, 118, 89, 109, 69, 61]
    ensures Encode([102, 111, 111, 98, 97, 114]) == [90, 109, 57, 118, 89, 109, 70, 121]
  {
    var s: seq<byte> := [102, 111, 111];
    assert s[3..] == [] && [102, 111, 111, 98][3..] == [98] && [102, 111, 111, 98, 97][3..] == [98, 97];
    assert [102, 111, 111, 98, 97, 114][3..] == [98, 97, 114] && [98, 97, 114][3..] == [];
  }

  // ---- The code ----

  /** `cs_base64_ctx`; what it puts out is collected. */
  class Context {
    var chunk: array<byte>
    var chunkSize: nat
    var out: seq<byte>
    ghost var whole: seq<byte> // the groups that have been put out

    ghost predicate Valid()
      reads this, chunk
    {
      chunk.Length == 3 && chunkSize < 3 && |whole| % 3 == 0 && out == Encode(whole)
    }

    /** All that has been put in. */
    ghost function Input(): seq<byte>
      requires Valid()
      reads this, chunk
    {
      whole + chunk[..chunkSize]
    }

    constructor ()
      ensures Valid() && fresh(chunk) && Input() == []
    {
      chunk, chunkSize, out, whole := new byte[3](_ => 0), 0, [], [];
    }

    method EmitChunk()
      requires chunk.Length == 3 && 1 <= chunkSize <= 3
      modifies this`out
      ensures out == old(out) + Group(chunk[0], chunk[1], chunk[2], chunkSize)
    {
      hide CharOf;
      var a, b, c := chunk[0], chunk[1], chunk[2];
      ghost var before := out;
      out := out + [CharOf(a / 4)];
      out := out + [CharOf(a % 4 * 16 + b / 16)];
      if chunkSize > 1 {
        out := out + [CharOf(b % 16 * 4 + c / 64)];
      }
      if chunkSize > 2 {
        out := out + [CharOf(c % 64)];
      }
      assert out == before + Group(a, b, c, chunkSize);
    }

    method Put(x: byte)
      requires Valid()
      modifies this, chunk
      ensures Valid() && chunk == old(chunk) && Input() == old(Input()) + [x]
    {
      hide Group, Encode;
      ghost var open := chunk[..chunkSize];
      chunk[chunkSize] := x;
      chunkSize := chunkSize + 1;
      assert chunk[..chunkSize] == open + [x];
      Rebracket(whole, open, [x]);
      if chunkSize == 3 {
        EmitChunk();
        EncodeThree(whole, chunk[0], chunk[1], chunk[2]);
        assert chunk[..3] == [chunk[0], chunk[1], chunk[2]];
        whole := whole + chunk[..3];
        chunkSize := 0;
      }
    }

    /** `cs_base64_update`. */
    method Update(str: seq<byte>)
      requires Valid()
      modifies this, chunk
      ensures Valid() && chunk == old(chunk) && Input() == old(Input()) + str
    {
      hide Valid, Input;
      for i := 0 to |str|
        invariant Valid() && chunk == old(chunk) && Input() == old(Input()) + str[..i]
      {
        Put(str[i]);
      }
    }

    /** `cs_base64_finish`: all that has been put out is the text of all that has been put in. */
    method Finish()
      requires Valid()
      modifies this`out, chunk
      ensures out == Encode(old(Input()))
    {
      hide Group, Encode;
      ghost var open := chunk[..chunkSize];
      EncodeMore(whole, open);
      if chunkSize > 0 {
        forall i | chunkSize <= i < 3 {
          chunk[i] := 0;
        }
        EncodeFew(open, chunk[0], chunk[1], chunk[2]);
        Rebracket(out, Group(chunk[0], chunk[1], chunk[2], chunkSize), Pads(3 - chunkSize));
        EmitChunk();
        ghost var text := out;
        for i := 0 to 3 - chunkSize
          invariant out == text + Pads(i)
        {
          OneMorePad(i);
          Rebracket(text, Pads(i), [PAD]);
          out := out + [PAD];
        }
      } else {
        EncodeNone();
      }
    }
  }

  lemma {:induction false} OneMorePad(i: nat)
    ensures Pads(i + 1) == Pads(i) + [PAD]
  {
    if i > 0 {
      OneMorePad(i - 1);
    }
  }

  lemma EncodeNone()
    ensures Encode([]) == []
  {}

  /** The last one or two octets, followed by zeros in the chunk. */
  lemma EncodeFew(s: seq<byte>, a: byte, b: byte, c: byte)
    requires 1 <= |s| <= 2 && s == [a, b][..|s|] && c == 0 && (|s| == 1 ==> b == 0)
    ensures Encode(s) == Group(a, b, c, |s|) + Pads(3 - |s|)
  {
    hide Group;
    assert Pads(1) == [PAD] && Pads(2) == [PAD, PAD];
  }

  lemma EncodeThree(s: seq<byte>, a: byte, b: byte, c: byte)
    requires |s| % 3 == 0
    ensures Encode(s + [a, b, c]) == Encode(s) + Group(a, b, c, 3)
  {
    EncodeMore(s, [a, b, c]);
    assert Encode([a, b, c][3..]) == [];
    assert Group(a, b, c, 3) + [] == Group(a, b, c, 3);
  }

  /** Any way of cutting the input gives the text of the whole. */
  method EncodePieces(pieces: seq<seq<byte>>) returns (text: seq<byte>)
    ensures text == Encode(Flat(pieces))
  {
    hide Encode;
    var ctx := new Context();
    for i := 0 to |pieces|
      invariant ctx.Valid() && fresh(ctx) && fresh(ctx.chunk) && ctx.Input() + Flat(pieces[i..]) == Flat(pieces)
    {
      assert pieces[i..][1..] == pieces[i + 1..];
      Rebracket(ctx.Input(), pieces[i], Flat(pieces[i + 1..]));
      ctx.Update(pieces[i]);
    }
    assert ctx.Input() + [] == ctx.Input();
    ctx.Finish();
    return ctx.out;
  }

  /** The body of the loop of `cs_base64_encode`: n + 1 characters at j. */
  method PutGroup(dst: array<byte>, j: nat, a: byte, b: byte, c: byte, n: nat) returns (end: nat)
    requires 1 <= n <= 3 && j + n + 1 <= dst.Length
    modifies dst
    ensures end == j + n + 1 && dst[..end] == old(dst[..j]) + Group(a, b, c, n)
  {
    hide CharOf;
    dst[j] := CharOf(a / 4);
    dst[j + 1] := CharOf(a % 4 * 16 + b / 16);
    end := j + 2;
    if n > 1 {
      dst[end] := CharOf(b % 16 * 4 + c / 64);
      end := end + 1;
    }
    if n > 2 {
      dst[end] := CharOf(c % 64);
      end := end + 1;
    }
  }

  /** `cs_base64_encode`: the text and a zero. */
  method EncodeInto(src: seq<byte>, dst: array<byte>) returns (j: nat)
    requires |Encode(src)| < dst.Length
    modifies dst
    ensures j <= dst.Length && dst[..j] == Encode(src) + [0]
  {
    hide Encode;
    ghost var left;
    j, left := PutGroups(src, dst);
    while j % 4 != 0
      invariant j + left == |Encode(src)| && left <= 2 && (j + left) % 4 == 0
      invariant dst[..j] + Pads(left) == Encode(src)
      decreases left
    {
      ghost var was := dst[..j];
      dst[j] := PAD;
      j := j + 1;
      left := left - 1;
      Rebracket(was, [PAD], Pads(left));
    }
    assert dst[..j] + [] == dst[..j];
    dst[j] := 0;
    j := j + 1;
  }

  /** The first loop; `left` is how much padding there is to be. */
  method PutGroups(src: seq<byte>, dst: array<byte>) returns (j: nat, ghost left: nat)
    requires |Encode(src)| < dst.Length
    modifies dst
    ensures j + left == |Encode(src)| && left <= 2 && (j + left) % 4 == 0 && dst[..j] + Pads(left) == Encode(src)
  {
    hide Group, Encode;
    EncodedLength(src);
    var i: nat := 0;
    j := 0;
    ghost var rest := Encode(src);
    assert src[0..] == src && [] + rest == rest;
    while i < |src|
      invariant i <= |src| + 2 && j + |rest| == |Encode(src)|
      invariant dst[..j] + rest == Encode(src)
      invariant rest == if i <= |src| then Encode(src[i..]) else Pads(i - |src|)
      decreases |src| + 3 - i
    {
      var n := if |src| - i < 3 then |src| - i else 3;
      var a := src[i];
      var b := if i + 1 >= |src| then 0 else src[i + 1];
      var c := if i + 2 >= |src| then 0 else src[i + 2];
      FirstGroup(src[i..], a, b, c, n);
      assert n == 3 ==> src[i..][3..] == src[i + 3..];
      rest := if n < 3 then Pads(3 - n) else Encode(src[i + 3..]);
      Rebracket(dst[..j], Group(a, b, c, n), rest);
      j := PutGroup(dst, j, a, b, c, n);
      i := i + 3;
    }
    left := if i > |src| then i - |src| else 0;
    assert i == |src| ==> src[i..] == [];
    EncodedLength([]);
  }

  function Pads(n: nat): (p: seq<byte>)
    ensures |p| == n
  {
    if n == 0 then [] else [PAD] + Pads(n - 1)
  }

  lemma FirstGroup(s: seq<byte>, a: byte, b: byte, c: byte, n: nat)
    requires s != [] && n == (if |s| < 3 then |s| else 3) && a == s[0]
    requires b == (if n > 1 then s[1] else 0) && c == (if n > 2 then s[2] else 0)
    ensures Encode(s) == Group(a, b, c, n) + if n < 3 then Pads(3 - n) else Encode(s[3..])
  {
    hide Group;
    assert Pads(1) == [PAD] && Pads(2) == [PAD, PAD];
  }

  method Store(dst: array<byte>, n: nat, x: byte) returns (next: nat)
    requires n < dst.Length
    modifies dst
    ensures next == n + 1 && dst[..next] == old(dst[..n]) + [x]
  {
    dst[n] := x;
    next := n + 1;
  }

  lemma DecodeTurn(text: seq<byte>, k: nat, data: seq<byte>)
    requires k + 4 <= |text|
    ensures var a, b, c, d := FromB64(text[k]), FromB64(text[k + 1]), FromB64(text[k + 2]), FromB64(text[k + 3]);
            var r := Decode(text[k..], data, k);
            if a == INVALID || b == INVALID || c == INVALID || d == INVALID then r == Decoded(data, k)
            else if a == PADDING || b == PADDING then r == Decoded(data, k + 4)
            else
              var one := data + [a * 4 + b / 16];
              if c == PADDING then r == Decoded(one, k + 4)
              else
                var two := one + [b % 16 * 16 + c / 4];
                if d == PADDING then r == Decoded(two, k + 4)
                else r == Decode(text[k + 4..], two + [c % 4 * 64 + d], k + 4)
  {
    hide FromB64;
    var a, b, c, d := FromB64(text[k]), FromB64(text[k + 1]), FromB64(text[k + 2]), FromB64(text[k + 3]);
    assert text[k..][4..] == text[k + 4..];
    if a < 64 && b < 64 && c < 64 && d < 64 {
      assert data + [a * 4 + b / 16] + [b % 16 * 16 + c / 4] + [c % 4 * 64 + d]
          == data + [a * 4 + b / 16, b % 16 * 16 + c / 4, c % 4 * 64 + d];
    } else if a < 64 && b < 64 && c < 64 {
      assert data + [a * 4 + b / 16] + [b % 16 * 16 + c / 4] == data + [a * 4 + b / 16, b % 16 * 16 + c / 4];
    }
  }

  lemma TooShort(s: seq<byte>, data: seq<byte>, used: nat)
    requires |s| < 4
    ensures Decode(s, data, used) == Decoded(data, used)
  {}

  /** `cs_base64_decode`: how much of the text was consumed, and how much was written in front of a zero. */
  method DecodeInto(text: seq<byte>, dst: array<byte>) returns (used: nat, n: nat)
    requires |Decode(text, [], 0).data| < dst.Length
    modifies dst
    ensures n < dst.Length && Decoded(dst[..n], used) == Decode(text, [], 0) && dst[n] == 0
  {
    hide Decode, FromB64;
    ghost var goal := Decode(text, [], 0);
    used, n := 0, 0;
    assert text[0..] == text && dst[..0] == [];
    while |text| - used >= 4
      invariant used <= |text| && n < dst.Length && Decode(text[used..], dst[..n], used) == goal
      decreases |text| - used
    {
      var a, b, c, d := FromB64(text[used]), FromB64(text[used + 1]), FromB64(text[used + 2]), FromB64(text[used + 3]);
      DecodeTurn(text, used, dst[..n]);
      if a == INVALID || b == INVALID || c == INVALID || d == INVALID {
        dst[n] := 0;
        return;
      }
      used := used + 4;
      if a == PADDING || b == PADDING {
        dst[n] := 0;
        return;
      }
      n := Store(dst, n, a * 4 + b / 16);
      if c == PADDING {
        dst[n] := 0;
        return;
      }
      n := Store(dst, n, b % 16 * 16 + c / 4);
      if d == PADDING {
        dst[n] := 0;
        return;
      }
      n := Store(dst, n, c % 4 * 64 + d);
    }
    TooShort(text[used..], dst[..n], used);
    dst[n] := 0;
  }
}
