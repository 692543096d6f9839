/** The SHA-1 and MD5 contexts: data arrives in pieces, blocks are assembled in a 64-octet buffer. */
module Digests {
  import opened Bytes
  import opened Buffers
  import opened Streams
  import opened DigestSpec

  class Sha1Ctx {
    const transform: Transform
    const buffer: array<byte>
    var state: seq<nat>
    var count0: nat
    var count1: nat
    ghost var fed: seq<byte> // all data so far

    ghost predicate Valid()
      reads this, buffer
    {
      && buffer.Length == 64
      && count0 < TWO32 && count1 < TWO32
      && count0 + TWO32 * count1 == 8 * |fed| % TWO64
      && state == Absorb(transform, SHA1_INIT, fed)
      && buffer[..|fed| % 64] == Rest(fed)
    }

    constructor (transform: Transform)
      ensures Valid() && fed == [] && this.transform == transform && fresh(buffer)
    {
      this.transform := transform;
      buffer := new byte[64](_ => 0);
      state := SHA1_INIT;
      count0, count1 := 0, 0;
      fed := [];
    }

    /** The length is a `uint32_t`. The result says that the copies stay inside the block; else nothing is promised. */
    method Update(data: seq<byte>) returns (inside: bool)
      requires Valid() && |data| < TWO32
      modifies this, buffer
      ensures inside == (old(|fed|) % 64 + |data| < TWO32)
      ensures inside ==> Valid() && fed == old(fed) + data
    {
      hide Absorb, Rest, AddLength;
      BlockPosition(count0, count1, |fed|);
      AddLengthCounts(count0, count1, |data|);
      BitsAdd(|fed|, |data|);
      AbsorbSplit(transform, SHA1_INIT, fed, data);
      var j := count0 / 8 % 64;
      Count(|data|);
      inside := Consume(j, data);
      assert inside ==> |Rest(Rest(fed) + data)| == |fed + data| % 64;
      fed := fed + data;
    }

    /** Adds the length to the two-word bit count. */
    method Count(len: nat)
      modifies this`count0, this`count1
      ensures (count0, count1) == AddLength(old(count0), old(count1), len)
    {
      var j := count0;
      count0 := (count0 + 8 * len % TWO32) % TWO32;
      if count0 < j {
        count1 := (count1 + 1) % TWO32;
      }
      count1 := (count1 + len / 0x2000_0000) % TWO32;
    }

    /** Completes and transforms blocks, j octets being in the buffer, and keeps the remainder there. */
    method Consume(j: nat, data: seq<byte>) returns (inside: bool)
      requires buffer.Length == 64 && j < 64 && |data| < TWO32
      modifies this`state, buffer
      ensures inside == (j + |data| < TWO32)
      ensures var all := old(buffer[..j]) + data;
              inside ==> state == Absorb(transform, old(state), all) && buffer[..|Rest(all)|] == Rest(all)
    {
      StaysInBlockIff(j, |data|);
      inside := CopyEnd(j, |data|) <= 64;
      if inside {
        ConsumeInside(j, data);
      }
    }

    method ConsumeInside(j: nat, data: seq<byte>)
      requires buffer.Length == 64 && j < 64 && j + |data| < TWO32
      modifies this`state, buffer
      ensures var all := old(buffer[..j]) + data;
              state == Absorb(transform, old(state), all) && buffer[..|Rest(all)|] == Rest(all)
    {
      ghost var all := buffer[..j] + data;
      if (j + |data|) % TWO32 > 63 {
        var i := 64 - j;
        ghost var block := buffer[..j] + data[..i];
        assert all == block + data[i..];
        AbsorbBlock(transform, state, block, data[i..]);
        MemCopy(buffer, j, data[..i]);
        assert buffer[..] == block;
        state := transform(state, buffer[..]);
        WholeBlocks(data, i, j);
      } else {
        NoWholeBlock(transform, state, all);
        MemCopy(buffer, j, data);
        assert buffer[..|all|] == all;
      }
    }

    /** Transforms the whole blocks of data from i on where they lie, and keeps the remainder in the buffer. */
    method WholeBlocks(data: seq<byte>, from: nat, ghost j: nat)
      requires buffer.Length == 64 && from <= |data| && from + j == 64 && j + |data| < TWO32
      modifies this`state, buffer
      ensures state == Absorb(transform, old(state), data[from..])
      ensures buffer[..|Rest(data[from..])|] == Rest(data[from..])
    {
      hide Absorb, Rest;
      var i := from;
      while i + 63 < |data|
        invariant from <= i <= |data| && (i + j) % 64 == 0
        invariant i + 63 < TWO32 // the sum does not wrap around
        invariant Absorb(transform, state, data[i..]) == Absorb(transform, old(state), data[from..])
        invariant Rest(data[i..]) == Rest(data[from..])
      {
        OneBlock(transform, state, data, i);
        state := transform(state, data[i..i + 64]);
        i := i + 64;
        BlockFits(i, j, |data|);
      }
      NoWholeBlock(transform, state, data[i..]);
      MemCopy(buffer, 0, data[i..]);
    }

    /** The two counter words, most significant octet first. */
    method FinalCount() returns (octets: seq<byte>)
      requires count0 < TWO32 && count1 < TWO32
      ensures octets == ToBigEndian(count0 + TWO32 * count1, 8)
    {
      hide ToBigEndian, ByteOf;
      BigEndianWords(count0, count1);
      ghost var want := ToBigEndian(count1, 4) + ToBigEndian(count0, 4);
      octets := [];
      for i := 0 to 8
        invariant octets == want[..i]
      {
        WordOctet(if i >= 4 then count0 else count1, i % 4);
        octets := octets + [ByteOf(if i >= 4 then count0 else count1, i % 4)];
      }
    }

    method Final() returns (digest: seq<byte>)
      requires Valid()
      modifies this, buffer
      ensures digest == Sha1(transform, old(fed))
    {
      hide Absorb, Rest, ToBigEndian, PadTo56;
      ghost var m := fed;
      var finalCount := FinalCount();
      var _ := Update([0x80]);
      FillUp(m);
      var _ := Update(finalCount);
      digest := WordOctets(state);
      state, count0, count1, fed := [], 0, 0, [];
    }

    /** Zeros until the length fits in the block. */
    method FillUp(ghost m: seq<byte>)
      requires Valid() && fed == m + [0x80]
      modifies this, buffer
      ensures Valid() && fed == PadTo56(m)
    {
      hide Absorb, Rest;
      ghost var zeros := 0;
      assert fed == m + [0x80] + Zeros(0);
      while count0 / 8 % 64 != 56
        invariant Valid() && zeros <= ZerosFor(|m|) && fed == m + [0x80] + Zeros(zeros)
        decreases ZerosFor(|m|) - zeros
      {
        BlockPosition(count0, count1, |fed|);
        assert zeros < ZerosFor(|m|);
        ZerosSnoc(zeros);
        Rebracket(m + [0x80], Zeros(zeros), [0]);
        var _ := Update([0]);
        zeros := zeros + 1;
      }
      BlockPosition(count0, count1, |fed|);
      ZerosForIsLeast(|m|, zeros);
    }
  }

  /** Octet i of a word, counted from the most significant. */
  function ByteOf(word: nat, i: nat): byte
    requires i < 4
  {
    if i == 0 then word / 0x100_0000 % 256
    else if i == 1 then word / 0x1_0000 % 256
    else if i == 2 then word / 256 % 256
    else word % 256
  }

  lemma WordOctet(n: nat, i: nat)
    requires i < 4
    ensures ToBigEndian(n, 4)[i] == ByteOf(n, i)
  {
    BigEndian4(n);
  }

  method WordOctets(words: seq<nat>) returns (octets: seq<byte>)
    ensures octets == WordsBigEndian(words)
  {
    octets := [];
    for i := 0 to |words|
      invariant octets + WordsBigEndian(words[i..]) == WordsBigEndian(words)
    {
      BigEndian4(words[i]);
      assert words[i..][1..] == words[i + 1..];
      octets := octets + [ByteOf(words[i], 0), ByteOf(words[i], 1), ByteOf(words[i], 2), ByteOf(words[i], 3)];
    }
  }

  /** Where the first copy into the block ends, j octets being there: the sum is taken in 32 bits. */
  function CopyEnd(j: nat, len: nat): nat {
    if (j + len) % TWO32 > 63 then 64 else j + len
  }

  /** It stays inside the block of 64 octets exactly when the sum does not wrap around. */
  lemma StaysInBlockIff(j: nat, len: nat)
    requires j < 64 && len < TWO32
    ensures CopyEnd(j, len) <= 64 <==> j + len < TWO32
  {
    if j + len < TWO32 {
      DivMod(j + len, TWO32, 0, j + len);
    } else {
      DivMod(j + len, TWO32, 1, j + len - TWO32);
    }
  }

  /** One octet in the block, and the longest piece there is. */
  lemma LongPieceLeavesBlock()
    ensures CopyEnd(1, TWO32 - 1) == TWO32
  {}

  lemma BlockFits(i: nat, j: nat, n: nat)
    requires (i + j) % 64 == 0 && i <= n && j + n < TWO32
    ensures i + 63 < TWO32
  {}

  /** Each piece, with what is in the buffer before it, stays below 2^32 octets; n octets have been fed. */
  predicate Placeable(n: nat, pieces: seq<seq<byte>>)
    decreases |pieces|
  {
    pieces == [] || (n % 64 + |pieces[0]| < TWO32 && Placeable(n + |pieces[0]|, pieces[1..]))
  }

  lemma {:induction false} ShortPiecesArePlaceable(n: nat, pieces: seq<seq<byte>>)
    requires forall p <- pieces :: |p| + 63 < TWO32
    ensures Placeable(n, pieces)
    decreases |pieces|
  {
    if pieces != [] {
      assert pieces[0] in pieces && forall p <- pieces[1..] :: p in pieces;
      ShortPiecesArePlaceable(n + |pieces[0]|, pieces[1..]);
    }
  }

  /** The digest of data that comes in pieces is the digest of the whole, however it is cut. */
  method Sha1OfPieces(f: Transform, pieces: seq<seq<byte>>) returns (inside: bool, digest: seq<byte>)
    requires forall p <- pieces :: |p| < TWO32
    ensures inside == Placeable(0, pieces)
    ensures inside ==> digest == Sha1(f, Flat(pieces))
  {
    hide Sha1Ctx.Valid, Sha1, Flat, Placeable;
    var ctx := new Sha1Ctx(f);
    inside, digest := true, [];
    StartOfPieces(pieces);
    for i := 0 to |pieces|
      invariant ctx.Valid() && ctx.transform == f && fresh(ctx) && fresh(ctx.buffer)
      invariant ctx.fed + Flat(pieces[i..]) == Flat(pieces)
      invariant Placeable(|ctx.fed|, pieces[i..]) == Placeable(0, pieces)
    {
      NextPiece(pieces, i, |ctx.fed|);
      Rebracket(ctx.fed, pieces[i], Flat(pieces[i + 1..]));
      inside := ctx.Update(pieces[i]);
      if !inside {
        return;
      }
    }
    EndOfPieces(pieces, |ctx.fed|);
    assert ctx.fed + [] == ctx.fed;
    digest := ctx.Final();
  }

  lemma StartOfPieces(pieces: seq<seq<byte>>)
    ensures pieces[0..] == pieces && [] + Flat(pieces) == Flat(pieces)
  {}

  lemma NextPiece(pieces: seq<seq<byte>>, i: nat, n: nat)
    requires i < |pieces|
    ensures Flat(pieces[i..]) == pieces[i] + Flat(pieces[i + 1..]) && pieces[i] in pieces
    ensures Placeable(n, pieces[i..])
            == (n % 64 + |pieces[i]| < TWO32 && Placeable(n + |pieces[i]|, pieces[i + 1..]))
  {
    assert pieces[i..][1..] == pieces[i + 1..];
  }

  lemma EndOfPieces(pieces: seq<seq<byte>>, n: nat)
    ensures Flat(pieces[|pieces|..]) == [] && Placeable(n, pieces[|pieces|..])
  {}

  class Md5Ctx {
    const transform: Transform
    const block: array<byte>
    var state: seq<nat>
    var bits0: nat
    var bits1: nat
    ghost var fed: seq<byte> // all data so far
    ghost var counted: nat // the octets the bit count knows of: lengths are taken in 32 bits

    ghost predicate Valid()
      reads this, block
    {
      && block.Length == 64
      && bits0 < TWO32 && bits1 < TWO32
      && bits0 + TWO32 * bits1 == 8 * counted % TWO64
      && counted % 64 == |fed| % 64
      && state == Absorb(transform, MD5_INIT, fed)
      && block[..|fed| % 64] == Rest(fed)
    }

    constructor (transform: Transform)
      ensures Valid() && fed == [] && counted == 0 && this.transform == transform && fresh(block)
    {
      this.transform := transform;
      block := new byte[64](_ => 0);
      state := MD5_INIT;
      bits0, bits1 := 0, 0;
      fed, counted := [], 0;
    }

    method Update(data: seq<byte>)
      requires Valid()
      modifies this, block
      ensures Valid() && fed == old(fed) + data && counted == old(counted) + |data| % TWO32
    {
      hide Absorb, Rest, AddLength;
      var len := |data| % TWO32;
      Counts(bits0, bits1, counted, len);
      SamePosition(counted, |fed|, |data|);
      AbsorbSplit(transform, MD5_INIT, fed, data);
      var t := bits0 / 8 % 64;
      Count(len);
      Take(t, data);
      ghost var all := Rest(fed) + data;
      assert |Rest(all)| == |fed + data| % 64;
      counted := counted + len;
      fed := fed + data;
    }

    method Take(t: nat, data: seq<byte>)
      requires block.Length == 64 && t < 64
      modifies this`state, block
      ensures var all := old(block[..t]) + data;
              state == Absorb(transform, old(state), all) && block[..|Rest(all)|] == Rest(all)
    {
      hide Absorb, Rest;
      if t != 0 && |data| < 64 - t {
        KeepRest(t, data);
      } else {
        Consume(t, data);
      }
    }

    /** The bit count stays the count of bits, and tells the place in the block. */
    lemma Counts(low: nat, high: nat, n: nat, len: nat)
      requires low < TWO32 && high < TWO32 && low + TWO32 * high == 8 * n % TWO64 && len < TWO32
      ensures low / 8 % 64 == n % 64
      ensures var (l, h) := AddLength(low, high, len);
              l < TWO32 && h < TWO32 && l + TWO32 * h == 8 * (n + len) % TWO64
    {
      hide AddLength;
      BlockPosition(low, high, n);
      AddLengthCounts(low, high, len);
      BitsAdd(n, len);
    }

    lemma SamePosition(counted: nat, fed: nat, len: nat)
      requires counted % 64 == fed % 64
      ensures (counted + len % TWO32) % 64 == (fed + len) % 64
    {
      assert len == TWO32 * (len / TWO32) + len % TWO32;
    }

    method Count(len: nat)
      modifies this`bits0, this`bits1
      ensures (bits0, bits1) == AddLength(old(bits0), old(bits1), len)
    {
      var t := bits0;
      bits0 := (t + 8 * len % TWO32) % TWO32;
      if bits0 < t {
        bits1 := (bits1 + 1) % TWO32;
      }
      bits1 := (bits1 + len / 0x2000_0000) % TWO32;
    }

    /** The piece does not complete the block. */
    method KeepRest(t: nat, data: seq<byte>)
      requires block.Length == 64 && t + |data| < 64
      modifies block
      ensures var all := old(block[..t]) + data;
              state == Absorb(transform, state, all) && block[..|Rest(all)|] == Rest(all)
    {
      ghost var all := block[..t] + data;
      hide Absorb, Rest;
      NoWholeBlock(transform, state, all);
      MemCopy(block, t, data);
      assert block[..|all|] == all;
    }

    /** Completes the block if it was begun, then copies each whole block in and transforms it there. */
    method Consume(t: nat, data: seq<byte>)
      requires block.Length == 64 && t < 64 && (t != 0 ==> t + |data| >= 64)
      modifies this`state, block
      ensures var all := old(block[..t]) + data;
              state == Absorb(transform, old(state), all) && block[..|Rest(all)|] == Rest(all)
    {
      ghost var all := block[..t] + data;
      var i := 0;
      if t != 0 {
        i := 64 - t;
        ghost var first := block[..t] + data[..i];
        assert all == first + data[i..];
        AbsorbBlock(transform, state, first, data[i..]);
        MemCopy(block, t, data[..i]);
        assert block[..] == first;
        state := transform(state, block[..]);
      } else {
        assert all == data[0..];
      }
      WholeBlocks(data, i);
    }

    method WholeBlocks(data: seq<byte>, from: nat)
      requires block.Length == 64 && from <= |data|
      modifies this`state, block
      ensures state == Absorb(transform, old(state), data[from..])
      ensures block[..|Rest(data[from..])|] == Rest(data[from..])
    {
      hide Absorb, Rest;
      var i := from;
      while |data| - i >= 64
        invariant from <= i <= |data|
        invariant Absorb(transform, state, data[i..]) == Absorb(transform, old(state), data[from..])
        invariant Rest(data[i..]) == Rest(data[from..])
      {
        var next := data[i..i + 64];
        OneBlock(transform, state, data, i);
        MemCopy(block, 0, next);
        assert block[..] == next;
        state := transform(state, block[..]);
        i := i + 64;
      }
      NoWholeBlock(transform, state, data[i..]);
      MemCopy(block, 0, data[i..]);
    }

    /** The 0x80 and the zeros, over two blocks if the length does not fit behind them; n octets are in the block. */
    method Pad(n: nat, ghost m: seq<byte>, ghost length: seq<byte>)
      requires block.Length == 64 && n == |m| % 64 && block[..n] == Rest(m) && |length| == 8
      modifies this`state, block
      ensures Absorb(transform, old(state), Rest(m) + ([0x80] + Zeros(ZerosFor(|m|)) + length))
              == transform(state, block[..56] + length)
    {
      hide Absorb, Rest;
      ghost var before, end := block[..n], [0x80] + Zeros(ZerosFor(|m|)) + length;
      block[n] := 0x80;
      var count := 63 - n;
      if count < 8 {
        MemCopy(block, n + 1, Zeros(count));
        ghost var first := before + [0x80] + Zeros(count);
        assert block[..] == first;
        OverTwoBlocks(before, count, length);
        AbsorbBlock(transform, state, first, Zeros(56) + length);
        state := transform(state, block[..]);
        MemCopy(block, 0, Zeros(56));
        assert block[..56] == Zeros(56);
      } else {
        MemCopy(block, n + 1, Zeros(count - 8));
        assert block[..56] == before + [0x80] + Zeros(count - 8);
        InOneBlock(before, Zeros(count - 8), length);
      }
      LastBlock(block[..56] + length);
    }

    lemma OverTwoBlocks(before: seq<byte>, count: nat, length: seq<byte>)
      ensures before + ([0x80] + Zeros(count + 56) + length) == before + [0x80] + Zeros(count) + (Zeros(56) + length)
    {}

    lemma InOneBlock(before: seq<byte>, zeros: seq<byte>, length: seq<byte>)
      ensures before + [0x80] + zeros + length == before + ([0x80] + zeros + length)
    {}

    lemma EndOf(m: seq<byte>, n: nat, low: nat, high: nat)
      requires low < TWO32 && low + TWO32 * high == 8 * n % TWO64
      ensures Md5Padded(m, 8 * n)
              == m + ([0x80] + Zeros(ZerosFor(|m|)) + (ToLittleEndian(low, 4) + ToLittleEndian(high, 4)))
    {
      hide ToLittleEndian;
      LittleEndianWords(low, high);
    }

    method PutLength()
      requires block.Length == 64
      modifies block
      ensures block[..] == old(block[..56]) + (ToLittleEndian(bits0, 4) + ToLittleEndian(bits1, 4))
    {
      hide ToLittleEndian;
      MemCopy(block, 56, ToLittleEndian(bits0, 4));
      MemCopy(block, 60, ToLittleEndian(bits1, 4));
    }

    lemma LastBlock(last: seq<byte>)
      requires |last| == 64
      ensures forall s: seq<nat> :: Absorb(transform, s, last) == transform(s, last)
    {
      assert last[..64] == last && last[64..] == [];
    }

    method Final() returns (digest: seq<byte>)
      requires Valid()
      modifies this, block
      ensures digest == WordsLittleEndian(Absorb(transform, MD5_INIT, Md5Padded(old(fed), 8 * old(counted))))
    {
      hide Absorb, Rest, Md5Padded, ToLittleEndian;
      BlockPosition(bits0, bits1, counted);
      ghost var length := ToLittleEndian(bits0, 4) + ToLittleEndian(bits1, 4);
      ghost var end := [0x80] + Zeros(ZerosFor(|fed|)) + length;
      EndOf(fed, counted, bits0, bits1);
      AbsorbEnd(transform, MD5_INIT, fed, end);
      Pad(bits0 / 8 % 64, fed, length);
      PutLength();
      state := transform(state, block[..]);
      digest := WordsLittleEndian(state);
      state, bits0, bits1, fed, counted := [], 0, 0, [], 0;
      MemCopy(block, 0, Zeros(64));
    }
  }

  /** What the bit count makes of the lengths of the pieces. */
  function Counted(pieces: seq<seq<byte>>): nat {
    if pieces == [] then 0 else |pieces[0]| % TWO32 + Counted(pieces[1..])
  }

  /** Whole 2^32 octets that the bit count leaves out. */
  function LeftOut(pieces: seq<seq<byte>>): nat {
    if pieces == [] then 0 else |pieces[0]| / TWO32 + LeftOut(pieces[1..])
  }

  method Md5OfPieces(f: Transform, pieces: seq<seq<byte>>) returns (digest: seq<byte>)
    ensures digest == WordsLittleEndian(Absorb(f, MD5_INIT, Md5Padded(Flat(pieces), 8 * Counted(pieces))))
    ensures (forall p <- pieces :: |p| < TWO32) ==> digest == Md5(f, Flat(pieces))
  {
    var ctx := new Md5Ctx(f);
    for i := 0 to |pieces|
      invariant ctx.Valid() && ctx.transform == f && fresh(ctx) && fresh(ctx.block)
      invariant ctx.fed + Flat(pieces[i..]) == Flat(pieces)
      invariant ctx.counted + Counted(pieces[i..]) == Counted(pieces)
    {
      assert pieces[i..][1..] == pieces[i + 1..];
      Rebracket(ctx.fed, pieces[i], Flat(pieces[i + 1..]));
      ctx.Update(pieces[i]);
    }
    assert pieces[|pieces|..] == [] && ctx.fed + [] == ctx.fed;
    digest := ctx.Final();
    CountedLength(pieces);
    if forall p <- pieces :: |p| < TWO32 {
      NothingLeftOut(pieces);
    }
  }

  lemma {:induction false} CountedLength(pieces: seq<seq<byte>>)
    ensures |Flat(pieces)| == Counted(pieces) + TWO32 * LeftOut(pieces)
  {
    if pieces != [] {
      CountedLength(pieces[1..]);
      assert |pieces[0]| == |pieces[0]| % TWO32 + TWO32 * (|pieces[0]| / TWO32);
    }
  }

  lemma {:induction false} NothingLeftOut(pieces: seq<seq<byte>>)
    requires forall p <- pieces :: |p| < TWO32
    ensures LeftOut(pieces) == 0
  {
    if pieces != [] {
      assert pieces[0] in pieces && forall p <- pieces[1..] :: p in pieces;
      NothingLeftOut(pieces[1..]);
    }
  }

  lemma CountsAgree(c: nat, x: nat)
    ensures 8 * c % TWO64 == 8 * (c + TWO32 * x) % TWO64 <==> x % 0x2000_0000 == 0
  {
    var q, r := x / 0x2000_0000, x % 0x2000_0000;
    assert x == 0x2000_0000 * q + r;
    var b := 8 * TWO32 * r;
    var d, rem := (8 * c + b) / TWO64, (8 * c + b) % TWO64;
    DivMod(8 * (c + TWO32 * x), TWO64, d + q, rem);
    Further(8 * c, b);
  }

  lemma Further(a: nat, b: nat)
    requires b < TWO64
    ensures a % TWO64 == (a + b) % TWO64 <==> b == 0
  {
    var q, r := a / TWO64, a % TWO64;
    if r + b < TWO64 {
      DivMod(a + b, TWO64, q, r + b);
    } else {
      DivMod(a + b, TWO64, q + 1, r + b - TWO64);
    }
  }

  /** MD5 in pieces pads as RFC 1321 says exactly when the octets left out come to a multiple of 2^61. */
  lemma Md5PaddingExact(pieces: seq<seq<byte>>)
    ensures Md5Padded(Flat(pieces), 8 * Counted(pieces)) == Md5Padded(Flat(pieces), 8 * |Flat(pieces)|)
            <==> LeftOut(pieces) % 0x2000_0000 == 0
  {
    CountedLength(pieces);
    CountsAgree(Counted(pieces), LeftOut(pieces));
    SamePadding(Flat(pieces), 8 * Counted(pieces), 8 * |Flat(pieces)|);
  }

  lemma SamePadding(m: seq<byte>, a: nat, b: nat)
    ensures Md5Padded(m, a) == Md5Padded(m, b) <==> a % TWO64 == b % TWO64
  {
    if Md5Padded(m, a) == Md5Padded(m, b) {
      var k := |PadTo56(m)|;
      assert ToLittleEndian(a % TWO64, 8) == Md5Padded(m, a)[k..];
      assert ToLittleEndian(b % TWO64, 8) == Md5Padded(m, b)[k..];
      PowersOf256();
      LittleEndianInjective(a % TWO64, b % TWO64, 8);
    }
  }
}
