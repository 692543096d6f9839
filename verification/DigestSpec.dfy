/** SHA-1 and MD5 around their block transform: blocks, padding and lengths. */
module DigestSpec {
  import opened Bytes

  /** The block transform, left open: the chaining words and 64 octets give the next chaining words. */
  type Transform = (seq<nat>, seq<byte>) -> seq<nat>

  /** Runs the transform over the whole blocks of data; what is left over is not touched. */
  function Absorb(f: Transform, state: seq<nat>, data: seq<byte>): seq<nat>
    decreases |data|
  {
    if |data| < 64 then state else Absorb(f, f(state, data[..64]), data[64..])
  }

  /** The octets after the last whole block. */
  function Rest(data: seq<byte>): (r: seq<byte>)
    ensures |r| == |data| % 64 && r == data[|data| - |r|..]
  {
    data[|data| - |data| % 64..]
  }

  /** Absorbing in two goes, keeping what is left over in between, is absorbing in one. */
  lemma {:induction false} AbsorbSplit(f: Transform, state: seq<nat>, a: seq<byte>, b: seq<byte>)
    ensures Absorb(f, state, a + b) == Absorb(f, Absorb(f, state, a), Rest(a) + b)
    ensures Rest(a + b) == Rest(Rest(a) + b)
    decreases |a|
  {
    if |a| < 64 {
      assert Rest(a) == a;
    } else {
      assert (a + b)[..64] == a[..64] && (a + b)[64..] == a[64..] + b;
      RestOfTail(a);
      RestOfTail(a + b);
      hide Rest;
      AbsorbSplit(f, f(state, a[..64]), a[64..], b);
    }
  }

  lemma RestOfTail(a: seq<byte>)
    requires |a| >= 64
    ensures Rest(a[64..]) == Rest(a)
  {
    assert (|a| - 64) % 64 == |a| % 64;
    assert Rest(a[64..]) == a[64..][|a| - 64 - |a| % 64..] == a[|a| - |a| % 64..];
  }

  lemma AbsorbBlock(f: Transform, state: seq<nat>, block: seq<byte>, data: seq<byte>)
    requires |block| == 64
    ensures Absorb(f, state, block + data) == Absorb(f, f(state, block), data)
    ensures Rest(block + data) == Rest(data)
  {
    assert (block + data)[..64] == block && (block + data)[64..] == data;
    RestOfTail(block + data);
  }

  function Zeros(n: nat): (s: seq<byte>)
    ensures |s| == n && forall i :: 0 <= i < n ==> s[i] == 0
  {
    seq(n, _ => 0)
  }

  /** The least number of zero octets that brings n octets and the 0x80 to 56 octets modulo 64. */
  function ZerosFor(n: nat): (k: nat)
    ensures k < 64 && (n + 1 + k) % 64 == 56
  {
    (55 - n % 64) % 64
  }

  lemma ZerosForIsLeast(n: nat, j: nat)
    requires (n + 1 + j) % 64 == 56
    ensures ZerosFor(n) <= j
  {}

  /** Padding common to section 5.1.1 of FIPS 180-4 and section 3.1 of RFC 1321, before the length. */
  function PadTo56(m: seq<byte>): (p: seq<byte>)
    ensures |p| % 64 == 56
  {
    m + [0x80] + Zeros(ZerosFor(|m|))
  }

  /** Section 5.1.1 of FIPS 180-4: the bit length in 64 bits, most significant octet first. */
  function Sha1Padded(m: seq<byte>): seq<byte> {
    PadTo56(m) + ToBigEndian(8 * |m| % TWO64, 8)
  }

  /** Octets, least significant first. */
  function ToLittleEndian(n: nat, width: nat): (s: seq<byte>)
    ensures |s| == width
  {
    if width == 0 then [] else [n % 256] + ToLittleEndian(n / 256, width - 1)
  }

  /** Sections 3.1 and 3.2 of RFC 1321: the bit length in 64 bits, least significant octet first. */
  function Md5Padded(m: seq<byte>, bitLength: nat): seq<byte> {
    PadTo56(m) + ToLittleEndian(bitLength % TWO64, 8)
  }

  /** The padded message is whole blocks. */
  lemma PaddedFillsBlocks(m: seq<byte>, bitLength: nat)
    ensures |Sha1Padded(m)| % 64 == 0 && |Md5Padded(m, bitLength)| % 64 == 0
  {
    hide ToBigEndian, ToLittleEndian, PadTo56;
    OneMoreWord(|PadTo56(m)|);
  }

  lemma OneMoreWord(n: nat)
    requires n % 64 == 56
    ensures (n + 8) % 64 == 0
  {}

  function WordsBigEndian(words: seq<nat>): seq<byte> {
    if words == [] then [] else ToBigEndian(words[0], 4) + WordsBigEndian(words[1..])
  }

  function WordsLittleEndian(words: seq<nat>): seq<byte> {
    if words == [] then [] else ToLittleEndian(words[0], 4) + WordsLittleEndian(words[1..])
  }

  const SHA1_INIT := [0x67452301, 0xEFCDAB89, 0x98BADCFE, 0x10325476, 0xC3D2E1F0]
  const MD5_INIT := [0x67452301, 0xefcdab89, 0x98badcfe, 0x10325476]

  /** The digests, whatever the transform. */
  function Sha1(f: Transform, m: seq<byte>): seq<byte> {
    WordsBigEndian(Absorb(f, SHA1_INIT, Sha1Padded(m)))
  }

  function Md5(f: Transform, m: seq<byte>): seq<byte> {
    WordsLittleEndian(Absorb(f, MD5_INIT, Md5Padded(m, 8 * |m|)))
  }

  /** The bit count in two 32-bit words after `len` more octets. */
  function AddLength(low: nat, high: nat, len: nat): (nat, nat) {
    var newLow := (low + 8 * len % TWO32) % TWO32;
    var carried := if newLow < low then (high + 1) % TWO32 else high;
    (newLow, (carried + len / 0x2000_0000) % TWO32)
  }

  /** It counts bits modulo 2^64. */
  lemma AddLengthCounts(low: nat, high: nat, len: nat)
    requires low < TWO32 && high < TWO32 && len < TWO32
    ensures var (l, h) := AddLength(low, high, len);
            l < TWO32 && h < TWO32 && l + TWO32 * h == (low + TWO32 * high + 8 * len) % TWO64
  {
    var (l, h) := AddLength(low, high, len);
    var carry := if l < low then 1 else 0;
    var over := len / 0x2000_0000;
    var top := high + carry + over;
    Carries(low, 8 * len % TWO32);
    DivMod(8 * len, TWO32, over, 8 * (len % 0x2000_0000));
    assert h == top % TWO32 by {
      if high + carry == TWO32 {
        Around(over);
      }
    }
    assert low + TWO32 * high + 8 * len == l + TWO32 * top;
    HighWord(l, top);
  }

  /** Addition in 32 bits carries when the sum is less than what was added to. */
  lemma Carries(x: nat, y: nat)
    requires x < TWO32 && y < TWO32
    ensures var s := (x + y) % TWO32; s < TWO32 && x + y == s + if s < x then TWO32 else 0
  {}

  lemma Around(n: nat)
    ensures (TWO32 + n) % TWO32 == n % TWO32
  {}

  lemma HighWord(l: nat, top: nat)
    requires l < TWO32
    ensures (l + TWO32 * top) % TWO64 == l + TWO32 * (top % TWO32)
  {
    assert l + TWO32 * top == (l + TWO32 * (top % TWO32)) + TWO64 * (top / TWO32);
  }

  /** The position in the block follows from the low word. */
  lemma BlockPosition(low: nat, high: nat, n: nat)
    requires low < TWO32 && high < TWO32 && low + TWO32 * high == 8 * n % TWO64
    ensures low / 8 % 64 == n % 64
  {
    var q := 8 * n / TWO64;
    assert 8 * n == low + TWO32 * high + TWO64 * q;
    var blocks := 0x80_0000 * high + 0x80_0000 * TWO32 * q;
    var m := n - 64 * blocks;
    assert low == 8 * m;
    DivMod(low, 8, m, 0);
    DivMod(m, 64, n / 64 - blocks, n % 64);
  }

  lemma BitsAdd(a: nat, b: nat)
    ensures (8 * a % TWO64 + 8 * b) % TWO64 == 8 * (a + b) % TWO64
  {
    assert 8 * a == TWO64 * (8 * a / TWO64) + 8 * a % TWO64;
  }

  lemma BigEndian4(n: nat)
    ensures ToBigEndian(n, 4) == [n / 0x100_0000 % 256, n / 0x1_0000 % 256, n / 256 % 256, n % 256]
  {
    assert n / 256 / 256 == n / 0x1_0000 && n / 256 / 256 / 256 == n / 0x100_0000;
    assert ToBigEndian(n / 0x100_0000, 1) == [n / 0x100_0000 % 256];
    assert ToBigEndian(n / 0x1_0000, 2) == [n / 0x100_0000 % 256, n / 0x1_0000 % 256];
  }

  /** A 64-bit number is its high word and its low word. */
  lemma BigEndianWords(low: nat, high: nat)
    requires low < TWO32
    ensures ToBigEndian(low + TWO32 * high, 8) == ToBigEndian(high, 4) + ToBigEndian(low, 4)
  {
    BigEndianShift(low, high, 4);
    PowersOf256();
  }

  lemma Regroup(p: nat, high: nat)
    ensures (256 * p) * high == 256 * (p * high)
  {}

  lemma DropOctet(low: nat, k: nat)
    ensures (low + 256 * k) / 256 == low / 256 + k && (low + 256 * k) % 256 == low % 256
  {}

  lemma {:induction false} BigEndianShift(low: nat, high: nat, w: nat)
    requires low < Pow256(w)
    ensures ToBigEndian(low + Pow256(w) * high, w + 4) == ToBigEndian(high, 4) + ToBigEndian(low, w)
  {
    hide ToBigEndian;
    var n := low + Pow256(w) * high;
    BigEndianParts(n, w + 4);
    BigEndianParts(low, w);
    if w == 0 {
      assert ToBigEndian(high, 4) + [] == ToBigEndian(high, 4);
    } else {
      var k := Pow256(w - 1) * high;
      assert n == low + 256 * k by { Regroup(Pow256(w - 1), high); }
      DropOctet(low, k);
      BigEndianShift(low / 256, high, w - 1);
      Rebracket(ToBigEndian(high, 4), ToBigEndian(low / 256, w - 1), [low % 256]);
    }
  }

  lemma BigEndianParts(n: nat, w: nat)
    ensures ToBigEndian(n, w) == if w == 0 then [] else ToBigEndian(n / 256, w - 1) + [n % 256]
  {}

  lemma {:induction false} LittleEndianShift(low: nat, high: nat, w: nat)
    requires low < Pow256(w)
    ensures ToLittleEndian(low + Pow256(w) * high, w + 4) == ToLittleEndian(low, w) + ToLittleEndian(high, 4)
  {
    hide ToLittleEndian;
    var n := low + Pow256(w) * high;
    LittleEndianParts(n, w + 4);
    LittleEndianParts(low, w);
    if w == 0 {
      assert [] + ToLittleEndian(high, 4) == ToLittleEndian(high, 4);
    } else {
      var k := Pow256(w - 1) * high;
      assert n == low + 256 * k by { Regroup(Pow256(w - 1), high); }
      DropOctet(low, k);
      LittleEndianShift(low / 256, high, w - 1);
      Rebracket([low % 256], ToLittleEndian(low / 256, w - 1), ToLittleEndian(high, 4));
    }
  }

  lemma LittleEndianParts(n: nat, w: nat)
    ensures ToLittleEndian(n, w) == if w == 0 then [] else [n % 256] + ToLittleEndian(n / 256, w - 1)
  {}

  lemma LittleEndianWords(low: nat, high: nat)
    requires low < TWO32
    ensures ToLittleEndian(low + TWO32 * high, 8) == ToLittleEndian(low, 4) + ToLittleEndian(high, 4)
  {
    LittleEndianShift(low, high, 4);
    PowersOf256();
  }

  lemma ZerosSnoc(n: nat)
    ensures Zeros(n) + [0] == Zeros(n + 1)
  {}

  /** What absorbing the end of a padded message does to the state and the buffer of the message. */
  lemma AbsorbEnd(f: Transform, state: seq<nat>, m: seq<byte>, end: seq<byte>)
    ensures Absorb(f, state, m + end) == Absorb(f, Absorb(f, state, m), Rest(m) + end)
  {
    AbsorbSplit(f, state, m, end);
  }

  lemma {:induction false} LittleEndianInjective(a: nat, b: nat, width: nat)
    requires a < Pow256(width) && b < Pow256(width) && ToLittleEndian(a, width) == ToLittleEndian(b, width)
    ensures a == b
  {
    if width > 0 {
      assert ToLittleEndian(a, width)[0] == ToLittleEndian(b, width)[0];
      assert ToLittleEndian(a / 256, width - 1) == ToLittleEndian(a, width)[1..];
      assert ToLittleEndian(b / 256, width - 1) == ToLittleEndian(b, width)[1..];
      LittleEndianInjective(a / 256, b / 256, width - 1);
    }
  }

  /** One whole block of the data from i on. */
  lemma OneBlock(f: Transform, state: seq<nat>, data: seq<byte>, i: nat)
    requires i + 64 <= |data|
    ensures Absorb(f, state, data[i..]) == Absorb(f, f(state, data[i..i + 64]), data[i + 64..])
    ensures Rest(data[i..]) == Rest(data[i + 64..])
  {
    SliceBehind(data, i, 64);
    RestOfTail(data[i..]);
  }

  lemma NoWholeBlock(f: Transform, state: seq<nat>, data: seq<byte>)
    requires |data| < 64
    ensures Absorb(f, state, data) == state && Rest(data) == data
  {}

  // ---- The digest, octet by octet ----

  lemma {:induction false} WordsLength(words: seq<nat>)
    ensures |WordsBigEndian(words)| == 4 * |words| == |WordsLittleEndian(words)|
  {
    if words != [] {
      WordsLength(words[1..]);
    }
  }

  /** The words of the digest in their order, four octets each. */
  lemma {:induction false} WordAt(words: seq<nat>, i: nat)
    requires i < |words|
    ensures |WordsBigEndian(words)| == 4 * |words| == |WordsLittleEndian(words)|
    ensures WordsBigEndian(words)[4 * i..4 * i + 4] == ToBigEndian(words[i], 4)
    ensures WordsLittleEndian(words)[4 * i..4 * i + 4] == ToLittleEndian(words[i], 4)
  {
    hide ToBigEndian, ToLittleEndian;
    WordsLength(words);
    WordsLength(words[1..]);
    var b, l := WordsBigEndian(words), WordsLittleEndian(words);
    if i > 0 {
      WordAt(words[1..], i - 1);
      assert b[4..] == WordsBigEndian(words[1..]) && l[4..] == WordsLittleEndian(words[1..]);
      SliceAgain(b, 4, |b|, 4 * i - 4, 4 * i);
      SliceAgain(l, 4, |l|, 4 * i - 4, 4 * i);
      assert b[4..|b|] == b[4..] && l[4..|l|] == l[4..];
    }
  }

  /** Octet i from the front has the weight 256 to the power i. */
  lemma {:induction false} OctetOfLittleEndian(n: nat, width: nat, i: nat)
    requires i < width
    ensures ToLittleEndian(n, width)[i] == n / Pow256(i) % 256
  {
    if i > 0 {
      OctetOfLittleEndian(n / 256, width - 1, i - 1);
      DivTwice(n, Pow256(i - 1));
    }
  }

  /** Section 3.3 of RFC 1321 gives the first words low-order octet first; SHA-1 has the same four and a fifth. */
  lemma InitialWords()
    ensures WordsLittleEndian(MD5_INIT) == [0x01, 0x23, 0x45, 0x67, 0x89, 0xab, 0xcd, 0xef,
                                            0xfe, 0xdc, 0xba, 0x98, 0x76, 0x54, 0x32, 0x10]
    ensures SHA1_INIT == MD5_INIT + [0xc3d2e1f0]
  {
    hide ToLittleEndian;
    FirstTwo();
    LastTwo();
    var w := MD5_INIT;
    assert w[1..] == [0xefcdab89, 0x98badcfe, 0x10325476] && w[1..][1..] == [0x98badcfe, 0x10325476];
    assert w[1..][1..][1..] == [0x10325476] && w[1..][1..][1..][1..] == [];
  }

  lemma FirstTwo()
    ensures ToLittleEndian(0x67452301, 4) == [0x01, 0x23, 0x45, 0x67]
    ensures ToLittleEndian(0xefcdab89, 4) == [0x89, 0xab, 0xcd, 0xef]
  {
    hide ToLittleEndian;
    LittleEndian4(0x67452301);
    LittleEndian4(0xefcdab89);
  }

  lemma LastTwo()
    ensures ToLittleEndian(0x98badcfe, 4) == [0xfe, 0xdc, 0xba, 0x98]
    ensures ToLittleEndian(0x10325476, 4) == [0x76, 0x54, 0x32, 0x10]
  {
    hide ToLittleEndian;
    LittleEndian4(0x98badcfe);
    LittleEndian4(0x10325476);
  }

  lemma LittleEndian4(n: nat)
    ensures ToLittleEndian(n, 4) == [n % 256, n / 256 % 256, n / 0x1_0000 % 256, n / 0x100_0000 % 256]
  {
    assert n / 256 / 256 == n / 0x1_0000 && n / 256 / 256 / 256 == n / 0x100_0000;
    assert ToLittleEndian(n / 0x100_0000, 1) == [n / 0x100_0000 % 256];
    assert ToLittleEndian(n / 0x1_0000, 2) == [n / 0x1_0000 % 256, n / 0x100_0000 % 256];
  }
}
