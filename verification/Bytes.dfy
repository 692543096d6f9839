/** Octets, machine integers and network byte order: what the C code gets from its types. */
module Bytes {

  type byte = x: int | 0 <= x < 256

  const TWO31 := 0x8000_0000
  const TWO32 := 0x1_0000_0000
  const TWO63 := 0x8000_0000_0000_0000
  const TWO64 := 0x1_0000_0000_0000_0000

  /** A value stored in an `int` of 32 bits. */
  function Int32(n: int): int {
    var low := n % TWO32;
    if low < TWO31 then low else low - TWO32
  }

  /** `mg_send` takes its length as an int: what it appends of the data it is given. */
  function ThroughInt(data: seq<byte>): (r: seq<byte>)
    ensures r <= data
    ensures r == data <==> |data| < TWO31
  {
    var n := Int32(|data|);
    if n < 0 then [] else data[..n]
  }

  /** It is the one number of 32 bits in two's complement that differs from n by a multiple of 2^32. */
  lemma Int32IsWrapped(n: int)
    ensures -TWO31 <= Int32(n) < TWO31 && (n - Int32(n)) % TWO32 == 0
  {}

  /** Of longer data, what the low 32 bits of the length say, or nothing. */
  lemma ThroughIntLength(data: seq<byte>)
    ensures |ThroughInt(data)| == if |data| % TWO32 < TWO31 then |data| % TWO32 else 0
  {}

  function Pow2(n: nat): (p: nat)
    ensures p >= 1
  {
    if n == 0 then 1 else 2 * Pow2(n - 1)
  }

  /** Exclusive or of the low n bits: each bit of the result is the sum of the two bits without carry. */
  function XorBits(a: nat, b: nat, n: nat): (x: nat)
    ensures x < Pow2(n)
  {
    if n == 0 then 0 else 2 * XorBits(a / 2, b / 2, n - 1) + (a + b) % 2
  }

  /** The C operator `^` on two octets. */
  function Xor(a: byte, b: byte): byte {
    EightBits();
    XorBits(a, b, 8)
  }

  lemma EightBits()
    ensures Pow2(8) == 256
  {
    assert Pow2(4) == 16;
  }

  lemma {:induction false} XorBitsTwice(a: nat, m: nat, n: nat)
    requires a < Pow2(n)
    ensures XorBits(XorBits(a, m, n), m, n) == a
  {
    if n > 0 {
      OneBit(a, m, XorBits(a / 2, m / 2, n - 1));
      XorBitsTwice(a / 2, m / 2, n - 1);
    }
  }

  lemma OneBit(a: nat, m: nat, half: nat)
    ensures var x := 2 * half + (a + m) % 2; x / 2 == half && (x + m) % 2 == a % 2
  {
    var x := 2 * half + (a + m) % 2;
    assert a + m == 2 * ((a + m) / 2) + (a + m) % 2;
    assert x + m == a % 2 + 2 * (half + m + a / 2 - (a + m) / 2);
  }

  /** Bit k of n. */
  function Bit(n: nat, k: nat): (b: nat)
    ensures b < 2
  {
    n / Pow2(k) % 2
  }

  lemma BitOfHalf(n: nat, k: nat)
    requires k > 0
    ensures Bit(n, k) == Bit(n / 2, k - 1)
  {
    var p := Pow2(k - 1);
    var q, r := n / 2 / p, n / 2 % p;
    assert n == 2 * (p * q + r) + n % 2;
    assert n == (2 * p) * q + (2 * r + n % 2);
    DivMod(n, 2 * p, q, 2 * r + n % 2);
  }

  lemma {:induction false} BitOfXorBits(a: nat, b: nat, n: nat, k: nat)
    requires k < n
    ensures Bit(XorBits(a, b, n), k) == if Bit(a, k) != Bit(b, k) then 1 else 0
  {
    var half := XorBits(a / 2, b / 2, n - 1);
    var x := XorBits(a, b, n);
    hide Bit;
    if k == 0 {
      LowestBit(a);
      LowestBit(b);
      LowestBit(x);
      LowBit(a, b, half);
    } else {
      hide XorBits;
      BitOfHalf(a, k);
      BitOfHalf(b, k);
      BitOfHalf(x, k);
      BitOfXorBits(a / 2, b / 2, n - 1, k - 1);
      XorHalf(a, b, n);
    }
  }

  lemma LowBit(a: nat, b: nat, half: nat)
    ensures (2 * half + (a + b) % 2) % 2 == if a % 2 != b % 2 then 1 else 0
  {}

  lemma XorHalf(a: nat, b: nat, n: nat)
    requires n > 0
    ensures XorBits(a, b, n) / 2 == XorBits(a / 2, b / 2, n - 1)
  {}

  /** A bit of the exclusive or is set exactly when it is set in one of the two octets and not in the other. */
  lemma XorIsExclusive(a: byte, m: byte, k: nat)
    requires k < 8
    ensures Bit(Xor(a, m), k) == 1 <==> Bit(a, k) != Bit(m, k)
  {
    BitOfXorBits(a, m, 8, k);
  }

  /** Adding a power of two that is not in n sets its bit and no other. */
  lemma {:induction false} SetBit(n: nat, k: nat, j: nat)
    requires Bit(n, k) == 0
    ensures Bit(n + Pow2(k), j) == if j == k then 1 else Bit(n, j)
    decreases k
  {
    hide Bit;
    var m := n + Pow2(k);
    LowestBit(n);
    LowestBit(m);
    if j > 0 {
      BitOfHalf(n, j);
      BitOfHalf(m, j);
    }
    if k > 0 {
      HalfOfSum(n, Pow2(k - 1));
      BitOfHalf(n, k);
      if j > 0 {
        SetBit(n / 2, k - 1, j - 1);
      }
    }
  }

  lemma LowestBit(n: nat)
    ensures Bit(n, 0) == n % 2
  {}

  lemma HalfOfSum(n: nat, p: nat)
    ensures (n + 2 * p) / 2 == n / 2 + p && (n + 2 * p) % 2 == n % 2
  {}

  lemma XorTwice(a: byte, m: byte)
    ensures Xor(Xor(a, m), m) == a
  {
    EightBits();
    XorBitsTwice(a, m, 8);
  }

  // ---- Network byte order ----

  /** Two octets as a 16-bit number. */
  function U16(high: byte, low: byte): (n: nat)
    ensures n < 0x1_0000
  {
    (high as int) * 256 + low as int
  }

  lemma U16Halves(high: byte, low: byte)
    ensures U16(high, low) / 256 == high && U16(high, low) % 256 == low
  {}

  lemma U16Of(n: nat)
    requires n < 0x1_0000
    ensures U16(n / 256 % 256, n % 256) == n && n / 256 < 256
  {}

  /** 256 to the power n. */
  function Pow256(n: nat): (p: nat)
    ensures p >= 1
  {
    if n == 0 then 1 else 256 * Pow256(n - 1)
  }

  /** The number that the octets of s denote, most significant first (`ntohs`, `ntohl`). */
  function BigEndian(s: seq<byte>): (n: nat)
    ensures n < Pow256(|s|)
  {
    if s == [] then 0 else 256 * BigEndian(s[..|s| - 1]) + s[|s| - 1]
  }

  /** The low `width` octets of n, most significant first (`htons`, `htonl`). */
  function ToBigEndian(n: nat, width: nat): (s: seq<byte>)
    ensures |s| == width
  {
    if width == 0 then [] else ToBigEndian(n / 256, width - 1) + [n % 256]
  }

  /** Octet i from the front has the weight 256 to the power of those behind it. */
  lemma {:induction false} OctetOfBigEndian(n: nat, width: nat, i: nat)
    requires i < width
    ensures ToBigEndian(n, width)[i] == n / Pow256(width - 1 - i) % 256
  {
    if i < width - 1 {
      OctetOfBigEndian(n / 256, width - 1, i);
      DivTwice(n, Pow256(width - 2 - i));
    }
  }

  lemma DivTwice(n: nat, p: nat)
    requires p > 0
    ensures n / 256 / p == n / (256 * p)
  {
    var q, r := n / 256 / p, n / 256 % p;
    assert n == 256 * (p * q + r) + n % 256;
    assert n == (256 * p) * q + (256 * r + n % 256);
    DivMod(n, 256 * p, q, 256 * r + n % 256);
  }

  lemma {:induction false} BigEndianRoundTrip(n: nat, width: nat)
    requires n < Pow256(width)
    ensures BigEndian(ToBigEndian(n, width)) == n
  {
    if width > 0 {
      BigEndianRoundTrip(n / 256, width - 1);
      var s := ToBigEndian(n, width);
      assert s[..|s| - 1] == ToBigEndian(n / 256, width - 1);
    }
  }

  lemma BigEndian2(a: byte, b: byte)
    ensures BigEndian([a, b]) == 256 * a + b
  {
    assert [a, b][..1] == [a];
    assert [a][..0] == [];
  }

  lemma PowersOf256()
    ensures Pow256(1) == 256 && Pow256(2) == 0x1_0000 && Pow256(4) == TWO32 && Pow256(8) == TWO64
  {
    assert Pow256(3) == 0x100_0000;
    assert Pow256(5) == 256 * TWO32;
    assert Pow256(6) == 0x1_0000 * TWO32;
    assert Pow256(7) == 0x100_0000 * TWO32;
  }

  /** There is one quotient and one remainder. */
  lemma DivMod(n: int, d: int, q: int, r: int)
    requires 0 <= r < d && n == d * q + r
    ensures n / d == q && n % d == r
  {
    var e := q - n / d;
    assert d * q - d * (n / d) == d * e;
    Outgrows(d, e);
  }

  lemma Outgrows(d: int, e: int)
    requires d > 0
    ensures (e >= 1 ==> d * e >= d) && (e <= -1 ==> d * e <= -d)
  {}

  /** p is a beginning of s that stops before its end. */
  predicate StrictPrefix<T(==)>(p: seq<T>, s: seq<T>) {
    p <= s && |p| < |s|
  }

  /** A slice of a slice. */
  lemma SliceAgain<T>(s: seq<T>, lo: nat, hi: nat, i: nat, j: nat)
    requires lo <= hi <= |s| && i <= j && lo + j <= hi
    ensures s[lo..hi][i..j] == s[lo + i..lo + j]
  {
    forall k | 0 <= k < j - i
      ensures s[lo..hi][i..j][k] == s[lo + i..lo + j][k]
    {
      assert s[lo..hi][i..j][k] == s[lo..hi][i + k];
    }
  }

  /** A slice of what is left. */
  lemma SliceBehind<T>(s: seq<T>, a: nat, n: nat)
    requires a + n <= |s|
    ensures s[a..][..n] == s[a..a + n] && s[a..][n..] == s[a + n..]
  {}

  lemma Rebracket<T>(a: seq<T>, b: seq<T>, c: seq<T>)
    ensures a + (b + c) == (a + b) + c
  {}

  lemma ThreeParts<T>(s: seq<T>, a: nat, b: nat)
    requires a <= b <= |s|
    ensures s == s[..a] + s[a..b] + s[b..]
  {}
}
