/** Characters as the C library's `ctype.h` and `string.h` see them, and the few shared text routines. */
module Chars {
  import opened Bytes

  const SLASH: byte := 47
  const DOT: byte := 46

  datatype Option<T> = None | Some(value: T) {
    function OrEmpty(empty: T): T {
      if Some? then value else empty
    }
  }

  predicate IsDigit(c: byte) {
    48 <= c <= 57
  }

  predicate IsHexDigit(c: byte) {
    IsDigit(c) || 65 <= c <= 70 || 97 <= c <= 102
  }

  function Lower(c: byte): byte {
    if 65 <= c <= 90 then c + 32 else c
  }

  /** Two characters are the same without regard to case exactly when they are, or are one letter in both cases. */
  lemma SameLetter(a: byte, b: byte)
    ensures Lower(a) == Lower(b)
            <==> a == b || (65 <= a <= 90 && b == a + 32) || (65 <= b <= 90 && a == b + 32)
  {}

  function HexValue(c: byte): (v: nat)
    requires IsHexDigit(c)
    ensures v < 16
  {
    if IsDigit(c) then c - 48 else Lower(c) - 87
  }

  function HexDigit(v: nat, upper: bool): (c: byte)
    requires v < 16
    ensures IsHexDigit(c) && HexValue(c) == v
  {
    if v < 10 then 48 + v else if upper then 55 + v else 87 + v
  }

  /** The digits 0 to 9, A to F and a to f. */
  lemma HexDigits(v: nat)
    requires v < 16
    ensures HexDigit(v, true) == [48, 49, 50, 51, 52, 53, 54, 55, 56, 57, 65, 66, 67, 68, 69, 70][v]
    ensures HexDigit(v, false) == [48, 49, 50, 51, 52, 53, 54, 55, 56, 57, 97, 98, 99, 100, 101, 102][v]
  {}

  /** Where c is first found in s, or the length of s. */
  function FirstOf(s: seq<byte>, c: byte): (k: nat)
    ensures k <= |s| && c !in s[..k] && (k < |s| ==> s[k] == c)
  {
    if s == [] || s[0] == c then 0 else 1 + FirstOf(s[1..], c)
  }

  lemma {:induction false} FirstOfAt(plain: seq<byte>, later: seq<byte>, c: byte)
    requires c !in plain && (later == [] || later[0] == c)
    ensures FirstOf(plain + later, c) == |plain|
  {
    if plain == [] {
      assert plain + later == later;
    } else {
      assert (plain + later)[1..] == plain[1..] + later;
      FirstOfAt(plain[1..], later, c);
    }
  }

  /** `mg_vcmp(&c, literal) == 0`: the difference of the lengths is taken in an int. */
  predicate Vcmp(c: seq<byte>, literal: seq<byte>) {
    (if |c| < |literal| then c == literal[..|c|] else c[..|literal|] == literal) && Int32(|c| - |literal|) == 0
  }

  lemma VcmpExact(c: seq<byte>, literal: seq<byte>)
    requires |c| < TWO32 && |literal| < TWO31
    ensures Vcmp(c, literal) <==> c == literal
  {
    if |c| >= |literal| {
      assert c[..|literal|] == c <==> |c| == |literal|;
    }
  }

  /** `memchr` and `mg_strchr`. */
  method Search(s: seq<byte>, c: byte) returns (k: nat)
    ensures k == FirstOf(s, c)
  {
    k := 0;
    while k < |s| && s[k] != c
      invariant k <= |s| && k + FirstOf(s[k..], c) == FirstOf(s, c)
    {
      assert s[k..][1..] == s[k + 1..];
      k := k + 1;
    }
  }
}
