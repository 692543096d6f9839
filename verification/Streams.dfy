/** A stream of packets, and the ways of cutting it. */
module Streams {
  import opened Bytes

  /** All packets, or all received chunks, one after the other. */
  function Flat(parts: seq<seq<byte>>): seq<byte> {
    if parts == [] then [] else parts[0] + Flat(parts[1..])
  }

  lemma {:induction false} FlatSplit(a: seq<seq<byte>>, b: seq<seq<byte>>)
    ensures Flat(a + b) == Flat(a) + Flat(b)
  {
    if a == [] {
      assert a + b == b;
    } else {
      assert (a + b)[1..] == a[1..] + b;
      FlatSplit(a[1..], b);
    }
  }

  /** u is the beginning of the first packet and no more. */
  predicate Incomplete(u: seq<byte>, packets: seq<seq<byte>>) {
    if packets == [] then u == [] else StrictPrefix(u, packets[0])
  }

  /** Any beginning of a stream is some whole packets and an incomplete one. */
  lemma {:induction false} Cut(packets: seq<seq<byte>>, bytes: seq<byte>) returns (k: nat, u: seq<byte>)
    requires bytes <= Flat(packets)
    ensures k <= |packets| && bytes == Flat(packets[..k]) + u && Incomplete(u, packets[k..])
  {
    if packets == [] || StrictPrefix(bytes, packets[0]) {
      k, u := 0, bytes;
    } else {
      var p := packets[0];
      assert bytes == p + bytes[|p|..];
      k, u := Cut(packets[1..], bytes[|p|..]);
      assert packets[..k + 1][1..] == packets[1..][..k];
      k := k + 1;
    }
  }

  /** What is unread when the stream ends is nothing. */
  lemma CutAtEnd(packets: seq<seq<byte>>, k: nat, u: seq<byte>)
    requires k <= |packets| && Flat(packets) == Flat(packets[..k]) + u && Incomplete(u, packets[k..])
    ensures k == |packets| && u == []
  {
    assert packets[..k] + packets[k..] == packets;
    FlatSplit(packets[..k], packets[k..]);
    assert u == Flat(packets[k..]);
  }

  lemma PrefixCancel(a: seq<byte>, x: seq<byte>, b: seq<byte>)
    requires a + x <= a + b
    ensures x <= b
  {
    assert (a + x)[|a|..] == x && (a + b)[|a|..] == b;
  }
}
