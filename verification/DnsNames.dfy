/** Writing DNS names into a buffer and reading them out of a packet. */
module DnsNames {
  import opened Bytes
  import opened Chars
  import opened Buffers
  import opened DnsSpec

  /** `mg_dns_encode_name_s`: the number of octets appended, or none when a label is too long. */
  method AppendName(io: Mbuf, name: seq<byte>) returns (ok: bool, n: nat)
    requires io.Valid()
    modifies io, io.buf
    ensures io.Valid() && (fresh(io.buf) || io.buf == old(io.buf))
    ensures var e := EncodeName(name);
            ok == e.ok && io.Contents() == old(io.Contents()) + e.bytes && (ok ==> n == |e.bytes|)
  {
    hide FirstOf;
    ghost var before, goal := io.Contents(), EncodeName(name);
    var pos, rest, more := io.len, name, true;
    while more
      invariant io.Valid() && (fresh(io.buf) || io.buf == old(io.buf)) && io.len >= pos
      invariant more ==> io.Contents() + EncodeName(rest).bytes == before + goal.bytes && EncodeName(rest).ok == goal.ok
      invariant !more ==> io.Contents() + [0] == before + goal.bytes && goal.ok
      decreases more, |rest|
    {
      var k := Search(rest, DOT);
      if k > 127 {
        assert io.Contents() + [] == io.Contents();
        return false, 0;
      }
      ghost var tail := if k < |rest| then rest[k + 1..] else rest[k..];
      Rebracket(io.Contents(), [k], rest[..k]);
      Rebracket(io.Contents(), [k] + rest[..k], if tail == [] then [0] else EncodeName(tail).bytes);
      io.Add([k]);
      io.Add(rest[..k]);
      rest := if k < |rest| then rest[k + 1..] else rest[k..];
      more := |rest| > 0;
    }
    io.Add([0]);
    return true, io.len - pos;
  }

  /** One label put behind what is in dst, and a dot if there is room for it. */
  method AddLabel(dst: array<byte>, at: nat, lab: seq<byte>) returns (full: bool, end: nat)
    requires at + |lab| <= dst.Length
    modifies dst
    ensures full == (at + |lab| == dst.Length) && end == at + |lab| + if full then 0 else 1
    ensures dst[..end] == old(dst[..at]) + lab + if full then [] else [DOT]
  {
    MemCopy(dst, at, lab);
    end := at + |lab|;
    full := end == dst.Length;
    if !full {
      dst[end] := DOT;
      end := end + 1;
    }
  }

  /** One turn of the expansion. */
  lemma Turn(pkt: seq<byte>, p: nat, hops: nat, dst: seq<byte>, room: nat)
    requires p < |pkt| && hops <= MAX_HOPS && |dst| <= room
    ensures pkt[p] == 0 ==> Uncompress(pkt, p, hops, dst, room) == if dst == [] then [] else dst[..|dst| - 1]
    ensures 0 < pkt[p] && (p + 1 == |pkt| || 63 < pkt[p] < 0xc0) ==> Uncompress(pkt, p, hops, dst, room) == []
    ensures p + 1 < |pkt| && pkt[p] >= 0xc0 ==>
              var off := Offset(pkt[p], pkt[p + 1]);
              Uncompress(pkt, p, hops, dst, room)
              == if off >= |pkt| || hops == MAX_HOPS then [] else Uncompress(pkt, off, hops + 1, dst, room)
    ensures p + 1 < |pkt| && 0 < pkt[p] <= 63 ==>
              var n := if pkt[p] > room - |dst| then room - |dst| else pkt[p];
              Uncompress(pkt, p, hops, dst, room)
              == if p + 1 + n >= |pkt| then []
                 else if n == room - |dst| then dst + pkt[p + 1..p + 1 + n]
                 else Uncompress(pkt, p + 1 + n, hops, dst + pkt[p + 1..p + 1 + n] + [DOT], room)
  {}

  /** `mg_dns_uncompress_name`: expands the name at `start` into dst and returns the length of its text. */
  method UncompressName(pkt: array<byte>, len: nat, start: nat, dst: array<byte>) returns (n: nat)
    requires len <= pkt.Length && pkt != dst
    modifies dst
    ensures n <= dst.Length
    ensures if start >= len then n == 0 else dst[..n] == Uncompress(pkt[..len], start, 0, [], dst.Length)
  {
    hide Offset, Uncompress;
    if start >= len {
      return 0;
    }
    ghost var p := pkt[..len];
    ghost var goal := Uncompress(p, start, 0, [], dst.Length);
    var data: nat, hops: nat, at: nat := start, 0, 0;
    while pkt[data] != 0
      invariant data < len && hops <= MAX_HOPS && at <= dst.Length && pkt[..len] == p
      invariant Uncompress(p, data, hops, dst[..at], dst.Length) == goal
      decreases MAX_HOPS - hops, len - data
    {
      var chunk := pkt[data];
      Turn(p, data, hops, dst[..at], dst.Length);
      var leeway := dst.Length - at;
      data := data + 1;
      if data >= len {
        return 0;
      }
      if chunk >= 0xc0 {
        var off := Offset(chunk, pkt[data]);
        if off >= len {
          return 0;
        }
        hops := hops + 1;
        if hops > MAX_HOPS {
          return 0;
        }
        data := off;
      } else {
        if chunk > 63 {
          return 0;
        }
        if chunk > leeway {
          chunk := leeway;
        }
        if data + chunk >= len {
          return 0;
        }
        var lab := pkt[..len][data..data + chunk];
        data := data + chunk;
        var full: bool;
        full, at := AddLabel(dst, at, lab);
        if full {
          return at;
        }
      }
    }
    Turn(p, data, hops, dst[..at], dst.Length);
    if at > 0 {
      at := at - 1;
      dst[at] := 0;
    }
    return at;
  }
}
