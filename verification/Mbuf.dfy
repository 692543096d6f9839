/** The growable buffer on which every protocol of the library works. */
module Buffers {
  import opened Bytes

  /** The C library's `memmove` inside one block. */
  method MemMove(a: array<byte>, dst: nat, src: nat, n: nat)
    requires dst + n <= a.Length && src + n <= a.Length
    modifies a
    ensures a[..] == old(a[..])[..dst] + old(a[..])[src..src + n] + old(a[..])[dst + n..]
  {
    forall i | 0 <= i < n {
      a[dst + i] := a[src + i];
    }
  }

  /** The C library's `memcpy` from elsewhere into a block. */
  method MemCopy(a: array<byte>, dst: nat, data: seq<byte>)
    requires dst + |data| <= a.Length
    modifies a
    ensures a[..] == old(a[..])[..dst] + data + old(a[..])[dst + |data|..]
  {
    forall i | 0 <= i < |data| {
      a[dst + i] := data[i];
    }
  }

  const MAX_HEADROOM := 8192 // BUFSIZ of the GNU C library; 1024 where there is no BUFSIZ

  /** The block asked for when min octets no longer fit: half as much again, but no more than the headroom. */
  function Grown(min: nat): (size: nat)
    ensures min <= size <= min + 8192 && (min <= 0x4000 ==> size == min + min / 2)
  {
    if min * 3 / 2 - min > MAX_HEADROOM then min + MAX_HEADROOM else min * 3 / 2
  }

  /** The size of the block when n octets are to be put behind len: with headroom, without, or as it was. */
  function SizeFor(size: nat, len: nat, n: nat, avail: nat): nat {
    if len + n <= size then size
    else if Grown(len + n) <= avail then Grown(len + n)
    else if len + n <= avail then len + n
    else size
  }

  class Mbuf {
    var buf: array<byte> // its length is the field `size`
    var len: nat

    ghost predicate Valid()
      reads this
    {
      len <= buf.Length
    }

    ghost function Contents(): seq<byte>
      requires Valid()
      reads this, buf
    {
      buf[..len]
    }

    constructor (initialSize: nat)
      ensures Valid() && fresh(buf) && buf.Length == initialSize && Contents() == []
    {
      buf := new byte[initialSize](_ => 0);
      len := 0;
    }

    /** `avail` is the largest block the allocator can hand out. */
    method Resize(newSize: nat, avail: nat)
      requires Valid()
      modifies this
      ensures Valid() && Contents() == old(Contents()) && (fresh(buf) || buf == old(buf))
      ensures buf.Length == if old(len) <= newSize <= avail then newSize else old(buf.Length)
    {
      if newSize > buf.Length || (newSize < buf.Length && newSize >= len) {
        if newSize <= avail {
          Reallocate(newSize);
        }
      }
    }

    method Reallocate(newSize: nat)
      requires Valid() && len <= newSize
      modifies this`buf
      ensures Valid() && Contents() == old(Contents()) && fresh(buf) && buf.Length == newSize
    {
      var b := new byte[newSize](_ => 0);
      forall i | 0 <= i < len {
        b[i] := buf[i];
      }
      buf := b;
    }

    method Trim(avail: nat)
      requires Valid()
      modifies this
      ensures Valid() && Contents() == old(Contents()) && (fresh(buf) || buf == old(buf))
      ensures buf.Length == if old(len) <= avail then len else old(buf.Length)
    {
      Resize(len, avail);
    }

    /** Returns the number of octets inserted, 0 when memory runs out. */
    method Insert(off: nat, data: seq<byte>, avail: nat) returns (n: nat)
      requires Valid() && off <= len
      modifies this, buf
      ensures Valid() && (fresh(buf) || buf == old(buf))
      ensures n == if old(len + |data| <= buf.Length || len + |data| <= avail) then |data| else 0
      ensures Contents() == if n == |data| then old(Contents()[..off]) + data + old(Contents()[off..])
                            else old(Contents())
      ensures buf.Length == old(SizeFor(buf.Length, len, |data|, avail))
    {
      var ok := MakeRoom(|data|, avail);
      if ok {
        ghost var was := buf[..];
        assert was[..off] == Contents()[..off] && was[off..len] == Contents()[off..];
        OpenAndFill(off, data);
        assert buf[..len] == buf[..][..len];
      }
      n := if ok then |data| else 0;
    }

    /** Room for n more octets, in a larger block if need be, with headroom if there is memory for it. */
    method MakeRoom(n: nat, avail: nat) returns (ok: bool)
      requires Valid()
      modifies this`buf
      ensures Valid() && Contents() == old(Contents()) && (fresh(buf) || buf == old(buf))
      ensures ok == old(len + n <= buf.Length || len + n <= avail) && (ok ==> len + n <= buf.Length)
      ensures buf.Length == old(SizeFor(buf.Length, len, n, avail))
    {
      if len + n <= buf.Length {
        return true;
      }
      var minSize := len + n;
      var newSize := minSize * 3 / 2;
      if newSize - minSize > MAX_HEADROOM {
        newSize := minSize + MAX_HEADROOM;
      }
      if newSize > avail {
        newSize := minSize;
      }
      ok := newSize <= avail;
      if ok {
        Reallocate(newSize);
      }
    }

    /** Moves what is behind off out of the way and puts the data there. */
    method OpenAndFill(off: nat, data: seq<byte>)
      requires off <= len && len + |data| <= buf.Length
      modifies this`len, buf
      ensures len == old(len) + |data| && len <= buf.Length
      ensures buf[..][..len] == old(buf[..])[..off] + data + old(buf[..])[off..old(len)]
    {
      ghost var was, n := buf[..], len;
      MemMove(buf, off + |data|, off, len - off);
      assert buf[..] == was[..off + |data|] + was[off..n] + was[n + |data|..];
      ghost var moved := buf[..];
      MemCopy(buf, off, data);
      ghost var now := buf[..];
      len := len + |data|;
      assert buf[..] == now;
      Filled(was, moved, now, off, data, n);
    }

    lemma Filled(was: seq<byte>, moved: seq<byte>, now: seq<byte>, off: nat, data: seq<byte>, len: nat)
      requires off <= len && len + |data| <= |was|
      requires moved == was[..off + |data|] + was[off..len] + was[len + |data|..]
      requires now == moved[..off] + data + moved[off + |data|..]
      ensures |now| == |was| && now[..len + |data|] == was[..off] + data + was[off..len]
    {
      assert moved[..off] == was[..off];
      assert moved[off + |data|..] == was[off..len] + was[len + |data|..];
      Rebracket(was[..off] + data, was[off..len], was[len + |data|..]);
      assert |was[..off] + data + was[off..len]| == len + |data|;
    }

    /** Returns the number of octets appended, 0 when memory runs out. */
    method Append(data: seq<byte>, avail: nat) returns (n: nat)
      requires Valid()
      modifies this, buf
      ensures Valid() && (fresh(buf) || buf == old(buf))
      ensures n == if old(len + |data| <= buf.Length || len + |data| <= avail) then |data| else 0
      ensures Contents() == if n == |data| then old(Contents()) + data else old(Contents())
      ensures buf.Length == old(SizeFor(buf.Length, len, |data|, avail))
    {
      n := Insert(len, data, avail);
    }

    /** `Append` when memory suffices. */
    method Add(data: seq<byte>)
      requires Valid()
      modifies this, buf
      ensures Valid() && (fresh(buf) || buf == old(buf))
      ensures Contents() == old(Contents()) + data
    {
      var _ := Append(data, len + |data|);
    }

    /** `mbuf_append` without data: room for n octets, to be written by the caller. */
    method Extend(n: nat, avail: nat) returns (added: nat)
      requires Valid()
      modifies this
      ensures Valid() && (fresh(buf) || buf == old(buf))
      ensures added == if old(len + n <= buf.Length || len + n <= avail) then n else 0
      ensures len == old(len) + added && buf[..old(len)] == old(Contents())
    {
      var ok := MakeRoom(n, avail);
      added := if ok then n else 0;
      len := len + added;
    }

    /** Drops the first n octets; asks for more than there are are ignored. */
    method Remove(n: nat)
      requires Valid()
      modifies this, buf
      ensures Valid() && buf == old(buf)
      ensures Contents() == if n <= old(len) then old(Contents())[n..] else old(Contents())
    {
      if n > 0 && n <= len {
        MemMove(buf, 0, n, len - n);
        len := len - n;
      }
    }

    /** Takes out the octets from `from` up to `upTo`: a memmove of the tail over them. */
    method CloseGap(from: nat, upTo: nat)
      requires Valid() && from <= upTo <= len
      modifies this`len, buf
      ensures Valid() && Contents() == old(Contents()[..from]) + old(Contents()[upTo..])
    {
      ghost var was := Contents();
      MemMove(buf, from, upTo, len - upTo);
      len := len - (upTo - from);
      assert Contents() == was[..from] + was[upTo..];
    }
  }

  /** `mg_send`, which does not say when memory runs out. */
  method Send(out: Mbuf, data: seq<byte>, avail: nat)
    requires out.Valid()
    modifies out, out.buf
    ensures out.Valid() && (fresh(out.buf) || out.buf == old(out.buf))
    ensures var size := old(out.len) + |ThroughInt(data)|;
            var fits := size <= old(out.buf.Length) || size <= avail;
            out.Contents() == if fits then old(out.Contents()) + ThroughInt(data) else old(out.Contents())
  {
    var n := Int32(|data|);
    if n >= 0 {
      var _ := out.Append(data[..n], avail);
    }
  }

  /** `Send` when memory suffices. */
  method Queue(out: Mbuf, data: seq<byte>)
    requires out.Valid()
    modifies out, out.buf
    ensures out.Valid() && (fresh(out.buf) || out.buf == old(out.buf))
    ensures out.Contents() == old(out.Contents()) + ThroughInt(data)
  {
    Send(out, data, out.len + |data|);
  }
}
