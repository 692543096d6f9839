/** DNS names: labels behind their lengths, and compression pointers (sections 3.1 and 4.1.4 of RFC 1035). */
module DnsSpec {
  import opened Bytes
  import opened Chars

  const MAX_HOPS := 15

  // ---- Encoding ----

  /** What is appended, and whether the name was encoded to its end. */
  datatype Encoded = Encoded(bytes: seq<byte>, ok: bool)

  /** `mg_dns_encode_name_s`. */
  function EncodeName(name: seq<byte>): Encoded
    decreases |name|
  {
    var k := FirstOf(name, DOT);
    if k > 127 then Encoded([], false)
    else
      var chunk := [k] + name[..k];
      var rest := name[if k < |name| then k + 1 else k..];
      if rest == [] then Encoded(chunk + [0], true)
      else
        var e := EncodeName(rest);
        Encoded(chunk + e.bytes, e.ok)
  }

  // ---- Decompression, as the code goes about it ----

  function Offset(high: byte, low: byte): nat {
    high % 64 * 256 + low
  }

  /**
   * `mg_dns_uncompress_name` from p on, after `hops` pointers and with `dst` written: the text it leaves, whose
   * length it returns.
   */
  function Uncompress(pkt: seq<byte>, p: nat, hops: nat, dst: seq<byte>, room: nat): (r: seq<byte>)
    requires p < |pkt| && hops <= MAX_HOPS && |dst| <= room
    ensures |r| <= room
    decreases MAX_HOPS - hops, |pkt| - p
  {
    var len := pkt[p];
    if len == 0 then if dst == [] then [] else dst[..|dst| - 1]
    else if p + 1 >= |pkt| then []
    else if len >= 0xc0 then
      var off := Offset(len, pkt[p + 1]);
      if off >= |pkt| || hops + 1 > MAX_HOPS then [] else Uncompress(pkt, off, hops + 1, dst, room)
    else if len > 63 then []
    else
      var leeway := room - |dst|;
      var n := if len > leeway then leeway else len;
      if p + 1 + n >= |pkt| then []
      else
        var dst := dst + pkt[p + 1..p + 1 + n];
        if n == leeway then dst else Uncompress(pkt, p + 1 + n, hops, dst + [DOT], room)
  }

  // ---- What a name is ----

  /** The labels at p, reached over at most `hops` pointers. */
  ghost predicate NameAt(pkt: seq<byte>, p: nat, labels: seq<seq<byte>>, hops: nat)
    decreases |labels|, hops
  {
    && p < |pkt|
    && if pkt[p] == 0 then labels == []
       else if pkt[p] >= 0xc0 then
         p + 1 < |pkt| && hops > 0 && NameAt(pkt, Offset(pkt[p], pkt[p + 1]), labels, hops - 1)
       else
         && pkt[p] <= 63 && p + 1 + pkt[p] < |pkt|
         && labels != [] && labels[0] == pkt[p + 1..p + 1 + pkt[p]]
         && NameAt(pkt, p + 1 + pkt[p], labels[1..], hops)
  }

  ghost predicate NoName(pkt: seq<byte>, p: nat, hops: nat) {
    forall labels :: !NameAt(pkt, p, labels, hops)
  }

  /** Every label with a dot behind it. */
  function Dotted(labels: seq<seq<byte>>): seq<byte> {
    if labels == [] then [] else labels[0] + [DOT] + Dotted(labels[1..])
  }

  /** The labels with dots between them. */
  function NameOf(labels: seq<seq<byte>>): seq<byte> {
    var d := Dotted(labels);
    if d == [] then [] else d[..|d| - 1]
  }

  // ---- Decompression against it ----

  /** A text without its last dot, or as much of it as there is room for. */
  function Shown(text: seq<byte>, room: nat): seq<byte> {
    if |text| > room then text[..room] else if text == [] then [] else text[..|text| - 1]
  }

  lemma FullText(dst: seq<byte>, lab: seq<byte>, more: seq<byte>, room: nat)
    requires |dst| <= room <= |dst + lab|
    ensures Shown(dst + (lab + [DOT] + more), room) == dst + lab[..room - |dst|]
  {
    var text := dst + (lab + [DOT] + more);
    assert text == dst + lab + ([DOT] + more);
    assert text[..room] == (dst + lab)[..room];
  }

  /** A name reached over at most the allowed number of pointers is expanded, as far as there is room. */
  lemma {:induction false} UncompressesName(pkt: seq<byte>, p: nat, hops: nat, dst: seq<byte>, room: nat,
                                            labels: seq<seq<byte>>)
    requires hops <= MAX_HOPS && |dst| <= room && NameAt(pkt, p, labels, MAX_HOPS - hops)
    ensures Uncompress(pkt, p, hops, dst, room) == Shown(dst + Dotted(labels), room)
    decreases MAX_HOPS - hops, |pkt| - p
  {
    var len := pkt[p];
    if len == 0 {
      assert dst + Dotted(labels) == dst;
    } else if len >= 0xc0 {
      hide Shown;
      UncompressesName(pkt, Offset(len, pkt[p + 1]), hops + 1, dst, room, labels);
    } else {
      hide Shown;
      var lab, more := labels[0], Dotted(labels[1..]);
      var leeway := room - |dst|;
      if len < leeway {
        Rebracket(dst, lab, [DOT]);
        Rebracket(dst, lab + [DOT], more);
        UncompressesName(pkt, p + 1 + len, hops, dst + lab + [DOT], room, labels[1..]);
      } else {
        FullText(dst, lab, more, room);
        SliceAgain(pkt, p + 1, p + 1 + len, 0, leeway);
      }
    }
  }

  /** Where no name is, pointer cycles included, nothing is returned, unless room runs out before the fault. */
  lemma {:induction false} NoNameNoText(pkt: seq<byte>, p: nat, hops: nat, dst: seq<byte>, room: nat)
    requires p < |pkt| && hops <= MAX_HOPS && |dst| <= room
    requires NoName(pkt, p, MAX_HOPS - hops)
    ensures var r := Uncompress(pkt, p, hops, dst, room);
            r == [] || |r| == room
    decreases MAX_HOPS - hops, |pkt| - p
  {
    var len := pkt[p];
    if len == 0 {
      assert NameAt(pkt, p, [], MAX_HOPS - hops);
    } else if p + 1 < |pkt| && len >= 0xc0 {
      var off := Offset(len, pkt[p + 1]);
      if off < |pkt| && hops + 1 <= MAX_HOPS {
        NoNameBehindPointer(pkt, p, MAX_HOPS - hops);
        NoNameNoText(pkt, off, hops + 1, dst, room);
      }
    } else if len <= 63 && len < room - |dst| && p + 1 + len < |pkt| {
      var lab := pkt[p + 1..p + 1 + len];
      NoNameBehindLabel(pkt, p, MAX_HOPS - hops);
      NoNameNoText(pkt, p + 1 + len, hops, dst + lab + [DOT], room);
    }
  }

  lemma NoNameBehindPointer(pkt: seq<byte>, p: nat, hops: nat)
    requires p + 1 < |pkt| && pkt[p] >= 0xc0 && hops > 0 && NoName(pkt, p, hops)
    ensures NoName(pkt, Offset(pkt[p], pkt[p + 1]), hops - 1)
  {
    var off, left := Offset(pkt[p], pkt[p + 1]), hops - 1;
    forall labels
      ensures !NameAt(pkt, off, labels, left)
    {
      assert !NameAt(pkt, p, labels, hops);
    }
  }

  lemma NoNameBehindLabel(pkt: seq<byte>, p: nat, hops: nat)
    requires p < |pkt| && 0 < pkt[p] <= 63 && p + 1 + pkt[p] < |pkt| && NoName(pkt, p, hops)
    ensures NoName(pkt, p + 1 + pkt[p], hops)
  {
    var lab := pkt[p + 1..p + 1 + pkt[p]];
    var next := p + 1 + pkt[p];
    forall labels
      ensures !NameAt(pkt, next, labels, hops)
    {
      assert ([lab] + labels)[1..] == labels;
      assert !NameAt(pkt, p, [lab] + labels, hops);
    }
  }

  /** A pointer to itself is no name. */
  lemma {:induction false} SelfPointerIsNoName(pkt: seq<byte>, p: nat, labels: seq<seq<byte>>, hops: nat)
    requires p + 1 < |pkt| && pkt[p] >= 0xc0 && Offset(pkt[p], pkt[p + 1]) == p
    ensures !NameAt(pkt, p, labels, hops)
    decreases hops
  {
    if hops > 0 {
      SelfPointerIsNoName(pkt, p, labels, hops - 1);
    }
  }

  // ---- Decompression undoes encoding ----

  /** Labels such as names are made of. */
  ghost predicate Plain(labels: seq<seq<byte>>) {
    labels != [] && forall i :: 0 <= i < |labels| ==> 0 < |labels[i]| <= 127 && DOT !in labels[i]
  }

  /** The labels behind their lengths. */
  function Chunks(labels: seq<seq<byte>>): seq<byte>
    requires forall i :: 0 <= i < |labels| ==> |labels[i]| <= 127
  {
    if labels == [] then [] else [|labels[0]|] + labels[0] + Chunks(labels[1..])
  }

  lemma {:induction false} DottedEnds(labels: seq<seq<byte>>)
    requires labels != []
    ensures Dotted(labels) == NameOf(labels) + [DOT]
  {
    var d := Dotted(labels);
    if |labels| == 1 {
      assert Dotted(labels[1..]) == [];
    } else {
      DottedEnds(labels[1..]);
    }
    assert d[|d| - 1] == DOT;
  }

  lemma NameOfCons(labels: seq<seq<byte>>)
    requires Plain(labels)
    ensures if |labels| == 1 then NameOf(labels) == labels[0]
            else NameOf(labels) == labels[0] + ([DOT] + NameOf(labels[1..])) && NameOf(labels[1..]) != []
  {
    hide NameOf;
    NameParts(labels);
  }

  /** Encoding writes the labels behind their lengths, and a zero. */
  lemma {:induction false} EncodesLabels(labels: seq<seq<byte>>)
    requires Plain(labels)
    ensures EncodeName(NameOf(labels)) == Encoded(Chunks(labels) + [0], true)
    decreases |labels|
  {
    hide NameOf, Chunks, EncodeName;
    var name, lab := NameOf(labels), labels[0];
    NameOfCons(labels);
    ChunksParts(labels);
    if |labels| == 1 {
      LastLabel(lab);
    } else {
      LabelAndMore(lab, NameOf(labels[1..]));
      EncodesLabels(labels[1..]);
      Rebracket([|lab|] + lab, Chunks(labels[1..]), [0]);
    }
  }

  lemma LastLabel(lab: seq<byte>)
    requires |lab| <= 127 && DOT !in lab
    ensures EncodeName(lab) == Encoded([|lab|] + lab + [0], true)
  {
    FirstOfAt(lab, [], DOT);
    assert lab + [] == lab && lab[..|lab|] == lab;
  }

  lemma LabelAndMore(lab: seq<byte>, rest: seq<byte>)
    requires |lab| <= 127 && DOT !in lab && rest != []
    ensures var e := EncodeName(rest);
            EncodeName(lab + ([DOT] + rest)) == Encoded([|lab|] + lab + e.bytes, e.ok)
  {
    var name := lab + ([DOT] + rest);
    FirstOfAt(lab, [DOT] + rest, DOT);
    assert name[..|lab|] == lab && name[|lab| + 1..] == rest;
  }

  lemma ChunksParts(labels: seq<seq<byte>>)
    requires Plain(labels)
    ensures Chunks(labels) == if |labels| == 1 then [|labels[0]|] + labels[0]
                              else [|labels[0]|] + labels[0] + Chunks(labels[1..])
  {}

  /** A label of 128 octets or more stops the encoding, with what was written before it. */
  lemma {:induction false} EncodeStops(labels: seq<seq<byte>>, i: nat)
    requires i < |labels| && |labels[i]| > 127 && forall j :: 0 <= j < |labels| ==> labels[j] != [] && DOT !in labels[j]
    requires forall j :: 0 <= j < i ==> |labels[j]| <= 127
    ensures EncodeName(NameOf(labels)) == Encoded(Chunks(labels[..i]), false)
    decreases |labels|
  {
    hide NameOf;
    var name, lab := NameOf(labels), labels[0];
    NameParts(labels);
    if |labels| == 1 {
      assert lab + [] == lab;
      FirstOfAt(lab, [], DOT);
    } else {
      FirstOfAt(lab, [DOT] + NameOf(labels[1..]), DOT);
      if i > 0 {
        LabelAndMore(lab, NameOf(labels[1..]));
        EncodeStops(labels[1..], i - 1);
        assert labels[..i][1..] == labels[1..][..i - 1];
      }
    }
  }

  lemma NameParts(labels: seq<seq<byte>>)
    requires labels != [] && forall j :: 0 <= j < |labels| ==> labels[j] != []
    ensures if |labels| == 1 then NameOf(labels) == labels[0]
            else NameOf(labels) == labels[0] + ([DOT] + NameOf(labels[1..])) && NameOf(labels[1..]) != []
  {
    var d := Dotted(labels);
    DottedEnds(labels);
    if |labels| == 1 {
      assert Dotted(labels[1..]) == [];
    } else {
      DottedEnds(labels[1..]);
      assert |labels[1..][0]| > 0;
      var rest := NameOf(labels[1..]);
      assert |Dotted(labels[1..])| > 1 by {
        hide NameOf;
        assert Dotted(labels[1..]) == labels[1..][0] + [DOT] + Dotted(labels[1..][1..]);
      }
      assert d == (labels[0] + ([DOT] + rest)) + [DOT];
    }
  }

  lemma FirstLabel(pkt: seq<byte>, p: nat, lab: seq<byte>, rest: seq<byte>)
    requires |lab| < 256 && p + 1 + |lab| + |rest| <= |pkt|
    requires pkt[p..p + 1 + |lab| + |rest|] == [|lab|] + lab + rest
    ensures pkt[p] == |lab| && pkt[p + 1..p + 1 + |lab|] == lab
    ensures pkt[p + 1 + |lab|..p + 1 + |lab| + |rest|] == rest
  {
    var c := [|lab|] + lab + rest;
    assert pkt[p] == c[0];
    SliceAgain(pkt, p, p + |c|, 1, 1 + |lab|);
    SliceAgain(pkt, p, p + |c|, 1 + |lab|, |c|);
    assert c[1..1 + |lab|] == lab && c[1 + |lab|..|c|] == rest;
  }

  /** Labels in front of a name make a longer name. */
  lemma {:induction false} LabelsBefore(pkt: seq<byte>, p: nat, labels: seq<seq<byte>>, tail: seq<seq<byte>>, hops: nat)
    requires forall i :: 0 <= i < |labels| ==> 0 < |labels[i]| <= 63
    requires p + |Chunks(labels)| < |pkt| && pkt[p..p + |Chunks(labels)|] == Chunks(labels)
    requires NameAt(pkt, p + |Chunks(labels)|, tail, hops)
    ensures NameAt(pkt, p, labels + tail, hops)
    decreases |labels|
  {
    hide NameAt;
    if labels == [] {
      assert labels + tail == tail;
    } else {
      var lab := labels[0];
      var next := p + 1 + |lab|;
      FirstLabel(pkt, p, lab, Chunks(labels[1..]));
      LabelsBefore(pkt, next, labels[1..], tail, hops);
      OneLabel(pkt, p, lab, labels[1..] + tail, hops);
      assert labels + tail == [lab] + (labels[1..] + tail);
    }
  }

  /** A label in front of a name. */
  lemma OneLabel(pkt: seq<byte>, p: nat, lab: seq<byte>, names: seq<seq<byte>>, hops: nat)
    requires 0 < |lab| <= 63 && p + 1 + |lab| < |pkt| && pkt[p] == |lab| && pkt[p + 1..p + 1 + |lab|] == lab
    ensures NameAt(pkt, p, [lab] + names, hops) <==> NameAt(pkt, p + 1 + |lab|, names, hops)
  {
    assert ([lab] + names)[1..] == names;
  }

  /** Labels of at most 63 octets, written anywhere in a packet, are a name there. */
  lemma ChunksAreName(before: seq<byte>, labels: seq<seq<byte>>, after: seq<byte>, hops: nat)
    requires forall i :: 0 <= i < |labels| ==> 0 < |labels[i]| <= 63
    ensures NameAt(before + (Chunks(labels) + [0]) + after, |before|, labels, hops)
  {
    var pkt, c := before + (Chunks(labels) + [0]) + after, Chunks(labels);
    assert pkt[|before|..|before| + |c|] == c && pkt[|before| + |c|] == 0;
    LabelsBefore(pkt, |before|, labels, [], hops);
    assert labels + [] == labels;
  }

  /** A label of 64 octets or more, written in a packet, is no name. */
  lemma {:induction false} LongLabelIsNoName(before: seq<byte>, labels: seq<seq<byte>>, after: seq<byte>,
                                             found: seq<seq<byte>>, hops: nat)
    requires Plain(labels) && exists i :: 0 <= i < |labels| && |labels[i]| > 63
    ensures !NameAt(before + (Chunks(labels) + [0]) + after, |before|, found, hops)
    decreases |labels|
  {
    hide NameAt, Chunks;
    var pkt := before + (Chunks(labels) + [0]) + after;
    var lab := labels[0];
    PacketCons(before, labels, after);
    if NameAt(pkt, |before|, found, hops) {
      NameIsLabels(pkt, |before|, found, hops);
      LongLabelIsNoName(before + ([|lab|] + lab), labels[1..], after, found[1..], hops);
    }
  }

  lemma PacketCons(before: seq<byte>, labels: seq<seq<byte>>, after: seq<byte>)
    requires Plain(labels)
    ensures var pkt := before + (Chunks(labels) + [0]) + after;
            && pkt == before + ([|labels[0]|] + labels[0]) + (Chunks(labels[1..]) + [0]) + after
            && |before| + 1 + |labels[0]| < |pkt| && pkt[|before|] == |labels[0]|
            && pkt[|before| + 1..|before| + 1 + |labels[0]|] == labels[0]
  {
    var c, more := [|labels[0]|] + labels[0], Chunks(labels[1..]) + [0];
    assert Chunks(labels) + [0] == c + more;
    Rebracket(before, c, more);
    var pkt := before + c + more + after;
    assert pkt[|before|] == c[0] && pkt[|before| + 1..|before| + |c|] == c[1..];
  }

  lemma NameIsLabels(pkt: seq<byte>, p: nat, found: seq<seq<byte>>, hops: nat)
    requires NameAt(pkt, p, found, hops) && 0 < pkt[p] < 0xc0
    ensures pkt[p] <= 63 && found != [] && NameAt(pkt, p + 1 + pkt[p], found[1..], hops)
  {}

  /** It stops the expansion, and nothing is returned, where there was room for the name. */
  lemma {:induction false} LongLabelGivesNothing(before: seq<byte>, labels: seq<seq<byte>>, after: seq<byte>,
                                                 dst: seq<byte>, room: nat)
    requires Plain(labels) && exists i :: 0 <= i < |labels| && |labels[i]| > 63
    requires |dst| + |NameOf(labels)| <= room
    ensures var pkt := before + (Chunks(labels) + [0]) + after;
            |before| < |pkt| && Uncompress(pkt, |before|, 0, dst, room) == []
    decreases |labels|
  {
    hide Chunks, NameOf;
    PacketCons(before, labels, after);
    NameOfCons(labels);
    var lab := labels[0];
    if |lab| <= 63 {
      LongLabelGivesNothing(before + ([|lab|] + lab), labels[1..], after, dst + lab + [DOT], room);
    }
  }

  /**
   * A name encoded anywhere in a packet is read back exactly when there is room for it and its labels have at most 63
   * octets.
   */
  lemma EncodeUncompress(before: seq<byte>, labels: seq<seq<byte>>, after: seq<byte>, room: nat)
    requires Plain(labels)
    ensures var pkt := before + EncodeName(NameOf(labels)).bytes + after;
            && |before| < |pkt|
            && (Uncompress(pkt, |before|, 0, [], room) == NameOf(labels)
                <==> |NameOf(labels)| <= room && forall i :: 0 <= i < |labels| ==> |labels[i]| <= 63)
  {
    hide NameAt, Uncompress, EncodeName, NameOf, Chunks, Dotted;
    EncodesLabels(labels);
    DottedEnds(labels);
    NameOfCons(labels);
    PacketCons(before, labels, after);
    if |NameOf(labels)| > room {
    } else if forall i :: 0 <= i < |labels| ==> |labels[i]| <= 63 {
      var pkt := before + (Chunks(labels) + [0]) + after;
      ChunksAreName(before, labels, after, MAX_HOPS);
      UncompressesName(pkt, |before|, 0, [], room, labels);
      assert [] + Dotted(labels) == Dotted(labels);
    } else {
      LongLabelGivesNothing(before, labels, after, [], room);
    }
  }

  // ---- Pointers, written out ----

  /** Section 4.1.4: two bits that say it is a pointer, and fourteen of the offset. */
  lemma PointerIsOffset(q: nat)
    requires q < 0x4000
    ensures var s := ToBigEndian(0xC000 + q, 2); s[0] >= 0xc0 && Offset(s[0], s[1]) == q
  {
    OctetOfBigEndian(0xC000 + q, 2, 0);
    OctetOfBigEndian(0xC000 + q, 2, 1);
    assert Pow256(1) == 256 && Pow256(0) == 1;
    DivMod(0xC000 + q, 256, 192 + q / 256, q % 256);
  }

  /** A pointer to q is the name at q, one hop more. */
  lemma PointerNames(pkt: seq<byte>, p: nat, q: nat, labels: seq<seq<byte>>, hops: nat)
    requires q < 0x4000 && p + 2 <= |pkt| && pkt[p..p + 2] == ToBigEndian(0xC000 + q, 2)
    ensures NameAt(pkt, p, labels, hops + 1) <==> NameAt(pkt, q, labels, hops)
  {
    PointerIsOffset(q);
    var s := pkt[p..p + 2];
    assert pkt[p] == s[0] && pkt[p + 1] == s[1];
  }

  /** Labels followed by a pointer to q are a name that goes on with the name at q, one hop more. */
  lemma Compressed(pkt: seq<byte>, p: nat, labels: seq<seq<byte>>, q: nat, tail: seq<seq<byte>>, hops: nat)
    requires forall i :: 0 <= i < |labels| ==> 0 < |labels[i]| <= 63
    requires var c := Chunks(labels) + ToBigEndian(0xC000 + q, 2);
             q < 0x4000 && p + |c| <= |pkt| && pkt[p..p + |c|] == c
    requires NameAt(pkt, q, tail, hops)
    ensures NameAt(pkt, p, labels + tail, hops + 1)
  {
    hide NameAt, Chunks, ToBigEndian;
    var c, pointer := Chunks(labels), ToBigEndian(0xC000 + q, 2);
    var all := c + pointer;
    SliceAgain(pkt, p, p + |all|, 0, |c|);
    SliceAgain(pkt, p, p + |all|, |c|, |all|);
    assert all[0..|c|] == c && all[|c|..|all|] == pointer;
    PointerNames(pkt, p + |c|, q, tail, hops);
    LabelsBefore(pkt, p, labels, tail, hops + 1);
  }

  /** Fifteen pointers are followed, however many labels there are between them. */
  lemma FifteenPointers(pkt: seq<byte>, p: nat, labels: seq<seq<byte>>, room: nat)
    requires p < |pkt| && |Dotted(labels)| <= room
    ensures NameAt(pkt, p, labels, 15) ==> Uncompress(pkt, p, 0, [], room) == NameOf(labels)
    ensures (forall ls :: !NameAt(pkt, p, ls, 15)) ==> var r := Uncompress(pkt, p, 0, [], room); r == [] || |r| == room
  {
    hide NameAt, Uncompress;
    if NameAt(pkt, p, labels, 15) {
      UncompressesName(pkt, p, 0, [], room, labels);
      assert [] + Dotted(labels) == Dotted(labels);
    }
    if forall ls :: !NameAt(pkt, p, ls, 15) {
      NoNameNoText(pkt, p, 0, [], room);
    }
  }

  /** A name in the first 2^14 octets of a packet is read back through a pointer to it, if it can be read at all. */
  lemma PointerUncompress(before: seq<byte>, labels: seq<seq<byte>>, between: seq<byte>, after: seq<byte>, room: nat)
    requires Plain(labels) && |before| < 0x4000
    requires |NameOf(labels)| <= room && forall i :: 0 <= i < |labels| ==> |labels[i]| <= 63
    ensures var front := before + EncodeName(NameOf(labels)).bytes + between;
            var pkt := front + ToBigEndian(0xC000 + |before|, 2) + after;
            Uncompress(pkt, |front|, 0, [], room) == NameOf(labels)
  {
    hide NameAt, Uncompress, EncodeName, NameOf, Chunks, Dotted, ToBigEndian;
    EncodesLabels(labels);
    DottedEnds(labels);
    var pointer := ToBigEndian(0xC000 + |before|, 2);
    var name := Chunks(labels) + [0];
    var front := before + name + between;
    var pkt := front + pointer + after;
    ChunksAreName(before, labels, between + pointer + after, MAX_HOPS - 1);
    assert pkt == before + name + (between + pointer + after);
    assert pkt[|front|..|front| + 2] == pointer;
    PointerNames(pkt, |front|, |before|, labels, MAX_HOPS - 1);
    UncompressesName(pkt, |front|, 0, [], room, labels);
    assert [] + Dotted(labels) == Dotted(labels);
    NameIsShown(labels, room);
  }

  lemma NameIsShown(labels: seq<seq<byte>>, room: nat)
    requires labels != [] && |NameOf(labels)| <= room
    ensures Shown(Dotted(labels), room) == NameOf(labels)
  {
    hide NameOf;
    DottedEnds(labels);
  }
}
