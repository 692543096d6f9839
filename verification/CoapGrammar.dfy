/** Which octets are a CoAP packet (sections 3 and 3.1 of RFC 7252), and what is made of those that are none. */
module CoapGrammar {
  import opened Bytes
  import opened CoapSpec
  import opened CoapCodec

  // ---- One option ----

  /** The extended octets that four bits ask for. */
  predicate ExtFits(nibble: nat, ext: seq<byte>) {
    nibble <= 14 && |ext| == if nibble == 13 then 1 else if nibble == 14 then 2 else 0
  }

  /** What they say, in 16 bits. */
  function ExtValue(nibble: nat, ext: seq<byte>): (v: nat)
    requires ExtFits(nibble, ext)
    ensures v < 0x1_0000
  {
    if nibble == 13 then 13 + ext[0] as int
    else if nibble == 14 then (269 + 256 * (ext[0] as int) + ext[1] as int) % 0x1_0000
    else nibble
  }

  /** An option as it is written: the two halves of its first octet, what extends them, and the value. */
  datatype Raw = Raw(delta: nat, deltaExt: seq<byte>, length: nat, lengthExt: seq<byte>, value: seq<byte>) {
    predicate Valid() {
      && ExtFits(delta, deltaExt) && ExtFits(length, lengthExt)
      && |value| == ExtValue(length, lengthExt)
    }

    function Octets(): (s: seq<byte>)
      requires Valid()
      ensures s != []
    {
      [delta * 16 + length] + deltaExt + lengthExt + value
    }
  }

  lemma ExtRead(nibble: nat, ext: seq<byte>, rest: seq<byte>)
    requires ExtFits(nibble, ext)
    ensures GetExt(ext + rest, nibble) == Ext(ExtValue(nibble, ext), rest)
  {
    assert (ext + rest)[|ext|..] == rest;
    assert forall i :: 0 <= i < |ext| ==> (ext + rest)[i] == ext[i];
    if nibble < 13 {
      assert ext + rest == rest;
    }
  }

  lemma RawRead(r: Raw, rest: seq<byte>)
    requires r.Valid()
    ensures var d := r.Octets() + rest;
            d[0] != 0xFF && GetOption(d) == OneOption(ExtValue(r.delta, r.deltaExt), r.value, rest)
  {
    hide GetExt, ExtFits, ExtValue;
    Nibbles(r);
    var d := r.Octets() + rest;
    DivMod(r.delta * 16 + r.length, 16, r.delta, r.length);
    assert d[0] == r.delta * 16 + r.length;
    assert d[1..] == r.deltaExt + (r.lengthExt + (r.value + rest));
    ExtRead(r.delta, r.deltaExt, r.lengthExt + (r.value + rest));
    ExtRead(r.length, r.lengthExt, r.value + rest);
    assert (r.value + rest)[..|r.value|] == r.value && (r.value + rest)[|r.value|..] == rest;
  }

  lemma Nibbles(r: Raw)
    requires r.Valid()
    ensures r.delta <= 14 && r.length <= 14
  {}

  // ---- Many ----

  function RawBytes(raws: seq<Raw>): seq<byte>
    requires forall r <- raws :: r.Valid()
  {
    if raws == [] then [] else raws[0].Octets() + RawBytes(raws[1..])
  }

  function ExtValueOf(r: Raw): nat
    requires r.Valid()
  {
    ExtValue(r.delta, r.deltaExt)
  }

  /** The options they stand for, behind an option numbered prev: numbers are sums of the deltas, in 16 bits. */
  function Meant(raws: seq<Raw>, prev: nat): (opts: seq<Opt>)
    requires forall r <- raws :: r.Valid()
  {
    if raws == [] then []
    else
      assert raws[0] in raws;
      var number := (prev + ExtValueOf(raws[0])) % 0x1_0000;
      [Opt(number, raws[0].value)] + Meant(raws[1..], number)
  }

  /** Nothing more is read behind them: the end, the payload marker, a reserved 15, or an option that is cut short. */
  ghost predicate Stops(rest: seq<byte>) {
    rest == [] || rest[0] == 0xFF || Reserved(rest) || Cut(rest)
  }

  predicate Reserved(rest: seq<byte>) {
    rest != [] && rest[0] != 0xFF && (rest[0] / 16 == 15 || rest[0] % 16 == 15)
  }

  ghost predicate Cut(rest: seq<byte>) {
    && rest != [] && rest[0] / 16 != 15 && rest[0] % 16 != 15
    && forall r: Raw :: r.Valid() ==> !(r.Octets() <= rest)
  }

  lemma TailValid(raws: seq<Raw>)
    requires raws != [] && forall r <- raws :: r.Valid()
    ensures raws[0].Valid() && forall r <- raws[1..] :: r.Valid()
  {
    assert raws[0] in raws && forall r <- raws[1..] :: r in raws;
  }

  /** Any octets are some options and something at which the reading stops. */
  lemma {:induction false} Take(d: seq<byte>) returns (raws: seq<Raw>, rest: seq<byte>)
    ensures (forall r <- raws :: r.Valid()) && d == RawBytes(raws) + rest && Stops(rest)
    decreases |d|
  {
    if Stops(d) {
      raws, rest := [], d;
    } else {
      var r: Raw :| r.Valid() && r.Octets() <= d;
      var o := r.Octets();
      assert d == o + d[|o|..];
      var more;
      more, rest := Take(d[|o|..]);
      raws := [r] + more;
      assert raws[1..] == more;
      Rebracket(o, RawBytes(more), rest);
    }
  }

  /** Options are inserted one by one. */
  function Added(acc: seq<Opt>, opts: seq<Opt>): seq<Opt>
    decreases |opts|
  {
    if opts == [] then acc else Added(Inserted(acc, opts[0]), opts[1..])
  }

  lemma {:induction false} RawsRead(raws: seq<Raw>, rest: seq<byte>, prev: nat, acc: seq<Opt>)
    requires (forall r <- raws :: r.Valid()) && prev < 0x1_0000
    ensures GetOptions(RawBytes(raws) + rest, prev, acc)
            == GetOptions(rest, if raws == [] then prev else Last(raws, prev), Added(acc, Meant(raws, prev)))
    decreases |raws|
  {
    hide GetOption, Inserted, Raw.Valid, Raw.Octets, ExtValue;
    if raws == [] {
      assert RawBytes(raws) + rest == rest;
    } else {
      TailValid(raws);
      var o := raws[0].Octets();
      var number := (prev + ExtValueOf(raws[0])) % 0x1_0000;
      RawRead(raws[0], RawBytes(raws[1..]) + rest);
      Rebracket(o, RawBytes(raws[1..]), rest);
      RawsRead(raws[1..], rest, number, Inserted(acc, Opt(number, raws[0].value)));
      assert Meant(raws, prev)[1..] == Meant(raws[1..], number);
    }
  }

  /** The number of the last option. */
  function Last(raws: seq<Raw>, prev: nat): nat
    requires forall r <- raws :: r.Valid()
    decreases |raws|
  {
    if raws == [] then prev else Last(raws[1..], (prev + ExtValueOf(raws[0])) % 0x1_0000)
  }

  lemma {:induction false} AddedIsBuilt(acc: seq<Opt>, opts: seq<Opt>)
    ensures Added(Built(acc), opts) == Built(acc + opts)
    decreases |opts|
  {
    hide Inserted;
    if opts == [] {
      assert acc + opts == acc;
    } else {
      var more := acc + [opts[0]];
      assert more[..|more| - 1] == acc;
      AddedIsBuilt(more, opts[1..]);
      assert more + opts[1..] == acc + opts;
    }
  }

  /** Where the reading of options stops, and why. */
  lemma StopDecides(rest: seq<byte>, prev: nat, acc: seq<Opt>)
    requires Stops(rest)
    ensures GetOptions(rest, prev, acc)
            == if rest == [] || rest[0] == 0xFF then Options(acc, rest)
               else Bad(if Reserved(rest) then 0x3_0000 else 0x9_0000)
  {
    hide GetValue;
    if rest != [] && rest[0] != 0xFF && !Reserved(rest) {
      CutIsShort(rest);
    }
  }

  lemma CutIsShort(rest: seq<byte>)
    requires Cut(rest)
    ensures GetOption(rest) == BadOption(0x9_0000)
  {
    hide GetExt;
    var n1, n2, d := rest[0] / 16, rest[0] % 16, rest[1..];
    var e := GetExt(d, n1);
    if e.Ext? {
      var f := GetExt(e.rest, n2);
      if f.Ext? && f.value <= |f.rest| {
        var r := RawFound(rest, n1, n2, e, f);
      }
    }
  }

  /** What was read was written so. */
  lemma RawFound(rest: seq<byte>, n1: nat, n2: nat, e: Ext, f: Ext) returns (r: Raw)
    requires rest != [] && n1 == rest[0] / 16 <= 14 && n2 == rest[0] % 16 <= 14
    requires e == GetExt(rest[1..], n1) && e.Ext? && f == GetExt(e.rest, n2) && f.Ext? && f.value <= |f.rest|
    ensures r.Valid() && r.Octets() <= rest
  {
    hide GetExt, ExtFits, ExtValue, Raw.Octets;
    var x1 := ExtWritten(rest[1..], n1);
    var x2 := ExtWritten(e.rest, n2);
    r := Raw(n1, x1, n2, x2, f.rest[..f.value]);
    RawIsFront(r, rest, f.rest);
  }

  lemma RawIsFront(r: Raw, rest: seq<byte>, later: seq<byte>)
    requires r.Valid() && rest != [] && rest[0] == r.delta * 16 + r.length && r.value <= later
    requires rest[1..] == r.deltaExt + (r.lengthExt + later)
    ensures r.Octets() <= rest
  {
    var first := [rest[0]];
    assert rest == first + rest[1..];
    assert later == r.value + later[|r.value|..];
    assert rest == first + r.deltaExt + r.lengthExt + r.value + later[|r.value|..];
  }

  lemma ExtWritten(d: seq<byte>, nibble: nat) returns (ext: seq<byte>)
    requires nibble <= 14 && GetExt(d, nibble).Ext?
    ensures var e := GetExt(d, nibble); ExtFits(nibble, ext) && e.value == ExtValue(nibble, ext) && d == ext + e.rest
  {
    ext := d[..|d| - |GetExt(d, nibble).rest|];
  }

  // ---- Packets ----

  /**
   * The options of a packet, for any octets behind the token: read up to where they stop, each number the sum of the
   * deltas; sorted as they are added. A reserved 15 is a format error, an option cut short is too little data.
   */
  lemma OptionsDecide(d: seq<byte>) returns (raws: seq<Raw>, rest: seq<byte>)
    ensures (forall r <- raws :: r.Valid()) && d == RawBytes(raws) + rest && Stops(rest)
    ensures GetOptions(d, 0, [])
            == if rest == [] || rest[0] == 0xFF then Options(Built(Meant(raws, 0)), rest)
               else Bad(if Reserved(rest) then 0x3_0000 else 0x9_0000)
  {
    hide Stops, GetOptions, Raw.Valid;
    raws, rest := Take(d);
    var opts := Meant(raws, 0);
    RawsRead(raws, rest, 0, []);
    AddedIsBuilt([], opts);
    assert [] + opts == opts && Built([]) == [];
    StopDecides(rest, if raws == [] then 0 else Last(raws, 0), Added([], opts));
  }

  /** The header: too short, of another version, a token of more than eight octets, or one that has not all come. */
  lemma HeaderDecides(d: seq<byte>)
    ensures |d| < 4 ==> Parse(d) == Parsed(0x9_0000, BLANK)
    ensures |d| >= 4 && d[0] / 64 != 1 ==> Parse(d) == Parsed(0x5_0000, BLANK)
    ensures |d| >= 4 && d[0] / 64 == 1 && d[0] % 16 > 8 ==>
              Parse(d) == Parsed(0x3_0002, BLANK.(msgType := d[0] / 16 % 4))
    ensures |d| >= 4 && d[0] / 64 == 1 && d[0] % 16 <= 8 && |d| < 4 + d[0] % 16 ==>
              Parse(d) == Parsed(0x9_001E, Msg(d[0] / 16 % 4, d[1] / 32, d[1] % 32, U16(d[2], d[3]), [], [], []))
  {
    hide ParseBody;
  }

  /** And behind a header and a token: the flags say which fields there are, or which error there is. */
  lemma BodyDecides(d: seq<byte>) returns (raws: seq<Raw>, rest: seq<byte>)
    requires |d| >= 4 && d[0] / 64 == 1 && d[0] % 16 <= 8 && |d| >= 4 + d[0] % 16
    ensures (forall r <- raws :: r.Valid()) && d[4 + d[0] % 16..] == RawBytes(raws) + rest && Stops(rest)
    ensures var n := d[0] % 16;
            var m := Msg(d[0] / 16 % 4, d[1] / 32, d[1] % 32, U16(d[2], d[3]), d[4..4 + n], [], []);
            var flags := 0x1E + if n > 0 then 0x20 else 0;
            Parse(d)
            == if |d| == 4 + n then Parsed(flags, m)
               else if Reserved(rest) then Parsed(flags + 0x3_0000, m)
               else if rest != [] && rest[0] != 0xFF then Parsed(flags + 0x9_0000, m)
               else
                 var m := m.(options := Built(Meant(raws, 0)));
                 if |rest| <= 1 then Parsed(flags + 0x40, m) else Parsed(flags + 0xC0, m.(payload := rest[1..]))
  {
    hide GetOptions, RawBytes, Meant, Stops, Built;
    raws, rest := OptionsDecide(d[4 + d[0] % 16..]);
  }

  /** The field that cannot be written, by its bit. */
  lemma RefusalDecides(m: Msg)
    ensures SizeError(m) == if m.msgType > 3 then 0x1_0002
                            else if |m.token| > 8 then 0x1_0020
                            else if m.codeClass > 7 then 0x1_0004
                            else if m.codeDetail > 31 then 0x1_0008
                            else if OptionsError(m.options, 0) then 0x1_0040
                            else 0
  {}

  /** What an option of the list has to be: not before the next, its value and its step within 16 bits and 269. */
  predicate Writable(opts: seq<Opt>, prev: nat, i: nat)
    requires i < |opts|
  {
    && |opts[i].value| <= 0x1_010C
    && opts[i].number - (if i == 0 then prev else opts[i - 1].number) <= 0x1_010C
    && (i + 1 < |opts| ==> opts[i].number <= opts[i + 1].number)
  }

  /** The list is refused exactly when one option of it is not so. */
  lemma {:induction false} OptionsErrorIff(opts: seq<Opt>, prev: nat)
    requires forall o <- opts :: o.number < TWO32
    requires prev < TWO32 && (opts != [] ==> prev <= opts[0].number)
    ensures OptionsError(opts, prev) <==> exists i :: 0 <= i < |opts| && !Writable(opts, prev, i)
    decreases |opts|
  {
    if opts != [] {
      var more := opts[1..];
      assert opts[0] in opts && forall o <- more :: o in opts;
      assert Delta(opts[0].number, prev) == opts[0].number - prev;
      assert forall i: nat :: i < |more| ==> Writable(more, opts[0].number, i) == Writable(opts, prev, i + 1);
      if |opts| == 1 || opts[0].number <= opts[1].number {
        OptionsErrorIff(more, opts[0].number);
        if i :| 0 <= i < |more| && !Writable(more, opts[0].number, i) {
          assert !Writable(opts, prev, i + 1);
        }
        if i :| 0 < i < |opts| && !Writable(opts, prev, i) {
          assert !Writable(more, opts[0].number, i - 1);
        }
        assert Writable(opts, prev, 0) || !Writable(opts, prev, 0);
      } else {
        assert !Writable(opts, prev, 0);
      }
    }
  }

  const TEMPERATURE: seq<byte> := [116, 101, 109, 112, 101, 114, 97, 116, 117, 114, 101]

  /** Figure 16 of RFC 7252: a confirmable GET with the Uri-Path "temperature". */
  lemma Figure16()
    ensures var m := Msg(0, 0, 1, 0x7d34, [], [Opt(11, TEMPERATURE)], []);
            && Compose(m) == Packet([0x40, 0x01, 0x7d, 0x34, 0xbb] + TEMPERATURE)
            && Parse([0x40, 0x01, 0x7d, 0x34, 0xbb] + TEMPERATURE) == Parsed(0x5E, m)
  {
    hide Parse, HeaderBytes;
    var m := Msg(0, 0, 1, 0x7d34, [], [Opt(11, TEMPERATURE)], []);
    UriPath();
    GetHeader(m);
    ComposeParse(m);
    assert FieldsOf(m) == 0x5E;
    assert [0x40, 0x01, 0x7d, 0x34] + [] + ([0xbb] + TEMPERATURE) + [] == [0x40, 0x01, 0x7d, 0x34, 0xbb] + TEMPERATURE;
  }

  lemma UriPath()
    ensures var opts := [Opt(11, TEMPERATURE)];
            !OptionsError(opts, 0) && OptionsBytes(opts, 0) == [0xbb] + TEMPERATURE
            && forall o <- opts :: o.number < 0x1_0000 && |o.value| < 0x1_0000
  {
    var opts := [Opt(11, TEMPERATURE)];
    assert opts[1..] == [] && |TEMPERATURE| == 11;
    assert OptionBytes(opts[0], 0) == [0xbb] + TEMPERATURE;
  }

  lemma GetHeader(m: Msg)
    requires m.msgType == 0 && m.codeClass == 0 && m.codeDetail == 1 && m.msgId == 0x7d34 && m.token == []
    ensures HeaderBytes(m) == [0x40, 0x01, 0x7d, 0x34]
  {}
}
