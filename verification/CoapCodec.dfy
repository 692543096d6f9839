/** Composing CoAP packets and parsing them back. */
module CoapCodec {
  import opened Bytes
  import opened CoapSpec

  // ---- Composing ----

  /** Octets a delta or length takes beside its four bits. */
  function ExtSize(v: nat): nat {
    if 13 <= v <= 0xFF + 13 then 1 else if 0xFF + 13 < v <= MAX_EXT then 2 else 0
  }

  /** The four bits and the extended octets of a delta or length. */
  function SplitOpt(v: nat): (r: (nat, seq<byte>))
    ensures r.0 < 15 && |r.1| == ExtSize(v)
  {
    if v < 13 then (v, [])
    else if v <= 0xFF + 13 then (13, [v - 13])
    else if v <= MAX_EXT then (14, [(v - 269) / 256, (v - 269) % 256])
    else (0, [])
  }

  /** The subtraction of two 32-bit option numbers. */
  function Delta(number: nat, prev: nat): nat {
    (number - prev) % TWO32
  }

  /** The list is not ascending, or a delta or length cannot be encoded. */
  predicate OptionsError(opts: seq<Opt>, prev: nat) {
    opts != [] &&
    ( || (|opts| > 1 && opts[0].number > opts[1].number)
      || |opts[0].value| > MAX_EXT
      || Delta(opts[0].number, prev) > MAX_EXT
      || OptionsError(opts[1..], opts[0].number))
  }

  function OptionsSize(opts: seq<Opt>, prev: nat): nat {
    if opts == [] then 0
    else 1 + ExtSize(Delta(opts[0].number, prev)) + ExtSize(|opts[0].value|) + |opts[0].value|
         + OptionsSize(opts[1..], opts[0].number)
  }

  /** 0, or the result mask of the field that cannot be encoded. */
  function SizeError(m: Msg): nat {
    if m.msgType > MAX_MSG_TYPE then ERROR + TYPE_FIELD
    else if |m.token| > 8 then ERROR + TOKEN_FIELD
    else if m.codeClass > 7 then ERROR + CLASS_FIELD
    else if m.codeDetail > 31 then ERROR + DETAIL_FIELD
    else if OptionsError(m.options, 0) then ERROR + OPTION_FIELD
    else 0
  }

  /** What `coap_calculate_packet_size` computes before anything is written. */
  function PacketSize(m: Msg): (n: nat)
    ensures n >= 4
  {
    4 + |m.token| + (if m.payload == [] then 0 else |m.payload| + 1) + OptionsSize(m.options, 0)
  }

  function OptionBytes(o: Opt, prev: nat): seq<byte> {
    var (deltaBase, deltaExt) := SplitOpt(Delta(o.number, prev));
    var (lengthBase, lengthExt) := SplitOpt(|o.value|);
    [deltaBase * 16 + lengthBase] + deltaExt + lengthExt + o.value
  }

  function OptionsBytes(opts: seq<Opt>, prev: nat): seq<byte> {
    if opts == [] then [] else OptionBytes(opts[0], prev) + OptionsBytes(opts[1..], opts[0].number)
  }

  function HeaderBytes(m: Msg): (s: seq<byte>)
    requires m.msgType <= MAX_MSG_TYPE && |m.token| <= 8 && m.codeClass <= 7 && m.codeDetail <= 31
    ensures |s| == 4
  {
    [64 + m.msgType * 16 + |m.token|, m.codeClass * 32 + m.codeDetail, m.msgId / 256 % 256, m.msgId % 256]
  }

  function PayloadBytes(m: Msg): seq<byte> {
    if m.payload == [] then [] else [0xFF] + m.payload
  }

  datatype Composed = Packet(bytes: seq<byte>) | Refused(flags: nat)

  /** `mg_coap_compose`. */
  function Compose(m: Msg): Composed {
    if SizeError(m) != 0 then Refused(SizeError(m))
    else Packet(HeaderBytes(m) + m.token + OptionsBytes(m.options, 0) + PayloadBytes(m))
  }

  lemma {:induction false} OptionsSizeIsLength(opts: seq<Opt>, prev: nat)
    ensures |OptionsBytes(opts, prev)| == OptionsSize(opts, prev)
  {
    if opts != [] {
      OptionsSizeIsLength(opts[1..], opts[0].number);
    }
  }

  /** The size reserved beforehand is the size written. */
  lemma SizeIsLength(m: Msg)
    requires SizeError(m) == 0
    ensures |Compose(m).bytes| == PacketSize(m)
  {
    OptionsSizeIsLength(m.options, 0);
  }

  // ---- Parsing ----

  datatype Ext = NoData | Ext(value: nat, rest: seq<byte>)

  /** `coap_get_ext_opt`, in 16 bits. */
  function GetExt(d: seq<byte>, nibble: nat): (e: Ext)
    requires nibble < 15
    ensures e.Ext? ==> e.value < 0x1_0000 && |e.rest| <= |d| && e.rest == d[|d| - |e.rest|..]
  {
    if nibble == 13 then if d == [] then NoData else Ext(d[0] as int + 13, d[1..])
    else if nibble == 14 then
      if |d| < 2 then NoData else Ext((U16(d[0], d[1]) + 269) % 0x1_0000, d[2..])
    else Ext(nibble, d)
  }

  datatype OptionsResult = Options(opts: seq<Opt>, rest: seq<byte>) | Bad(flags: nat)

  datatype OneOption = OneOption(delta: nat, value: seq<byte>, rest: seq<byte>) | BadOption(flags: nat)

  /** One turn of the loop of `coap_get_options`. */
  function GetOption(d: seq<byte>): (r: OneOption)
    requires d != []
    ensures r.OneOption? ==> |r.rest| < |d| && r.delta < 0x1_0000 && |r.value| < 0x1_0000
  {
    var delta, length := d[0] / 16, d[0] % 16;
    if delta == 15 || length == 15 then BadOption(FORMAT_ERROR) else GetValue(delta, length, d[1..])
  }

  function GetValue(delta: nat, length: nat, d: seq<byte>): (r: OneOption)
    requires delta < 15 && length < 15
    ensures r.OneOption? ==> |r.rest| <= |d| && r.delta < 0x1_0000 && |r.value| < 0x1_0000
  {
    match GetExt(d, delta)
    case NoData => BadOption(NOT_ENOUGH_DATA)
    case Ext(delta, afterDelta) =>
      match GetExt(afterDelta, length)
      case NoData => BadOption(NOT_ENOUGH_DATA)
      case Ext(length, value) =>
        if length > |value| then BadOption(NOT_ENOUGH_DATA)
        else OneOption(delta, value[..length], value[length..])
  }

  /** The options up to the payload marker or the end; numbers are kept in 16 bits. */
  function GetOptions(d: seq<byte>, prev: nat, acc: seq<Opt>): OptionsResult
    decreases |d|
  {
    if d == [] || d[0] == 0xFF then Options(acc, d)
    else
      match GetOption(d)
      case BadOption(flags) => Bad(flags)
      case OneOption(delta, value, rest) =>
        var number := (delta + prev) % 0x1_0000;
        GetOptions(rest, number, Inserted(acc, Opt(number, value)))
  }

  datatype Parsed = Parsed(flags: nat, msg: Msg)

  const BLANK := Msg(0, 0, 0, 0, [], [], [])

  /** `mg_coap_parse`; a token of which only the length was read is given as no token. */
  function Parse(d: seq<byte>): Parsed {
    if |d| < 4 then Parsed(NOT_ENOUGH_DATA, BLANK)
    else if d[0] / 64 != 1 then Parsed(IGNORE, BLANK)
    else
      var m := BLANK.(msgType := d[0] / 16 % 4);
      var tokenLen := d[0] % 16;
      if tokenLen > 8 then Parsed(TYPE_FIELD + FORMAT_ERROR, m)
      else
        var m := m.(codeClass := d[1] / 32, codeDetail := d[1] % 32, msgId := U16(d[2], d[3]));
        var flags := TYPE_FIELD + CLASS_FIELD + DETAIL_FIELD + ID_FIELD;
        if 4 + tokenLen > |d| then Parsed(flags + NOT_ENOUGH_DATA, m)
        else
          var withToken := flags + if tokenLen == 0 then 0 else TOKEN_FIELD;
          ParseBody(withToken, m.(token := d[4..4 + tokenLen]), d[4 + tokenLen..])
  }

  /** The options and the payload. */
  function ParseBody(flags: nat, m: Msg, d: seq<byte>): Parsed {
    if d == [] then Parsed(flags, m)
    else
      match GetOptions(d, 0, [])
      case Bad(error) => Parsed(flags + error, m)
      case Options(opts, rest) =>
        var flags := flags + OPTION_FIELD;
        var m := m.(options := opts);
        if |rest| <= 1 then Parsed(flags, m) else Parsed(flags + PAYLOAD_FIELD, m.(payload := rest[1..]))
  }

  // ---- Parsing undoes composing ----

  /** Option numbers and lengths fit in 16 bits. */
  ghost predicate Small(opts: seq<Opt>) {
    forall o <- opts :: o.number < 0x1_0000 && |o.value| < 0x1_0000
  }

  function LastNumber(opts: seq<Opt>): nat {
    if opts == [] then 0 else opts[|opts| - 1].number
  }

  lemma ExtRoundTrip(v: nat, rest: seq<byte>)
    requires v < 0x1_0000
    ensures GetExt(SplitOpt(v).1 + rest, SplitOpt(v).0) == Ext(v, rest)
  {
    hide U16;
    var ext := SplitOpt(v).1;
    assert (ext + rest)[|ext|..] == rest;
    assert ext + [] == ext;
    if v >= 269 {
      U16Of(v - 269);
    }
  }

  lemma ValueRoundTrip(delta: nat, value: seq<byte>, rest: seq<byte>)
    requires delta < 0x1_0000 && |value| < 0x1_0000
    ensures var (dBase, dExt) := SplitOpt(delta);
            var (lBase, lExt) := SplitOpt(|value|);
            GetValue(dBase, lBase, dExt + (lExt + (value + rest))) == OneOption(delta, value, rest)
  {
    hide SplitOpt, GetExt;
    var (lBase, lExt) := SplitOpt(|value|);
    ExtRoundTrip(delta, lExt + (value + rest));
    ExtRoundTrip(|value|, value + rest);
  }

  lemma OptionRoundTrip(o: Opt, prev: nat, rest: seq<byte>)
    requires prev <= o.number < 0x1_0000 && |o.value| < 0x1_0000
    ensures var d := OptionBytes(o, prev) + rest;
            d[0] != 0xFF && GetOption(d) == OneOption(o.number - prev, o.value, rest)
  {
    hide SplitOpt, GetValue;
    var d := OptionBytes(o, prev) + rest;
    var (dBase, dExt) := SplitOpt(o.number - prev);
    var (lBase, lExt) := SplitOpt(|o.value|);
    assert d[1..] == dExt + (lExt + (o.value + rest));
    ValueRoundTrip(o.number - prev, o.value, rest);
  }

  /** One turn of the parser on an option that comes after those of acc. */
  lemma OptionStep(o: Opt, acc: seq<Opt>, later: seq<byte>)
    requires Sorted(acc + [o]) && o.number < 0x1_0000 && |o.value| < 0x1_0000
    ensures var prev := LastNumber(acc);
            GetOptions(OptionBytes(o, prev) + later, prev, acc) == GetOptions(later, o.number, acc + [o])
  {
    hide GetOption, OptionBytes, Inserted;
    assert acc != [] ==> (acc + [o])[|acc| - 1] == acc[|acc| - 1] && (acc + [o])[|acc|] == o;
    OptionRoundTrip(o, LastNumber(acc), later);
    SortedAppend(acc, o);
    assert OptionBytes(o, LastNumber(acc)) + later != [];
  }

  lemma {:induction false} OptionsRoundTrip(opts: seq<Opt>, acc: seq<Opt>, rest: seq<byte>)
    requires Small(opts) && Sorted(acc + opts) && (rest == [] || rest[0] == 0xFF)
    ensures GetOptions(OptionsBytes(opts, LastNumber(acc)) + rest, LastNumber(acc), acc) == Options(acc + opts, rest)
    decreases |opts|
  {
    var prev := LastNumber(acc);
    if opts == [] {
      assert OptionsBytes(opts, prev) + rest == rest && acc + opts == acc;
    } else {
      hide GetOptions, OptionBytes;
      var o, later := opts[0], OptionsBytes(opts[1..], opts[0].number) + rest;
      assert OptionsBytes(opts, prev) + rest == OptionBytes(o, prev) + later;
      assert opts == [o] + opts[1..];
      SortedParts(acc, o, opts[1..]);
      OptionStep(o, acc, later);
      OptionsRoundTrip(opts[1..], acc + [o], rest);
    }
  }

  lemma SortedParts(a: seq<Opt>, o: Opt, b: seq<Opt>)
    requires Sorted(a + ([o] + b))
    ensures Sorted(a + [o]) && Sorted((a + [o]) + b) && a + ([o] + b) == (a + [o]) + b
  {
    var all := a + ([o] + b);
    assert all == (a + [o]) + b;
    assert forall i :: 0 <= i <= |a| ==> all[i] == (a + [o])[i];
  }

  /** What composing demands of the options. */
  lemma {:induction false} AcceptedOptions(opts: seq<Opt>, prev: nat)
    requires !OptionsError(opts, prev)
    ensures Sorted(opts)
  {
    if |opts| > 1 {
      AcceptedOptions(opts[1..], opts[0].number);
      assert forall i :: 1 <= i < |opts| ==> opts[i] == opts[1..][i - 1];
    }
  }

  lemma {:induction false} ParsedOptionsSmall(d: seq<byte>, prev: nat, acc: seq<Opt>)
    requires Small(acc)
    ensures var r := GetOptions(d, prev, acc); r.Options? ==> Small(r.opts)
    decreases |d|
  {
    hide GetOption, Inserted, Small;
    if d != [] && d[0] != 0xFF && GetOption(d).OneOption? {
      var r := GetOption(d);
      var number := (r.delta + prev) % 0x1_0000;
      InsertedSmall(acc, Opt(number, r.value));
      ParsedOptionsSmall(r.rest, number, Inserted(acc, Opt(number, r.value)));
    }
  }

  lemma InsertedSmall(acc: seq<Opt>, o: Opt)
    requires Small(acc) && o.number < 0x1_0000 && |o.value| < 0x1_0000
    ensures Small(Inserted(acc, o))
  {}

  function FieldsOf(m: Msg): nat {
    TYPE_FIELD + CLASS_FIELD + DETAIL_FIELD + ID_FIELD
    + (if m.token == [] then 0 else TOKEN_FIELD)
    + (if m.options == [] && m.payload == [] then 0 else OPTION_FIELD)
    + (if m.payload == [] then 0 else PAYLOAD_FIELD)
  }

  lemma HeaderRoundTrip(m: Msg, body: seq<byte>)
    requires m.msgType <= MAX_MSG_TYPE && |m.token| <= 8 && m.codeClass <= 7 && m.codeDetail <= 31
    requires m.msgId < 0x1_0000
    ensures var flags := TYPE_FIELD + CLASS_FIELD + DETAIL_FIELD + ID_FIELD + if m.token == [] then 0 else TOKEN_FIELD;
            Parse(HeaderBytes(m) + m.token + body) == ParseBody(flags, m.(options := [], payload := []), body)
  {
    hide ParseBody, HeaderBytes, U16;
    var h := HeaderBytes(m);
    var d := h + m.token + body;
    HeaderFields(m);
    assert d[0] == h[0] && d[1] == h[1] && d[2] == h[2] && d[3] == h[3];
    assert d[4..4 + |m.token|] == m.token && d[4 + |m.token|..] == body;
  }

  lemma HeaderFields(m: Msg)
    requires m.msgType <= MAX_MSG_TYPE && |m.token| <= 8 && m.codeClass <= 7 && m.codeDetail <= 31
    requires m.msgId < 0x1_0000
    ensures var h := HeaderBytes(m);
            && |h| == 4 && h[0] / 64 == 1 && h[0] / 16 % 4 == m.msgType && h[0] % 16 == |m.token|
            && h[1] / 32 == m.codeClass && h[1] % 32 == m.codeDetail && U16(h[2], h[3]) == m.msgId
  {
    assert HeaderBytes(m)[0] == 64 + m.msgType * 16 + |m.token|;
  }

  lemma BodyRoundTrip(flags: nat, head: Msg, m: Msg)
    requires Small(m.options) && Sorted(m.options) && head == m.(options := [], payload := [])
    ensures ParseBody(flags, head, OptionsBytes(m.options, 0) + PayloadBytes(m))
            == Parsed(flags + (if m.options == [] && m.payload == [] then 0 else OPTION_FIELD)
                            + (if m.payload == [] then 0 else PAYLOAD_FIELD), m)
  {
    hide Small, Sorted, GetOptions;
    assert [] + m.options == m.options;
    OptionsRoundTrip(m.options, [], PayloadBytes(m));
    OptionsSizeIsLength(m.options, 0);
  }

  lemma BodySmall(flags: nat, head: Msg, d: seq<byte>)
    requires head.options == []
    ensures Small(ParseBody(flags, head, d).msg.options)
  {
    ParsedOptionsSmall(d, 0, []);
  }

  /** A composed packet is read back field by field exactly when its option numbers and lengths fit in 16 bits. */
  lemma ComposeParse(m: Msg)
    requires SizeError(m) == 0 && m.msgId < 0x1_0000
    ensures Parse(Compose(m).bytes) == Parsed(FieldsOf(m), m) <==> Small(m.options)
  {
    hide Parse, ParseBody, HeaderBytes, OptionsBytes, PayloadBytes, Small, Sorted;
    var body := OptionsBytes(m.options, 0) + PayloadBytes(m);
    var head := m.(options := [], payload := []);
    var flags := TYPE_FIELD + CLASS_FIELD + DETAIL_FIELD + ID_FIELD + if m.token == [] then 0 else TOKEN_FIELD;
    HeaderRoundTrip(m, body);
    assert Compose(m).bytes == HeaderBytes(m) + m.token + body;
    if Small(m.options) {
      AcceptedOptions(m.options, 0);
      BodyRoundTrip(flags, head, m);
    } else {
      BodySmall(flags, head, body);
    }
  }

  // ---- Composing undoes parsing ----

  lemma {:induction false} BuiltSmall(adds: seq<Opt>)
    requires Small(adds)
    ensures Small(Built(adds))
  {
    if adds != [] {
      var last := adds[|adds| - 1];
      assert last in adds && forall o <- adds[..|adds| - 1] :: o in adds;
      BuiltSmall(adds[..|adds| - 1]);
      InsertedSmall(Built(adds[..|adds| - 1]), last);
    }
  }

  /** A packet with legal header fields and options added one by one, all within 16 bits, is composed and read back. */
  lemma BuiltArrives(m: Msg, adds: seq<Opt>)
    requires m.msgType <= MAX_MSG_TYPE && |m.token| <= 8 && m.codeClass <= 7 && m.codeDetail <= 31 && m.msgId < 0x1_0000
    requires Small(adds) && m.options == Built(adds)
    ensures Compose(m).Packet? && Parse(Compose(m).bytes) == Parsed(FieldsOf(m), m)
  {
    hide Small, Sorted, OptionsError, Built, Parse, HeaderBytes, OptionsBytes, PayloadBytes;
    BuiltSmall(adds);
    BuiltIsStableSort(adds, 0);
    SortedAccepted(Built(adds), 0);
    ComposeParse(m);
  }

  /** No extended delta or length of this option exceeds 16 bits once 269 is added. */
  predicate Unwrapped(d: seq<byte>, o: OneOption)
    requires d != [] && o.OneOption?
  {
    (d[0] / 16 == 14 ==> o.delta >= 269) && (d[0] % 16 == 14 ==> |o.value| >= 269)
  }

  /** The options of d are complete and no number on the wire exceeds 16 bits. */
  predicate Exact(d: seq<byte>, prev: nat)
    decreases |d|
  {
    d == [] || d[0] == 0xFF ||
    var o := GetOption(d);
    o.OneOption? && Unwrapped(d, o) && prev + o.delta < 0x1_0000 && Exact(o.rest, prev + o.delta)
  }

  lemma ExtEncoded(d: seq<byte>, nibble: nat)
    requires nibble < 15 && GetExt(d, nibble).Ext? && (nibble == 14 ==> GetExt(d, nibble).value >= 269)
    ensures var e := GetExt(d, nibble);
            SplitOpt(e.value).0 == nibble && d == SplitOpt(e.value).1 + e.rest
  {}

  lemma ValueEncoded(n1: nat, n2: nat, d: seq<byte>)
    requires n1 < 15 && n2 < 15 && GetValue(n1, n2, d).OneOption?
    requires n1 == 14 ==> GetValue(n1, n2, d).delta >= 269
    requires n2 == 14 ==> |GetValue(n1, n2, d).value| >= 269
    ensures var o := GetValue(n1, n2, d);
            && SplitOpt(o.delta).0 == n1 && SplitOpt(|o.value|).0 == n2
            && d == SplitOpt(o.delta).1 + (SplitOpt(|o.value|).1 + (o.value + o.rest))
  {
    hide SplitOpt, GetExt, GetValue;
    ValueParts(n1, n2, d);
    ExtEncoded(d, n1);
    ExtEncoded(GetExt(d, n1).rest, n2);
  }

  lemma ValueParts(n1: nat, n2: nat, d: seq<byte>)
    requires n1 < 15 && n2 < 15 && GetValue(n1, n2, d).OneOption?
    ensures var o, delta := GetValue(n1, n2, d), GetExt(d, n1);
            && delta.Ext? && delta.value == o.delta
            && var length := GetExt(delta.rest, n2);
               length.Ext? && length.value == |o.value| && length.rest == o.value + o.rest
  {
    hide GetExt;
  }

  lemma OptionEncoded(d: seq<byte>, prev: nat)
    requires d != [] && GetOption(d).OneOption? && Unwrapped(d, GetOption(d)) && prev + GetOption(d).delta < 0x1_0000
    ensures var o := GetOption(d);
            d == OptionBytes(Opt(prev + o.delta, o.value), prev) + o.rest
  {
    hide GetValue, SplitOpt;
    var o := GetOption(d);
    ValueEncoded(d[0] / 16, d[0] % 16, d[1..]);
    var dExt, lExt := SplitOpt(o.delta).1, SplitOpt(|o.value|).1;
    assert d == [d[0]] + d[1..];
    assert [d[0]] + (dExt + (lExt + (o.value + o.rest))) == [d[0]] + dExt + lExt + o.value + o.rest;
  }

  lemma ExactStep(d: seq<byte>, acc: seq<Opt>) returns (o: Opt, rest: seq<byte>)
    requires Exact(d, LastNumber(acc)) && Sorted(acc) && d != [] && d[0] != 0xFF
    ensures d == OptionBytes(o, LastNumber(acc)) + rest && |rest| < |d| && Exact(rest, o.number)
    ensures Sorted(acc + [o])
    ensures GetOptions(d, LastNumber(acc), acc) == GetOptions(rest, o.number, acc + [o])
  {
    hide GetOption, OptionBytes, GetOptions;
    var g := GetOption(d);
    o, rest := Opt(LastNumber(acc) + g.delta, g.value), g.rest;
    OptionEncoded(d, LastNumber(acc));
    AppendSorted(acc, o);
    OptionStep(o, acc, rest);
  }

  /** The options read from d, encoded again, are the octets they were read from. */
  lemma {:induction false} OptionsEncoded(d: seq<byte>, acc: seq<Opt>) returns (opts: seq<Opt>, rest: seq<byte>)
    requires Exact(d, LastNumber(acc)) && Sorted(acc)
    ensures GetOptions(d, LastNumber(acc), acc) == Options(acc + opts, rest)
    ensures Sorted(acc + opts)
    ensures d == OptionsBytes(opts, LastNumber(acc)) + rest
    ensures rest == [] || rest[0] == 0xFF
    decreases |d|
  {
    hide GetOptions, Exact, OptionBytes, Sorted;
    if d == [] || d[0] == 0xFF {
      opts, rest := [], d;
      NoOptions(d, acc);
    } else {
      var o, later := ExactStep(d, acc);
      var more;
      more, rest := OptionsEncoded(later, acc + [o]);
      opts := [o] + more;
      Rebracket(acc, [o], more);
      OptionsBytesCons(o, more, LastNumber(acc));
      Rebracket(OptionBytes(o, LastNumber(acc)), OptionsBytes(more, o.number), rest);
    }
  }

  lemma NoOptions(d: seq<byte>, acc: seq<Opt>)
    requires d == [] || d[0] == 0xFF
    ensures GetOptions(d, LastNumber(acc), acc) == Options(acc + [], d)
    ensures d == OptionsBytes([], LastNumber(acc)) + d && acc + [] == acc
  {
    assert acc + [] == acc && d == [] + d;
  }

  lemma OptionsBytesCons(o: Opt, more: seq<Opt>, prev: nat)
    ensures OptionsBytes([o] + more, prev) == OptionBytes(o, prev) + OptionsBytes(more, o.number)
  {
    hide OptionBytes;
    assert ([o] + more)[1..] == more;
  }

  lemma AppendSorted(acc: seq<Opt>, o: Opt)
    requires Sorted(acc) && LastNumber(acc) <= o.number
    ensures Sorted(acc + [o])
  {}

  lemma {:induction false} SortedAccepted(opts: seq<Opt>, prev: nat)
    requires Sorted(opts) && Small(opts) && (opts != [] ==> prev <= opts[0].number)
    ensures !OptionsError(opts, prev)
  {
    hide Sorted, Small;
    if opts != [] {
      SortedTail(opts);
      SortedAccepted(opts[1..], opts[0].number);
    }
  }

  lemma SortedTail(opts: seq<Opt>)
    requires Sorted(opts) && Small(opts) && opts != []
    ensures Sorted(opts[1..]) && Small(opts[1..]) && Small(opts[..1])
    ensures |opts| > 1 ==> opts[0].number <= opts[1..][0].number
    ensures opts[0].number < 0x1_0000 && |opts[0].value| < 0x1_0000
  {
    assert opts[0] in opts && forall o <- opts[1..] :: o in opts;
  }

  /** Where the options of a packet begin. */
  function BodyOf(d: seq<byte>): seq<byte> {
    if |d| >= 4 && |d| >= 4 + d[0] % 16 then d[4 + d[0] % 16..] else []
  }

  /**
   * A packet that keeps to the format (version 1, at most 8 octets of token, complete options) and whose option
   * numbers and lengths stay within 16 bits and whose payload marker, if any, is followed by a payload.
   */
  predicate Canonical(d: seq<byte>) {
    && |d| >= 4 && d[0] / 64 == 1 && d[0] % 16 <= 8 && 4 + d[0] % 16 <= |d|
    && Exact(BodyOf(d), 0)
    && match GetOptions(BodyOf(d), 0, [])
       case Options(_, rest) => rest != [0xFF]
       case Bad(_) => false
  }

  /** Such a packet, parsed and composed again, is the same packet. */
  lemma ParseCompose(d: seq<byte>)
    requires Canonical(d)
    ensures Compose(Parse(d).msg) == Packet(d)
  {
    hide Canonical, OptionsError, OptionsBytes, HeaderBytes, PayloadBytes, Parse;
    var m := CanonicalParts(d);
    HeaderEncoded(d, m);
    var k := 4 + d[0] % 16;
    assert d[..4] + d[4..k] + d[k..] == d;
    Rebracket(d[..4] + d[4..k], OptionsBytes(m.options, 0), PayloadBytes(m));
  }

  lemma CanonicalParts(d: seq<byte>) returns (m: Msg)
    requires Canonical(d)
    ensures m == Parse(d).msg && |d| >= 4 && d[0] / 64 == 1 && 4 + d[0] % 16 <= |d| && d[0] % 16 <= 8
    ensures m.msgType == d[0] / 16 % 4 && m.token == d[4..4 + d[0] % 16]
    ensures m.codeClass == d[1] / 32 && m.codeDetail == d[1] % 32 && m.msgId == U16(d[2], d[3])
    ensures !OptionsError(m.options, 0) && d[4 + d[0] % 16..] == OptionsBytes(m.options, 0) + PayloadBytes(m)
  {
    hide Exact, OptionsError, GetOptions, OptionsBytes, ParseBody, PayloadBytes, Sorted;
    var k, body := d[0] % 16, BodyOf(d);
    var opts, rest := OptionsAccepted(body);
    var head := Msg(d[0] / 16 % 4, d[1] / 32, d[1] % 32, U16(d[2], d[3]), d[4..4 + k], [], []);
    var flags := TYPE_FIELD + CLASS_FIELD + DETAIL_FIELD + ID_FIELD + if k == 0 then 0 else TOKEN_FIELD;
    m := ParseBody(flags, head, body).msg;
    BodyParsed(flags, head, body, opts, rest);
  }

  lemma OptionsAccepted(body: seq<byte>) returns (opts: seq<Opt>, rest: seq<byte>)
    requires Exact(body, 0) && GetOptions(body, 0, []).Options?
    ensures GetOptions(body, 0, []) == Options(opts, rest) && (rest == [] || rest[0] == 0xFF)
    ensures !OptionsError(opts, 0) && body == OptionsBytes(opts, 0) + rest
  {
    assert Sorted([]);
    hide Exact, OptionsError, GetOptions, OptionsBytes, Sorted;
    opts, rest := OptionsEncoded(body, []);
    ParsedOptionsSmall(body, 0, []);
    assert [] + opts == opts;
    SortedAccepted(opts, 0);
  }

  lemma BodyParsed(flags: nat, head: Msg, body: seq<byte>, opts: seq<Opt>, rest: seq<byte>)
    requires GetOptions(body, 0, []) == Options(opts, rest) && rest != [0xFF] && (rest == [] || rest[0] == 0xFF)
    requires head.options == [] && head.payload == []
    ensures var m := ParseBody(flags, head, body).msg;
            m == head.(options := opts, payload := m.payload) && PayloadBytes(m) == rest
  {
    hide GetOptions;
    if body == [] {
      NoOptions(body, []);
    }
    assert |rest| > 1 ==> rest == [0xFF] + rest[1..];
  }

  lemma HeaderEncoded(d: seq<byte>, m: Msg)
    requires |d| >= 4 && d[0] / 64 == 1 && 4 + d[0] % 16 <= |d| && d[0] % 16 <= 8
    requires m.msgType == d[0] / 16 % 4 && m.token == d[4..4 + d[0] % 16]
    requires m.codeClass == d[1] / 32 && m.codeDetail == d[1] % 32 && m.msgId == U16(d[2], d[3])
    ensures HeaderBytes(m) == d[..4]
  {
    U16Halves(d[2], d[3]);
    FirstOctet(d[0]);
    SecondOctet(d[1]);
    hide U16;
    var h := HeaderBytes(m);
    assert h[0] == d[0] && h[1] == d[1] && h[2] == d[2] && h[3] == d[3];
  }

  lemma FirstOctet(b: byte)
    requires b / 64 == 1
    ensures 64 + b / 16 % 4 * 16 + b % 16 == b
  {
    assert 4 <= b / 16 < 8;
  }

  lemma SecondOctet(b: byte)
    ensures b / 32 * 32 + b % 32 == b
  {}
}
