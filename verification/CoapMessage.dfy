/** `struct mg_coap_message`: the linked option list, and composing into and parsing from a buffer. */
module CoapMessage {
  import opened Bytes
  import opened Buffers
  import opened CoapSpec
  import opened CoapCodec

  class OptionNode {
    var number: nat
    var value: seq<byte>
    var next: OptionNode?

    constructor (number: nat, value: seq<byte>)
      ensures this.number == number && this.value == value && next == null
    {
      this.number := number;
      this.value := value;
      next := null;
    }
  }

  ghost predicate Distinct(s: seq<OptionNode>) {
    forall i, j :: 0 <= i < j < |s| ==> s[i] != s[j]
  }

  ghost function NextIn(s: seq<OptionNode>, i: nat, end: OptionNode?): OptionNode? {
    if i + 1 < |s| then s[i + 1] else end
  }

  /** Each node points to the one after it, and the last to `end`. */
  ghost predicate Chain(s: seq<OptionNode>, end: OptionNode?)
    reads s
  {
    forall i :: 0 <= i < |s| ==> s[i].next == NextIn(s, i, end)
  }

  lemma ChainSplit(s: seq<OptionNode>, k: nat, end: OptionNode?)
    requires Chain(s, end) && k < |s|
    ensures Chain(s[..k], s[k]) && Chain(s[k..], end)
  {
    forall i | 0 <= i < |s| - k
      ensures s[k..][i].next == NextIn(s[k..], i, end)
    {
      assert s[k + i].next == NextIn(s, k + i, end);
    }
  }

  lemma DistinctSplice(s: seq<OptionNode>, k: nat, o: OptionNode)
    requires Distinct(s) && k <= |s| && o !in s
    ensures Distinct(s[..k] + [o] + s[k..])
  {
    var r := s[..k] + [o] + s[k..];
    assert forall i :: 0 <= i < |r| ==> r[i] == if i < k then s[i] else if i == k then o else s[i - 1];
  }

  lemma DistinctSplit(s: seq<OptionNode>, k: nat)
    requires Distinct(s) && k <= |s|
    ensures Distinct(s[..k]) && forall n <- s[..k] :: n !in s[k..]
  {}

  lemma ChainOne(o: OptionNode)
    ensures Distinct([o]) && Chain([o], o.next)
  {}

  lemma ChainNone(end: OptionNode?)
    ensures Chain([], end)
  {}

  lemma ChainJoin(a: seq<OptionNode>, b: seq<OptionNode>, end: OptionNode?)
    requires b != [] && Chain(a, b[0]) && Chain(b, end)
    ensures Chain(a + b, end)
  {
    forall i | 0 <= i < |a + b|
      ensures (a + b)[i].next == NextIn(a + b, i, end)
    {
      if i < |a| {
        assert a[i].next == NextIn(a, i, b[0]);
      } else {
        assert b[i - |a|].next == NextIn(b, i - |a|, end);
      }
    }
  }

  /** Points the last node of s elsewhere. */
  method Redirect(last: OptionNode, to: OptionNode?, ghost s: seq<OptionNode>, ghost end: OptionNode?)
    requires Distinct(s) && s != [] && last == s[|s| - 1] && Chain(s, end)
    modifies last`next
    ensures Chain(s, to)
  {
    assert forall i :: 0 <= i < |s| - 1 ==> s[i] != last && s[i].next == NextIn(s, i, to);
    last.next := to;
  }

  class Message {
    var flags: nat
    var msgType: nat
    var codeClass: nat
    var codeDetail: nat
    var msgId: nat
    var token: seq<byte>
    var payload: seq<byte>
    var options: OptionNode?
    var tail: OptionNode? // meaningless while there are no options
    ghost var nodes: seq<OptionNode>

    ghost predicate Valid()
      reads this, nodes
    {
      && Distinct(nodes)
      && options == (if nodes == [] then null else nodes[0])
      && (nodes != [] ==> tail == nodes[|nodes| - 1])
      && Chain(nodes, null)
    }

    ghost function Options(): (opts: seq<Opt>)
      reads this, nodes
      ensures |opts| == |nodes|
    {
      seq(|nodes|, i requires 0 <= i < |nodes| reads this, nodes => Opt(nodes[i].number, nodes[i].value))
    }

    ghost function Msg(): Msg
      reads this, nodes
    {
      CoapSpec.Msg(msgType, codeClass, codeDetail, msgId, token, Options(), payload)
    }

    constructor ()
      ensures Valid() && Msg() == BLANK && flags == 0 && nodes == []
    {
      flags, msgType, codeClass, codeDetail, msgId := 0, 0, 0, 0, 0;
      token, payload := [], [];
      options, tail := null, null;
      nodes := [];
    }

    method AddOption(number: nat, value: seq<byte>)
      requires Valid()
      modifies this`options, this`tail, this`nodes, nodes`next
      ensures Valid() && Options() == Inserted(old(Options()), Opt(number, value))
      ensures forall n <- nodes :: n in old(nodes) || fresh(n)
    {
      var o := new OptionNode(number, value);
      if options == null {
        options, tail := o, o;
        nodes := [o];
      } else if tail.number <= number {
        Append(o);
      } else {
        InsertBeforeGreater(o);
      }
    }

    method Append(o: OptionNode)
      requires Valid() && nodes != [] && o !in nodes && o.next == null
      modifies this`tail, this`nodes, nodes`next
      ensures Valid() && Options() == old(Options()) + [Opt(o.number, o.value)]
      ensures nodes == old(nodes) + [o]
    {
      hide Distinct, Chain;
      DistinctSplice(nodes, |nodes|, o);
      assert nodes[..|nodes|] + [o] + nodes[|nodes|..] == nodes + [o];
      ChainOne(o);
      Redirect(tail, o, nodes, null);
      ChainJoin(nodes, [o], null);
      tail := o;
      nodes := nodes + [o];
    }

    /** The first option that is greater, and the one before it. */
    method FindGreater(number: nat) returns (prev: OptionNode?, current: OptionNode)
      requires Valid() && nodes != [] && tail.number > number
      ensures Valid()
      ensures var k := UpToFirstGreater(Options(), number);
              && k < |nodes| && current == nodes[k]
              && prev == if k == 0 then null else nodes[k - 1]
    {
      var c: OptionNode? := options;
      prev := null;
      ghost var k := 0;
      ghost var opts := Options();
      while c != null
        invariant 0 <= k < |nodes| && c == nodes[k]
        invariant prev == if k == 0 then null else nodes[k - 1]
        invariant k + UpToFirstGreater(opts[k..], number) == UpToFirstGreater(opts, number)
        decreases |nodes| - k
      {
        if c.number > number {
          break;
        }
        assert opts[k..][1..] == opts[k + 1..];
        prev := c;
        c := c.next;
        k := k + 1;
      }
      current := c;
    }

    /** Puts o between two neighbours, or first. */
    method Link(prev: OptionNode?, current: OptionNode, o: OptionNode, ghost k: nat)
      requires Valid() && k < |nodes| && current == nodes[k] && prev == (if k == 0 then null else nodes[k - 1])
      requires o !in nodes
      modifies this`options, this`nodes, nodes`next, o`next
      ensures Valid() && nodes == old(nodes[..k]) + [o] + old(nodes[k..])
    {
      hide Chain, Distinct;
      ghost var a, b := nodes[..k], nodes[k..];
      ChainSplit(nodes, k, null);
      DistinctSplice(nodes, k, o);
      DistinctSplit(nodes, k);
      o.next := current;
      assert Chain(b, null);
      ChainOne(o);
      if prev != null {
        assert prev == a[k - 1] && prev in a && prev !in b;
        Redirect(prev, o, a, b[0]);
      } else {
        options := o;
        assert a == [];
        ChainNone(o);
      }
      ChainJoin([o], b, null);
      ChainJoin(a, [o] + b, null);
      Rebracket(a, [o], b);
      nodes := a + [o] + b;
    }

    method InsertBeforeGreater(o: OptionNode)
      requires Valid() && nodes != [] && tail.number > o.number && o !in nodes
      modifies this`options, this`nodes, nodes`next, o`next
      ensures Valid() && Options() == Inserted(old(Options()), Opt(o.number, o.value))
      ensures forall n <- nodes :: n in old(nodes) || n == o
    {
      hide UpToFirstGreater, Inserted, Chain, Distinct;
      ghost var was, opts := nodes, Options();
      ghost var k := UpToFirstGreater(opts, o.number);
      var prev, current := FindGreater(o.number);
      Link(prev, current, o, k);
      assert Options() == opts[..k] + [Opt(o.number, o.value)] + opts[k..];
      InsertedBeforeEnd(opts, Opt(o.number, o.value));
    }

    lemma InsertedBeforeEnd(opts: seq<Opt>, o: Opt)
      requires opts != [] && opts[|opts| - 1].number > o.number
      ensures var k := UpToFirstGreater(opts, o.number);
              Inserted(opts, o) == opts[..k] + [o] + opts[k..]
    {}

    // ---- Composing ----

    /** Checks the message and adds up what its packet will take. */
    method CalculateSize() returns (res: nat, size: nat)
      requires Valid()
      ensures res == SizeError(Msg()) && (res == 0 ==> size == PacketSize(Msg()))
    {
      size := 4;
      if msgType > MAX_MSG_TYPE {
        return ERROR + TYPE_FIELD, size;
      }
      if |token| > 8 {
        return ERROR + TOKEN_FIELD, size;
      }
      if codeClass > 7 {
        return ERROR + CLASS_FIELD, size;
      }
      if codeDetail > 31 {
        return ERROR + DETAIL_FIELD, size;
      }
      size := size + |token|;
      if |payload| != 0 {
        size := size + |payload| + 1;
      }
      var ok, n := OptionsTotal();
      return if ok then 0 else ERROR + OPTION_FIELD, size + n;
    }

    method OptionsTotal() returns (ok: bool, size: nat)
      requires Valid()
      ensures ok == !OptionsError(Options(), 0) && (ok ==> size == OptionsSize(Options(), 0))
    {
      var opt, prevNumber := options, 0;
      size := 0;
      ghost var opts, k := Options(), 0;
      while opt != null
        invariant 0 <= k <= |nodes| && opt == if k < |nodes| then nodes[k] else null
        invariant OptionsError(opts, 0) == OptionsError(opts[k..], prevNumber)
        invariant size + OptionsSize(opts[k..], prevNumber) == OptionsSize(opts, 0)
        decreases |nodes| - k
      {
        assert opts[k..][1..] == opts[k + 1..];
        assert opts[k] == Opt(opt.number, opt.value);
        var delta := Delta(opt.number, prevNumber);
        assert nodes[k].next == NextIn(nodes, k, null);
        if (opt.next != null && opt.number > opt.next.number) || |opt.value| > MAX_EXT || delta > MAX_EXT {
          return false, size;
        }
        size := size + 1 + ExtSize(delta) + ExtSize(|opt.value|) + |opt.value|;
        prevNumber := opt.number;
        opt := opt.next;
        k := k + 1;
      }
      ok := true;
    }

    /** Writes the packet behind what the buffer holds. */
    method Compose(io: Mbuf, avail: nat) returns (res: nat)
      requires Valid() && io.Valid()
      modifies io, io.buf
      ensures io.Valid()
      ensures var size := old(io.len) + PacketSize(Msg());
              res == if SizeError(Msg()) != 0 then SizeError(Msg())
                     else if size <= old(io.buf.Length) || size <= avail then 0
                     else ERROR
      ensures io.Contents() == old(io.Contents()) + if res == 0 then CoapCodec.Compose(Msg()).bytes else []
    {
      hide SizeError, PacketSize, CoapCodec.Compose, Options, Chain, Distinct;
      var size;
      res, size := CalculateSize();
      if res != 0 {
        return;
      }
      var ptr := io.len;
      var added := io.Extend(size, avail);
      if added == 0 {
        return ERROR;
      }
      WritePacket(io, ptr);
      assert io.Contents() == io.buf[..ptr + size];
    }

    method WritePacket(io: Mbuf, ptr: nat)
      requires Valid() && io.Valid() && SizeError(Msg()) == 0 && ptr + PacketSize(Msg()) <= io.len
      modifies io.buf
      ensures io.Valid()
      ensures io.buf[..ptr + PacketSize(Msg())] == old(io.buf[..ptr]) + CoapCodec.Compose(Msg()).bytes
    {
      hide CoapCodec.Compose, CoapCodec.HeaderBytes, OptionsBytes, PayloadBytes, PacketSize, SizeError, OptionsSize,
           OptionsError, Chain, Distinct, Options;
      ghost var before, m := io.buf[..ptr], Msg();
      SizeIsLength(m);
      PayloadIs(m);
      WithinLimits(m);
      var after := PutFront(io, ptr, m);
      after := PutOptions(io, after, m.options);
      after := Put(io, after, if payload == [] then [] else [0xFF] + payload);
      Rebracket(before, CoapCodec.HeaderBytes(m) + m.token, OptionsBytes(m.options, 0));
      Rebracket(before, CoapCodec.HeaderBytes(m) + m.token + OptionsBytes(m.options, 0), PayloadBytes(m));
    }

    method PutFront(io: Mbuf, ptr: nat, ghost m: CoapSpec.Msg) returns (after: nat)
      requires m == Msg() && io.Valid() && ptr + 4 + |token| <= io.len
      requires msgType <= MAX_MSG_TYPE && |token| <= 8 && codeClass <= 7 && codeDetail <= 31
      modifies io.buf
      ensures io.Valid() && after == ptr + 4 + |token|
      ensures io.buf[..after] == old(io.buf[..ptr]) + (CoapCodec.HeaderBytes(m) + m.token)
    {
      hide CoapCodec.HeaderBytes, Options;
      Rebracket(io.buf[..ptr], CoapCodec.HeaderBytes(m), m.token);
      after := PutHeader(io, ptr, m);
      after := Put(io, after, token);
    }

    lemma WithinLimits(m: CoapSpec.Msg)
      requires SizeError(m) == 0
      ensures m.msgType <= MAX_MSG_TYPE && |m.token| <= 8 && m.codeClass <= 7 && m.codeDetail <= 31
      ensures PacketSize(m) == 4 + |m.token| + OptionsSize(m.options, 0) + |PayloadBytes(m)|
      ensures CoapCodec.Compose(m)
              == Packet(CoapCodec.HeaderBytes(m) + m.token + OptionsBytes(m.options, 0) + PayloadBytes(m))
    {
      hide OptionsSize, OptionsBytes, OptionsError, CoapCodec.HeaderBytes;
    }

    lemma PayloadIs(m: CoapSpec.Msg)
      ensures PayloadBytes(m) == if m.payload == [] then [] else [0xFF] + m.payload
    {}

    method PutHeader(io: Mbuf, ptr: nat, ghost m: CoapSpec.Msg) returns (after: nat)
      requires m == Msg() && io.Valid() && ptr + 4 <= io.len
      requires msgType <= MAX_MSG_TYPE && |token| <= 8 && codeClass <= 7 && codeDetail <= 31
      modifies io.buf
      ensures io.Valid() && after == ptr + 4
      ensures io.buf[..after] == old(io.buf[..ptr]) + CoapCodec.HeaderBytes(m)
    {
      var first, second := 64 + msgType * 16 + |token|, codeClass * 32 + codeDetail;
      after := Put(io, ptr, [first, second, msgId / 256 % 256, msgId % 256]);
    }

    method PutOptions(io: Mbuf, ptr: nat, ghost opts: seq<Opt>) returns (after: nat)
      requires Valid() && opts == Options() && io.Valid() && ptr + OptionsSize(opts, 0) <= io.len
      modifies io.buf
      ensures io.Valid() && after == ptr + OptionsSize(opts, 0)
      ensures io.buf[..after] == old(io.buf[..ptr]) + OptionsBytes(opts, 0)
    {
      hide OptionBytes;
      var opt, prevNumber := options, 0;
      after := ptr;
      ghost var k := 0;
      ghost var goal := io.buf[..ptr] + OptionsBytes(opts, 0);
      while opt != null
        invariant Valid() && io.Valid() && opts == Options()
        invariant 0 <= k <= |nodes| && opt == if k < |nodes| then nodes[k] else null
        invariant after + OptionsSize(opts[k..], prevNumber) == ptr + OptionsSize(opts, 0)
        invariant io.buf[..after] + OptionsBytes(opts[k..], prevNumber) == goal
        decreases |nodes| - k
      {
        assert opts[k..][1..] == opts[k + 1..] && opts[k..][0] == Opt(opt.number, opt.value);
        assert nodes[k].next == NextIn(nodes, k, null);
        Rebracket(io.buf[..after], OptionBytes(opts[k], prevNumber), OptionsBytes(opts[k + 1..], opt.number));
        after := PutOption(io, after, opt.number, opt.value, prevNumber);
        prevNumber := opt.number;
        opt := opt.next;
        k := k + 1;
      }
      assert opts[k..] == [];
    }
  
    // ---- Parsing ----

    /** `mg_coap_parse`: reads the packet in the buffer into this message. */
    method Parse(io: Mbuf) returns (res: nat)
      requires io.Valid()
      modifies this
      ensures Valid() && forall n <- nodes :: fresh(n)
      ensures Parsed(flags, Msg()) == CoapCodec.Parse(io.Contents()) && res == flags
    {
      flags, msgType, codeClass, codeDetail, msgId := 0, 0, 0, 0, 0;
      token, payload, options, tail, nodes := [], [], null, null, [];
      var ptr := ParseHeader(io);
      if ptr > 0 {
        hide CoapCodec.ParseBody, CoapCodec.Parse;
        ParseBody(io, ptr);
      }
      return flags;
    }

    /** The header and the token; returns where the options begin, 0 on error. */
    method ParseHeader(io: Mbuf) returns (ptr: nat)
      requires Valid() && io.Valid() && Msg() == BLANK && flags == 0 && nodes == []
      modifies this`flags, this`msgType, this`codeClass, this`codeDetail, this`msgId, this`token
      ensures Valid() && ptr <= io.len
      ensures var p := CoapCodec.Parse(io.Contents());
              if ptr == 0 then Parsed(flags, Msg()) == p
              else CoapCodec.ParseBody(flags, Msg(), io.Contents()[ptr..]) == p
    {
      hide Chain, Distinct, U16, CoapCodec.ParseBody;
      var d := io.buf[..io.len];
      ptr := 0;
      if io.len < 4 {
        flags := NOT_ENOUGH_DATA;
        return;
      }
      assert d[0] == io.buf[0] && d[1] == io.buf[1] && d[2] == io.buf[2] && d[3] == io.buf[3];
      if io.buf[0] / 64 != 1 {
        flags := IGNORE;
        return;
      }
      msgType := io.buf[0] / 16 % 4;
      var tokenLen := io.buf[0] % 16;
      if tokenLen > 8 {
        flags := TYPE_FIELD + FORMAT_ERROR;
        return;
      }
      codeClass, codeDetail := io.buf[1] / 32, io.buf[1] % 32;
      msgId := U16(io.buf[2], io.buf[3]);
      flags := TYPE_FIELD + CLASS_FIELD + DETAIL_FIELD + ID_FIELD;
      if 4 + tokenLen > io.len {
        flags := flags + NOT_ENOUGH_DATA;
        return;
      }
      if tokenLen != 0 {
        flags := flags + TOKEN_FIELD;
      }
      token := d[4..4 + tokenLen];
      ptr := 4 + tokenLen;
    }

    /** The options from ptr on, and the payload. */
    method ParseBody(io: Mbuf, ptr: nat)
      requires Valid() && io.Valid() && ptr <= io.len && nodes == [] && payload == []
      modifies this
      ensures Valid() && forall n <- nodes :: fresh(n)
      ensures Parsed(flags, Msg()) == CoapCodec.ParseBody(old(flags), old(Msg()), io.Contents()[ptr..])
    {
      hide GetOptions;
      ghost var m, d := Msg(), io.Contents();
      assert m.options == [];
      if ptr == io.len {
        return;
      }
      var error, after := ParseOptions(io, ptr);
      if error != 0 {
        flags := flags + error;
        FreeOptions();
        assert Msg() == m;
        return;
      }
      flags := flags + OPTION_FIELD;
      if io.len - after > 1 {
        payload := io.buf[after + 1..io.len];
        assert payload == d[after..][1..];
        flags := flags + PAYLOAD_FIELD;
      }
      assert Msg() == m.(options := Options(), payload := payload);
    }

    method FreeOptions()
      modifies this`options, this`nodes
      ensures Valid() && nodes == [] && Options() == []
    {
      options := null;
      nodes := [];
    }

    /** Adds the options from ptr on; an error stops it. */
    method ParseOptions(io: Mbuf, start: nat) returns (error: nat, ptr: nat)
      requires Valid() && io.Valid() && start <= io.len && nodes == []
      modifies this`options, this`tail, this`nodes
      ensures Valid() && ptr <= io.len && forall n <- nodes :: fresh(n)
      ensures match GetOptions(io.Contents()[start..], 0, [])
              case Options(opts, rest) => error == 0 && Options() == opts && rest == io.Contents()[ptr..]
              case Bad(flags) => error == flags != 0
    {
      hide GetOption, Inserted;
      ghost var d := io.Contents();
      var prevOpt := 0;
      ptr := start;
      assert Options() == [];
      while ptr < io.len && io.buf[ptr] != 0xFF
        invariant Valid() && (forall i :: 0 <= i < |nodes| ==> fresh(nodes[i])) && start <= ptr <= io.len
        invariant GetOptions(d[ptr..], prevOpt, Options()) == GetOptions(d[start..], 0, [])
      {
        var delta, value, after;
        error, delta, value, after := ReadOption(io, ptr);
        if error != 0 {
          return;
        }
        var number := (delta + prevOpt) % 0x1_0000;
        ghost var was := nodes;
        AddOption(number, value);
        forall i | 0 <= i < |nodes|
          ensures fresh(nodes[i])
        {
          assert nodes[i] in nodes;
          assert nodes[i] in was ==> exists j :: 0 <= j < |was| && was[j] == nodes[i];
        }
        prevOpt := number;
        ptr := after;
      }
      error := 0;
    }
  }

  /** Reads the option at ptr; an error is a result mask. */
  method ReadOption(io: Mbuf, ptr: nat) returns (error: nat, delta: nat, value: seq<byte>, after: nat)
    requires io.Valid() && ptr < io.len
    ensures match GetOption(io.Contents()[ptr..])
            case OneOption(d, v, rest) =>
              error == 0 && delta == d && value == v && ptr < after <= io.len && rest == io.Contents()[after..]
            case BadOption(flags) => error == flags != 0
  {
    hide GetValue;
    ghost var d := io.Contents();
    var n1, n2 := io.buf[ptr] / 16, io.buf[ptr] % 16;
    if n1 == 15 || n2 == 15 {
      return FORMAT_ERROR, 0, [], ptr;
    }
    assert d[ptr..][1..] == d[ptr + 1..];
    var ok;
    ok, delta, value, after := ReadValue(io, ptr + 1, n1, n2);
    error := if ok then 0 else NOT_ENOUGH_DATA;
  }

  method ReadValue(io: Mbuf, ptr: nat, n1: nat, n2: nat)
    returns (ok: bool, delta: nat, value: seq<byte>, after: nat)
    requires io.Valid() && ptr <= io.len && n1 < 15 && n2 < 15
    ensures ptr <= after <= io.len
    ensures GetValue(n1, n2, io.Contents()[ptr..])
            == if ok then OneOption(delta, value, io.Contents()[after..]) else BadOption(NOT_ENOUGH_DATA)
  {
    hide GetExt;
    ghost var d := io.Contents();
    value := [];
    ok, delta, after := ReadExt(io, ptr, n1);
    if ok {
      var length;
      ok, length, after := ReadExt(io, after, n2);
      if ok {
        if after + length > io.len {
          ok := false;
        } else {
          value := io.buf[..io.len][after..after + length];
          SliceBehind(d, after, length);
          after := after + length;
        }
      }
    }
  }

  /** `coap_get_ext_opt`. */
  method ReadExt(io: Mbuf, ptr: nat, nibble: nat) returns (ok: bool, value: nat, after: nat)
    requires io.Valid() && ptr <= io.len && nibble < 15
    ensures ptr <= after <= io.len
    ensures GetExt(io.Contents()[ptr..], nibble) == if ok then Ext(value, io.Contents()[after..]) else NoData
  {
    ok, value, after := true, nibble, ptr;
    if nibble == 13 {
      if ptr < io.len {
        value, after := io.buf[ptr] as int + 13, ptr + 1;
      } else {
        ok := false;
      }
    } else if nibble == 14 {
      if ptr + 1 < io.len {
        value, after := (U16(io.buf[ptr], io.buf[ptr + 1]) + 269) % 0x1_0000, ptr + 2;
      } else {
        ok := false;
      }
    }
    assert ok ==> io.Contents()[ptr..][after - ptr..] == io.Contents()[after..];
  }

  method PutOption(io: Mbuf, ptr: nat, number: nat, value: seq<byte>, prev: nat) returns (after: nat)
    requires io.Valid()
    requires ptr + 1 + ExtSize(Delta(number, prev)) + ExtSize(|value|) + |value| <= io.len
    modifies io.buf
    ensures io.Valid()
    ensures after == ptr + 1 + ExtSize(Delta(number, prev)) + ExtSize(|value|) + |value|
    ensures io.buf[..after] == old(io.buf[..ptr]) + OptionBytes(Opt(number, value), prev)
  {
    hide SplitOpt, ExtSize;
    var (deltaBase, deltaExt) := SplitOpt(Delta(number, prev));
    var (lengthBase, lengthExt) := SplitOpt(|value|);
    after := Put(io, ptr, [deltaBase * 16 + lengthBase]);
    after := Put(io, after, deltaExt);
    after := Put(io, after, lengthExt);
    after := Put(io, after, value);
    ghost var before := old(io.buf[..ptr]);
    Rebracket(before, [deltaBase * 16 + lengthBase], deltaExt);
    Rebracket(before, [deltaBase * 16 + lengthBase] + deltaExt, lengthExt);
    Rebracket(before, [deltaBase * 16 + lengthBase] + deltaExt + lengthExt, value);
  }

  /** Writes data at ptr, inside the buffer, and steps over it. */
  method Put(io: Mbuf, ptr: nat, data: seq<byte>) returns (after: nat)
    requires io.Valid() && ptr + |data| <= io.len
    modifies io.buf
    ensures io.Valid() && after == ptr + |data| && io.buf[..after] == old(io.buf[..ptr]) + data
  {
    MemCopy(io.buf, ptr, data);
    after := ptr + |data|;
  }
}
