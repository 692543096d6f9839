/** CoAP messages (sections 3 and 3.1 of RFC 7252): option lists, composing and parsing, as functions. */
module CoapSpec {
  import opened Bytes

  datatype Opt = Opt(number: nat, value: seq<byte>)

  datatype Msg = Msg(msgType: nat, codeClass: nat, codeDetail: nat, msgId: nat, token: seq<byte>,
                     options: seq<Opt>, payload: seq<byte>)

  // The bits of the result mask.
  const TYPE_FIELD := 0x2
  const CLASS_FIELD := 0x4
  const DETAIL_FIELD := 0x8
  const ID_FIELD := 0x10
  const TOKEN_FIELD := 0x20
  const OPTION_FIELD := 0x40
  const PAYLOAD_FIELD := 0x80
  const ERROR := 0x1_0000
  const FORMAT_ERROR := ERROR + 0x2_0000
  const IGNORE := ERROR + 0x4_0000
  const NOT_ENOUGH_DATA := ERROR + 0x8_0000

  const MAX_MSG_TYPE := 3
  const MAX_EXT := 0xFFFF + 269

  // ---- The option list ----

  /** How many options come before the first whose number exceeds n. */
  function UpToFirstGreater(opts: seq<Opt>, n: nat): (k: nat)
    ensures k <= |opts|
  {
    if opts == [] || opts[0].number > n then 0 else 1 + UpToFirstGreater(opts[1..], n)
  }

  /** `mg_coap_add_option`. */
  function Inserted(opts: seq<Opt>, o: Opt): seq<Opt> {
    if opts == [] || opts[|opts| - 1].number <= o.number then opts + [o]
    else
      var k := UpToFirstGreater(opts, o.number);
      opts[..k] + [o] + opts[k..]
  }

  function Built(adds: seq<Opt>): seq<Opt> {
    if adds == [] then [] else Inserted(Built(adds[..|adds| - 1]), adds[|adds| - 1])
  }

  ghost predicate Sorted(opts: seq<Opt>) {
    forall i, j :: 0 <= i < j < |opts| ==> opts[i].number <= opts[j].number
  }

  /** The options numbered n, in order. */
  function Numbered(opts: seq<Opt>, n: nat): seq<Opt> {
    if opts == [] then []
    else (if opts[0].number == n then [opts[0]] else []) + Numbered(opts[1..], n)
  }

  lemma {:induction false} NumberedSplit(a: seq<Opt>, b: seq<Opt>, n: nat)
    ensures Numbered(a + b, n) == Numbered(a, n) + Numbered(b, n)
  {
    if a == [] {
      assert a + b == b;
    } else {
      assert (a + b)[1..] == a[1..] + b;
      NumberedSplit(a[1..], b, n);
      Rebracket(if a[0].number == n then [a[0]] else [], Numbered(a[1..], n), Numbered(b, n));
    }
  }

  lemma {:induction false} NumberedNone(opts: seq<Opt>, n: nat)
    requires forall o <- opts :: o.number != n
    ensures Numbered(opts, n) == []
  {
    if opts != [] {
      assert opts[0] in opts;
      assert forall o <- opts[1..] :: o in opts;
      NumberedNone(opts[1..], n);
    }
  }

  lemma {:induction false} FirstGreater(opts: seq<Opt>, n: nat)
    ensures var k := UpToFirstGreater(opts, n);
            (forall i :: 0 <= i < k ==> opts[i].number <= n) && (k < |opts| ==> opts[k].number > n)
  {
    if opts != [] && opts[0].number <= n {
      FirstGreater(opts[1..], n);
      forall i | 0 <= i < UpToFirstGreater(opts, n)
        ensures opts[i].number <= n
      {
        if i > 0 {
          assert opts[1..][i - 1] == opts[i];
        }
      }
    }
  }

  lemma InsertedSorted(opts: seq<Opt>, o: Opt)
    requires Sorted(opts)
    ensures Sorted(Inserted(opts, o))
  {
    FirstGreater(opts, o.number);
  }

  /** An option is put after those of the same number. */
  lemma InsertedStable(opts: seq<Opt>, o: Opt, n: nat)
    requires Sorted(opts)
    ensures Numbered(Inserted(opts, o), n) == Numbered(opts, n) + Numbered([o], n)
  {
    hide Numbered;
    if opts == [] || opts[|opts| - 1].number <= o.number {
      NumberedSplit(opts, [o], n);
    } else {
      LaterAreGreater(opts, o.number);
      var k := UpToFirstGreater(opts, o.number);
      hide UpToFirstGreater, Sorted;
      assert opts == opts[..k] + opts[k..];
      PutBetween(opts[..k], o, opts[k..], n);
    }
  }

  lemma LaterAreGreater(opts: seq<Opt>, n: nat)
    requires Sorted(opts)
    ensures forall later <- opts[UpToFirstGreater(opts, n)..] :: later.number != n
  {
    FirstGreater(opts, n);
    hide UpToFirstGreater;
    var k := UpToFirstGreater(opts, n);
    forall later | later in opts[k..]
      ensures later.number != n
    {
      var i :| 0 <= i < |opts[k..]| && opts[k..][i] == later;
      assert later == opts[k + i] && (i > 0 ==> opts[k].number <= opts[k + i].number);
    }
  }

  lemma PutBetween(a: seq<Opt>, o: Opt, b: seq<Opt>, n: nat)
    requires forall later <- b :: later.number != o.number
    ensures Numbered(a + [o] + b, n) == Numbered(a + b, n) + Numbered([o], n)
  {
    hide Numbered;
    NumberedSplit(a, b, n);
    NumberedSplit(a + [o], b, n);
    NumberedSplit(a, [o], n);
    if n == o.number {
      NumberedNone(b, n);
    } else {
      OtherNumber(o, n);
    }
    SwapEmpty(Numbered(a, n), Numbered(b, n), Numbered([o], n));
  }

  lemma SwapEmpty(x: seq<Opt>, y: seq<Opt>, z: seq<Opt>)
    requires y == [] || z == []
    ensures x + z + y == x + y + z
  {
    if y == [] {
      assert x + y == x && x + z + y == x + z;
    } else {
      assert x + z == x && x + y + z == x + y;
    }
  }

  lemma OtherNumber(o: Opt, n: nat)
    ensures n != o.number ==> Numbered([o], n) == []
  {}

  /** A list built by adding options is their stable ascending sort. */
  lemma {:induction false} BuiltIsStableSort(adds: seq<Opt>, n: nat)
    ensures Sorted(Built(adds)) && Numbered(Built(adds), n) == Numbered(adds, n)
  {
    if adds != [] {
      var before, o := adds[..|adds| - 1], adds[|adds| - 1];
      BuiltIsStableSort(before, n);
      InsertedSorted(Built(before), o);
      InsertedStable(Built(before), o, n);
      assert adds == before + [o];
      NumberedSplit(before, [o], n);
    }
  }

  lemma NumberedTail(opts: seq<Opt>, n: nat)
    requires opts != []
    ensures if opts[0].number == n then Numbered(opts, n) != [] && Numbered(opts[1..], n) == Numbered(opts, n)[1..]
            else Numbered(opts[1..], n) == Numbered(opts, n)
  {
    if opts[0].number != n {
      assert Numbered(opts, n) == [] + Numbered(opts[1..], n);
    }
  }

  /** A sorted list that has all the numbers of another begins no later. */
  lemma SmallerHead(a: seq<Opt>, b: seq<Opt>)
    requires Sorted(a) && forall n: nat :: Numbered(a, n) == Numbered(b, n)
    ensures b != [] ==> a != [] && a[0].number <= b[0].number
  {
    if b != [] && forall o <- a :: o.number != b[0].number {
      NumberedNone(a, b[0].number);
      NumberedTail(b, b[0].number);
    }
  }

  /** Being sorted and stable leaves no choice. */
  lemma {:induction false} StableSortUnique(a: seq<Opt>, b: seq<Opt>)
    requires Sorted(a) && Sorted(b) && forall n: nat :: Numbered(a, n) == Numbered(b, n)
    ensures a == b
  {
    SmallerHead(a, b);
    SmallerHead(b, a);
    if a != [] {
      var n := a[0].number;
      assert Numbered(a, n)[0] == a[0] && Numbered(b, n)[0] == b[0];
      forall m: nat
        ensures Numbered(a[1..], m) == Numbered(b[1..], m)
      {
        assert Numbered(a, m) == Numbered(b, m);
        NumberedTail(a, m);
        NumberedTail(b, m);
      }
      StableSortUnique(a[1..], b[1..]);
      assert a == [a[0]] + a[1..] && b == [b[0]] + b[1..];
    }
  }

  lemma SortedAppend(opts: seq<Opt>, o: Opt)
    requires Sorted(opts + [o])
    ensures Inserted(opts, o) == opts + [o]
  {
    if opts != [] {
      assert (opts + [o])[|opts| - 1] == opts[|opts| - 1] && (opts + [o])[|opts|] == o;
    }
  }
}
