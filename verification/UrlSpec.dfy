/** Percent-encoding, and the variables of a query string. */
module UrlSpec {
  import opened Bytes
  import opened Chars

  const PERCENT: byte := 37
  const PLUS: byte := 43
  const SPACE: byte := 32
  const AMPERSAND: byte := 38
  const EQUALS: byte := 61

  predicate IsAlnum(c: byte) {
    IsDigit(c) || 65 <= c <= 90 || 97 <= c <= 122
  }

  // ---- Encoding ----

  /** The flags of `mg_url_encode_opt`. */
  datatype Flags = Flags(spaceAsPlus: bool, upper: bool)

  /** "._-$,;~()/" */
  const USUAL: seq<byte> := [46, 95, 45, 36, 44, 59, 126, 40, 41, 47]

  function EncodeOne(c: byte, safe: seq<byte>, f: Flags): (e: seq<byte>)
    ensures e != []
  {
    if IsAlnum(c) || c in safe then [c]
    else if c == SPACE && f.spaceAsPlus then [PLUS]
    else [PERCENT, HexDigit(c / 16, f.upper), HexDigit(c % 16, f.upper)]
  }

  /** `mg_url_encode_opt`. */
  function Encode(s: seq<byte>, safe: seq<byte>, f: Flags): seq<byte> {
    if s == [] then [] else EncodeOne(s[0], safe, f) + Encode(s[1..], safe, f)
  }

  // ---- Decoding ----

  datatype Ending = Complete | NoRoom | BadEscape

  /** What was written, and why it stopped. */
  datatype Decoded = Decoded(text: seq<byte>, ending: Ending)

  /** The character that the text starts with, and how many it takes to write it. */
  datatype Taken = Bad | Char(c: byte, used: nat)

  function TakeChar(src: seq<byte>, form: bool): (t: Taken)
    requires src != []
    ensures t.Char? ==> 1 <= t.used <= |src|
  {
    if src[0] == PERCENT then
      if |src| > 2 && IsHexDigit(src[1]) && IsHexDigit(src[2])
      then Char(HexValue(src[1]) * 16 + HexValue(src[2]), 3)
      else Bad
    else Char(if form && src[0] == PLUS then SPACE else src[0], 1)
  }

  /** `mg_url_decode` with `out` written: one place of the room is for the final zero. */
  function Decode(src: seq<byte>, out: seq<byte>, room: int, form: bool): (d: Decoded)
    ensures out <= d.text && |d.text| <= |out| + |src|
    ensures |d.text| > |out| ==> |d.text| < room
    decreases |src|
  {
    if src == [] then Decoded(out, Complete)
    else if |out| >= room - 1 then Decoded(out, NoRoom)
    else
      var t := TakeChar(src, form);
      if t.Bad? then Decoded(out, BadEscape) else Decode(src[t.used..], out + [t.c], room, form)
  }

  /** What may stay as it is can be told from an escape, and a '+' or a space is not taken for the other. */
  predicate Harmless(safe: seq<byte>, f: Flags, form: bool) {
    PERCENT !in safe && if form then PLUS !in safe else !f.spaceAsPlus || SPACE in safe
  }

  lemma DecodeOne(c: byte, rest: seq<byte>, out: seq<byte>, room: int, safe: seq<byte>, f: Flags, form: bool)
    requires Harmless(safe, f, form) && |out| < room - 1
    ensures Decode(EncodeOne(c, safe, f) + rest, out, room, form) == Decode(rest, out + [c], room, form)
  {
    var e := EncodeOne(c, safe, f);
    var s := e + rest;
    assert s[|e|..] == rest;
    if |e| == 3 {
      assert s[0] == PERCENT && s[1] == e[1] && s[2] == e[2];
    } else {
      assert s[0] == e[0];
    }
  }

  /** Decoding what was encoded: all of it, or as much as there is room for. */
  lemma {:induction false} DecodeEncode(s: seq<byte>, out: seq<byte>, room: int, safe: seq<byte>, f: Flags, form: bool)
    requires Harmless(safe, f, form) && |out| < room
    ensures var d := Decode(Encode(s, safe, f), out, room, form);
            if |out| + |s| < room then d == Decoded(out + s, Complete)
            else d == Decoded(out + s[..room - 1 - |out|], NoRoom)
    decreases |s|
  {
    if s == [] {
      assert out + s == out;
    } else if |out| >= room - 1 {
      hide EncodeOne;
      assert out + s[..0] == out;
      assert EncodeOne(s[0], safe, f) + Encode(s[1..], safe, f) != [];
    } else {
      hide Decode, EncodeOne;
      DecodeOne(s[0], Encode(s[1..], safe, f), out, room, safe, f, form);
      DecodeEncode(s[1..], out + [s[0]], room, safe, f, form);
      OneMore(out, s, |s|);
      if |out| + |s| >= room {
        OneMore(out, s, room - 1 - |out|);
      }
    }
  }

  lemma OneMore(out: seq<byte>, s: seq<byte>, n: nat)
    requires 0 < n <= |s|
    ensures out + [s[0]] + s[1..][..n - 1] == out + s[..n]
    ensures s[..|s|] == s && s[1..][..|s| - 1] == s[1..]
  {
    assert s[..n] == [s[0]] + s[1..][..n - 1];
  }

  /**
   * Encoding can be undone for every text exactly when '%' is not safe, and, decoding a form, '+' is not safe either,
   * or, decoding anything else, a space does not become a '+'.
   */
  lemma RoundTripIff(safe: seq<byte>, f: Flags, form: bool)
    ensures Harmless(safe, f, form)
            <==> forall s :: Decode(Encode(s, safe, f), [], |s| + 1, form) == Decoded(s, Complete)
  {
    hide Decode, Encode, Harmless;
    if Harmless(safe, f, form) {
      forall s
        ensures Decode(Encode(s, safe, f), [], |s| + 1, form) == Decoded(s, Complete)
      {
        DecodeEncode(s, [], |s| + 1, safe, f, form);
        assert [] + s == s;
      }
    } else {
      var s := HarmShows(safe, f, form);
    }
  }

  lemma HarmShows(safe: seq<byte>, f: Flags, form: bool) returns (s: seq<byte>)
    requires !Harmless(safe, f, form)
    ensures Decode(Encode(s, safe, f), [], |s| + 1, form) != Decoded(s, Complete)
  {
    hide Decode, Encode;
    var c := if PERCENT in safe then PERCENT else if form then PLUS else SPACE;
    s := [c];
    EncodesToOne(c, safe, f);
    OneComesOut(if c == SPACE then PLUS else c, form);
  }

  lemma EncodesToOne(c: byte, safe: seq<byte>, f: Flags)
    requires c in safe || (c == SPACE && f.spaceAsPlus)
    ensures Encode([c], safe, f) == [if c in safe then c else PLUS]
  {
    assert [c][1..] == [] && [if c in safe then c else PLUS] + [] == [if c in safe then c else PLUS];
  }

  lemma OneComesOut(e: byte, form: bool)
    requires e == PERCENT || e == PLUS
    ensures Decode([e], [], 2, form) == if e == PERCENT then Decoded([], BadEscape)
                                        else Decoded([if form then SPACE else PLUS], Complete)
  {
    if e == PLUS {
      assert [e][1..] == [] && [] + [if form then SPACE else PLUS] == [if form then SPACE else PLUS];
      assert Decode([], [if form then SPACE else PLUS], 2, form).ending == Complete;
    }
  }

  // ---- Any text, decoded ----

  /** A '%' at i that two hexadecimal digits do not follow. */
  predicate BadAt(s: seq<byte>, i: nat)
    requires i < |s|
  {
    s[i] == 37 && !(i + 2 < |s| && IsHexDigit(s[i + 1]) && IsHexDigit(s[i + 2]))
  }

  lemma BadBehind(s: seq<byte>, k: nat)
    requires k <= |s|
    ensures forall i: nat :: i < |s| - k ==> BadAt(s[k..], i) == BadAt(s, i + k)
  {}

  /** With room enough, a text is refused exactly when it has such a '%'. */
  lemma {:induction false} BadEscapeIff(s: seq<byte>, out: seq<byte>, room: int, form: bool)
    requires |out| + |s| < room
    ensures Decode(s, out, room, form).ending
            == if exists i: nat :: i < |s| && BadAt(s, i) then BadEscape else Complete
    decreases |s|
  {
    hide BadAt;
    if s != [] {
      var t := TakeChar(s, form);
      TakenOrBad(s, form);
      if t.Char? {
        BadBehind(s, t.used);
        BadEscapeIff(s[t.used..], out + [t.c], room, form);
        if i: nat :| i < |s[t.used..]| && BadAt(s[t.used..], i) {
          assert BadAt(s, i + t.used);
        }
        if i: nat :| i < |s| && BadAt(s, i) {
          assert i >= t.used;
          assert BadAt(s[t.used..], i - t.used);
        }
      } else {
        assert BadAt(s, 0);
      }
    }
  }

  /** What is taken for a character holds no such '%'. */
  lemma TakenOrBad(s: seq<byte>, form: bool)
    requires s != []
    ensures var t := TakeChar(s, form);
            if t.Bad? then BadAt(s, 0) else forall i: nat :: i < t.used ==> !BadAt(s, i)
  {}

  /** With less room, so much of it as fits before the final zero. */
  lemma {:induction false} DecodeRoom(s: seq<byte>, out: seq<byte>, room: int, more: int, form: bool)
    requires |out| < room && |out| + |s| < more
    ensures var d, full := Decode(s, out, room, form), Decode(s, out, more, form);
            d == if |full.text| < room && (full.ending == Complete || |full.text| < room - 1) then full
                 else Decoded(full.text[..room - 1], NoRoom)
    decreases |s|
  {
    hide TakeChar;
    if s != [] && |out| < room - 1 && TakeChar(s, form).Char? {
      var t := TakeChar(s, form);
      DecodeRoom(s[t.used..], out + [t.c], room, more, form);
    }
  }

  /** What needs no escape stays as it is, and nothing else does. */
  lemma {:induction false} EncodedAsIsIff(s: seq<byte>, safe: seq<byte>, f: Flags)
    ensures |Encode(s, safe, f)| >= |s|
    ensures Encode(s, safe, f) == s <==> forall c <- s :: IsAlnum(c) || c in safe
  {
    if s != [] {
      EncodedAsIsIff(s[1..], safe, f);
      assert s == [s[0]] + s[1..];
      assert Encode(s, safe, f)[0] == EncodeOne(s[0], safe, f)[0];
      if IsAlnum(s[0]) || s[0] in safe {
        assert Encode(s, safe, f)[1..] == Encode(s[1..], safe, f);
      } else if |EncodeOne(s[0], safe, f)| == 1 {
        assert Encode(s, safe, f)[0] == PLUS;
      }
    }
  }

  /** "a ~%" and " +", both ways. */
  lemma Examples()
    ensures Encode([97, 32, 126, 37], USUAL, Flags(false, false)) == [97, 37, 50, 48, 126, 37, 50, 53]
    ensures Encode([32, 43], USUAL, Flags(true, true)) == [43, 37, 50, 66]
    ensures Decode([43, 37, 50, 98], [], 3, true) == Decoded([32, 43], Complete)
    ensures Decode([43, 37, 50, 98], [], 3, false) == Decoded([43, 43], Complete)
  {
    assert Encode([37], USUAL, Flags(false, false)) == [37, 50, 53];
    assert Encode([126, 37], USUAL, Flags(false, false)) == [126, 37, 50, 53];
    assert Encode([32, 126, 37], USUAL, Flags(false, false)) == [37, 50, 48, 126, 37, 50, 53];
    assert Encode([43], USUAL, Flags(true, true)) == [37, 50, 66];
    forall form: bool
      ensures Decode([43, 37, 50, 98], [], 3, form) == Decoded([if form then 32 else 43, 43], Complete)
    {
      var one: byte := if form then 32 else 43;
      assert [43, 37, 50, 98][1..] == [37, 50, 98] && [37, 50, 98][3..] == [];
      assert Decode([37, 50, 98], [one], 3, form) == Decode([], [one, 43], 3, form);
    }
  }

  // ---- Query strings ----

  /** `mg_ncasecmp` on as many characters as there are in a, none of which is a zero. */
  predicate SameText(a: seq<byte>, b: seq<byte>) {
    |a| == |b| && forall i :: 0 <= i < |a| ==> Lower(a[i]) == Lower(b[i])
  }

  /** Where the value of the variable starts: what is behind the '='. `start` says that a key may begin here. */
  function Find(start: bool, buf: seq<byte>, name: seq<byte>): (r: Option<seq<byte>>)
    ensures r.Some? ==> |r.value| <= |buf|
    decreases |buf|
  {
    if |name| >= |buf| then None
    else if start && buf[|name|] == EQUALS && SameText(name, buf[..|name|]) then Some(buf[|name| + 1..])
    else Find(buf[0] == AMPERSAND, buf[1..], name)
  }

  /** The length of the value; -4 for no such variable, -3 for a value malformed or too long, -1 for no query. */
  datatype Var = Var(code: int, text: seq<byte>)

  /** `mg_get_http_var` with room for at least one character; the lengths it passes on are ints. */
  function GetVar(buf: seq<byte>, name: seq<byte>, room: nat): Var {
    if buf == [] then Var(-1, [])
    else
      var at := Find(true, buf, name);
      if at.None? then Var(-4, [])
      else
        var d := Decode(ThroughInt(at.value[..FirstOf(at.value, AMPERSAND)]), [], Int32(room), true);
        Var(if d.ending.Complete? then |d.text| else -3, d.text)
  }

  /** key=value&key=value..., with the values encoded. */
  function Query(pairs: seq<(seq<byte>, seq<byte>)>): seq<byte> {
    if pairs == [] then []
    else
      pairs[0].0 + [EQUALS] + Encode(pairs[0].1, USUAL, Flags(false, false))
      + if |pairs| == 1 then [] else [AMPERSAND] + Query(pairs[1..])
  }

  /** No '&' and no '='. */
  predicate Plain(s: seq<byte>) {
    AMPERSAND !in s && EQUALS !in s
  }

  ghost predicate GoodKeys(pairs: seq<(seq<byte>, seq<byte>)>) {
    forall i :: 0 <= i < |pairs| ==> pairs[i].0 != [] && Plain(pairs[i].0)
  }

  /** The first pair with this key, or their number. */
  function FirstKey(pairs: seq<(seq<byte>, seq<byte>)>, name: seq<byte>): (k: nat)
    ensures k <= |pairs|
  {
    if pairs == [] || SameText(name, pairs[0].0) then 0 else 1 + FirstKey(pairs[1..], name)
  }

  lemma {:induction false} EncodedIsPlain(s: seq<byte>, f: Flags)
    ensures Plain(Encode(s, USUAL, f))
  {
    if s != [] {
      EncodedIsPlain(s[1..], f);
      OneIsPlain(s[0], f);
    }
  }

  lemma OneIsPlain(c: byte, f: Flags)
    ensures Plain(EncodeOne(c, USUAL, f))
  {}

  /** Within a pair, no key begins. */
  lemma {:induction false} Skip(plain: seq<byte>, rest: seq<byte>, name: seq<byte>)
    requires AMPERSAND !in plain && (rest == [] || rest[0] == AMPERSAND)
    ensures Find(false, plain + rest, name) == if rest == [] then None else Find(true, rest[1..], name)
    decreases |plain|
  {
    if plain == [] {
      assert plain + rest == rest;
    } else {
      assert (plain + rest)[1..] == plain[1..] + rest;
      Skip(plain[1..], rest, name);
    }
  }

  /** The name is compared with what buf starts with. */
  predicate StartsWith(buf: seq<byte>, name: seq<byte>) {
    |name| < |buf| && buf[|name|] == EQUALS && SameText(name, buf[..|name|])
  }

  /** Where a pair does not start with the name, the next one is looked at. */
  lemma NotAtPair(key: seq<byte>, enc: seq<byte>, rest: seq<byte>, name: seq<byte>)
    requires key != [] && Plain(key) && Plain(enc) && (rest == [] || rest[0] == AMPERSAND)
    requires !StartsWith(key + [EQUALS] + enc + rest, name)
    ensures Find(true, key + [EQUALS] + enc + rest, name) == if rest == [] then None else Find(true, rest[1..], name)
  {
    hide SameText;
    var buf := key + [EQUALS] + enc + rest;
    var inner := key[1..] + [EQUALS] + enc;
    assert buf[1..] == inner + rest && buf[0] == key[0] && key[0] in key;
    Skip(inner, rest, name);
  }

  /** At the beginning of a pair, its key is compared. */
  lemma AtPair(key: seq<byte>, enc: seq<byte>, rest: seq<byte>, name: seq<byte>)
    requires key != [] && Plain(key) && Plain(enc) && Plain(name) && (rest == [] || rest[0] == AMPERSAND)
    ensures var buf := key + [EQUALS] + enc + rest;
            Find(true, buf, name) == if SameText(name, key) then Some(enc + rest)
                                     else if rest == [] then None else Find(true, rest[1..], name)
  {
    hide SameText, Plain;
    var buf := key + [EQUALS] + enc + rest;
    assert buf == key + [EQUALS] + (enc + rest);
    if SameText(name, key) {
      KeyIsFound(key, enc + rest, name);
    } else {
      KeyIsWhole(key, enc + rest, name);
      NotAtPair(key, enc, rest, name);
    }
  }

  lemma KeyIsFound(key: seq<byte>, more: seq<byte>, name: seq<byte>)
    requires SameText(name, key)
    ensures Find(true, key + [EQUALS] + more, name) == Some(more)
  {
    var buf := key + [EQUALS] + more;
    assert buf[..|name|] == key && buf[|name| + 1..] == more;
  }

  /** Where a name fits in front of a '=', it is the whole key. */
  lemma KeyIsWhole(key: seq<byte>, more: seq<byte>, name: seq<byte>)
    requires Plain(key) && Plain(name)
    ensures var buf := key + [EQUALS] + more;
            |name| < |buf| && buf[|name|] == EQUALS && SameText(name, buf[..|name|]) ==> SameText(name, key)
  {
    var buf := key + [EQUALS] + more;
    if |key| < |name| <= |buf| {
      assert buf[..|name|][|key|] == EQUALS;
    } else if |name| == |key| {
      assert buf[..|name|] == key;
    }
  }

  // ---- Names that look like part of a query ----

  /** Characters that the encoding leaves as they are. */
  predicate Kept(c: byte) {
    IsAlnum(c) || c in USUAL
  }

  /** But for the case of letters, the encoding of some text. */
  predicate EncodedLike(v: seq<byte>)
    decreases |v|
  {
    || v == []
    || (Kept(v[0]) && EncodedLike(v[1..]))
    || (|v| > 2 && v[0] == PERCENT && IsHexDigit(v[1]) && IsHexDigit(v[2])
        && !Kept(HexValue(v[1]) * 16 + HexValue(v[2])) && EncodedLike(v[3..]))
  }

  /** A key, a '=' and an encoded value. */
  predicate PairLike(p: seq<byte>) {
    var e := FirstOf(p, EQUALS);
    0 < e < |p| && EncodedLike(p[e + 1..])
  }

  /** Pairs, each followed by a '&', and a key. */
  predicate QueryLike(name: seq<byte>)
    decreases |name|
  {
    var a := FirstOf(name, AMPERSAND);
    if a == |name| then name != [] && EQUALS !in name else PairLike(name[..a]) && QueryLike(name[a + 1..])
  }

  /** Of the names that hold a '&' or a '=', the search may find those that look like the front of a query. */
  predicate Safe(name: seq<byte>) {
    Plain(name) || !QueryLike(name)
  }

  lemma {:induction false} EncodingIsEncodedLike(a: seq<byte>, s: seq<byte>)
    requires SameText(a, Encode(s, USUAL, Flags(false, false)))
    ensures EncodedLike(a)
    decreases |s|
  {
    var f := Flags(false, false);
    if s != [] {
      var e := EncodeOne(s[0], USUAL, f);
      var b := Encode(s, USUAL, f);
      assert b[|e|..] == Encode(s[1..], USUAL, f);
      assert SameText(a[|e|..], b[|e|..]);
      EncodingIsEncodedLike(a[|e|..], s[1..]);
      OneIsEncodedLike(a[..|e|], s[0]);
      assert forall i :: 0 <= i < |e| ==> a[i] == a[..|e|][i];
    }
  }

  lemma OneIsEncodedLike(a: seq<byte>, c: byte)
    requires SameText(a, EncodeOne(c, USUAL, Flags(false, false)))
    ensures if |a| == 3 then a[0] == PERCENT && IsHexDigit(a[1]) && IsHexDigit(a[2])
                             && !Kept(HexValue(a[1]) * 16 + HexValue(a[2]))
            else |a| == 1 && Kept(a[0])
  {
    var e := EncodeOne(c, USUAL, Flags(false, false));
    if |e| == 3 {
      SameHex(a[1], e[1]);
      SameHex(a[2], e[2]);
    }
  }

  lemma SameHex(a: byte, b: byte)
    requires Lower(a) == Lower(b) && IsHexDigit(b)
    ensures IsHexDigit(a) && HexValue(a) == HexValue(b)
  {}

  /** The text of which v is the encoding. */
  function ValueOf(v: seq<byte>): seq<byte>
    requires EncodedLike(v)
    decreases |v|
  {
    if v == [] then []
    else if Kept(v[0]) && EncodedLike(v[1..]) then [v[0]] + ValueOf(v[1..])
    else [HexValue(v[1]) * 16 + HexValue(v[2])] + ValueOf(v[3..])
  }

  lemma {:induction false} ValueIsEncoded(v: seq<byte>)
    requires EncodedLike(v)
    ensures SameText(v, Encode(ValueOf(v), USUAL, Flags(false, false)))
    decreases |v|
  {
    hide EncodeOne, SameText, Kept;
    var f, s := Flags(false, false), ValueOf(v);
    if v == [] {
      SameSelf([]);
    } else {
      var k := if Kept(v[0]) && EncodedLike(v[1..]) then 1 else 3;
      ValueIsEncoded(v[k..]);
      assert s[1..] == ValueOf(v[k..]) && v == v[..k] + v[k..];
      OneIsEncoded(v, k);
      SameJoin(v[..k], v[k..], EncodeOne(s[0], USUAL, f), Encode(s[1..], USUAL, f));
    }
  }

  lemma OneIsEncoded(v: seq<byte>, k: nat)
    requires k <= |v| && if k == 1 then Kept(v[0])
                         else k == 3 && v[0] == PERCENT && IsHexDigit(v[1]) && IsHexDigit(v[2])
                              && !Kept(HexValue(v[1]) * 16 + HexValue(v[2]))
    ensures SameText(v[..k], EncodeOne(if k == 1 then v[0] else HexValue(v[1]) * 16 + HexValue(v[2]), USUAL,
                                       Flags(false, false)))
  {
    if k == 3 {
      HexBack(v[1], v[2]);
    }
  }

  lemma HexBack(a: byte, b: byte)
    requires IsHexDigit(a) && IsHexDigit(b)
    ensures var c := HexValue(a) * 16 + HexValue(b);
            HexDigit(c / 16, false) == Lower(a) && HexDigit(c % 16, false) == Lower(b) && Lower(PERCENT) == PERCENT
    ensures Lower(Lower(a)) == Lower(a) && Lower(Lower(b)) == Lower(b)
  {}

  lemma SameSlices(a: seq<byte>, b: seq<byte>, i: nat, j: nat)
    requires SameText(a, b) && i <= j <= |a|
    ensures SameText(a[i..j], b[i..j])
  {}

  lemma SameJoin(a: seq<byte>, b: seq<byte>, c: seq<byte>, d: seq<byte>)
    requires SameText(a, c) && SameText(b, d)
    ensures SameText(a + b, c + d)
  {}

  lemma SameMarks(a: seq<byte>, b: seq<byte>)
    requires SameText(a, b)
    ensures forall i :: 0 <= i < |a| ==> (a[i] == EQUALS <==> b[i] == EQUALS)
    ensures forall i :: 0 <= i < |a| ==> (a[i] == AMPERSAND <==> b[i] == AMPERSAND)
  {}

  /** What the search compares at the beginning of a query is a key, or looks like the front of a query. */
  lemma {:induction false} StartOfQuery(pairs: seq<(seq<byte>, seq<byte>)>, name: seq<byte>)
    requires GoodKeys(pairs) && pairs != [] && StartsWith(Query(pairs), name)
    ensures QueryLike(name) && (AMPERSAND !in name ==> SameText(name, pairs[0].0))
    decreases |pairs|
  {
    hide Encode, SameText, PairLike, QueryLike, Query;
    var key, enc := pairs[0].0, Encode(pairs[0].1, USUAL, Flags(false, false));
    var rest := if |pairs| == 1 then [] else [AMPERSAND] + Query(pairs[1..]);
    EncodedIsPlain(pairs[0].1, Flags(false, false));
    QueryParts(pairs);
    var a := FirstOf(name, AMPERSAND);
    if a == |name| {
      NoPairBefore(key, enc, rest, name);
      OnlyKey(name, key);
    } else {
      PairBefore(key, enc, rest, name);
      EncodingIsEncodedLike(name[|key| + 1..a], pairs[0].1);
      PairFound(name[..a], key);
      StartOfQuery(pairs[1..], name[a + 1..]);
      PairAndMore(name);
    }
  }

  lemma QueryParts(pairs: seq<(seq<byte>, seq<byte>)>)
    requires pairs != []
    ensures var rest := if |pairs| == 1 then [] else [AMPERSAND] + Query(pairs[1..]);
            Query(pairs) == pairs[0].0 + [EQUALS] + Encode(pairs[0].1, USUAL, Flags(false, false)) + rest
  {}

  lemma OnlyKey(name: seq<byte>, key: seq<byte>)
    requires SameText(name, key) && key != [] && Plain(key)
    ensures QueryLike(name)
  {
    SameMarks(name, key);
    assert forall i :: 0 <= i < |name| ==> key[i] in key;
    assert EQUALS !in name && AMPERSAND !in name;
    assert FirstOf(name, AMPERSAND) == |name|;
  }

  lemma PairAndMore(name: seq<byte>)
    requires var a := FirstOf(name, AMPERSAND); a < |name| && PairLike(name[..a]) && QueryLike(name[a + 1..])
    ensures QueryLike(name)
  {}

  lemma PairFound(p: seq<byte>, key: seq<byte>)
    requires key != [] && Plain(key) && |key| < |p| && SameText(p[..|key|], key) && p[|key|] == EQUALS
    requires EncodedLike(p[|key| + 1..])
    ensures PairLike(p)
  {
    SameMarks(p[..|key|], key);
    assert forall i :: 0 <= i < |key| ==> key[i] in key && p[..|key|][i] == p[i];
    assert EQUALS !in p[..|key|];
    FirstOfAt(p[..|key|], p[|key|..], EQUALS);
    assert p == p[..|key|] + p[|key|..];
  }

  /** Up to the end of its first pair a query has one '=', and no '&' but right behind the pair. */
  lemma Marks(key: seq<byte>, enc: seq<byte>, rest: seq<byte>)
    requires Plain(key) && Plain(enc) && (rest == [] || rest[0] == AMPERSAND)
    ensures var q, l := key + [EQUALS] + enc + rest, |key| + 1 + |enc|;
            forall i :: 0 <= i <= l && i < |q| ==> (q[i] == EQUALS <==> i == |key|) && (q[i] == AMPERSAND <==> i == l)
  {
    var q, l := key + [EQUALS] + enc + rest, |key| + 1 + |enc|;
    forall i | 0 <= i <= l && i < |q|
      ensures (q[i] == EQUALS <==> i == |key|) && (q[i] == AMPERSAND <==> i == l)
    {
      if i < |key| {
        assert q[i] == key[i] && key[i] in key;
      } else if |key| < i < l {
        assert q[i] == enc[i - |key| - 1] && enc[i - |key| - 1] in enc;
      }
    }
  }

  lemma SameFront(name: seq<byte>, q: seq<byte>)
    requires |name| <= |q| && SameText(name, q[..|name|])
    ensures forall i :: 0 <= i < |name| ==> (name[i] == EQUALS <==> q[i] == EQUALS)
    ensures forall i :: 0 <= i < |name| ==> (name[i] == AMPERSAND <==> q[i] == AMPERSAND)
  {
    SameMarks(name, q[..|name|]);
  }

  lemma NoneBefore(s: seq<byte>, c: byte)
    ensures forall i :: 0 <= i < FirstOf(s, c) ==> s[i] != c
  {
    var k := FirstOf(s, c);
    assert forall i :: 0 <= i < k ==> s[i] == s[..k][i];
  }

  /** A name without a '&' that is followed by a '=' is the key. */
  lemma NoPairBefore(key: seq<byte>, enc: seq<byte>, rest: seq<byte>, name: seq<byte>)
    requires Plain(key) && Plain(enc) && (rest == [] || rest[0] == AMPERSAND) && AMPERSAND !in name
    requires StartsWith(key + [EQUALS] + enc + rest, name)
    ensures SameText(name, key)
  {
    hide SameText, Plain;
    var q, l := key + [EQUALS] + enc + rest, |key| + 1 + |enc|;
    Marks(key, enc, rest);
    SameFront(name, q);
    assert l < |q| ==> q[l] == AMPERSAND;
    assert q[..|key|] == key;
  }

  /** A name with a '&' goes on behind the first pair. */
  lemma FirstAmpersand(key: seq<byte>, enc: seq<byte>, rest: seq<byte>, name: seq<byte>)
    requires Plain(key) && Plain(enc) && (rest == [] || rest[0] == AMPERSAND)
    requires StartsWith(key + [EQUALS] + enc + rest, name) && FirstOf(name, AMPERSAND) < |name|
    ensures FirstOf(name, AMPERSAND) == |key| + 1 + |enc| && rest != []
  {
    hide SameText, Plain;
    var q, l, a := key + [EQUALS] + enc + rest, |key| + 1 + |enc|, FirstOf(name, AMPERSAND);
    Marks(key, enc, rest);
    SameFront(name, q);
    NoneBefore(name, AMPERSAND);
    assert q[a] == AMPERSAND;
    assert l < |q| ==> q[l] == AMPERSAND;
  }

  /** It begins with the pair, and goes on with what follows it. */
  lemma PairBefore(key: seq<byte>, enc: seq<byte>, rest: seq<byte>, name: seq<byte>)
    requires Plain(key) && Plain(enc) && (rest == [] || rest[0] == AMPERSAND)
    requires StartsWith(key + [EQUALS] + enc + rest, name) && FirstOf(name, AMPERSAND) < |name|
    ensures var a := FirstOf(name, AMPERSAND);
            && rest != [] && a == |key| + 1 + |enc|
            && SameText(name[..a][..|key|], key) && name[|key|] == EQUALS && SameText(name[|key| + 1..a], enc)
            && StartsWith(rest[1..], name[a + 1..])
  {
    hide SameText, Plain, FirstOf, StartsWith;
    StartParts(key + [EQUALS] + enc + rest, name);
    FirstAmpersand(key, enc, rest, name);
    var q, n, a := key + [EQUALS] + enc + rest, |name|, FirstOf(name, AMPERSAND);
    KeyEnds(key, enc, rest, name);
    PairSlices(key, enc, rest, n);
    SliceAgain(name, 0, a, 0, |key|);
    SameSlices(name, q[..n], 0, |key|);
    SameSlices(name, q[..n], |key| + 1, a);
    SameSlices(name, q[..n], a + 1, n);
    assert name[..a] == name[0..a] && name[..a][..|key|] == name[..a][0..|key|];
    assert name[a + 1..n] == name[a + 1..];
    GoesOn(rest[1..], name[a + 1..]);
  }

  lemma StartParts(buf: seq<byte>, name: seq<byte>)
    requires StartsWith(buf, name)
    ensures |name| < |buf| && buf[|name|] == EQUALS && SameText(name, buf[..|name|])
  {}

  lemma GoesOn(more: seq<byte>, name: seq<byte>)
    requires |name| < |more| && more[|name|] == EQUALS && SameText(name, more[..|name|])
    ensures StartsWith(more, name)
  {}

  lemma KeyEnds(key: seq<byte>, enc: seq<byte>, rest: seq<byte>, name: seq<byte>)
    requires |key| < |name| <= |key + [EQUALS] + enc + rest|
    requires SameText(name, (key + [EQUALS] + enc + rest)[..|name|])
    ensures name[|key|] == EQUALS
  {
    SameFront(name, key + [EQUALS] + enc + rest);
    assert (key + [EQUALS] + enc + rest)[|key|] == EQUALS;
  }

  lemma PairSlices(key: seq<byte>, enc: seq<byte>, rest: seq<byte>, n: nat)
    requires |key| + 1 + |enc| < n < |key| + 1 + |enc| + |rest|
    ensures var q, l := key + [EQUALS] + enc + rest, |key| + 1 + |enc|;
            && q[..n][0..|key|] == key && q[..n][|key| + 1..l] == enc
            && q[..n][l + 1..n] == rest[1..][..n - l - 1] && q[n] == rest[1..][n - l - 1]
  {}

  /** For a name that looks like no query nothing is found in any. */
  lemma {:induction false} NothingLikeIt(pairs: seq<(seq<byte>, seq<byte>)>, name: seq<byte>)
    requires GoodKeys(pairs) && !QueryLike(name)
    ensures Find(true, Query(pairs), name).None?
    decreases |pairs|
  {
    hide Find, Encode, SameText, QueryLike, Query, StartsWith;
    if pairs == [] {
      EmptyQuery();
      NothingToFind(name);
    } else {
      var rest := if |pairs| == 1 then [] else [AMPERSAND] + Query(pairs[1..]);
      EncodedIsPlain(pairs[0].1, Flags(false, false));
      QueryParts(pairs);
      if StartsWith(Query(pairs), name) {
        StartOfQuery(pairs, name);
      }
      NotAtPair(pairs[0].0, Encode(pairs[0].1, USUAL, Flags(false, false)), rest, name);
      if |pairs| > 1 {
        assert rest[1..] == Query(pairs[1..]);
        NothingLikeIt(pairs[1..], name);
      }
    }
  }

  lemma EmptyQuery()
    ensures Query([]) == []
  {}

  /** Pairs whose query begins with the name. */
  function PairsOf(name: seq<byte>): (pairs: seq<(seq<byte>, seq<byte>)>)
    requires QueryLike(name)
    ensures pairs != []
    decreases |name|
  {
    var a, e := FirstOf(name, AMPERSAND), FirstOf(name, EQUALS);
    if a == |name| then [(name, [])]
    else
      var p := name[..a];
      var k := FirstOf(p, EQUALS);
      [(p[..k], ValueOf(p[k + 1..]))] + PairsOf(name[a + 1..])
  }

  lemma {:induction false} QueryOfName(name: seq<byte>)
    requires QueryLike(name)
    ensures GoodKeys(PairsOf(name)) && StartsWith(Query(PairsOf(name)), name)
    decreases |name|
  {
    hide Encode, EncodedLike, ValueOf, SameText, Query;
    var pairs, a := PairsOf(name), FirstOf(name, AMPERSAND);
    QueryParts(pairs);
    assert pairs[1..] == if a == |name| then [] else PairsOf(name[a + 1..]);
    if a == |name| {
      LastKey(name);
    } else {
      var p := name[..a];
      var k := FirstOf(p, EQUALS);
      QueryOfName(name[a + 1..]);
      ValueIsEncoded(p[k + 1..]);
      KeyOfPair(p, k);
      NameJoins(name, a, k, Encode(ValueOf(p[k + 1..]), USUAL, Flags(false, false)), Query(pairs[1..]));
    }
  }

  lemma KeyOfPair(p: seq<byte>, k: nat)
    requires k < |p| && EQUALS !in p[..k] && AMPERSAND !in p
    ensures Plain(p[..k])
  {
    assert forall c <- p[..k] :: c in p;
  }

  lemma LastKey(name: seq<byte>)
    requires EQUALS !in name && AMPERSAND !in name[..|name|]
    ensures Plain(name) && StartsWith(name + [EQUALS] + Encode([], USUAL, Flags(false, false)) + [], name)
  {
    assert name[..|name|] == name;
    assert (name + [EQUALS] + [] + [])[..|name|] == name;
  }

  lemma NameJoins(name: seq<byte>, a: nat, k: nat, enc: seq<byte>, more: seq<byte>)
    requires k < a < |name| && name[a] == AMPERSAND && name[k] == EQUALS
    requires SameText(name[k + 1..a], enc) && StartsWith(more, name[a + 1..])
    ensures StartsWith(name[..a][..k] + [EQUALS] + enc + ([AMPERSAND] + more), name)
  {
    hide SameText;
    var q := name[..a][..k] + [EQUALS] + enc + ([AMPERSAND] + more);
    var n, m := |name|, |name| - a - 1;
    SameLength(name[k + 1..a], enc);
    assert name == name[..k] + [EQUALS] + name[k + 1..a] + ([AMPERSAND] + name[a + 1..]);
    assert q[..n] == name[..k] + [EQUALS] + enc + ([AMPERSAND] + more[..m]);
    SameSelf(name[..k] + [EQUALS]);
    SameSelf([AMPERSAND]);
    SameJoin([AMPERSAND], name[a + 1..], [AMPERSAND], more[..m]);
    SameJoin(name[..k] + [EQUALS], name[k + 1..a], name[..k] + [EQUALS], enc);
    SameJoin(name[..k] + [EQUALS] + name[k + 1..a], [AMPERSAND] + name[a + 1..],
             name[..k] + [EQUALS] + enc, [AMPERSAND] + more[..m]);
  }

  lemma SameLength(a: seq<byte>, b: seq<byte>)
    requires SameText(a, b)
    ensures |a| == |b|
  {}

  lemma SameSelf(a: seq<byte>)
    ensures SameText(a, a)
  {}

  lemma PlainIsPlain(name: seq<byte>, key: seq<byte>)
    requires Plain(key)
    ensures SameText(name, key) ==> Plain(name)
  {
    if SameText(name, key) {
      SameMarks(name, key);
      assert forall i :: 0 <= i < |name| ==> key[i] in key;
    }
  }

  lemma {:induction false} NoSuchKey(pairs: seq<(seq<byte>, seq<byte>)>, name: seq<byte>)
    requires GoodKeys(pairs) && !Plain(name)
    ensures FirstKey(pairs, name) == |pairs|
  {
    if pairs != [] {
      PlainIsPlain(name, pairs[0].0);
      NoSuchKey(pairs[1..], name);
    }
  }

  /** A name is found exactly in the queries that have such a key, if and only if it is safe. */
  lemma NameIsSafeIff(name: seq<byte>)
    ensures Safe(name)
            <==> forall pairs :: GoodKeys(pairs) ==>
                                   (Find(true, Query(pairs), name).Some? <==> FirstKey(pairs, name) < |pairs|)
  {
    hide Find, Query, QueryLike, SameText, GoodKeys, StartsWith;
    if Safe(name) {
      forall pairs | GoodKeys(pairs)
        ensures Find(true, Query(pairs), name).Some? <==> FirstKey(pairs, name) < |pairs|
      {
        SafeIsFound(pairs, name);
      }
    } else {
      var pairs := PairsOf(name);
      QueryOfName(name);
      NoSuchKey(pairs, name);
      FoundAtStart(Query(pairs), name);
    }
  }

  lemma FoundAtStart(buf: seq<byte>, name: seq<byte>)
    requires StartsWith(buf, name)
    ensures Find(true, buf, name).Some?
  {}

  lemma SafeIsFound(pairs: seq<(seq<byte>, seq<byte>)>, name: seq<byte>)
    requires GoodKeys(pairs) && Safe(name)
    ensures Find(true, Query(pairs), name).Some? <==> FirstKey(pairs, name) < |pairs|
  {
    hide Find, Query, QueryLike, SameText, GoodKeys;
    if Plain(name) {
      FindsFirst(pairs, name);
    } else {
      NoSuchKey(pairs, name);
      NothingLikeIt(pairs, name);
    }
  }

  /** "a=&b" is found in "a=&b=". */
  lemma NameAcrossPairs()
    ensures var name, pairs := [97, EQUALS, AMPERSAND, 98], [([97], []), ([98], [])];
            Find(true, Query(pairs), name) == Some([]) && FirstKey(pairs, name) == |pairs|
  {}

  /** "B" is in "&b=1", with room for one character; "b=%" is malformed, "b" is not in "c", and no query is an error. */
  lemma VariableExamples()
    ensures GetVar([38, 98, 61, 49], [66], 2) == Var(1, [49]) && GetVar([38, 98, 61, 49], [66], 1).code == -3
    ensures GetVar([98, 61, 37], [98], 2) == Var(-3, [])
    ensures GetVar([99], [98], 2) == Var(-4, []) && GetVar([], [98], 2) == Var(-1, [])
  {
    VariableFound();
    assert Find(true, [98, 61, 37], [98]) == Some([37]);
    assert [37][..FirstOf([37], AMPERSAND)] == [37] && ThroughInt([37]) == [37];
  }

  lemma VariableFound()
    ensures GetVar([38, 98, 61, 49], [66], 2) == Var(1, [49]) && GetVar([38, 98, 61, 49], [66], 1).code == -3
  {
    assert Find(true, [98, 61, 49], [66]) == Some([49]);
    assert [38, 98, 61, 49][1..] == [98, 61, 49];
    assert [49][..FirstOf([49], AMPERSAND)] == [49] && ThroughInt([49]) == [49];
    assert Decode([49], [], 2, true) == Decode([], [49], 2, true);
  }

  // ---- Variables come back ----

  /** The search finds the encoded value of the first pair with the key. */
  lemma {:induction false} FindsFirst(pairs: seq<(seq<byte>, seq<byte>)>, name: seq<byte>)
    requires GoodKeys(pairs) && Plain(name)
    ensures var at, k := Find(true, Query(pairs), name), FirstKey(pairs, name);
            if k == |pairs| then at.None?
            else at.Some? && at.value[..FirstOf(at.value, AMPERSAND)] == Encode(pairs[k].1, USUAL, Flags(false, false))
    decreases |pairs|
  {
    hide Find, Encode, SameText;
    if pairs == [] {
      NothingToFind(name);
    } else {
      var enc := Encode(pairs[0].1, USUAL, Flags(false, false));
      var rest := if |pairs| == 1 then [] else [AMPERSAND] + Query(pairs[1..]);
      EncodedIsPlain(pairs[0].1, Flags(false, false));
      AtPair(pairs[0].0, enc, rest, name);
      if SameText(name, pairs[0].0) {
        FirstOfAt(enc, rest, AMPERSAND);
        assert (enc + rest)[..|enc|] == enc;
      } else {
        FindsFirst(pairs[1..], name);
        if |pairs| > 1 {
          assert rest[1..] == Query(pairs[1..]);
        }
      }
    }
  }

  lemma NothingToFind(name: seq<byte>)
    ensures Find(true, [], name).None?
  {}

  lemma QueryIsNotEmpty(pairs: seq<(seq<byte>, seq<byte>)>)
    requires GoodKeys(pairs) && pairs != []
    ensures Query(pairs) != []
  {}

  lemma SmallInt(n: nat)
    requires n < TWO31
    ensures Int32(n) == n
  {}

  /** A variable of a query string comes back as it was: the first with its name, in whatever case, if it fits. */
  lemma VariableComesBack(pairs: seq<(seq<byte>, seq<byte>)>, name: seq<byte>, room: nat)
    requires GoodKeys(pairs) && pairs != [] && Safe(name) && 0 < room < TWO31
    requires forall i :: 0 <= i < |pairs| ==> |Encode(pairs[i].1, USUAL, Flags(false, false))| < TWO31
    ensures var k, v := FirstKey(pairs, name), GetVar(Query(pairs), name, room);
            if k == |pairs| then v.code == -4
            else if |pairs[k].1| < room then v == Var(|pairs[k].1|, pairs[k].1)
            else v.code == -3
  {
    hide Find, Encode, SameText, Decode, ThroughInt, Int32, FirstOf, Query, QueryLike, GoodKeys;
    SafeIsFound(pairs, name);
    if Plain(name) {
      FindsFirst(pairs, name);
    } else {
      NoSuchKey(pairs, name);
    }
    QueryIsNotEmpty(pairs);
    SmallInt(room);
    var k := FirstKey(pairs, name);
    if k < |pairs| {
      DecodeEncode(pairs[k].1, [], room, USUAL, Flags(false, false), true);
      assert [] + pairs[k].1 == pairs[k].1;
    }
  }
}
