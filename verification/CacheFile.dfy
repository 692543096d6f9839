/** The settings file of SprinklerD: numbers printed one a line, and read back as 32-bit floats. */
module CacheFile {
  import opened Bytes
  import opened Float32

  /** The settings that the file keeps. */
  datatype Config = Config(calendar: bool, delay: bool, until: int, chance: int, inch1: real, inch2: real,
                           runtimes: seq<int>)

  /** A line of the file: printed by %d or %li, or by %.1f. */
  datatype Token = Whole(n: int) | Tenths(t: int)

  /** What a conversion to int makes of a float out of range: an x86 gives the least int, an ARM the nearest. */
  type Huge = x: int | x == -TWO31 || x == TWO31 - 1 witness -TWO31

  // ---- Printing ----

  /** `%.1f`: to the nearest tenth, ties to even. */
  function ToTenths(r: real): int {
    var x := 10.0 * r;
    var low := x.Floor;
    var rest := x - low as real;
    if rest < 0.5 || (rest == 0.5 && low % 2 == 0) then low else low + 1
  }

  function Flag(b: bool): Token {
    Whole(if b then 1 else 0)
  }

  function Wholes(ns: seq<int>): (ts: seq<Token>)
    ensures |ts| == |ns| && forall i :: 0 <= i < |ns| ==> ts[i] == Whole(ns[i])
  {
    seq(|ns|, i requires 0 <= i < |ns| => Whole(ns[i]))
  }

  /** `write_cache`. */
  function WriteFile(c: Config): seq<Token> {
    [Flag(c.calendar), Flag(c.delay), Whole(c.until), Whole(c.chance), Tenths(ToTenths(c.inch1)),
     Tenths(ToTenths(c.inch2)), Whole(-1)] + Wholes(c.runtimes)
  }

  // ---- Reading ----

  /** What `%f` stores. */
  function FloatOf(tok: Token): real {
    if tok.Whole? then Round(tok.n) as real else Tenth(tok.t)
  }

  /** The conversion of a float to an int. */
  function ToInt(f: real, huge: Huge): int {
    var i := if f >= 0.0 then f.Floor else -((-f).Floor);
    if -TWO31 <= i < TWO31 then i else huge
  }

  /** It cuts off towards zero. */
  lemma CutsOff(f: real, huge: Huge)
    requires -(TWO31 as real) < f < TWO31 as real
    ensures f >= 0.0 ==> ToInt(f, huge) as real <= f < (ToInt(f, huge) + 1) as real
    ensures f < 0.0 ==> (ToInt(f, huge) - 1) as real < f <= ToInt(f, huge) as real
  {}

  /** The counters `c`, `zs` and the flag `z` of `read_cache`, and the settings so far. */
  datatype Reader = Reader(c: nat, zs: nat, z: bool, cfg: Config) {
    predicate Valid() {
      z ==> zs < c
    }
  }

  /** One zone's default run time; there is no zone beyond the last. */
  function SetZone(runtimes: seq<int>, zone: int, i: int): (r: seq<int>)
    ensures |r| == |runtimes|
  {
    if 1 <= zone <= |runtimes| then runtimes[zone - 1 := i] else runtimes
  }

  function Assign(c: nat, cfg: Config, f: real, i: int): Config {
    match c
    case 0 => cfg.(calendar := i != 0)
    case 1 => cfg.(delay := i != 0)
    case 2 => cfg.(until := i)
    case 3 => cfg.(chance := i)
    case 4 => cfg.(inch1 := f)
    case 5 => cfg.(inch2 := f)
    case _ => cfg
  }

  /** One turn of the loop of `read_cache`. */
  function Turn(r: Reader, tok: Token, huge: Huge): Reader {
    var f := FloatOf(tok);
    if f == -1.0 then Reader(r.c + 1, r.c, true, r.cfg)
    else
      var i := ToInt(f, huge);
      var cfg := if r.z then r.cfg.(runtimes := SetZone(r.cfg.runtimes, r.c - r.zs, i)) else Assign(r.c, r.cfg, f, i);
      Reader(r.c + 1, r.zs, r.z, cfg)
  }

  function Turns(r: Reader, file: seq<Token>, huge: Huge): Reader
    decreases |file|
  {
    if file == [] then r else Turns(Turn(r, file[0], huge), file[1..], huge)
  }

  function ReadFile(file: seq<Token>, base: Config, huge: Huge): Config {
    Turns(Reader(0, 0, false, base), file, huge).cfg
  }

  // ---- Reading what was written ----

  /** A number that has been through the file. */
  function Narrow(n: int, huge: Huge): int {
    var m := Round(n);
    if -TWO31 <= m < TWO31 then m else huge
  }

  function Narrowed(ns: seq<int>, huge: Huge): (r: seq<int>)
    ensures |r| == |ns| && forall i :: 0 <= i < |ns| ==> r[i] == Narrow(ns[i], huge)
  {
    seq(|ns|, i requires 0 <= i < |ns| => Narrow(ns[i], huge))
  }

  /** Settings that have been through the file. */
  function Rounded(c: Config, huge: Huge): Config {
    Config(c.calendar, c.delay, Narrow(c.until, huge), Narrow(c.chance, huge),
           Tenth(ToTenths(c.inch1)), Tenth(ToTenths(c.inch2)), Narrowed(c.runtimes, huge))
  }

  /** No setting prints as -1, which is the mark before the run times. */
  predicate NoMark(c: Config) {
    && c.until != -1 && c.chance != -1 && ToTenths(c.inch1) != -10 && ToTenths(c.inch2) != -10
    && -1 !in c.runtimes
  }

  lemma WholeIsRead(n: int, huge: Huge)
    ensures FloatOf(Whole(n)) == -1.0 <==> n == -1
    ensures ToInt(FloatOf(Whole(n)), huge) == Narrow(n, huge)
  {
    RoundKeeps(n);
    hide Round;
    FloorOfWhole(Round(n));
  }

  lemma FloorOfWhole(m: int)
    ensures (m as real).Floor == m && (-(m as real)).Floor == -m
    ensures m as real == -1.0 <==> m == -1
  {
    assert -(m as real) == (-m) as real;
  }

  lemma TenthsAreRead(t: int)
    ensures FloatOf(Tenths(t)) == -1.0 <==> t == -10
  {
    WholeTenths(1);
    if t < 0 {
      TenthNatError(-t);
    } else {
      TenthNatError(t);
    }
  }

  /** A threshold that has been through the file prints the same tenth again. */
  lemma TenthsPrintAgain(t: int)
    requires -TWO23 < t < TWO23
    ensures ToTenths(Tenth(t)) == t
  {
    hide TenthNat;
    TenthNatError(if t < 0 then -t else t);
    var x := 10.0 * Tenth(t);
    assert -0.5 < x - t as real < 0.5;
    NearestTenth(Tenth(t), t);
  }

  lemma NearestTenth(r: real, t: int)
    requires -0.5 < 10.0 * r - t as real < 0.5
    ensures ToTenths(r) == t
  {
    var x := 10.0 * r;
    if x >= t as real {
      assert x.Floor == t;
    } else {
      assert x.Floor == t - 1;
    }
  }

  /** So going through the file again changes no threshold. */
  lemma ThresholdsSettle(c: Config, huge: Huge)
    requires -TWO23 < ToTenths(c.inch1) < TWO23 && -TWO23 < ToTenths(c.inch2) < TWO23
    ensures var once := Rounded(c, huge);
            Rounded(once, huge).inch1 == once.inch1 && Rounded(once, huge).inch2 == once.inch2
  {
    hide Tenth, ToTenths, Narrow;
    TenthsPrintAgain(ToTenths(c.inch1));
    TenthsPrintAgain(ToTenths(c.inch2));
  }

  lemma TurnOfWhole(r: Reader, n: int, huge: Huge)
    requires n != -1
    ensures var t := Turn(r, Whole(n), huge);
            && t.c == r.c + 1 && t.zs == r.zs && t.z == r.z
            && (r.z ==> t.cfg == r.cfg.(runtimes := SetZone(r.cfg.runtimes, r.c - r.zs, Narrow(n, huge))))
            && (!r.z && r.c < 4 ==> t.cfg == Assign(r.c, r.cfg, 0.0, Narrow(n, huge)))
  {
    WholeIsRead(n, huge);
  }

  lemma TurnOfTenths(r: Reader, t: int, huge: Huge)
    requires t != -10 && !r.z && 4 <= r.c
    ensures Turn(r, Tenths(t), huge) == Reader(r.c + 1, r.zs, false, Assign(r.c, r.cfg, Tenth(t), 0))
  {
    TenthsAreRead(t);
  }

  lemma TurnOfMark(r: Reader, tok: Token, huge: Huge)
    requires tok == Whole(-1) || tok == Tenths(-10)
    ensures Turn(r, tok, huge) == Reader(r.c + 1, r.c, true, r.cfg)
  {
    hide Tenth, Round, ToInt;
    WholeIsRead(-1, huge);
    TenthsAreRead(-10);
  }

  lemma Conses(ns: seq<int>, huge: Huge)
    requires ns != []
    ensures Narrowed(ns, huge) == [Narrow(ns[0], huge)] + Narrowed(ns[1..], huge)
    ensures Wholes(ns) != [] && Wholes(ns)[0] == Whole(ns[0]) && Wholes(ns)[1..] == Wholes(ns[1..])
  {
    hide Narrow;
  }

  lemma OneMore(rs: seq<int>, k: nat, v: int, rest: seq<int>)
    requires k < |rs|
    ensures rs[k := v][..k + 1] + rest == rs[..k] + ([v] + rest)
  {
    assert rs[k := v][..k + 1] == rs[..k] + [v];
  }

  /** The run times behind the mark are read into the zones in order. */
  lemma {:induction false} ZonesAreRead(r: Reader, ns: seq<int>, huge: Huge)
    requires r.z && r.zs < r.c && -1 !in ns && r.c - r.zs + |ns| - 1 == |r.cfg.runtimes|
    ensures Turns(r, Wholes(ns), huge).cfg
            == r.cfg.(runtimes := r.cfg.runtimes[..r.c - r.zs - 1] + Narrowed(ns, huge))
    decreases |ns|
  {
    hide Turn, Narrow;
    var rs, k := r.cfg.runtimes, r.c - r.zs - 1;
    if ns == [] {
      assert rs[..k] + Narrowed(ns, huge) == rs;
    } else {
      hide Narrowed, Wholes;
      Conses(ns, huge);
      OneMore(rs, k, Narrow(ns[0], huge), Narrowed(ns[1..], huge));
      TurnOfWhole(r, ns[0], huge);
      ZonesAreRead(Turn(r, Whole(ns[0]), huge), ns[1..], huge);
    }
  }

  lemma NextTurn(r: Reader, file: seq<Token>, k: nat, huge: Huge)
    requires k < |file|
    ensures Turns(r, file[k..], huge) == Turns(Turn(r, file[k], huge), file[k + 1..], huge)
  {
    assert file[k..][1..] == file[k + 1..];
  }

  lemma SmallNarrow(n: int, huge: Huge)
    requires -TWO24 < n < TWO24
    ensures Narrow(n, huge) == n
  {
    RoundError(if n < 0 then -n else n);
  }

  /** The first seven lines. */
  lemma FrontIsRead(c: Config, base: Config, huge: Huge)
    requires NoMark(c.(runtimes := []))
    ensures ReadFile(WriteFile(c), base, huge)
            == Turns(Reader(7, 6, true, Rounded(c, huge).(runtimes := base.runtimes)), Wholes(c.runtimes), huge).cfg
  {
    hide Turn, Turns, ToTenths, Narrow, Narrowed, Wholes;
    var r0, t := Reader(0, 0, false, base), WriteFile(c);
    SmallNarrow(0, huge);
    SmallNarrow(1, huge);
    TurnOfWhole(r0, t[0].n, huge);
    NextTurn(r0, t, 0, huge);
    var r1 := Turn(r0, t[0], huge);
    TurnOfWhole(r1, t[1].n, huge);
    NextTurn(r1, t, 1, huge);
    var r2 := Turn(r1, t[1], huge);
    TurnOfWhole(r2, t[2].n, huge);
    NextTurn(r2, t, 2, huge);
    var r3 := Turn(r2, t[2], huge);
    TurnOfWhole(r3, t[3].n, huge);
    NextTurn(r3, t, 3, huge);
    var r4 := Turn(r3, t[3], huge);
    TurnOfTenths(r4, t[4].t, huge);
    NextTurn(r4, t, 4, huge);
    var r5 := Turn(r4, t[4], huge);
    TurnOfTenths(r5, t[5].t, huge);
    NextTurn(r5, t, 5, huge);
    var r6 := Turn(r5, t[5], huge);
    TurnOfMark(r6, t[6], huge);
    NextTurn(r6, t, 6, huge);
    assert t[0..] == t && t[7..] == Wholes(c.runtimes);
  }

  /** Reading back: every setting comes back as a float holds it, when none prints as the mark. */
  lemma ReadBack(c: Config, base: Config, huge: Huge)
    requires NoMark(c) && |base.runtimes| == |c.runtimes|
    ensures ReadFile(WriteFile(c), base, huge) == Rounded(c, huge)
  {
    hide Turn, Turns, ToTenths, Narrow;
    FrontIsRead(c, base, huge);
    ZonesAreRead(Reader(7, 6, true, Rounded(c, huge).(runtimes := base.runtimes)), c.runtimes, huge);
    assert base.runtimes[..0] + Narrowed(c.runtimes, huge) == Narrowed(c.runtimes, huge);
  }

  // ---- And when one does ----

  /** Once the mark has been seen, only run times change. */
  lemma {:induction false} OnlyZonesChange(r: Reader, file: seq<Token>, huge: Huge)
    requires r.z
    ensures var t := Turns(r, file, huge); t.z && t.cfg == r.cfg.(runtimes := t.cfg.runtimes)
    decreases |file|
  {
    if file != [] {
      OnlyZonesChange(Turn(r, file[0], huge), file[1..], huge);
    }
  }

  /** A run time that prints as the mark is never stored. */
  lemma {:induction false} MarkIsNotStored(r: Reader, ns: seq<int>, huge: Huge)
    requires r.z && -1 !in r.cfg.runtimes
    ensures -1 !in Turns(r, Wholes(ns), huge).cfg.runtimes
    decreases |ns|
  {
    hide Turn, Narrow;
    if ns != [] {
      assert Wholes(ns)[1..] == Wholes(ns[1..]);
      if ns[0] == -1 {
        TurnOfMark(r, Whole(-1), huge);
      } else {
        TurnOfWhole(r, ns[0], huge);
        NarrowIsNoMark(ns[0], huge);
      }
      MarkIsNotStored(Turn(r, Whole(ns[0]), huge), ns[1..], huge);
    }
  }

  lemma NarrowIsNoMark(n: int, huge: Huge)
    ensures Narrow(n, huge) == -1 <==> n == -1
  {
    RoundKeeps(n);
  }

  function Plain(zones: nat): Config {
    Config(false, false, 0, 0, 0.0, 0.0, seq(zones, _ => 0))
  }

  lemma MarkedTurns(r: Reader, t: seq<Token>, k: nat, huge: Huge)
    requires k < |t| && (t[k] == Whole(-1) || t[k] == Tenths(-10))
    ensures var end := Turns(r, t[k..], huge).cfg; end == r.cfg.(runtimes := end.runtimes)
  {
    hide Turn;
    TurnOfMark(r, t[k], huge);
    NextTurn(r, t, k, huge);
    OnlyZonesChange(Turn(r, t[k], huge), t[k + 1..], huge);
  }

  /** A setting that prints as the mark is not restored. */
  lemma MarkSpoilsSettings(c: Config, huge: Huge)
    requires c.until == -1 || c.chance == -1 || ToTenths(c.inch1) == -10 || ToTenths(c.inch2) == -10
    ensures ReadFile(WriteFile(c), Plain(|c.runtimes|), huge) != Rounded(c, huge)
  {
    hide Turn, Turns, ToTenths, Tenth, Narrow, Narrowed, Wholes;
    var r0, t := Reader(0, 0, false, Plain(|c.runtimes|)), WriteFile(c);
    TenthsAreRead(-10);
    assert Tenth(-10) == FloatOf(Tenths(-10)) == -1.0;
    NarrowIsNoMark(c.until, huge);
    NarrowIsNoMark(c.chance, huge);
    assert t[0..] == t;
    TurnOfWhole(r0, t[0].n, huge);
    NextTurn(r0, t, 0, huge);
    var r1 := Turn(r0, t[0], huge);
    TurnOfWhole(r1, t[1].n, huge);
    NextTurn(r1, t, 1, huge);
    var r2 := Turn(r1, t[1], huge);
    if c.until == -1 {
      MarkedTurns(r2, t, 2, huge);
      return;
    }
    TurnOfWhole(r2, t[2].n, huge);
    NextTurn(r2, t, 2, huge);
    var r3 := Turn(r2, t[2], huge);
    if c.chance == -1 {
      MarkedTurns(r3, t, 3, huge);
      return;
    }
    TurnOfWhole(r3, t[3].n, huge);
    NextTurn(r3, t, 3, huge);
    var r4 := Turn(r3, t[3], huge);
    if ToTenths(c.inch1) == -10 {
      MarkedTurns(r4, t, 4, huge);
      return;
    }
    TurnOfTenths(r4, t[4].t, huge);
    NextTurn(r4, t, 4, huge);
    MarkedTurns(Turn(r4, t[4], huge), t, 5, huge);
  }

  lemma MarkSpoilsZones(c: Config, huge: Huge)
    requires NoMark(c.(runtimes := [])) && -1 in c.runtimes
    ensures ReadFile(WriteFile(c), Plain(|c.runtimes|), huge) != Rounded(c, huge)
  {
    hide Turn, Turns, ToTenths, Narrow;
    var base := Plain(|c.runtimes|);
    FrontIsRead(c, base, huge);
    MarkIsNotStored(Reader(7, 6, true, Rounded(c, huge).(runtimes := base.runtimes)), c.runtimes, huge);
    var k :| 0 <= k < |c.runtimes| && c.runtimes[k] == -1;
    NarrowIsNoMark(-1, huge);
    assert Rounded(c, huge).runtimes[k] == -1;
  }

  /** Whatever the program starts from, its settings are restored exactly when none of them prints as the mark. */
  lemma RestoredIffNoMark(c: Config, huge: Huge)
    ensures NoMark(c) <==> forall base: Config :: |base.runtimes| == |c.runtimes| ==>
                                                 ReadFile(WriteFile(c), base, huge) == Rounded(c, huge)
  {
    hide ReadFile, WriteFile, Rounded, ToTenths;
    if NoMark(c) {
      forall base: Config | |base.runtimes| == |c.runtimes|
        ensures ReadFile(WriteFile(c), base, huge) == Rounded(c, huge)
      {
        ReadBack(c, base, huge);
      }
    } else if NoMark(c.(runtimes := [])) {
      MarkSpoilsZones(c, huge);
    } else {
      MarkSpoilsSettings(c, huge);
    }
  }
}
