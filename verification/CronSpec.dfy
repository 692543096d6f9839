/** The watering schedule, printed as lines for cron and read back from them. */
module CronSpec {
  import opened Bytes
  import opened Chars

  const DAYS := 7

  /** A day's start and the run time of each zone; a day that is off has no start, printed nowhere and read as -1. */
  datatype Day = Day(hour: int, minute: int, runtimes: seq<int>)

  /** The sensors that are set to zero at midnight. */
  datatype Sensor = ChanceOfRain | RainTotal

  /** A line with the five numbers that the reader looks for, as text, or one for a command run before the start. */
  datatype Line =
    | Zone(minute: seq<byte>, hour: seq<byte>, day: seq<byte>, zone: seq<byte>, runtime: seq<byte>)
    | Command(atMinute: int, atHour: int, onDay: nat, index: nat)
    | Zeroed(sensor: Sensor)
    | Comment

  // ---- Numbers ----

  /** `%d` of a number that is not negative. */
  function Decimal(n: nat): (s: seq<byte>)
    ensures s != [] && forall i :: 0 <= i < |s| ==> IsDigit(s[i])
  {
    (if n < 10 then [] else Decimal(n / 10)) + [48 + n % 10]
  }

  /** `str2int` with what it has read so far: stops at the first character that is no digit. */
  function Str2Int(s: seq<byte>, n: nat): nat {
    if s == [] || !IsDigit(s[0]) then n else Str2Int(s[1..], n * 10 + (s[0] - 48))
  }

  function Value(s: seq<byte>): nat {
    Str2Int(s, 0)
  }

  /** `([0-9]{1,2})` where anything may follow. */
  function FirstTwo(s: seq<byte>): seq<byte> {
    if |s| <= 2 then s else s[..2]
  }

  /** `([0-9]{1,2})` where anything may be in front. */
  function LastTwo(s: seq<byte>): seq<byte> {
    if |s| <= 2 then s else s[|s| - 2..]
  }

  lemma {:induction false} Str2IntMore(s: seq<byte>, c: byte, n: nat)
    requires IsDigit(c) && forall i :: 0 <= i < |s| ==> IsDigit(s[i])
    ensures Str2Int(s + [c], n) == Str2Int(s, n) * 10 + (c - 48)
    decreases |s|
  {
    if s == [] {
      assert s + [c] == [c] && (s + [c])[1..] == [];
    } else {
      assert (s + [c])[1..] == s[1..] + [c];
      Str2IntMore(s[1..], c, n * 10 + (s[0] - 48));
    }
  }

  /** A printed number is read back. */
  lemma {:induction false} DecimalRoundTrip(n: nat)
    ensures Value(Decimal(n)) == n
  {
    if n >= 10 {
      DecimalRoundTrip(n / 10);
    }
    Str2IntMore(if n < 10 then [] else Decimal(n / 10), 48 + n % 10, 0);
  }

  lemma TwoDigits(n: nat)
    ensures |Decimal(n)| <= 2 <==> n < 100
  {
    if n >= 10 {
      assert |Decimal(n / 10)| == 1 <==> n / 10 < 10;
    }
  }

  lemma TwoDigitsAreSmall(s: seq<byte>)
    requires |s| <= 2
    ensures Value(s) < 100
  {
    if s != [] && IsDigit(s[0]) {
      var rest, n := s[1..], s[0] - 48;
      assert Value(s) == Str2Int(rest, n);
      assert rest != [] ==> rest[1..] == [];
    }
  }

  /** The first two digits of a number are the number exactly when it has no more. */
  lemma FirstTwoIff(n: nat)
    ensures Value(FirstTwo(Decimal(n))) == n <==> n < 100
  {
    hide Decimal, Value;
    TwoDigits(n);
    DecimalRoundTrip(n);
    TwoDigitsAreSmall(FirstTwo(Decimal(n)));
  }

  // ---- Printing ----

  datatype Clock = Clock(hour: int, minute: int) {
    function Minutes(): int {
      60 * hour + minute
    }

    predicate Valid() {
      0 <= hour < 24 && 0 <= minute < 60
    }
  }

  /** `min = min + runtime`, with at most one hour carried. */
  function After(c: Clock, runtime: int): Clock {
    var m := c.minute + runtime;
    if m >= 60 then Clock(c.hour + 1, m - 60) else Clock(c.hour, m)
  }

  function ZoneLine(day: nat, c: Clock, zone: nat, runtime: nat): Line
    requires c.hour >= 0 && c.minute >= 0
  {
    Zone(Decimal(c.minute), Decimal(c.hour), Decimal(day), Decimal(zone), Decimal(runtime))
  }

  /** The zones from `zone` on, with the times at which they are printed. */
  function Times(c: Clock, zone: nat, runtimes: seq<int>): (ts: seq<(Clock, nat, nat)>)
    requires c.hour >= 0 && c.minute >= 0
    ensures forall i :: 0 <= i < |ts| ==> ts[i].0.hour >= 0 && ts[i].0.minute >= 0
    decreases |runtimes|
  {
    if runtimes == [] then []
    else if runtimes[0] > 0 then
      var next := After(c, runtimes[0]);
      [(c, zone, runtimes[0])] + if next.hour >= 24 then [] else Times(next, zone + 1, runtimes[1..])
    else Times(c, zone + 1, runtimes[1..])
  }

  predicate On(d: Day) {
    d.hour >= 0 && d.minute >= 0
  }

  function ZoneLines(day: nat, ts: seq<(Clock, nat, nat)>): (ls: seq<Line>)
    requires forall i :: 0 <= i < |ts| ==> ts[i].0.hour >= 0 && ts[i].0.minute >= 0
    ensures |ls| == |ts| && forall i :: 0 <= i < |ts| ==> ls[i] == ZoneLine(day, ts[i].0, ts[i].1, ts[i].2)
  {
    seq(|ts|, i requires 0 <= i < |ts| => ZoneLine(day, ts[i].0, ts[i].1, ts[i].2))
  }

  function DayLines(day: nat, d: Day): seq<Line> {
    if On(d) then ZoneLines(day, Times(Clock(d.hour, d.minute), 1, d.runtimes)) else []
  }

  /** When a command is run that is to run so many minutes before the start. */
  function CommandTime(d: Day, mins: int): Clock {
    if d.minute < mins then Clock(d.hour - 1, 60 - (mins - d.minute)) else Clock(d.hour, d.minute - mins)
  }

  function CommandLines(day: nat, d: Day, before: seq<int>): (ls: seq<Line>)
    ensures |ls| == |before| && forall i :: 0 <= i < |ls| ==>
                var c := CommandTime(d, before[i]); ls[i] == Command(c.minute, c.hour, day, i)
  {
    seq(|before|, i requires 0 <= i < |before| =>
      var c := CommandTime(d, before[i]); Command(c.minute, c.hour, day, i))
  }

  /** The lines for the days from `day` on. */
  function DaysLines(day: nat, days: seq<Day>, before: seq<int>): seq<Line>
    decreases |days|
  {
    if days == [] then []
    else DayLines(day, days[0]) + CommandLines(day, days[0], before) + DaysLines(day + 1, days[1..], before)
  }

  const LAST_LINES := [Zeroed(ChanceOfRain), Zeroed(RainTotal), Comment]

  /** `write_cron`: a comment, the days, two lines that clear the sensors, and a comment. */
  function WriteCron(days: seq<Day>, before: seq<int>): seq<Line> {
    [Comment] + DaysLines(0, days, before) + LAST_LINES
  }

  // ---- Reading ----

  /** The numbers found on a line of the file; the hour has to stand between spaces. */
  datatype Numbers = NoMatch | Numbers(minute: nat, hour: nat, day: nat, zone: nat, runtime: nat)

  /** What the regular expression and `str2int` make of a line; commands are taken not to look like zones. */
  function Numbers5(l: Line): Numbers {
    if !l.Zone? || |l.hour| > 2 || |l.day| > 2 then NoMatch
    else
      Numbers(Value(LastTwo(l.minute)), Value(l.hour), Value(l.day),
              Value(FirstTwo(l.zone)), Value(FirstTwo(l.runtime)))
  }

  function SetRuntime(d: Day, zone: nat, runtime: int): Day {
    if 1 <= zone <= |d.runtimes| then d.(runtimes := d.runtimes[zone - 1 := runtime]) else d
  }

  /** What a line changes of its day; only the first gives the start. */
  function Absorb(d: Day, n: Numbers): Day
    requires n.Numbers?
  {
    SetRuntime(if d.hour == -1 then d.(hour := n.hour, minute := n.minute) else d, n.zone, n.runtime)
  }

  function ReadLine(days: seq<Day>, l: Line): (r: seq<Day>)
    ensures |r| == |days|
  {
    var n := Numbers5(l);
    if n.Numbers? && n.day < |days| && n.zone <= |days[n.day].runtimes| then days[n.day := Absorb(days[n.day], n)]
    else days
  }

  function ReadLines(days: seq<Day>, ls: seq<Line>): (r: seq<Day>)
    ensures |r| == |days|
    decreases |ls|
  {
    if ls == [] then days else ReadLines(ReadLine(days, ls[0]), ls[1..])
  }

  function NoRuns(zones: nat): (s: seq<int>)
    ensures |s| == zones && forall i :: 0 <= i < zones ==> s[i] == 0
  {
    seq(zones, _ => 0)
  }

  function Off(zones: nat): Day {
    Day(-1, -1, NoRuns(zones))
  }

  /** `read_cron`. */
  function ReadCron(ls: seq<Line>, zones: nat): seq<Day> {
    ReadLines(seq(DAYS, _ => Off(zones)), ls)
  }

  // ---- The printed times ----

  /** The run times of the first n zones that have one, taken together. */
  function Waited(runtimes: seq<int>): nat {
    if runtimes == [] then 0
    else Waited(runtimes[..|runtimes| - 1]) + if runtimes[|runtimes| - 1] > 0 then runtimes[|runtimes| - 1] else 0
  }

  lemma {:induction false} WaitedCons(r: int, more: seq<int>)
    ensures Waited([r] + more) == (if r > 0 then r else 0) + Waited(more)
    decreases |more|
  {
    if more == [] {
      assert [r] + more == [r] && [r][..0] == [];
    } else {
      var all := [r] + more;
      assert all[..|all| - 1] == [r] + more[..|more| - 1];
      WaitedCons(r, more[..|more| - 1]);
    }
  }

  /** Each zone is printed with the time at which the zones before it are done. */
  lemma {:induction false} TimesAreStartPlusWaited(c: Clock, zone: nat, runtimes: seq<int>, i: nat)
    requires c.hour >= 0 && c.minute >= 0 && i < |Times(c, zone, runtimes)|
    ensures var (at, z, r) := Times(c, zone, runtimes)[i];
            && zone <= z < zone + |runtimes| && r == runtimes[z - zone] && r > 0
            && at.Minutes() == c.Minutes() + Waited(runtimes[..z - zone])
    decreases |runtimes|
  {
    var rest := runtimes[1..];
    assert runtimes[..0] == [];
    if runtimes[0] <= 0 || i > 0 {
      var next := if runtimes[0] > 0 then After(c, runtimes[0]) else c;
      var j := if runtimes[0] > 0 then i - 1 else i;
      TimesAreStartPlusWaited(next, zone + 1, rest, j);
      var z := Times(next, zone + 1, rest)[j].1;
      assert Times(c, zone, runtimes)[i] == Times(next, zone + 1, rest)[j];
      assert runtimes[..z - zone] == [runtimes[0]] + rest[..z - zone - 1];
      WaitedCons(runtimes[0], rest[..z - zone - 1]);
    }
  }

  /** With run times of at most an hour, each is printed with a time of day. */
  lemma {:induction false} TimesAreValid(c: Clock, zone: nat, runtimes: seq<int>)
    requires c.Valid() && forall i :: 0 <= i < |runtimes| ==> runtimes[i] <= 60
    ensures forall i :: 0 <= i < |Times(c, zone, runtimes)| ==> Times(c, zone, runtimes)[i].0.Valid()
    decreases |runtimes|
  {
    if runtimes != [] {
      var next := if runtimes[0] > 0 then After(c, runtimes[0]) else c;
      if next.hour < 24 {
        TimesAreValid(next, zone + 1, runtimes[1..]);
      }
    }
  }

  /** An hour is the most that one carry is good for, whatever the minute. */
  lemma OneCarryIff(runtime: nat)
    ensures runtime <= 60 <==> forall c: Clock :: c.Valid() ==> After(c, runtime).minute < 60
  {
    assert Clock(0, 59).Valid();
    assert After(Clock(0, 59), runtime).minute < 60 ==> runtime <= 60;
  }

  /** A command is printed that many minutes before the start; as a time of day exactly when one borrowed hour does. */
  lemma CommandTimeIff(d: Day, mins: nat)
    requires Clock(d.hour, d.minute).Valid()
    ensures var c := CommandTime(d, mins);
            && c.Minutes() == Clock(d.hour, d.minute).Minutes() - mins
            && (c.Valid() <==> mins <= d.minute || (d.hour > 0 && mins <= d.minute + 60))
  {}

  // ---- Reading what was printed ----

  /** What of the run times gets through the file: nothing behind the zone that ends in the next day. */
  function Kept(c: Clock, runtimes: seq<int>): (k: seq<int>)
    ensures |k| == |runtimes|
    decreases |runtimes|
  {
    if runtimes == [] then []
    else if runtimes[0] > 0 then
      var next := After(c, runtimes[0]);
      [Value(FirstTwo(Decimal(runtimes[0])))]
      + if next.hour >= 24 then NoRuns(|runtimes| - 1) else Kept(next, runtimes[1..])
    else [0] + Kept(c, runtimes[1..])
  }

  /** The line of a zone, read: the day is changed as said, and no other. */
  lemma ZoneLineIsRead(days: seq<Day>, day: nat, c: Clock, zone: nat, runtime: nat)
    requires day < |days| <= 10 && 0 <= c.hour < 24 && c.minute >= 0 && 1 <= zone <= |days[day].runtimes| < 100
    ensures var d := days[day];
            var start := if d.hour == -1 then d.(hour := c.hour, minute := Value(LastTwo(Decimal(c.minute)))) else d;
            ReadLine(days, ZoneLine(day, c, zone, runtime))
            == days[day := SetRuntime(start, zone, Value(FirstTwo(Decimal(runtime))))]
  {
    hide Decimal, Value, LastTwo;
    TwoDigits(day);
    TwoDigits(c.hour);
    FirstTwoIff(zone);
    DecimalRoundTrip(day);
    DecimalRoundTrip(c.hour);
  }

  lemma {:induction false} ReadAppend(days: seq<Day>, a: seq<Line>, b: seq<Line>)
    ensures ReadLines(days, a + b) == ReadLines(ReadLines(days, a), b)
    decreases |a|
  {
    hide ReadLine;
    if a == [] {
      assert a + b == b;
    } else {
      assert (a + b)[1..] == a[1..] + b;
      ReadAppend(ReadLine(days, a[0]), a[1..], b);
    }
  }

  predicate Zeros(s: seq<int>) {
    forall i :: 0 <= i < |s| ==> s[i] == 0
  }

  lemma SetOne(rs: seq<int>, k: nat, v: int, more: seq<int>)
    requires k < |rs| && |more| == |rs| - k - 1
    ensures rs[k := v][..k + 1] + more == rs[..k] + ([v] + more)
    ensures Zeros(rs[k + 1..]) ==> Zeros(rs[k := v][k + 1..])
  {}

  lemma ZeroTail(rs: seq<int>, k: nat)
    requires k <= |rs| && Zeros(rs[k..])
    ensures rs == rs[..k] + NoRuns(|rs| - k)
  {
    assert rs == rs[..k] + rs[k..];
  }

  lemma LastRun(rs: seq<int>, k: nat, v: int)
    requires k < |rs| && Zeros(rs[k + 1..])
    ensures rs[k := v] == rs[..k] + ([v] + NoRuns(|rs| - k - 1))
  {
    SetOne(rs, k, v, NoRuns(|rs| - k - 1));
    ZeroTail(rs[k := v], k + 1);
  }

  /** The line of a zone that runs, and what is read after it. */
  lemma LineIsRead(days: seq<Day>, day: nat, c: Clock, k: nat, runtimes: seq<int>) returns (then1: seq<Day>)
    requires day < |days| <= 10 && 0 <= c.hour < 24 && c.minute >= 0 && k < |days[day].runtimes| < 100
    requires runtimes != [] && runtimes[0] > 0
    ensures var d, v := days[day], Value(FirstTwo(Decimal(runtimes[0])));
            var start := if d.hour == -1 then d.(hour := c.hour, minute := Value(LastTwo(Decimal(c.minute)))) else d;
            then1 == days[day := start.(runtimes := d.runtimes[k := v])]
    ensures var next := After(c, runtimes[0]);
            ReadLines(days, ZoneLines(day, Times(c, k + 1, runtimes)))
            == if next.hour >= 24 then then1 else ReadLines(then1, ZoneLines(day, Times(next, k + 2, runtimes[1..])))
  {
    hide Value, Decimal, ReadLine, LastTwo, FirstTwo, ZoneLines, ZoneLine, Times, After;
    var d, v := days[day], Value(FirstTwo(Decimal(runtimes[0])));
    var start := if d.hour == -1 then d.(hour := c.hour, minute := Value(LastTwo(Decimal(c.minute)))) else d;
    then1 := days[day := start.(runtimes := d.runtimes[k := v])];
    ZoneLineIsRead(days, day, c, k + 1, runtimes[0]);
    FirstLine(day, c, k, runtimes);
  }

  lemma LinesGoOn(days: seq<Day>, day: nat, d: Day, next: Clock, k: nat, v: int, more: seq<int>)
    requires day < |days| <= 10 && 0 <= next.hour < 24 && next.minute >= 0 && d.hour >= 0
    requires k + 1 + |more| == |d.runtimes| < 100 && Zeros(d.runtimes[k + 1..])
    ensures ReadLines(days[day := d.(runtimes := d.runtimes[k := v])], ZoneLines(day, Times(next, k + 2, more)))
            == days[day := d.(runtimes := d.runtimes[..k] + ([v] + Kept(next, more)))]
    decreases |more|, 1
  {
    hide ZoneLines, Times, Kept, ReadLines;
    var rs := d.runtimes;
    var then1 := days[day := d.(runtimes := rs[k := v])];
    SetOne(rs, k, v, Kept(next, more));
    ZoneLinesAreRead(then1, day, next, k + 1, more);
    SetTwice(days, day, then1[day], d.(runtimes := rs[..k] + ([v] + Kept(next, more))));
  }

  lemma SetTwice(days: seq<Day>, day: nat, a: Day, b: Day)
    requires day < |days|
    ensures days[day := a][day := b] == days[day := b]
  {}

  lemma KeptCons(c: Clock, runtimes: seq<int>)
    requires runtimes != [] && runtimes[0] > 0
    ensures var next := After(c, runtimes[0]);
            Kept(c, runtimes) == [Value(FirstTwo(Decimal(runtimes[0])))]
                                 + if next.hour >= 24 then NoRuns(|runtimes| - 1) else Kept(next, runtimes[1..])
  {}

  /** The lines of a day whose start is known, from zone k + 1 on. */
  lemma {:induction false} ZoneLinesAreRead(days: seq<Day>, day: nat, c: Clock, k: nat, runtimes: seq<int>)
    requires day < |days| <= 10 && 0 <= c.hour < 24 && c.minute >= 0
    requires days[day].hour >= 0 && k + |runtimes| == |days[day].runtimes| < 100 && Zeros(days[day].runtimes[k..])
    ensures ReadLines(days, ZoneLines(day, Times(c, k + 1, runtimes)))
            == days[day := days[day].(runtimes := days[day].runtimes[..k] + Kept(c, runtimes))]
    decreases |runtimes|, 0
  {
    var rs := days[day].runtimes;
    if runtimes == [] {
      assert rs[..k] + Kept(c, runtimes) == rs;
      assert days[day := days[day].(runtimes := rs)] == days;
    } else if runtimes[0] > 0 {
      hide Value, Decimal, FirstTwo, ZoneLines, Times, Kept, ReadLines, NoRuns;
      var next := After(c, runtimes[0]);
      var v := Value(FirstTwo(Decimal(runtimes[0])));
      var then1 := LineIsRead(days, day, c, k, runtimes);
      KeptCons(c, runtimes);
      if next.hour >= 24 {
        LastRun(rs, k, v);
      } else {
        LinesGoOn(days, day, days[day], next, k, v, runtimes[1..]);
      }
    } else {
      hide Value, Decimal, ReadLine, ReadLines;
      SetOne(rs, k, 0, Kept(c, runtimes[1..]));
      assert rs[k := 0] == rs by {
        assert rs[k] == rs[k..][0];
      }
      ZoneLinesAreRead(days, day, c, k + 1, runtimes[1..]);
    }
  }

  lemma FirstLine(day: nat, c: Clock, k: nat, runtimes: seq<int>)
    requires c.hour >= 0 && c.minute >= 0 && runtimes != [] && runtimes[0] > 0
    ensures var ls := ZoneLines(day, Times(c, k + 1, runtimes));
            && ls != [] && ls[0] == ZoneLine(day, c, k + 1, runtimes[0])
            && var next := After(c, runtimes[0]);
               ls[1..] == if next.hour >= 24 then [] else ZoneLines(day, Times(next, k + 2, runtimes[1..]))
  {
    hide ZoneLines, Decimal;
    var next := After(c, runtimes[0]);
    var more := if next.hour >= 24 then [] else Times(next, k + 2, runtimes[1..]);
    assert Times(c, k + 1, runtimes) == [(c, k + 1, runtimes[0])] + more;
    hide Times;
    LinesCons(day, (c, k + 1, runtimes[0]), more);
  }

  lemma FirstLineThen(day: nat, c: Clock, k: nat, runtimes: seq<int>, file: seq<Line>)
    requires c.hour >= 0 && c.minute >= 0 && runtimes != [] && runtimes[0] > 0
    ensures var next := After(c, runtimes[0]);
            var rest := if next.hour >= 24 then [] else ZoneLines(day, Times(next, k + 2, runtimes[1..]));
            file + ZoneLines(day, Times(c, k + 1, runtimes)) == file + [ZoneLine(day, c, k + 1, runtimes[0])] + rest
  {
    hide ZoneLines, Decimal, Times;
    FirstLine(day, c, k, runtimes);
    var ls := ZoneLines(day, Times(c, k + 1, runtimes));
    assert ls == [ls[0]] + ls[1..];
    Rebracket(file, [ls[0]], ls[1..]);
  }

  lemma LinesCons(day: nat, t: (Clock, nat, nat), ts: seq<(Clock, nat, nat)>)
    requires t.0.hour >= 0 && t.0.minute >= 0
    requires forall i :: 0 <= i < |ts| ==> ts[i].0.hour >= 0 && ts[i].0.minute >= 0
    ensures ZoneLines(day, [t] + ts) == [ZoneLine(day, t.0, t.1, t.2)] + ZoneLines(day, ts)
  {
    hide ZoneLines, Decimal;
  }

  lemma NoLine(day: nat, c: Clock, k: nat, runtimes: seq<int>)
    requires c.hour >= 0 && c.minute >= 0
    ensures runtimes == [] ==> ZoneLines(day, Times(c, k, runtimes)) == []
    ensures runtimes != [] && runtimes[0] <= 0 ==> Times(c, k, runtimes) == Times(c, k + 1, runtimes[1..])
  {}

  /** Some zone has a run time. */
  predicate SomeZone(runtimes: seq<int>) {
    runtimes != [] && (runtimes[0] > 0 || SomeZone(runtimes[1..]))
  }

  /** All lines of a day whose entry has been cleared. */
  lemma DayLinesAreRead(days: seq<Day>, day: nat, d: Day)
    requires day < |days| <= 10 && days[day] == Off(|d.runtimes|) && |d.runtimes| < 100 && d.hour < 24
    ensures ReadLines(days, DayLines(day, d)) == days[day := DayBack(d)]
  {
    hide Value, Decimal, ReadLine;
    if On(d) {
      var start := Clock(d.hour, d.minute);
      SkipZeros(days, day, start, 0, d.runtimes);
      assert days[day].runtimes[..0] + Kept(start, d.runtimes) == Kept(start, d.runtimes);
      assert days[day := Off(|d.runtimes|)] == days;
    } else {
      assert days[day := Off(|d.runtimes|)] == days;
    }
  }

  /** What a day has become when it is read again. */
  function DayBack(d: Day): Day {
    if On(d) && SomeZone(d.runtimes)
    then Day(d.hour, Value(LastTwo(Decimal(d.minute))), Kept(Clock(d.hour, d.minute), d.runtimes))
    else Off(|d.runtimes|)
  }

  /** Up to the first zone that has a run time, nothing is printed; its line gives the start. */
  lemma {:induction false} SkipZeros(days: seq<Day>, day: nat, c: Clock, k: nat, runtimes: seq<int>)
    requires day < |days| <= 10 && 0 <= c.hour < 24 && c.minute >= 0
    requires k + |runtimes| < 100 && days[day] == Off(k + |runtimes|)
    ensures ReadLines(days, ZoneLines(day, Times(c, k + 1, runtimes)))
            == if SomeZone(runtimes)
               then var kept := days[day].runtimes[..k] + Kept(c, runtimes);
                    days[day := Day(c.hour, Value(LastTwo(Decimal(c.minute))), kept)]
               else days
    decreases |runtimes|
  {
    hide Value, Decimal, ReadLine, LastTwo;
    var rs := days[day].runtimes;
    if runtimes == [] {
    } else if runtimes[0] > 0 {
      FromFirst(days, day, c, k, runtimes);
    } else {
      SkipZeros(days, day, c, k + 1, runtimes[1..]);
      SetOne(rs, k, 0, Kept(c, runtimes[1..]));
      assert rs[k := 0] == rs;
    }
  }

  lemma FromFirst(days: seq<Day>, day: nat, c: Clock, k: nat, runtimes: seq<int>)
    requires day < |days| <= 10 && 0 <= c.hour < 24 && c.minute >= 0
    requires k + |runtimes| < 100 && days[day] == Off(k + |runtimes|)
    requires runtimes != [] && runtimes[0] > 0
    ensures ReadLines(days, ZoneLines(day, Times(c, k + 1, runtimes)))
            == days[day := Day(c.hour, Value(LastTwo(Decimal(c.minute))), days[day].runtimes[..k] + Kept(c, runtimes))]
  {
    hide Value, Decimal, LastTwo, FirstTwo, ZoneLines, Times, Kept, ReadLines, NoRuns;
    var rs := days[day].runtimes;
    var next := After(c, runtimes[0]);
    var v, m := Value(FirstTwo(Decimal(runtimes[0]))), Value(LastTwo(Decimal(c.minute)));
    var then1 := LineIsRead(days, day, c, k, runtimes);
    KeptCons(c, runtimes);
    if next.hour >= 24 {
      LastRun(rs, k, v);
    } else {
      LinesGoOn(days, day, Day(c.hour, m, rs), next, k, v, runtimes[1..]);
    }
  }

  lemma {:induction false} OthersChangeNothing(days: seq<Day>, ls: seq<Line>)
    requires forall i :: 0 <= i < |ls| ==> !ls[i].Zone?
    ensures ReadLines(days, ls) == days
    decreases |ls|
  {
    if ls != [] {
      OthersChangeNothing(days, ls[1..]);
    }
  }

  ghost predicate Schedule(days: seq<Day>, zones: nat) {
    zones < 100 && forall i :: 0 <= i < |days| ==> |days[i].runtimes| == zones && days[i].hour < 24
  }

  function DaysBack(days: seq<Day>): (r: seq<Day>)
    ensures |r| == |days| && forall i :: 0 <= i < |days| ==> r[i] == DayBack(days[i])
  {
    seq(|days|, i requires 0 <= i < |days| => DayBack(days[i]))
  }

  /** The days from `day` on are read into their entries. */
  lemma {:induction false} DaysAreRead(state: seq<Day>, day: nat, days: seq<Day>, before: seq<int>, zones: nat)
    requires Schedule(days, zones) && day + |days| == |state| <= 10
    requires forall i :: day <= i < |state| ==> state[i] == Off(zones)
    ensures ReadLines(state, DaysLines(day, days, before)) == state[..day] + DaysBack(days)
    decreases |days|
  {
    hide DayBack, DayLines, ReadLine, Off;
    if days == [] {
      assert state[..day] + DaysBack(days) == state;
    } else {
      var own, commands := DayLines(day, days[0]), CommandLines(day, days[0], before);
      var rest := DaysLines(day + 1, days[1..], before);
      var next := state[day := DayBack(days[0])];
      ReadAppend(state, own + commands, rest);
      ReadAppend(state, own, commands);
      DayLinesAreRead(state, day, days[0]);
      OthersChangeNothing(next, commands);
      DaysAreRead(next, day + 1, days[1..], before, zones);
      assert next[..day + 1] + DaysBack(days[1..]) == state[..day] + DaysBack(days);
    }
  }

  /** What the file gives back of each day, whatever commands there are. */
  lemma CronGivesBack(days: seq<Day>, before: seq<int>, zones: nat)
    requires Schedule(days, zones) && |days| == DAYS
    ensures ReadCron(WriteCron(days, before), zones) == DaysBack(days)
  {
    hide DayBack, ReadLine, Schedule, DaysLines;
    var state, ls := seq(DAYS, _ => Off(zones)), DaysLines(0, days, before);
    ReadAppend(state, [Comment] + ls, LAST_LINES);
    ReadAppend(state, [Comment], ls);
    OthersChangeNothing(state, [Comment]);
    DaysAreRead(state, 0, days, before, zones);
    OthersChangeNothing(DaysBack(days), LAST_LINES);
    assert state[..0] + DaysBack(days) == DaysBack(days);
  }

  /** No zone is to start after the one that ends in the next day. */
  predicate Fits(c: Clock, runtimes: seq<int>)
    decreases |runtimes|
  {
    if runtimes == [] then true
    else if runtimes[0] > 0 then
      var next := After(c, runtimes[0]);
      if next.hour >= 24 then !SomeZone(runtimes[1..]) else Fits(next, runtimes[1..])
    else Fits(c, runtimes[1..])
  }

  lemma {:induction false} SomeZoneIff(runtimes: seq<int>)
    ensures SomeZone(runtimes) <==> exists i :: 0 <= i < |runtimes| && runtimes[i] > 0
  {
    if runtimes != [] {
      SomeZoneIff(runtimes[1..]);
      if i :| 0 <= i < |runtimes| && runtimes[i] > 0 {
        assert i > 0 ==> runtimes[1..][i - 1] > 0;
      }
      if i :| 0 <= i < |runtimes[1..]| && runtimes[1..][i] > 0 {
        assert runtimes[i + 1] > 0;
      }
    }
  }

  ghost predicate Short(runtimes: seq<int>) {
    forall i :: 0 <= i < |runtimes| ==> 0 <= runtimes[i] < 100
  }

  /** The run times are kept exactly when they have at most two digits and no zone is left for the next day. */
  lemma {:induction false} KeptIff(c: Clock, runtimes: seq<int>)
    ensures Kept(c, runtimes) == runtimes <==> Short(runtimes) && Fits(c, runtimes)
    decreases |runtimes|
  {
    hide Value, Decimal;
    if runtimes != [] {
      var r, rest := runtimes[0], runtimes[1..];
      assert runtimes == [r] + rest;
      assert Short(runtimes) <==> 0 <= r < 100 && Short(rest);
      if r > 0 {
        FirstTwoIff(r);
        var next := After(c, r);
        if next.hour >= 24 {
          SomeZoneIff(rest);
          ZerosAreShort(rest);
          ConsSame(Value(FirstTwo(Decimal(r))), NoRuns(|rest|), r, rest);
        } else {
          KeptIff(next, rest);
          ConsSame(Value(FirstTwo(Decimal(r))), Kept(next, rest), r, rest);
        }
      } else {
        KeptIff(c, rest);
        ConsSame(0, Kept(c, rest), r, rest);
      }
    }
  }

  lemma ConsSame(a: int, s: seq<int>, b: int, t: seq<int>)
    requires |s| == |t|
    ensures [a] + s == [b] + t <==> a == b && s == t
  {
    assert ([a] + s)[1..] == s && ([b] + t)[1..] == t;
    assert ([a] + s)[0] == a && ([b] + t)[0] == b;
  }

  lemma ZerosAreShort(s: seq<int>)
    ensures NoRuns(|s|) == s <==> Short(s) && !exists i :: 0 <= i < |s| && s[i] > 0
  {
    if Short(s) && !exists i :: 0 <= i < |s| && s[i] > 0 {
      assert forall i :: 0 <= i < |s| ==> s[i] == 0;
    }
    if NoRuns(|s|) == s {
      assert forall i :: 0 <= i < |s| ==> s[i] == NoRuns(|s|)[i];
    }
  }

  /** A day that starts at a time of day comes back exactly when it has a zone to run, and the run times are kept. */
  lemma DayComesBackIff(d: Day)
    requires Clock(d.hour, d.minute).Valid()
    ensures DayBack(d) == d
            <==> SomeZone(d.runtimes) && Short(d.runtimes) && Fits(Clock(d.hour, d.minute), d.runtimes)
  {
    hide Value, Decimal, Fits, Kept;
    TwoDigits(d.minute);
    DecimalRoundTrip(d.minute);
    KeptIff(Clock(d.hour, d.minute), d.runtimes);
  }

  /** How long the zones before the last to run take together. */
  function BeforeLast(runtimes: seq<int>): nat {
    if runtimes == [] || !SomeZone(runtimes[1..]) then 0
    else (if runtimes[0] > 0 then runtimes[0] else 0) + BeforeLast(runtimes[1..])
  }

  /** With run times of at most an hour, that is to say that the last zone starts before midnight. */
  lemma {:induction false} FitsIffBeforeMidnight(c: Clock, runtimes: seq<int>)
    requires c.Valid() && forall i :: 0 <= i < |runtimes| ==> runtimes[i] <= 60
    ensures Fits(c, runtimes) <==> !SomeZone(runtimes) || c.Minutes() + BeforeLast(runtimes) < 24 * 60
    decreases |runtimes|
  {
    if runtimes != [] {
      var next := if runtimes[0] > 0 then After(c, runtimes[0]) else c;
      if next.hour < 24 {
        FitsIffBeforeMidnight(next, runtimes[1..]);
      }
    }
  }

  /** The whole week: every day that has a zone to run, with run times of at most an hour that start before midnight. */
  lemma CronRoundTrip(days: seq<Day>, before: seq<int>, zones: nat, i: nat)
    requires Schedule(days, zones) && |days| == DAYS && i < DAYS
    requires Clock(days[i].hour, days[i].minute).Valid()
    requires forall z :: 0 <= z < zones ==> 0 <= days[i].runtimes[z] <= 60
    ensures ReadCron(WriteCron(days, before), zones)[i] == days[i]
            <==> SomeZone(days[i].runtimes)
                 && 60 * days[i].hour + days[i].minute + BeforeLast(days[i].runtimes) < 24 * 60
  {
    hide DayBack, ReadCron, WriteCron, Fits;
    CronGivesBack(days, before, zones);
    DayComesBackIff(days[i]);
    FitsIffBeforeMidnight(Clock(days[i].hour, days[i].minute), days[i].runtimes);
  }
}
