/** What the printed schedule holds: the lines of each day, one line for each day and command, and four more. */
module CronFile {
  import opened Bytes
  import opened CronSpec

  // ---- Commands ----

  /** The lines for command i on day d. */
  function CommandsFor(ls: seq<Line>, d: nat, i: nat): seq<Line> {
    if ls == [] then []
    else (if ls[0].Command? && ls[0].onDay == d && ls[0].index == i then [ls[0]] else []) + CommandsFor(ls[1..], d, i)
  }

  lemma {:induction false} CommandsJoin(a: seq<Line>, b: seq<Line>, d: nat, i: nat)
    ensures CommandsFor(a + b, d, i) == CommandsFor(a, d, i) + CommandsFor(b, d, i)
  {
    if a == [] {
      assert a + b == b;
    } else {
      assert (a + b)[1..] == a[1..] + b;
      CommandsJoin(a[1..], b, d, i);
    }
  }

  lemma {:induction false} NoneAmong(ls: seq<Line>, d: nat, i: nat)
    requires forall l <- ls :: !l.Command? || l.onDay != d || l.index != i
    ensures CommandsFor(ls, d, i) == []
  {
    if ls != [] {
      assert ls[0] in ls && forall l <- ls[1..] :: l in ls;
      NoneAmong(ls[1..], d, i);
    }
  }

  /** Among the commands of a day, each is there once. */
  lemma OneOfTheDay(day: nat, d: Day, before: seq<int>, i: nat)
    ensures var ls := CommandLines(day, d, before);
            CommandsFor(ls, day, i) == if i < |before| then [ls[i]] else []
  {
    var ls := CommandLines(day, d, before);
    if i < |before| {
      assert ls == ls[..i] + ([ls[i]] + ls[i + 1..]);
      CommandsJoin(ls[..i], [ls[i]] + ls[i + 1..], day, i);
      CommandsJoin([ls[i]], ls[i + 1..], day, i);
      NoneAmong(ls[..i], day, i);
      NoneAmong(ls[i + 1..], day, i);
      assert [ls[i]][1..] == [] && CommandsFor([ls[i]], day, i) == [ls[i]];
    } else {
      NoneAmong(ls, day, i);
    }
  }

  lemma OtherDays(day: nat, d: Day, before: seq<int>, other: nat, i: nat)
    requires other != day
    ensures CommandsFor(CommandLines(day, d, before), other, i) == []
    ensures forall e: nat :: CommandsFor(DayLines(day, d), e, i) == []
  {
    NoneAmong(CommandLines(day, d, before), other, i);
    forall e: nat
      ensures CommandsFor(DayLines(day, d), e, i) == []
    {
      NoneAmong(DayLines(day, d), e, i);
    }
  }

  lemma {:induction false} CommandsOfDays(day: nat, days: seq<Day>, before: seq<int>, d: nat, i: nat)
    ensures CommandsFor(DaysLines(day, days, before), d, i)
            == if day <= d < day + |days| && i < |before| then [CommandLines(d, days[d - day], before)[i]] else []
    decreases |days|
  {
    hide DayLines, CommandLines, CommandsFor;
    if days == [] {
      NoneAmong([], d, i);
    } else {
      var own, commands := DayLines(day, days[0]), CommandLines(day, days[0], before);
      var rest := DaysLines(day + 1, days[1..], before);
      CommandsJoin(own + commands, rest, d, i);
      CommandsJoin(own, commands, d, i);
      CommandsOfDay(day, days[0], before, d, i);
      CommandsOfDays(day + 1, days[1..], before, d, i);
    }
  }

  lemma CommandsOfDay(day: nat, d: Day, before: seq<int>, e: nat, i: nat)
    ensures CommandsFor(DayLines(day, d), e, i) == []
    ensures CommandsFor(CommandLines(day, d, before), e, i)
            == if e == day && i < |before| then [CommandLines(day, d, before)[i]] else []
  {
    OtherDays(day, d, before, day + 1, i);
    if e == day {
      OneOfTheDay(day, d, before, i);
    } else {
      OtherDays(day, d, before, e, i);
    }
  }

  /**
   * For each day and command the file has one line: so many minutes before the start, in the hour of the start or the
   * one before it. It has no line for other days or commands.
   */
  lemma CommandsAreFiled(days: seq<Day>, before: seq<int>, d: nat, i: nat)
    ensures var found := CommandsFor(WriteCron(days, before), d, i);
            if d < |days| && i < |before| then
              && |found| == 1 && found[0].Command? && found[0].onDay == d && found[0].index == i
              && 60 * found[0].atHour + found[0].atMinute == 60 * days[d].hour + days[d].minute - before[i]
              && found[0].atHour == (if before[i] <= days[d].minute then days[d].hour else days[d].hour - 1)
            else found == []
  {
    hide CommandLines, DaysLines;
    var ls := DaysLines(0, days, before);
    CommandsOfDays(0, days, before, d, i);
    CommandsJoin([Comment] + ls, LAST_LINES, d, i);
    CommandsJoin([Comment], ls, d, i);
    NoneAmong([Comment], d, i);
    NoneAmong(LAST_LINES, d, i);
  }

  // ---- The other lines ----

  /** The lines for zones on day d. */
  function ZonesOn(ls: seq<Line>, d: nat): seq<Line> {
    if ls == [] then []
    else (if ls[0].Zone? && ls[0].day == Decimal(d) then [ls[0]] else []) + ZonesOn(ls[1..], d)
  }

  lemma {:induction false} ZonesJoin(a: seq<Line>, b: seq<Line>, d: nat)
    ensures ZonesOn(a + b, d) == ZonesOn(a, d) + ZonesOn(b, d)
  {
    if a == [] {
      assert a + b == b;
    } else {
      assert (a + b)[1..] == a[1..] + b;
      ZonesJoin(a[1..], b, d);
    }
  }

  lemma {:induction false} AllOrNone(ls: seq<Line>, d: nat)
    ensures (forall l <- ls :: l.Zone? && l.day == Decimal(d)) ==> ZonesOn(ls, d) == ls
    ensures (forall l <- ls :: !l.Zone? || l.day != Decimal(d)) ==> ZonesOn(ls, d) == []
  {
    if ls != [] {
      assert ls[0] in ls && forall l <- ls[1..] :: l in ls;
      AllOrNone(ls[1..], d);
      assert ls == [ls[0]] + ls[1..];
    }
  }

  lemma SameDay(a: nat, b: nat)
    ensures Decimal(a) == Decimal(b) <==> a == b
  {
    DecimalRoundTrip(a);
    DecimalRoundTrip(b);
  }

  lemma ZonesOfDay(day: nat, d: Day, before: seq<int>, e: nat)
    ensures ZonesOn(DayLines(day, d), e) == if e == day then DayLines(day, d) else []
    ensures ZonesOn(CommandLines(day, d, before), e) == []
  {
    hide Decimal;
    SameDay(day, e);
    AllOrNone(DayLines(day, d), e);
    AllOrNone(CommandLines(day, d, before), e);
  }

  lemma {:induction false} ZonesOfDays(day: nat, days: seq<Day>, before: seq<int>, d: nat)
    ensures ZonesOn(DaysLines(day, days, before), d)
            == if day <= d < day + |days| then DayLines(d, days[d - day]) else []
    decreases |days|
  {
    hide DayLines, CommandLines, ZonesOn;
    if days == [] {
      AllOrNone([], d);
    } else {
      var own, commands := DayLines(day, days[0]), CommandLines(day, days[0], before);
      var rest := DaysLines(day + 1, days[1..], before);
      ZonesJoin(own + commands, rest, d);
      ZonesJoin(own, commands, d);
      ZonesOfDay(day, days[0], before, d);
      ZonesOfDays(day + 1, days[1..], before, d);
      assert own + [] == own;
    }
  }

  /** For each day the file has the lines of its zones, in their order. */
  lemma ZonesAreFiled(days: seq<Day>, before: seq<int>, d: nat)
    ensures ZonesOn(WriteCron(days, before), d) == if d < |days| then DayLines(d, days[d]) else []
  {
    hide DayLines, DaysLines;
    var ls := DaysLines(0, days, before);
    ZonesOfDays(0, days, before, d);
    ZonesJoin([Comment] + ls, LAST_LINES, d);
    ZonesJoin([Comment], ls, d);
    AllOrNone([Comment], d);
    AllOrNone(LAST_LINES, d);
  }

  ghost predicate Printed(ts: seq<(Clock, nat, nat)>, zone: nat) {
    exists i :: 0 <= i < |ts| && ts[i].1 == zone
  }

  lemma PrintedCons(t: (Clock, nat, nat), ts: seq<(Clock, nat, nat)>, zone: nat)
    ensures Printed([t] + ts, zone) <==> t.1 == zone || Printed(ts, zone)
  {
    var us := [t] + ts;
    assert us[0] == t;
    if i :| 0 <= i < |ts| && ts[i].1 == zone {
      assert us[i + 1].1 == zone;
    }
    if i :| 0 < i < |us| && us[i].1 == zone {
      assert ts[i - 1].1 == zone;
    }
  }

  /** A zone is printed exactly when it has a run time and the zones before it do not end in the next day. */
  lemma {:induction false} PrintedIff(c: Clock, zone: nat, runtimes: seq<int>, z: nat)
    requires 0 <= c.hour < 24 && c.minute >= 0 && z < |runtimes|
    ensures Printed(Times(c, zone, runtimes), zone + z) <==> runtimes[z] > 0 && AfterAll(c, runtimes[..z]).hour < 24
    decreases |runtimes|
  {
    hide Printed;
    var next, more := if runtimes[0] > 0 then After(c, runtimes[0]) else c, runtimes[1..];
    var us := if next.hour >= 24 then [] else Times(next, zone + 1, more);
    NotPrinted(us, zone);
    if runtimes[0] > 0 {
      PrintedCons((c, zone, runtimes[0]), us, zone + z);
      assert [(c, zone, runtimes[0])] + us == Times(c, zone, runtimes);
    }
    if z == 0 {
      assert runtimes[..z] == [];
      FromZone(next, zone + 1, more);
      NotPrinted(us, zone);
    } else {
      assert runtimes[..z][1..] == more[..z - 1] && runtimes[..z][0] == runtimes[0];
      if next.hour < 24 {
        PrintedIff(next, zone + 1, more, z - 1);
      } else {
        NotPrinted([], zone + z);
        LateStaysLate(next, more[..z - 1]);
      }
    }
  }

  lemma NotPrinted(ts: seq<(Clock, nat, nat)>, zone: nat)
    ensures (forall i :: 0 <= i < |ts| ==> ts[i].1 != zone) ==> !Printed(ts, zone)
  {}

  /** The clock when the zones that have a run time are done. */
  function AfterAll(c: Clock, runtimes: seq<int>): Clock
    decreases |runtimes|
  {
    if runtimes == [] then c else AfterAll(if runtimes[0] > 0 then After(c, runtimes[0]) else c, runtimes[1..])
  }

  lemma {:induction false} LateStaysLate(c: Clock, runtimes: seq<int>)
    requires c.hour >= 24
    ensures AfterAll(c, runtimes).hour >= 24
    decreases |runtimes|
  {
    if runtimes != [] {
      LateStaysLate(if runtimes[0] > 0 then After(c, runtimes[0]) else c, runtimes[1..]);
    }
  }

  lemma {:induction false} FromZone(c: Clock, zone: nat, runtimes: seq<int>)
    requires c.hour >= 0 && c.minute >= 0
    ensures forall i :: 0 <= i < |Times(c, zone, runtimes)| ==> Times(c, zone, runtimes)[i].1 >= zone
    decreases |runtimes|
  {
    if runtimes != [] {
      FromZone(if runtimes[0] > 0 then After(c, runtimes[0]) else c, zone + 1, runtimes[1..]);
    }
  }

  // ---- All of them ----

  function Sum(days: seq<Day>): nat {
    if days == [] then 0 else |DayLines(0, days[0])| + Sum(days[1..])
  }

  lemma {:induction false} DaysCount(day: nat, days: seq<Day>, before: seq<int>)
    ensures |DaysLines(day, days, before)| == Sum(days) + |days| * |before|
    decreases |days|
  {
    hide DayLines, CommandLines;
    if days != [] {
      DayCount(day, days[0]);
      DaysCount(day + 1, days[1..], before);
      assert |days| * |before| == |days[1..]| * |before| + |before|;
    }
  }

  lemma DayCount(day: nat, d: Day)
    ensures |DayLines(day, d)| == |DayLines(0, d)|
  {}

  /** Besides, there are the two lines that clear the sensors, the chance of rain first, and a comment at either end. */
  lemma NothingElse(days: seq<Day>, before: seq<int>)
    ensures var file := WriteCron(days, before);
            && |file| == 4 + Sum(days) + |days| * |before|
            && file[0] == Comment && file[|file| - 3..] == [Zeroed(ChanceOfRain), Zeroed(RainTotal), Comment]
  {
    DaysCount(0, days, before);
  }

  // ---- What the reader sees of a printed line ----

  /** Of a printed number the last two digits. */
  lemma LastTwoIs(n: nat)
    ensures Value(LastTwo(Decimal(n))) == n % 100
  {
    if n < 100 {
      DecimalRoundTrip(n);
      assert |Decimal(n)| <= 2;
    } else {
      var s := Decimal(n);
      assert Decimal(n) == Decimal(n / 100) + [48 + n / 10 % 10] + [48 + n % 10] by {
        assert n / 10 / 10 == n / 100;
      }
      assert LastTwo(s) == [48 + n / 10 % 10, 48 + n % 10];
      TwoDigitsSay(n / 10 % 10, n % 10);
      assert n % 100 == n / 10 % 10 * 10 + n % 10;
    }
  }

  lemma TwoDigitsSay(a: nat, b: nat)
    requires a < 10 && b < 10
    ensures Value([48 + a, 48 + b]) == 10 * a + b
  {
    var s: seq<byte> := [48 + a, 48 + b];
    assert s[1..] == [48 + b] && s[1..][1..] == [];
    assert Str2Int([48 + b], a) == 10 * a + b;
  }

  /** Or the first two. */
  lemma {:induction false} FirstTwoIs(n: nat)
    ensures Value(FirstTwo(Decimal(n))) == if n < 100 then n else Value(FirstTwo(Decimal(n / 10)))
  {
    if n < 100 {
      DecimalRoundTrip(n);
      assert |Decimal(n)| <= 2;
    } else {
      assert |Decimal(n / 10)| >= 2;
      assert Decimal(n)[..2] == Decimal(n / 10)[..2];
    }
  }

  lemma {:induction false} DecimalSize(n: nat)
    ensures |Decimal(n)| <= 2 <==> n < 100
  {
    if n >= 10 {
      assert |Decimal(n)| == |Decimal(n / 10)| + 1;
    }
  }

  /** Its line is read as the last two digits of the minute and the first two of zone and run time. */
  lemma ZoneLineSays(day: nat, c: Clock, zone: nat, runtime: nat)
    requires c.hour >= 0 && c.minute >= 0
    ensures Numbers5(ZoneLine(day, c, zone, runtime))
            == if c.hour >= 100 || day >= 100 then NoMatch
               else Numbers(c.minute % 100, c.hour, day, Value(FirstTwo(Decimal(zone))),
                            Value(FirstTwo(Decimal(runtime))))
  {
    hide Decimal, Value, LastTwo, FirstTwo;
    LastTwoIs(c.minute);
    DecimalRoundTrip(c.hour);
    DecimalRoundTrip(day);
    DecimalSize(c.hour);
    DecimalSize(day);
  }

  /** A week is read, whatever the file; without a line for it a day is off. */
  lemma Week(ls: seq<Line>, zones: nat)
    ensures |ReadCron(ls, zones)| == 7
    ensures forall d :: 0 <= d < 7 ==> ReadCron([], zones)[d] == Day(-1, -1, seq(zones, i => 0))
  {
    assert NoRuns(zones) == seq(zones, i => 0);
  }

  /** The first line for a day gives its start, and each the run time of its zone; a line for none changes nothing. */
  lemma LineChanges(days: seq<Day>, l: Line)
    ensures var n := Numbers5(l);
            if n.Numbers? && n.day < |days| && n.zone <= |days[n.day].runtimes| then
              var d, t := days[n.day], ReadLine(days, l)[n.day];
              && ReadLine(days, l) == days[n.day := t] && |t.runtimes| == |d.runtimes|
              && (t.hour, t.minute) == (if d.hour == -1 then (n.hour, n.minute) else (d.hour, d.minute))
              && forall z :: 0 <= z < |d.runtimes| ==>
                               t.runtimes[z] == if z + 1 == n.zone then n.runtime else d.runtimes[z]
            else ReadLine(days, l) == days
  {
    hide Numbers5;
  }
}
