/** The schedule of SprinklerD in its global settings, and the file for cron. */
module Cron {
  import opened Bytes
  import opened Chars
  import opened CronSpec

  method ToInt(s: seq<byte>) returns (n: nat)
    ensures n == Value(s)
  {
    n := 0;
    for i := 0 to |s|
      invariant Str2Int(s[i..], n) == Value(s)
    {
      assert s[i..][1..] == s[i + 1..];
      if IsDigit(s[i]) {
        n := n * 10 + (s[i] - 48);
      } else {
        break;
      }
    }
  }

  /** The fields `cron` and `runBeforeCmd` of `_sdconfig_`. */
  class Calendar {
    const zones: nat
    var hour: array<int>
    var minute: array<int>
    var zruntimes: array2<int> // of a day and a zone, the first of which is 0
    var runBefore: seq<int>    // of each command, the minutes before the start

    ghost predicate Valid()
      reads this
    {
      && hour != minute && hour.Length == minute.Length == zruntimes.Length0 == DAYS && zruntimes.Length1 == zones
    }

    ghost function Row(d: nat): seq<int>
      requires Valid() && d < DAYS
      reads this, zruntimes
    {
      seq(zones, z requires 0 <= z < zones && Valid() && d < DAYS reads this, zruntimes => zruntimes[d, z])
    }

    ghost function DayOf(d: nat): Day
      requires Valid() && d < DAYS
      reads this, hour, minute, zruntimes
    {
      Day(hour[d], minute[d], Row(d))
    }

    ghost function Days(): (days: seq<Day>)
      requires Valid()
      reads this, hour, minute, zruntimes
      ensures |days| == DAYS && forall d :: 0 <= d < DAYS ==> days[d] == DayOf(d)
    {
      seq(DAYS, d requires 0 <= d < DAYS && Valid() reads this, hour, minute, zruntimes => DayOf(d))
    }

    constructor (zones: nat, runBefore: seq<int>)
      ensures Valid() && fresh(hour) && fresh(minute) && fresh(zruntimes)
      ensures this.zones == zones && this.runBefore == runBefore
    {
      this.zones, this.runBefore := zones, runBefore;
      hour, minute, zruntimes := new int[DAYS], new int[DAYS], new int[DAYS, zones];
    }

    method WriteZones(day: nat) returns (file: seq<Line>)
      requires Valid() && day < DAYS && hour[day] >= 0 && minute[day] >= 0
      ensures file == DayLines(day, DayOf(day))
    {
      hide Decimal, Times, ZoneLines;
      var min, h := minute[day], hour[day];
      ghost var row, goal := Row(day), DayLines(day, DayOf(day));
      assert forall z :: 0 <= z < zones ==> row[z] == zruntimes[day, z];
      assert goal == ZoneLines(day, Times(Clock(h, min), 1, row));
      assert |row| == zones;
      hide Row, DayLines, DayOf;
      ghost var todo := row;
      file := [];
      assert file + goal == goal && row[0..] == row;
      for zone := 0 to zones
        invariant min >= 0 && h >= 0 && |row| == zones
        invariant todo == row[zone..] && file + ZoneLines(day, Times(Clock(h, min), zone + 1, todo)) == goal
      {
        var r := zruntimes[day, zone];
        ghost var c := Clock(h, min);
        NoLine(day, c, zone + 1, todo);
        if r > 0 {
          FirstLineThen(day, c, zone, todo, file);
          file := file + [Zone(Decimal(min), Decimal(h), Decimal(day), Decimal(zone + 1), Decimal(r))];
          min := min + r;
          if min >= 60 {
            min := min - 60;
            h := h + 1;
          }
          if h >= 24 {
            assert file + [] == file;
            return;
          }
        }
        todo := todo[1..];
        assert todo == row[zone + 1..];
      }
      NoLine(day, Clock(h, min), zones + 1, todo);
      assert file + [] == file;
    }

    method WriteCommands(day: nat) returns (file: seq<Line>)
      requires Valid() && day < DAYS
      ensures file == CommandLines(day, DayOf(day), runBefore)
    {
      file := [];
      for i := 0 to |runBefore|
        invariant file == CommandLines(day, DayOf(day), runBefore)[..i]
      {
        if minute[day] < runBefore[i] {
          file := file + [Command(60 - (runBefore[i] - minute[day]), hour[day] - 1, day, i)];
        } else {
          file := file + [Command(minute[day] - runBefore[i], hour[day], day, i)];
        }
      }
    }

    method Write() returns (file: seq<Line>)
      requires Valid()
      ensures file == WriteCron(Days(), runBefore)
    {
      hide DayLines, CommandLines;
      file := [Comment];
      ghost var days := Days();
      assert days[0..] == days;
      for day := 0 to DAYS
        invariant file + DaysLines(day, days[day..], runBefore) == [Comment] + DaysLines(0, days, runBefore)
      {
        assert days[day..][1..] == days[day + 1..];
        ghost var rest := DaysLines(day + 1, days[day + 1..], runBefore);
        ghost var own, commands := DayLines(day, days[day]), CommandLines(day, days[day], runBefore);
        Rebracket(file, own + commands, rest);
        Rebracket(file, own, commands);
        if hour[day] >= 0 && minute[day] >= 0 {
          var ls := WriteZones(day);
          file := file + ls;
        } else {
          OffPrintsNothing(day, days[day]);
          assert file + [] == file;
        }
        var ls := WriteCommands(day);
        file := file + ls;
      }
      assert file + [] == file;
      file := file + [Zeroed(ChanceOfRain)];
      file := file + [Zeroed(RainTotal)];
      file := file + [Comment];
    }

    method Clear()
      requires Valid()
      modifies hour, minute, zruntimes
      ensures Days() == seq(DAYS, _ => Off(zones))
    {
      for day := 0 to DAYS
        invariant forall d :: 0 <= d < day ==> hour[d] == -1 && minute[d] == -1
        invariant forall d, z :: 0 <= d < day && 0 <= z < zones ==> zruntimes[d, z] == 0
      {
        hour[day] := -1;
        minute[day] := -1;
        for zone := 0 to zones
          invariant forall d :: 0 <= d <= day ==> hour[d] == -1 && minute[d] == -1
          invariant forall d, z :: 0 <= d < DAYS && 0 <= z < zones && (d < day || (d == day && z < zone))
                                   ==> zruntimes[d, z] == 0
        {
          zruntimes[day, zone] := 0;
        }
      }
      forall d | 0 <= d < DAYS
        ensures DayOf(d) == Off(zones)
      {
        assert Row(d) == NoRuns(zones);
      }
    }

    method ReadZone(minuteRead: nat, hourRead: nat, day: nat, zone: nat, runtime: nat)
      requires Valid() && day < DAYS && zone <= zones
      modifies hour, minute, zruntimes
      ensures Days() == old(Days())[day := Absorb(old(Days())[day], Numbers(minuteRead, hourRead, day, zone, runtime))]
    {
      ghost var before, row := Days(), Row(day);
      if hour[day] == -1 {
        hour[day] := hourRead;
        minute[day] := minuteRead;
      }
      if zone > 0 {
        zruntimes[day, zone - 1] := runtime;
      }
      assert Row(day) == if zone > 0 then row[zone - 1 := runtime] else row;
      forall d | 0 <= d < DAYS && d != day
        ensures DayOf(d) == before[d]
      {
        assert Row(d) == before[d].runtimes;
      }
    }

    method ReadOne(l: Line)
      requires Valid()
      modifies hour, minute, zruntimes
      ensures Days() == ReadLine(old(Days()), l)
    {
      hide Absorb, LastTwo, FirstTwo, CronSpec.Value;
      if l.Zone? && |l.hour| <= 2 && |l.day| <= 2 {
        var m := ToInt(LastTwo(l.minute));
        var h := ToInt(l.hour);
        var d := ToInt(l.day);
        var z := ToInt(FirstTwo(l.zone));
        var r := ToInt(FirstTwo(l.runtime));
        if d < DAYS && z <= zones {
          ReadZone(m, h, d, z, r);
        }
      }
    }

    method Read(file: seq<Line>)
      requires Valid()
      modifies hour, minute, zruntimes
      ensures Days() == ReadCron(file, zones)
    {
      hide ReadLine, Row, DayOf;
      Clear();
      assert file[0..] == file;
      for k := 0 to |file|
        invariant ReadLines(Days(), file[k..]) == ReadCron(file, zones)
      {
        assert file[k..][1..] == file[k + 1..];
        ReadOne(file[k]);
      }
    }
  }

  lemma OffPrintsNothing(day: nat, d: Day)
    requires !On(d)
    ensures DayLines(day, d) == []
  {}
}
