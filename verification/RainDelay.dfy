/** The rain delay of SprinklerD, working on its global settings. */
module RainDelay {
  import opened Bytes
  import opened CacheFile
  import opened RainDelaySpec

  /** The fields of `_sdconfig_` that this is about, and the file on disk. */
  class Sprinkler {
    var calendar: bool
    var delay24h: bool
    var delay24hTime: int
    var precipChanceDelay: int
    var precipInchDelay1day: real
    var precipInchDelay2day: real
    var zonecfg: array<int> // the default run time of each zone; zone 0 is the master valve
    var cacheFile: seq<Token>
    var todayRainChance: int
    var todayRainTotal: real

    ghost predicate Valid()
      reads this
    {
      zonecfg.Length > 0
    }

    ghost function Settings(): Config
      requires Valid()
      reads this, zonecfg
    {
      Config(calendar, delay24h, delay24hTime,
             precipChanceDelay, precipInchDelay1day, precipInchDelay2day, zonecfg[1..])
    }

    ghost function Value(): State
      requires Valid()
      reads this, zonecfg
    {
      State(Settings(), cacheFile, todayRainChance, todayRainTotal)
    }

    /** A new process, with the zones' run times of its configuration. */
    constructor (runtimes: seq<int>, file: seq<Token>)
      ensures Valid() && fresh(zonecfg) && Value() == State(Started(runtimes), file, 0, 0.0)
    {
      calendar, delay24h, delay24hTime := true, false, 0;
      precipChanceDelay, precipInchDelay1day, precipInchDelay2day := 0, 0.0, 0.0;
      zonecfg := new int[|runtimes| + 1](i requires 0 <= i < |runtimes| + 1 => if i == 0 then 0 else runtimes[i - 1]);
      cacheFile, todayRainChance, todayRainTotal := file, 0, 0.0;
    }

    /** A file that cannot be opened stays as it is. */
    method WriteCache(opens: bool)
      requires Valid()
      modifies this`cacheFile
      ensures Valid() && Value() == if opens then Save(old(Value())) else old(Value())
    {
      if !opens {
        return;
      }
      var file := [Flag(calendar), Flag(delay24h), Whole(delay24hTime), Whole(precipChanceDelay),
                   Tenths(ToTenths(precipInchDelay1day)), Tenths(ToTenths(precipInchDelay2day)), Whole(-1)];
      ghost var front := file;
      for zone := 1 to zonecfg.Length
        invariant file == front + Wholes(zonecfg[1..zone])
      {
        assert zonecfg[1..zone + 1] == zonecfg[1..zone] + [zonecfg[zone]];
        WholesMore(zonecfg[1..zone], zonecfg[zone]);
        Rebracket(front, Wholes(zonecfg[1..zone]), [Whole(zonecfg[zone])]);
        file := file + [Whole(zonecfg[zone])];
      }
      assert zonecfg[1..zonecfg.Length] == zonecfg[1..];
      cacheFile := file;
    }

    method ReadCache(huge: Huge)
      requires Valid()
      modifies this, zonecfg
      ensures Valid() && zonecfg == old(zonecfg)
      ensures Value() == old(Value()).(cfg := ReadFile(old(cacheFile), old(Settings()), huge))
    {
      hide FloatOf, ToInt;
      ghost var s0, goal := Value(), Turns(Reader(0, 0, false, Settings()), cacheFile, huge);
      var file := cacheFile;
      var c: nat, zs: nat, z := 0, 0, false;
      while c < |file|
        invariant Valid() && zonecfg == old(zonecfg) && c <= |file| && (z ==> zs < c)
        invariant Value() == s0.(cfg := Settings())
        invariant Turns(Reader(c, zs, z, Settings()), file[c..], huge) == goal
      {
        NextTurn(Reader(c, zs, z, Settings()), file, c, huge);
        var f := FloatOf(file[c]);
        if f == -1.0 {
          z := true;
          zs := c;
        } else {
          StoreNumber(c, zs, z, f, ToInt(f, huge));
        }
        c := c + 1;
      }
    }

    /** The branches of the loop of `read_cache`. */
    method StoreNumber(c: nat, zs: nat, z: bool, f: real, i: int)
      requires Valid() && (z ==> zs < c)
      modifies this, zonecfg
      ensures Valid() && zonecfg == old(zonecfg) && Value() == old(Value()).(cfg := Settings())
      ensures Settings() == if z then old(Settings()).(runtimes := SetZone(old(Settings()).runtimes, c - zs, i))
                            else Assign(c, old(Settings()), f, i)
    {
      ghost var runtimes := zonecfg[1..];
      if z {
        if c - zs < zonecfg.Length {
          zonecfg[c - zs] := i;
        }
        assert zonecfg[1..] == SetZone(runtimes, c - zs, i);
      } else if c == 0 {
        calendar := i != 0;
      } else if c == 1 {
        delay24h := i != 0;
      } else if c == 2 {
        delay24hTime := i;
      } else if c == 3 {
        precipChanceDelay := i;
      } else if c == 4 {
        precipInchDelay1day := f;
      } else if c == 5 {
        precipInchDelay2day := f;
      }
    }

    method EnableDelay24h(on: bool, now: nat)
      requires Valid()
      modifies this
      ensures Valid() && zonecfg == old(zonecfg) && Value() == Enable(old(Value()), on, now)
    {
      if delay24h != on {
        delay24h := on;
        if on {
          delay24hTime := now;
          delay24hTime := delay24hTime + DAY;
        } else {
          delay24hTime := 0;
        }
        WriteCache(true);
      }
    }

    method ResetDelay24hTime(dtime: int, now: nat, later: nat)
      requires Valid()
      modifies this
      ensures Valid() && zonecfg == old(zonecfg) && Value() == Reset(old(Value()), dtime, now, later)
    {
      if dtime > now {
        delay24h := true;
        delay24hTime := AsLong(dtime);
      } else {
        delay24h := true;
        delay24hTime := later;
        delay24hTime := delay24hTime + DAY;
      }
      WriteCache(true);
    }

    method CheckDelay24h(now: nat) returns (expired: bool)
      requires Valid()
      modifies this
      ensures Valid() && zonecfg == old(zonecfg) && Value() == Check(old(Value()), now)
      ensures expired <==> 0 < old(delay24hTime) < now
    {
      if delay24hTime > 0 {
        if now > delay24hTime {
          EnableDelay24h(false, now);
          return true;
        }
      }
      return false;
    }

    method SetTodayChanceOfRain(percent: int, now: nat, later: nat) returns (ok: bool)
      requires Valid()
      modifies this
      ensures Valid() && zonecfg == old(zonecfg) && Value() == Chance(old(Value()), percent, now, later)
      ensures ok <==> 0 <= percent <= 100
    {
      if percent <= 100 && percent >= 0 {
        todayRainChance := percent;
        if precipChanceDelay > 0 && todayRainChance >= precipChanceDelay {
          ResetDelay24hTime(0, now, later);
        } else {
          EnableDelay24h(false, now);
        }
        return true;
      }
      return false;
    }

    method SetTodayRainTotal(rain: real, first: nat, now: nat, later: nat) returns (ok: bool)
      requires Valid()
      modifies this
      ensures Valid() && zonecfg == old(zonecfg) && Value() == Total(old(Value()), rain, first, now, later) && ok
    {
      if todayRainTotal == rain && rain != 0.0 {
        return true;
      }
      todayRainTotal := rain;
      if precipInchDelay2day > 0.0 && todayRainTotal >= precipInchDelay2day {
        ResetDelay24hTime(first + DAY * 2, now, later);
      } else if precipInchDelay1day > 0.0 && todayRainTotal >= precipInchDelay1day {
        ResetDelay24hTime(first + DAY, now, later);
      }
      return true;
    }
  }

  lemma WholesMore(ns: seq<int>, n: int)
    ensures Wholes(ns + [n]) == Wholes(ns) + [Whole(n)]
  {}
}
