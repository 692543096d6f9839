/** The rain delay: armed by rain or on request, expired by the clock, and kept in the settings file over restarts. */
module RainDelaySpec {
  import opened Bytes
  import opened Float32
  import opened CacheFile

  const DAY := 86400

  /** The settings in memory, the settings file ([] for none), and today's readings. */
  datatype State = State(cfg: Config, file: seq<Token>, chanceToday: int, totalToday: real)

  // ---- The functions of sd_cron.c; clock readings are parameters ----

  function Save(s: State): State {
    s.(file := WriteFile(s.cfg))
  }

  /** The conversion of an unsigned long to a long. */
  function AsLong(d: int): int {
    if d < TWO63 then d else d - TWO64
  }

  /** The conversion of an int to an unsigned long. */
  function AsUnsigned(i: int): int {
    if i < 0 then i + TWO64 else i
  }

  /** Both keep the low 64 bits. */
  lemma SixtyFourBits(d: int, i: int)
    requires 0 <= d < TWO64 && -TWO31 <= i < TWO31
    ensures -TWO63 <= AsLong(d) < TWO63 && (d - AsLong(d)) % TWO64 == 0
    ensures 0 <= AsUnsigned(i) < TWO64 && (AsUnsigned(i) - i) % TWO64 == 0
  {}

  function Arm(s: State, until: int): State {
    Save(s.(cfg := s.cfg.(delay := true, until := until)))
  }

  /** `enable_delay24h`. */
  function Enable(s: State, on: bool, now: nat): State {
    if s.cfg.delay == on then s
    else if on then Arm(s, now + DAY)
    else Save(s.(cfg := s.cfg.(delay := false, until := 0)))
  }

  /** `reset_delay24h_time`, which reads the clock twice. */
  function Reset(s: State, dtime: int, now: nat, later: nat): State {
    Arm(s, if dtime > now then AsLong(dtime) else later + DAY)
  }

  /** `check_delay24h`. */
  function Check(s: State, now: nat): State {
    if s.cfg.until > 0 && now > s.cfg.until then Enable(s, false, now) else s
  }

  /** `setTodayChanceOfRain`. */
  function Chance(s: State, percent: int, now: nat, later: nat): State {
    if 0 <= percent <= 100 then
      var s := s.(chanceToday := percent);
      if s.cfg.chance > 0 && percent >= s.cfg.chance then Reset(s, 0, now, later) else Enable(s, false, now)
    else s
  }

  /** `setTodayRainTotal`, which reads the clock once more than what it calls. */
  function Total(s: State, rain: real, first: nat, now: nat, later: nat): State {
    if s.totalToday == rain && rain != 0.0 then s
    else
      var s := s.(totalToday := rain);
      if s.cfg.inch2 > 0.0 && rain >= s.cfg.inch2 then Reset(s, first + 2 * DAY, now, later)
      else if s.cfg.inch1 > 0.0 && rain >= s.cfg.inch1 then Reset(s, first + DAY, now, later)
      else s
  }

  /** The settings of a new process, before it reads the file: the zones' run times are from the configuration. */
  function Started(runtimes: seq<int>): Config {
    Config(true, false, 0, 0, 0.0, 0.0, runtimes)
  }

  function Restart(s: State, runtimes: seq<int>, huge: Huge): State {
    State(ReadFile(s.file, Started(runtimes), huge), s.file, 0, 0.0)
  }

  // ---- Runs ----

  datatype Event =
    | Switched(on: bool, now: nat)
    | ResetTo(time: int, now: nat, later: nat) // the int of a request, or of a message
    | Checked(now: nat)
    | ChanceSet(percent: int, now: nat, later: nat)
    | TotalSet(rain: real, first: nat, now: nat, later: nat)
    | Configured(calendar: bool, chance: int, inch1: real, inch2: real, runtimes: seq<int>)
    | Stopped(runtimes: seq<int>) // the file is written, and a new process starts
    | Killed(runtimes: seq<int>)  // a new process starts with the file as it is

  function Step(s: State, e: Event, huge: Huge): State {
    match e
    case Switched(on, now) => Enable(s, on, now)
    case ResetTo(time, now, later) => Reset(s, AsUnsigned(time), now, later)
    case Checked(now) => Check(s, now)
    case ChanceSet(percent, now, later) => Chance(s, percent, now, later)
    case TotalSet(rain, first, now, later) => Total(s, rain, first, now, later)
    case Configured(calendar, chance, inch1, inch2, runtimes) =>
      s.(cfg := Config(calendar, s.cfg.delay, s.cfg.until, chance, inch1, inch2, runtimes))
    case Stopped(runtimes) => Restart(Save(s), runtimes, huge)
    case Killed(runtimes) => Restart(s, runtimes, huge)
  }

  function Run(s: State, events: seq<Event>, huge: Huge): State
    decreases |events|
  {
    if events == [] then s else Run(Step(s, events[0], huge), events[1..], huge)
  }

  // ---- What every run keeps ----

  /** The last second that a float rounds to a number below 2^31 is just before this one. */
  const LATEST := TWO31 - 64

  /** The delay is on exactly when it has an end. */
  predicate Armed(c: Config) {
    c.delay <==> c.until > 0
  }

  /** The file says of the delay what memory says, as far as a float can tell. */
  predicate Filed(s: State) {
    if s.file == [] then !s.cfg.delay && s.cfg.until == 0
    else
      && |s.file| >= 3 && s.file[0] in {Whole(0), Whole(1)} && s.file[1] == Flag(s.cfg.delay)
      && s.file[2].Whole? && 0 <= s.file[2].n < LATEST && Round(s.file[2].n) == Round(s.cfg.until)
  }

  predicate Sound(s: State) {
    Armed(s.cfg) && 0 <= s.cfg.until < LATEST && Filed(s)
  }

  predicate Sensible(now: nat) {
    now + 2 * DAY < LATEST
  }

  /** Clocks before 2038, and no request for a time that does not come before then. */
  predicate Ordinary(e: Event) {
    match e
    case Switched(_, now) => Sensible(now)
    case ResetTo(time, now, later) => Sensible(now) && Sensible(later) && 0 <= time < LATEST
    case Checked(now) => Sensible(now)
    case ChanceSet(_, now, later) => Sensible(now) && Sensible(later)
    case TotalSet(_, first, now, later) => Sensible(first) && Sensible(now) && Sensible(later)
    case _ => true
  }

  /** The times an event may set the end of the delay to. */
  ghost predicate Sets(e: Event, end: int) {
    match e
    case Switched(on, now) => on && end == now + DAY
    case ResetTo(time, _, later) => end == time || end == later + DAY
    case ChanceSet(_, _, later) => end == later + DAY
    case TotalSet(_, first, _, later) => end == first + DAY || end == first + 2 * DAY || end == later + DAY
    case _ => false
  }

  /** Some event set the end: to this second, or to one that a float has rounded to it. */
  ghost predicate Caused(until: int, events: seq<Event>) {
    exists e, end :: e in events && Sets(e, end) && (until == end || until == Round(end))
  }

  lemma RoundedTime(n: nat)
    requires n < LATEST
    ensures 0 <= Round(n) < LATEST && -64 <= Round(n) - n <= 64
  {
    hide Unit, RoundNat;
    UnitBounds(n);
    RoundError(n);
    RoundKeeps(n);
    if n >= 0x4000_0000 {
      UnitOfTimes(n);
      TimesRoundDown(n);
    } else {
      UnitBelow(n);
    }
  }

  lemma TimesRoundDown(n: nat)
    requires 0x4000_0000 <= n < LATEST && Unit(n) == 128
    ensures RoundNat(n) < LATEST
  {
    hide Unit;
    var j := RoundIsMultiple(n);
    RoundError(n);
  }

  lemma UnitBelow(n: nat)
    requires n < 0x4000_0000
    ensures Unit(n) < 128
  {
    UnitBounds(n);
  }

  /** The first three lines of a file say all about the delay. */
  lemma FiledDelayIsRead(file: seq<Token>, base: Config, huge: Huge)
    requires |file| >= 3 && file[0] in {Whole(0), Whole(1)} && file[1] in {Whole(0), Whole(1)}
    requires file[2].Whole? && file[2].n != -1
    ensures var c := ReadFile(file, base, huge); c.delay == (file[1] == Whole(1)) && c.until == Narrow(file[2].n, huge)
  {
    hide Turn, Turns, Narrow;
    var r0 := Reader(0, 0, false, base);
    SmallNarrow(0, huge);
    SmallNarrow(1, huge);
    assert file[0..] == file;
    TurnOfWhole(r0, file[0].n, huge);
    NextTurn(r0, file, 0, huge);
    var r1 := Turn(r0, file[0], huge);
    TurnOfWhole(r1, file[1].n, huge);
    NextTurn(r1, file, 1, huge);
    var r2 := Turn(r1, file[1], huge);
    TurnOfWhole(r2, file[2].n, huge);
    NextTurn(r2, file, 2, huge);
    DelayStays(Turn(r2, file[2], huge), file[3..], huge);
  }

  lemma {:induction false} DelayStays(r: Reader, file: seq<Token>, huge: Huge)
    requires r.c >= 3
    ensures var t := Turns(r, file, huge).cfg; t.delay == r.cfg.delay && t.until == r.cfg.until
    decreases |file|
  {
    if file != [] {
      DelayStays(Turn(r, file[0], huge), file[1..], huge);
    }
  }

  lemma SaveFiles(s: State)
    requires Armed(s.cfg) && 0 <= s.cfg.until < LATEST
    ensures Sound(Save(s))
  {
    hide Round, ToTenths;
  }

  /** A restart brings back the flag, and the end of the delay as a float holds it. */
  lemma RestartRestores(s: State, runtimes: seq<int>, huge: Huge)
    requires Sound(s)
    ensures var t := Restart(s, runtimes, huge);
            && Sound(t) && t.cfg.delay == s.cfg.delay && t.cfg.until == Round(s.cfg.until)
            && -64 <= t.cfg.until - s.cfg.until <= 64
  {
    hide Round, ReadFile;
    RoundedTime(s.cfg.until);
    if s.file == [] {
      NothingToRead(runtimes, huge);
    } else {
      RoundedTime(s.file[2].n);
      FiledDelayIsRead(s.file, Started(runtimes), huge);
    }
    RoundTwice(s.cfg.until);
    RoundKeeps(s.cfg.until);
  }

  lemma NothingToRead(runtimes: seq<int>, huge: Huge)
    ensures ReadFile([], Started(runtimes), huge) == Started(runtimes) && Round(0) == 0
  {}

  /** Every event keeps the state sound. */
  lemma StepKeeps(s: State, e: Event, huge: Huge)
    requires Sound(s) && Ordinary(e)
    ensures Sound(Step(s, e, huge))
  {
    hide Round, ReadFile, WriteFile, Sound, Filed;
    match e {
      case Stopped(runtimes) =>
        ArmedOfSound(s);
        SaveFiles(s);
        RestartRestores(Save(s), runtimes, huge);
      case Killed(runtimes) => RestartRestores(s, runtimes, huge);
      case Configured(_, _, _, _, _) => ConfiguredKeeps(s, e, huge);
      case _ => ArmsOrNot(s, e, huge);
    }
  }

  lemma ArmedOfSound(s: State)
    requires Sound(s)
    ensures Armed(s.cfg) && 0 <= s.cfg.until < LATEST
  {}

  lemma ConfiguredKeeps(s: State, e: Event, huge: Huge)
    requires Sound(s) && e.Configured?
    ensures Sound(Step(s, e, huge))
  {}

  lemma SoundElsewhere(s: State, chance: int, total: real)
    requires Sound(s)
    ensures Sound(s.(chanceToday := chance, totalToday := total))
  {}

  lemma ArmsOrNot(s: State, e: Event, huge: Huge)
    requires Sound(s) && Ordinary(e) && !e.Stopped? && !e.Killed? && !e.Configured?
    ensures Sound(Step(s, e, huge))
  {
    hide Round, ReadFile, WriteFile, Sound, Filed;
    var t := Step(s, e, huge);
    ArmedOfSound(s);
    if t == s.(chanceToday := t.chanceToday, totalToday := t.totalToday) {
      SoundElsewhere(s, t.chanceToday, t.totalToday);
    } else {
      assert t == Save(t);
      SaveFiles(t);
    }
  }

  /** In every run, the delay is on exactly when it has an end, and the file agrees. */
  lemma {:induction false} RunKeeps(s: State, events: seq<Event>, huge: Huge)
    requires Sound(s) && forall e :: e in events ==> Ordinary(e)
    ensures Sound(Run(s, events, huge))
    decreases |events|
  {
    hide Sound, Ordinary, Step;
    if events != [] {
      StepKeeps(s, events[0], huge);
      RunKeeps(Step(s, events[0], huge), events[1..], huge);
    }
  }

  /** Right after the clock has been looked at, a delay that is on has not passed. */
  lemma CheckExpires(s: State, events: seq<Event>, now: nat, huge: Huge)
    requires Sound(s) && forall e :: e in events ==> Ordinary(e)
    ensures var t := Check(Run(s, events, huge), now);
            if t.cfg.delay then now <= t.cfg.until else t.cfg.until == 0
  {
    hide Ordinary, Step, Run, Filed;
    RunKeeps(s, events, huge);
  }

  /** A look at the clock ends a delay exactly when its end has passed, and changes nothing else. */
  lemma CheckDecides(s: State, now: nat)
    requires Sound(s)
    ensures var t := Check(s, now);
            && (t.cfg.delay <==> s.cfg.delay && now <= s.cfg.until)
            && t.cfg == s.cfg.(delay := t.cfg.delay, until := if t.cfg.delay then s.cfg.until else 0)
            && (t.cfg.delay == s.cfg.delay ==> t == s)
            && t.chanceToday == s.chanceToday && t.totalToday == s.totalToday && Sound(t)
  {
    hide Round, WriteFile;
    StepKeepsCheck(s, now);
  }

  lemma StepKeepsCheck(s: State, now: nat)
    requires Sound(s)
    ensures Sound(Check(s, now))
  {
    hide Round, ReadFile, WriteFile, Sound, Filed;
    ArmedOfSound(s);
    if Check(s, now) != s {
      SaveFiles(Check(s, now));
    }
  }

  /** A switch sets the flag; a delay newly switched on ends in a day, one that was on keeps its end. */
  lemma SwitchDecides(s: State, on: bool, now: nat)
    requires Sound(s)
    ensures var t := Enable(s, on, now);
            && t.cfg.delay == on
            && t.cfg.until == (if !on then 0 else if s.cfg.delay then s.cfg.until else now + 86400)
            && t.cfg == s.cfg.(delay := t.cfg.delay, until := t.cfg.until)
            && t.chanceToday == s.chanceToday && t.totalToday == s.totalToday
            && t.file == if on == s.cfg.delay then s.file else WriteFile(t.cfg)
  {
    hide WriteFile, Filed;
  }

  /** A time to come is taken as the end; otherwise the delay ends in a day. */
  lemma ResetDecides(s: State, time: int, now: nat, later: nat)
    requires 0 <= time < TWO63
    ensures var t := Reset(s, time, now, later);
            && t.cfg == s.cfg.(delay := true, until := if now < time then time else later + 86400)
            && t.chanceToday == s.chanceToday && t.totalToday == s.totalToday && t.file == WriteFile(t.cfg)
  {}

  /** Looks at the clock and restarts, neither of which may end a delay before its time. */
  ghost predicate Idle(e: Event, end: int) {
    match e
    case Checked(now) => now + 64 <= end
    case Stopped(_) => true
    case Killed(_) => true
    case _ => false
  }

  /** A delay lasts until a minute before its end, whatever looks at the clock and restarts there are. */
  lemma {:induction false} DelayLasts(s: State, end: int, events: seq<Event>, huge: Huge)
    requires Sound(s) && s.cfg.delay && 0 <= end < LATEST && (s.cfg.until == end || s.cfg.until == Round(end))
    requires forall e <- events :: Idle(e, end)
    ensures var t := Run(s, events, huge); t.cfg.delay && (t.cfg.until == end || t.cfg.until == Round(end))
    decreases |events|
  {
    hide Sound, Round, ReadFile, WriteFile;
    if events != [] {
      var e := events[0];
      assert e in events && forall f <- events[1..] :: f in events;
      RoundedTime(end);
      RoundTwice(end);
      if e.Checked? {
        CheckDecides(s, e.now);
      } else {
        ArmedOfSound(s);
        SaveFiles(s);
        RestartRestores(if e.Stopped? then Save(s) else s, e.runtimes, huge);
      }
      DelayLasts(Step(s, e, huge), end, events[1..], huge);
    }
  }

  /** Looks at the clock alone leave a delay as it is up to its very end. */
  lemma {:induction false} ChecksLeave(s: State, events: seq<Event>, huge: Huge)
    requires Sound(s) && s.cfg.delay && forall e <- events :: e.Checked? && e.now <= s.cfg.until
    ensures Run(s, events, huge) == s
    decreases |events|
  {
    hide Sound;
    if events != [] {
      assert events[0] in events && forall f <- events[1..] :: f in events;
      CheckDecides(s, events[0].now);
      ChecksLeave(s, events[1..], huge);
    }
  }

  /** An event that sets the end: the delay is then on, and lasts. */
  lemma SetDelayLasts(s: State, e: Event, checks: seq<Event>, huge: Huge)
    requires Sound(s) && Ordinary(e) && !e.Stopped? && !e.Killed? && !e.Configured?
    requires var t := Step(s, e, huge); t.cfg.delay && forall c <- checks :: c.Checked? && c.now <= t.cfg.until
    ensures Run(Step(s, e, huge), checks, huge) == Step(s, e, huge)
  {
    hide Sound, Ordinary, Step;
    StepKeeps(s, e, huge);
    ChecksLeave(Step(s, e, huge), checks, huge);
  }

  // ---- No delay without a cause ----

  ghost predicate CausedOrOff(s: State, events: seq<Event>) {
    s.cfg.until == 0 || Caused(s.cfg.until, events)
  }

  lemma StepHasCause(s: State, e: Event, events: seq<Event>, huge: Huge)
    requires Sound(s) && Ordinary(e) && CausedOrOff(s, events)
    ensures CausedOrOff(Step(s, e, huge), events + [e])
  {
    hide Round, ReadFile, WriteFile, Sound, Filed;
    ArmedOfSound(s);
    var t := Step(s, e, huge);
    assert e in events + [e];
    if t.cfg.until == s.cfg.until {
      CauseStays(s.cfg.until, events, e);
    } else if e.Stopped? || e.Killed? {
      var u := if e.Stopped? then Save(s) else s;
      SaveFiles(s);
      RestartRestores(u, e.runtimes, huge);
      RoundKeeps(s.cfg.until);
      if s.cfg.until != 0 {
        var f, end :| f in events && Sets(f, end) && (s.cfg.until == end || s.cfg.until == Round(end));
        RoundTwice(end);
        assert f in events + [e] && Sets(f, end) && t.cfg.until == Round(end);
      }
    } else if t.cfg.until != 0 {
      assert Sets(e, t.cfg.until);
    }
  }

  lemma CauseStays(until: int, events: seq<Event>, e: Event)
    ensures Caused(until, events) ==> Caused(until, events + [e])
  {
    if Caused(until, events) {
      var f, end :| f in events && Sets(f, end) && (until == end || until == Round(end));
      assert f in events + [e];
    }
  }

  lemma {:induction false} RunHasCause(s: State, before: seq<Event>, events: seq<Event>, huge: Huge)
    requires Sound(s) && CausedOrOff(s, before) && forall e :: e in events ==> Ordinary(e)
    ensures CausedOrOff(Run(s, events, huge), before + events)
    decreases |events|
  {
    hide Sound, Ordinary, Step, CausedOrOff;
    if events == [] {
      assert before + events == before;
    } else {
      StepKeeps(s, events[0], huge);
      StepHasCause(s, events[0], before, huge);
      assert before + [events[0]] + events[1..] == before + events;
      RunHasCause(Step(s, events[0], huge), before + [events[0]], events[1..], huge);
    }
  }

  /**
   * A delay that is still on after the clock has been looked at was set by an event of the run, to an end not more than
   * 64 seconds in the past, however often the program was restarted.
   */
  lemma DelayHasCause(s: State, events: seq<Event>, now: nat, huge: Huge)
    requires Sound(s) && !s.cfg.delay && forall e :: e in events ==> Ordinary(e)
    requires Check(Run(s, events, huge), now).cfg.delay
    ensures exists e, end :: e in events && Sets(e, end) && now <= end + 64
  {
    hide Run, Step, Filed, Ordinary, Round, WriteFile;
    RunHasCause(s, [], events, huge);
    RunKeeps(s, events, huge);
    assert [] + events == events;
    var until := Run(s, events, huge).cfg.until;
    var e, end :| e in events && Sets(e, end) && (until == end || until == Round(end));
    SetTimesAreOrdinary(e, end);
    RoundedTime(end);
    assert e in events && Sets(e, end) && now <= end + 64;
  }

  lemma SetTimesAreOrdinary(e: Event, end: int)
    requires Ordinary(e) && Sets(e, end)
    ensures 0 <= end < LATEST
  {}

  // ---- What decides ----

  /** After a chance of rain is taken, the delay is on exactly when the chance has reached a threshold that is set. */
  lemma ChanceDecides(s: State, percent: int, now: nat, later: nat)
    requires Sound(s)
    ensures var t := Chance(s, percent, now, later);
            if 0 <= percent <= 100 then
              && t.chanceToday == percent && t.totalToday == s.totalToday
              && (t.cfg.delay <==> s.cfg.chance > 0 && percent >= s.cfg.chance)
              && t.cfg == s.cfg.(delay := t.cfg.delay, until := if t.cfg.delay then later + 86400 else 0)
            else t == s
  {
    hide WriteFile, Filed;
  }

  /** Rain that is news sets the end a day or two from now, by the threshold it has reached, and otherwise leaves it. */
  lemma TotalDecides(s: State, rain: real, first: nat, now: nat, later: nat)
    requires first <= now < first + DAY && now + 2 * DAY < TWO63
    ensures var t := Total(s, rain, first, now, later);
            var two, one := 0.0 < s.cfg.inch2 <= rain, 0.0 < s.cfg.inch1 <= rain;
            if rain != s.totalToday || rain == 0.0 then
              && t.totalToday == rain && t.chanceToday == s.chanceToday
              && t.cfg == if two then s.cfg.(delay := true, until := first + 172800)
                          else if one then s.cfg.(delay := true, until := first + 86400) else s.cfg
            else t == s
  {
    hide WriteFile;
  }

  // ---- Restarts ----

  /** Without a file a new process has the calendar on, no delay, no thresholds and no readings. */
  lemma FreshStart(s: State, runtimes: seq<int>, huge: Huge)
    requires s.file == []
    ensures Restart(s, runtimes, huge) == State(Config(true, false, 0, 0, 0.0, 0.0, runtimes), [], 0, 0.0)
  {}

  /** Today's readings do not outlast a process; the file does. */
  lemma RestartForgets(s: State, runtimes: seq<int>, huge: Huge)
    ensures var t := Restart(s, runtimes, huge); t.chanceToday == 0 && t.totalToday == 0.0 && t.file == s.file
  {}

  /** After a restart the end is what a float can hold; more restarts, clean or not, change no more of the delay. */
  lemma {:induction false} RestartsSettle(s: State, restarts: seq<Event>, huge: Huge)
    requires Sound(s) && restarts != [] && forall e :: e in restarts ==> e.Stopped? || e.Killed?
    ensures var t := Run(s, restarts, huge);
            t.cfg.delay == s.cfg.delay && t.cfg.until == Round(s.cfg.until) && -64 <= t.cfg.until - s.cfg.until <= 64
    decreases |restarts|
  {
    hide Sound, Round, ReadFile, WriteFile;
    ArmedOfSound(s);
    SaveFiles(s);
    var e, rest := restarts[0], restarts[1..];
    var t := Step(s, e, huge);
    RestartRestores(if e.Stopped? then Save(s) else s, e.runtimes, huge);
    if rest == [] {
      assert Run(s, restarts, huge) == t;
    } else {
      RestartsSettle(t, rest, huge);
      RoundTwice(s.cfg.until);
    }
  }

  /** A clean stop brings back all settings: the run times and the chance, when below 2^24, as they were. */
  lemma StopRestores(s: State, runtimes: seq<int>, huge: Huge)
    requires NoMark(s.cfg) && |runtimes| == |s.cfg.runtimes|
    ensures var t := Step(s, Stopped(runtimes), huge);
            && t.cfg == Rounded(s.cfg, huge)
            && (-TWO24 < s.cfg.chance < TWO24 ==> t.cfg.chance == s.cfg.chance)
            && forall i :: 0 <= i < |runtimes| && -TWO24 < s.cfg.runtimes[i] < TWO24
                           ==> t.cfg.runtimes[i] == s.cfg.runtimes[i]
  {
    hide ReadFile, WriteFile, Narrow, ToTenths;
    ReadBack(s.cfg, Started(runtimes), huge);
    if -TWO24 < s.cfg.chance < TWO24 {
      SmallNarrow(s.cfg.chance, huge);
    }
    forall i | 0 <= i < |runtimes| && -TWO24 < s.cfg.runtimes[i] < TWO24
      ensures Narrow(s.cfg.runtimes[i], huge) == s.cfg.runtimes[i]
    {
      SmallNarrow(s.cfg.runtimes[i], huge);
    }
  }

  // ---- Where the delay goes wrong ----

  /** A request for a time arms the delay properly exactly when the time is not negative. */
  lemma ResetArmsIff(s: State, time: int, now: nat, later: nat, huge: Huge)
    requires -TWO31 <= time < TWO31
    ensures Armed(Step(s, ResetTo(time, now, later), huge).cfg) <==> time >= 0 || now >= TWO64 + time
  {
    hide WriteFile;
  }

  /**
   * A clean stop and start leaves the delay on exactly when it has an end if the delay was off, its end is early enough
   * for a float below 2^31, or the machine makes a positive number of a float that is not.
   */
  lemma StopArmsIff(s: State, runtimes: seq<int>, huge: Huge)
    requires Armed(s.cfg) && s.cfg.until >= 0
    ensures Armed(Step(s, Stopped(runtimes), huge).cfg) <==> !s.cfg.delay || s.cfg.until < LATEST || huge > 0
  {
    hide ReadFile, Round;
    FiledDelayIsRead(WriteFile(s.cfg), Started(runtimes), huge);
    RoundKeeps(s.cfg.until);
    if s.cfg.until < LATEST {
      RoundedTime(s.cfg.until);
    } else {
      LateTime(s.cfg.until);
    }
  }

  lemma LateTime(n: nat)
    requires n >= LATEST
    ensures Round(n) >= TWO31
  {
    UnitBounds(n);
    if n < TWO31 {
      UnitOfTimes(n);
      hide Unit;
      assert n == 128 * 0xff_ffff + (n - 128 * 0xff_ffff);
      assert n / 128 == 0xff_ffff && n % 128 >= 64;
    } else {
      UnitAtLeast(n);
      FloorAbove(n, Unit(n));
    }
  }

  lemma {:induction false} UnitAtLeast(n: nat)
    requires n >= TWO31
    ensures Unit(n) >= 256
  {
    if n / 2 < TWO31 {
      UnitOfTimes(n / 2);
    } else {
      UnitAtLeast(n / 2);
    }
  }

  /** A negative time leaves a delay that no later look at the clock ends. */
  lemma NegativeTimeSticks(s: State, time: int, now: nat, later: nat, checks: seq<nat>, huge: Huge)
    requires -TWO31 <= time < 0 && now < TWO63
    ensures var t := Step(s, ResetTo(time, now, later), huge);
            Run(t, seq(|checks|, i requires 0 <= i < |checks| => Checked(checks[i])), huge) == t && t.cfg.delay
  {
    var t := Step(s, ResetTo(time, now, later), huge);
    ChecksChangeNothing(t, checks, huge);
  }

  lemma {:induction false} ChecksChangeNothing(t: State, checks: seq<nat>, huge: Huge)
    requires t.cfg.until <= 0
    ensures Run(t, seq(|checks|, i requires 0 <= i < |checks| => Checked(checks[i])), huge) == t
    decreases |checks|
  {
    if checks != [] {
      var all := seq(|checks|, i requires 0 <= i < |checks| => Checked(checks[i]));
      ChecksChangeNothing(t, checks[1..], huge);
      assert all[1..] == seq(|checks[1..]|, i requires 0 <= i < |checks[1..]| => Checked(checks[1..][i]));
    }
  }
}
