/** Topic filters (section 4.7.1 of MQTT 3.1.1), matched by the broker. */
module TopicFilter {
  import opened Bytes
  import opened Chars

  const PLUS: seq<byte> := [43]
  const HASH: seq<byte> := [35]

  /** The levels of a topic or filter that is not empty: what is between slashes. */
  function Levels(s: seq<byte>): (ls: seq<seq<byte>>)
    ensures s != [] ==> ls != []
    decreases |s|
  {
    if s == [] then []
    else
      var k := FirstOf(s, SLASH);
      if k == |s| then [s] else if k + 1 == |s| then [s[..k], []] else [s[..k]] + Levels(s[k + 1..])
  }

  // ---- What a filter means ----

  predicate LevelFits(f: seq<byte>, t: seq<byte>) {
    f == PLUS || f == t
  }

  /** Level by level; a '#' stands for any levels, none included, and may only be the last. */
  ghost predicate FilterMatches(fs: seq<seq<byte>>, ts: seq<seq<byte>>)
    requires fs != []
  {
    var open := fs[|fs| - 1] == HASH;
    var n := if open then |fs| - 1 else |fs|;
    && (if open then n <= |ts| else n == |ts|)
    && forall i :: 0 <= i < n ==> fs[i] != HASH && LevelFits(fs[i], ts[i])
  }

  // ---- The matcher as the code goes about it ----

  /** `mg_mqtt_next_topic_component`: the component, and what is left. */
  function Next(s: seq<byte>): (r: (seq<byte>, seq<byte>))
    ensures |r.1| <= |s| && (s != [] ==> |r.1| < |s|)
  {
    var k := FirstOf(s, SLASH);
    if k < |s| then (s[..k], s[k + 1..]) else (s, [])
  }

  /** The loop of `mg_mqtt_match_topic_expression`. */
  predicate Loop(exp: seq<byte>, topic: seq<byte>)
    decreases |exp|
  {
    var (ec, exp') := Next(exp);
    var (tc, topic') := Next(topic);
    if ec == [] then tc == [] && if exp' == [] then topic' == [] else Loop(exp', topic')
    else if Vcmp(ec, PLUS) then !(tc == [] && topic' == []) && Loop(exp', topic')
    else if Vcmp(ec, HASH) then exp' == []
    else ec == tc && Loop(exp', topic')
  }

  predicate MatchExpression(exp: seq<byte>, topic: seq<byte>) {
    exp != [] && Loop(exp, topic)
  }

  // ---- Levels that `mg_vcmp` takes for what they are not ----

  /** A level of more than 2^32 octets that is taken for a '+' or a '#'. */
  predicate Misread(c: seq<byte>) {
    (Vcmp(c, PLUS) && c != PLUS) || (Vcmp(c, HASH) && c != HASH)
  }

  ghost predicate Readable(fs: seq<seq<byte>>) {
    forall f <- fs :: !Misread(f)
  }

  lemma ReadAsIs(c: seq<byte>)
    requires !Misread(c)
    ensures (Vcmp(c, PLUS) <==> c == PLUS) && (Vcmp(c, HASH) <==> c == HASH)
  {
    VcmpExact(PLUS, PLUS);
    VcmpExact(HASH, HASH);
  }

  lemma ReadableParts(c: seq<byte>, fs: seq<seq<byte>>)
    requires Readable([c] + fs)
    ensures !Misread(c) && Readable(fs)
  {
    hide Misread;
    assert ([c] + fs)[0] == c && forall f <- fs :: f in [c] + fs;
  }

  /** No filter shorter than 2^32 octets has such a level. */
  lemma {:induction false} ShortIsReadable(exp: seq<byte>)
    requires |exp| < TWO32
    ensures Readable(Levels(exp))
    decreases |exp|
  {
    if exp != [] {
      var k := FirstOf(exp, SLASH);
      ShortLevel(exp[..k]);
      ShortLevel([]);
      if k + 1 < |exp| {
        ShortIsReadable(exp[k + 1..]);
      } else if k == |exp| {
        assert exp[..k] == exp;
      }
    }
  }

  lemma ShortLevel(c: seq<byte>)
    requires |c| < TWO32
    ensures !Misread(c)
  {
    VcmpExact(c, PLUS);
    VcmpExact(c, HASH);
  }

  // ---- The matcher against the meaning ----

  /** The last level is not empty. */
  predicate Closed(ls: seq<seq<byte>>) {
    ls != [] ==> ls[|ls| - 1] != []
  }

  /** Where the first '#' is. */
  function FirstHash(fs: seq<seq<byte>>): (i: nat)
    ensures i <= |fs|
  {
    if fs == [] || fs[0] == HASH then 0 else 1 + FirstHash(fs[1..])
  }

  /**
   * Without a '#', the last level is not empty; a '#' at the end is alone or behind a level that is not empty; a '#'
   * elsewhere is not followed by just one empty level.
   */
  predicate RightFilter(fs: seq<seq<byte>>)
    requires fs != []
  {
    var i := FirstHash(fs);
    if i == |fs| then fs[|fs| - 1] != []
    else if i == |fs| - 1 then i == 0 || fs[i - 1] != []
    else fs[i + 1..] != [[]]
  }

  lemma LevelsUnfold(s: seq<byte>)
    requires s != []
    ensures var k := FirstOf(s, SLASH);
            Levels(s) == if k == |s| then [s] else if k + 1 == |s| then [s[..k], []] else [s[..k]] + Levels(s[k + 1..])
    ensures Levels([]) == []
  {
    hide FirstOf;
  }

  lemma NextLevel(s: seq<byte>)
    requires s != [] && Closed(Levels(s))
    ensures var (c, rest) := Next(s);
            && Levels(s) == [c] + Levels(rest) && Closed(Levels(rest)) && (rest == [] ==> c != [])
  {
    hide Levels, FirstOf;
    LevelsUnfold(s);
    var k := FirstOf(s, SLASH);
    if k + 1 < |s| {
      LastOfMore(s[..k], Levels(s[k + 1..]));
    } else if k == |s| {
      assert [s] + [] == [s];
    }
  }

  lemma LastOfMore(c: seq<byte>, more: seq<seq<byte>>)
    requires more != [] && Closed([c] + more)
    ensures Closed(more)
  {
    assert ([c] + more)[|more|] == more[|more| - 1];
  }

  lemma MatchesCons(f: seq<byte>, fs: seq<seq<byte>>, t: seq<byte>, ts: seq<seq<byte>>)
    ensures fs != [] ==> (FilterMatches([f] + fs, [t] + ts) <==> f != HASH && LevelFits(f, t) && FilterMatches(fs, ts))
    ensures f != HASH ==> (FilterMatches([f], [t] + ts) <==> LevelFits(f, t) && ts == [])
    ensures FilterMatches([HASH], ts)
    ensures f != HASH ==> !FilterMatches([f], [])
  {
    hide LevelFits;
    var gs, us := [f] + fs, [t] + ts;
    if fs != [] {
      assert gs[|gs| - 1] == fs[|fs| - 1];
      if FilterMatches(gs, us) {
        assert gs[0] == f && us[0] == t;
        assert forall i :: 0 <= i < |fs| ==> gs[i + 1] == fs[i];
        assert forall i :: 0 <= i < |ts| ==> us[i + 1] == ts[i];
      }
      if f != HASH && LevelFits(f, t) && FilterMatches(fs, ts) {
        assert forall i :: 0 < i < |gs| ==> gs[i] == fs[i - 1];
        assert forall i :: 0 < i < |us| ==> us[i] == ts[i - 1];
      }
    }
  }

  lemma RightCons(c: seq<byte>, more: seq<seq<byte>>)
    requires more != []
    ensures c != HASH ==> (RightFilter([c] + more) <==> RightFilter(more) && (more == [HASH] ==> c != []))
    ensures c == HASH ==> (RightFilter([c] + more) <==> more != [[]])
    ensures RightFilter([c]) <==> c != []
  {
    var fs := [c] + more;
    assert fs[1..] == more && [c][1..] == [];
    if c != HASH {
      var i := FirstHash(more);
      assert FirstHash(fs) == i + 1;
      if i < |more| {
        assert more[i..] == fs[i + 1..] && more[i + 1..] == fs[i + 2..];
        HashFound(more);
      }
    }
  }

  lemma {:induction false} HashFound(fs: seq<seq<byte>>)
    ensures FirstHash(fs) < |fs| ==> fs[FirstHash(fs)] == HASH
  {
    if fs != [] && fs[0] != HASH {
      HashFound(fs[1..]);
    }
  }

  /** The first level of a filter, and what is behind it. */
  lemma FilterParts(exp: seq<byte>)
    requires exp != []
    ensures var (c, rest) := Next(exp);
            if rest != [] then Levels(exp) == [c] + Levels(rest) && Levels(rest) != []
            else Levels(exp) == [c, []] || (Levels(exp) == [c] && c != [])
  {
    hide Levels, FirstOf;
    LevelsUnfold(exp);
  }

  /** Where the topic has no more levels, what is left of the filter matches only if it is a '#'. */
  lemma {:induction false} LoopWithoutTopic(exp: seq<byte>)
    requires exp != [] && RightFilter(Levels(exp)) && Readable(Levels(exp))
    ensures Loop(exp, []) <==> Levels(exp) == [HASH]
    decreases |exp|
  {
    hide Levels, RightFilter, Vcmp, Readable, Misread;
    FilterParts(exp);
    var (c, rest) := Next(exp);
    FirstIsReadable(exp);
    NotTwo(c);
    if rest != [] {
      RightCons(c, Levels(rest));
      if c == [] {
        LoopWithoutTopic(rest);
      }
    }
  }

  lemma FirstIsReadable(exp: seq<byte>)
    requires exp != [] && Readable(Levels(exp))
    ensures var (c, rest) := Next(exp);
            (Vcmp(c, PLUS) <==> c == PLUS) && (Vcmp(c, HASH) <==> c == HASH) && Readable(Levels(rest))
  {
    hide Levels, Vcmp, Readable, Misread, Next;
    FilterParts(exp);
    NextOfNothing();
    var (c, rest) := Next(exp);
    if rest == [] {
      NoneMisread();
      assert [c, []] == [c] + [[]] && [c] == [c] + [];
      ReadableParts(c, if Levels(exp) == [c, []] then [[]] else []);
    } else {
      ReadableParts(c, Levels(rest));
    }
    ReadAsIs(c);
  }

  lemma NoneMisread()
    ensures Readable([])
  {}

  lemma NotTwo(c: seq<byte>)
    ensures !RightFilter([c, []]) && [c, []] == [c] + [[]]
    ensures !FilterMatches([c, []], [c]) && !FilterMatches([c, []], [[120]])
  {
    RightCons(c, [[]]);
    RightCons([], [[]]);
  }

  lemma NoLevelsMatchHash(fs: seq<seq<byte>>)
    requires fs != []
    ensures FilterMatches(fs, []) <==> fs == [HASH]
  {}

  /** The matcher means what the standard says, for right filters and topics that do not end in an empty level. */
  lemma {:induction false} LoopIsMeaning(exp: seq<byte>, topic: seq<byte>)
    requires exp != [] && RightFilter(Levels(exp)) && Readable(Levels(exp)) && Closed(Levels(topic))
    ensures Loop(exp, topic) <==> FilterMatches(Levels(exp), Levels(topic))
    decreases |exp|
  {
    hide FilterMatches, Levels, Next, RightFilter, Vcmp, Readable, Misread;
    FilterParts(exp);
    LevelsUnfold(exp);
    FirstIsReadable(exp);
    if topic == [] {
      LoopWithoutTopic(exp);
      NoLevelsMatchHash(Levels(exp));
    } else {
      var (ec, exp') := Next(exp);
      var (tc, topic') := Next(topic);
      NextLevel(topic);
      NotTwo(ec);
      MatchesCons(ec, Levels(exp'), tc, Levels(topic'));
      MatchesCons(ec, Levels(exp'), tc, Levels(topic));
      if exp' == [] {
        EndOfFilter(topic');
      } else {
        RightCons(ec, Levels(exp'));
        if ec != HASH {
          LoopIsMeaning(exp', topic');
        }
      }
    }
  }

  lemma EndOfFilter(topic: seq<byte>)
    requires Closed(Levels(topic))
    ensures Loop([], topic) <==> topic == []
    ensures Levels(topic) == [] <==> topic == []
  {
    if topic != [] {
      NextLevel(topic);
    }
  }

  // ---- For which filters and topics that is so, exactly ----

  /** A level in front of a topic. */
  lemma PutLevel(t: seq<byte>, topic: seq<byte>) returns (longer: seq<byte>)
    requires SLASH !in t && Closed(Levels(topic)) && (topic == [] ==> t != [])
    ensures longer != [] && Next(longer) == (t, topic)
    ensures Levels(longer) == [t] + Levels(topic) && Closed(Levels(longer))
  {
    hide Levels;
    if topic == [] {
      longer := t;
      FirstOfAt(t, [], SLASH);
      assert t + [] == t;
    } else {
      longer := t + ([SLASH] + topic);
      FirstOfAt(t, [SLASH] + topic, SLASH);
      assert longer[..|t|] == t && longer[|t| + 1..] == topic;
    }
    LevelsUnfold(longer);
    if topic != [] {
      assert ([t] + Levels(topic))[|Levels(topic)|] == Levels(topic)[|Levels(topic)| - 1];
    } else {
      assert [t] + [] == [t];
    }
  }

  lemma NextIsLevel(exp: seq<byte>)
    ensures SLASH !in Next(exp).0
  {
    assert exp[..|exp|] == exp;
  }

  /** For a filter that is not right there is a topic that the code wrongly takes to match. */
  lemma {:induction false} WrongMatch(exp: seq<byte>) returns (topic: seq<byte>)
    requires exp != [] && !RightFilter(Levels(exp)) && Readable(Levels(exp))
    ensures Closed(Levels(topic)) && Loop(exp, topic) && !FilterMatches(Levels(exp), Levels(topic))
    decreases |exp|
  {
    hide Levels, RightFilter, FilterMatches, Next, Vcmp, Readable, Misread;
    FilterParts(exp);
    LevelsUnfold(exp);
    FirstIsReadable(exp);
    var (c, rest) := Next(exp);
    RightCons(c, [[]]);
    NoLevelsMatchHash(Levels(exp));
    HashAloneIsRight();
    NextOfNothing();
    if Loop(exp, []) {
      return [];
    }
    var t := if c == PLUS then [120] else c;
    NextIsLevel(exp);
    var more := [];
    if rest == [] {
      NotTwo(c);
      assert Loop([], []);
    } else {
      RightCons(c, Levels(rest));
      FilterParts(rest);
      if RightFilter(Levels(rest)) {
        LoopWithoutTopic(rest);
      }
      more := WrongMatch(rest);
      MatchesCons(c, Levels(rest), t, Levels(more));
    }
    topic := PutLevel(t, more);
    assert [t] + [] == [t];
  }

  lemma HashAloneIsRight()
    ensures RightFilter([HASH])
  {}

  lemma NextOfNothing()
    ensures Next([]) == ([], []) && Levels([]) == []
  {}

  ghost predicate Agrees(exp: seq<byte>, topic: seq<byte>)
    requires exp != []
  {
    MatchExpression(exp, topic) <==> FilterMatches(Levels(exp), Levels(topic))
  }

  /** All topics that do not end in an empty level match a filter as the standard says exactly when it is right. */
  lemma FilterIsRightIff(exp: seq<byte>)
    requires exp != [] && Readable(Levels(exp))
    ensures RightFilter(Levels(exp)) <==> forall topic :: Closed(Levels(topic)) ==> Agrees(exp, topic)
  {
    hide Levels, RightFilter, FilterMatches, Closed, Loop, Readable;
    LevelsUnfold(exp);
    if RightFilter(Levels(exp)) {
      forall topic | Closed(Levels(topic))
        ensures Agrees(exp, topic)
      {
        LoopIsMeaning(exp, topic);
      }
    } else {
      var topic := WrongMatch(exp);
      assert !Agrees(exp, topic);
    }
  }

  /** As many '+' as the topic has levels. */
  function Pluses(n: nat): (s: seq<byte>)
    requires n > 0
    ensures s != []
  {
    if n == 1 then PLUS else PLUS + ([SLASH] + Pluses(n - 1))
  }

  lemma PlusesParts(n: nat)
    requires n > 0
    ensures Next(Pluses(n)) == (PLUS, if n == 1 then [] else Pluses(n - 1))
    ensures n == 1 ==> Levels(Pluses(n)) == [PLUS]
    ensures n > 1 ==> Levels(Pluses(n)) == [PLUS] + Levels(Pluses(n - 1))
  {
    hide Levels;
    LevelsUnfold(Pluses(n));
    var s := Pluses(n);
    if n == 1 {
      FirstOfAt(PLUS, [], SLASH);
      assert PLUS + [] == PLUS;
    } else {
      FirstOfAt(PLUS, [SLASH] + Pluses(n - 1), SLASH);
      assert s[..1] == PLUS && s[2..] == Pluses(n - 1);
    }
  }

  /** They are a right filter, and match every topic with as many levels. */
  lemma {:induction false} PlusesMatch(ts: seq<seq<byte>>)
    requires ts != []
    ensures RightFilter(Levels(Pluses(|ts|))) && FilterMatches(Levels(Pluses(|ts|)), ts)
    ensures Readable(Levels(Pluses(|ts|)))
    decreases |ts|
  {
    hide Levels, RightFilter, FilterMatches, Pluses, Misread;
    ShortLevel(PLUS);
    PlusesParts(|ts|);
    RightCons(PLUS, [[]]);
    if |ts| == 1 {
      MatchesCons(PLUS, [], ts[0], []);
      assert ts == [ts[0]] + [];
    } else {
      var more := Levels(Pluses(|ts| - 1));
      PlusesMatch(ts[1..]);
      LevelsUnfold(Pluses(|ts| - 1));
      RightCons(PLUS, more);
      MatchesCons(PLUS, more, ts[0], ts[1..]);
      assert ts == [ts[0]] + ts[1..];
    }
  }

  /** But the code does not take them to match a topic that ends in an empty level. */
  lemma {:induction false} PlusesMissed(topic: seq<byte>)
    requires topic != [] && !Closed(Levels(topic))
    ensures !Loop(Pluses(|Levels(topic)|), topic)
    decreases |topic|
  {
    hide Levels, Pluses, Next, Vcmp;
    VcmpExact(PLUS, PLUS);
    FilterParts(topic);
    LevelsUnfold(topic);
    var ls := Levels(topic);
    var (tc, topic') := Next(topic);
    PlusesParts(|ls|);
    if topic' == [] {
      PlusesParts(1);
      NextOfNothing();
    } else {
      assert ls[|ls| - 1] == Levels(topic')[|Levels(topic')| - 1];
      PlusesMissed(topic');
    }
  }

  /** A topic is matched by all right filters as the standard says exactly when it does not end in an empty level. */
  lemma TopicIsRightIff(topic: seq<byte>)
    ensures Closed(Levels(topic))
            <==> forall exp :: exp != [] && RightFilter(Levels(exp)) && Readable(Levels(exp)) ==> Agrees(exp, topic)
  {
    hide Levels, RightFilter, FilterMatches, Loop, Pluses, Readable;
    NextOfNothing();
    if Closed(Levels(topic)) {
      forall exp | exp != [] && RightFilter(Levels(exp)) && Readable(Levels(exp))
        ensures Agrees(exp, topic)
      {
        LevelsUnfold(exp);
        LoopIsMeaning(exp, topic);
      }
    } else {
      var exp := Pluses(|Levels(topic)|);
      PlusesMatch(Levels(topic));
      PlusesMissed(topic);
      LevelsUnfold(exp);
      assert !Agrees(exp, topic);
    }
  }

  /** A filter of one level is matched as the standard says exactly when the level is not misread. */
  lemma OneLevelIff(c: seq<byte>)
    requires c != [] && SLASH !in c
    ensures !Misread(c) <==> forall topic :: Closed(Levels(topic)) ==> Agrees(c, topic)
  {
    hide Vcmp, FilterMatches, RightFilter;
    FirstOfAt(c, [], SLASH);
    assert c + [] == c && c[..|c|] == c;
    assert Levels(c) == [c];
    RightCons(c, [[]]);
    if !Misread(c) {
      FilterIsRightIff(c);
    } else {
      MisreadShows(c);
    }
  }

  /** "x" is taken to match it. */
  lemma MisreadShows(c: seq<byte>)
    requires Misread(c) && SLASH !in c && Levels(c) == [c] && Next(c) == (c, [])
    ensures var x: seq<byte> := [120]; Closed(Levels(x)) && !Agrees(c, x)
  {
    var x: seq<byte> := [120];
    assert x[1..] == [] && FirstOf(x, SLASH) == 1;
    assert Levels(x) == [x] && Next(x) == (x, []);
    assert Loop([], []);
    assert c != x && c != PLUS;
    assert Loop(c, x);
    assert !FilterMatches([c], [x]);
  }

  /** The matcher means what the standard says. */
  lemma MatchIsMeaning(exp: seq<byte>, topic: seq<byte>)
    requires exp != [] && RightFilter(Levels(exp)) && Readable(Levels(exp)) && Closed(Levels(topic))
    ensures MatchExpression(exp, topic) <==> FilterMatches(Levels(exp), Levels(topic))
  {
    LoopIsMeaning(exp, topic);
  }

  // ---- Where it is not what the standard says ----

  /** "a/" is matched by "a". */
  lemma TrailingSlashIsDropped()
    ensures var a: seq<byte> := [97];
            MatchExpression(a + [SLASH], a) && !FilterMatches(Levels(a + [SLASH]), Levels(a))
  {
    var a: seq<byte> := [97];
    var f := a + [SLASH];
    assert f[1..] == [SLASH] && FirstOf(f, SLASH) == 1 && f[..1] == a && f[2..] == [];
    assert a[1..] == [] && FirstOf(a, SLASH) == 1;
    assert Loop([], []);
    assert Levels(f) == [a, []] && Levels(a) == [a];
  }

  /** "a///" is matched by "a", and "a//" by the filter "a". */
  lemma TrailingSlashesAreDropped()
    ensures var a: seq<byte> := [97];
            && MatchExpression(a + [SLASH, SLASH, SLASH], a)
            && !FilterMatches(Levels(a + [SLASH, SLASH, SLASH]), Levels(a))
            && MatchExpression(a, a + [SLASH, SLASH]) && !FilterMatches(Levels(a), Levels(a + [SLASH, SLASH]))
  {
    var a: seq<byte> := [97];
    var two, three := [SLASH, SLASH], [SLASH, SLASH, SLASH];
    FirstOfAt(a, [], SLASH);
    FirstOfAt(a, two, SLASH);
    FirstOfAt(a, three, SLASH);
    assert a + [] == a && (a + two)[..1] == a && (a + three)[..1] == a;
    assert (a + two)[2..] == [SLASH] && (a + three)[2..] == two && two[1..] == [SLASH] && [SLASH][1..] == [];
    assert Levels([SLASH]) == [[], []];
    assert Levels(two) == [[], [], []];
    assert Levels(a) == [a] && Levels(a + two) == [a, [], []] && Levels(a + three) == [a, [], [], []];
    assert Loop([SLASH], []) && Loop(two, []) && Loop([], [SLASH]);
  }

  /** "a//#" is matched by "a". */
  lemma EmptyLevelBeforeHash()
    ensures var a: seq<byte> := [97];
            MatchExpression(a + [SLASH, SLASH, 35], a) && !FilterMatches(Levels(a + [SLASH, SLASH, 35]), Levels(a))
  {
    var a: seq<byte> := [97];
    var more: seq<byte> := [SLASH, 35];
    FirstOfAt(a, [], SLASH);
    FirstOfAt(a, [SLASH] + more, SLASH);
    var f := a + [SLASH, SLASH, 35];
    assert f == a + ([SLASH] + more) && a + [] == a && f[..1] == a && f[2..] == more && more[1..] == HASH;
    assert HASH[1..] == [] && FirstOf(HASH, SLASH) == 1;
    assert Levels(HASH) == [HASH] && Levels(more) == [[], HASH];
    assert Levels(f) == [a, [], HASH] && Levels(a) == [a];
    assert Loop(HASH, []) && Loop(more, []);
  }

  /** "a/" is not matched by "a/+". */
  lemma PlusMissesLastEmptyLevel()
    ensures var a: seq<byte> := [97];
            && !MatchExpression(a + [SLASH, 43], a + [SLASH])
            && FilterMatches(Levels(a + [SLASH, 43]), Levels(a + [SLASH]))
  {
    var a: seq<byte> := [97];
    var f, t := a + [SLASH, 43], a + [SLASH];
    assert f[1..] == [SLASH, 43] && FirstOf(f, SLASH) == 1 && f[..1] == a && f[2..] == PLUS;
    assert t[1..] == [SLASH] && FirstOf(t, SLASH) == 1 && t[..1] == a && t[2..] == [];
    assert PLUS[1..] == [] && FirstOf(PLUS, SLASH) == 1;
    assert !Loop(PLUS, []);
    assert Levels(f) == [a, PLUS] && Levels(t) == [a, []];
  }

  /** "a/#" is matched by "a" and by "a/b", "+/b" by "a/b", and "a/+" by "a/b" but not by "a". */
  lemma Examples()
    ensures MatchExpression([97, 47, 35], [97]) && MatchExpression([97, 47, 35], [97, 47, 98])
    ensures MatchExpression([43, 47, 98], [97, 47, 98]) && MatchExpression([97, 47, 43], [97, 47, 98])
    ensures !MatchExpression([97, 47, 43], [97])
  {
    SmallLevels(97, 35);
    SmallLevels(97, 98);
    SmallLevels(43, 98);
    SmallLevels(97, 43);
    hide FirstOf, Next;
    assert Next([]) == ([], []) by { NextOfNothing(); }
    VcmpExact(PLUS, PLUS);
    VcmpExact(HASH, HASH);
    VcmpExact(HASH, PLUS);
    VcmpExact([97], PLUS);
    VcmpExact([97], HASH);
    VcmpExact([98], PLUS);
    VcmpExact([98], HASH);
    hide Vcmp;
    assert Loop([], []);
    assert Loop([98], [98]) && Loop([35], [98]) && Loop([35], []) && Loop([43], [98]) && !Loop([43], []);
  }

  lemma SmallLevels(a: byte, b: byte)
    requires a != SLASH && b != SLASH
    ensures Next([a, 47, b]) == ([a], [b]) && Next([b]) == ([b], []) && Next([a]) == ([a], [])
  {
    FirstOfAt([a], [47, b], SLASH);
    FirstOfAt([b], [], SLASH);
    FirstOfAt([a], [], SLASH);
    assert [a, 47, b] == [a] + [47, b] && [b] + [] == [b] && [a] + [] == [a];
    assert [a, 47, b][..1] == [a] && [a, 47, b][2..] == [b];
  }

  // ---- The code ----

  method NextComponent(s: seq<byte>) returns (c: seq<byte>, rest: seq<byte>)
    ensures (c, rest) == Next(s)
  {
    var k := Search(s, SLASH);
    if k < |s| {
      return s[..k], s[k + 1..];
    }
    return s, [];
  }

  /** `mg_mqtt_match_topic_expression`. */
  method Match(filter: seq<byte>, name: seq<byte>) returns (yes: bool)
    ensures yes == MatchExpression(filter, name)
  {
    if |filter| == 0 {
      return false;
    }
    var exp, topic := filter, name;
    var ec, tc;
    while true
      invariant Loop(exp, topic) == Loop(filter, name)
      decreases |exp|
    {
      ec, exp := NextComponent(exp);
      tc, topic := NextComponent(topic);
      if |ec| == 0 {
        if |tc| != 0 {
          return false;
        }
        if |exp| == 0 {
          break;
        }
        continue;
      }
      if Vcmp(ec, PLUS) {
        if |tc| == 0 && |topic| == 0 {
          return false;
        }
        continue;
      }
      if Vcmp(ec, HASH) {
        return |exp| == 0;
      }
      if ec != tc {
        return false;
      }
    }
    return |tc| == 0 && |topic| == 0;
  }
}
