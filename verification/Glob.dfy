/** The glob matcher of the library: '?', '*', '**', '$' at the end, and alternatives behind '|' or ','. */
module Glob {
  import opened Bytes
  import opened Chars

  const STAR: byte := 42
  const ANY: byte := 63
  const DOLLAR: byte := 36
  const BAR: byte := 124
  const COMMA: byte := 44

  /** How far a '*' reaches: to the next '/', or to the end. */
  function Reach(s: seq<byte>): (n: nat)
    ensures n <= |s| && SLASH !in s[..n] && (n < |s| ==> s[n] == SLASH)
  {
    if s == [] || s[0] == SLASH then 0 else 1 + Reach(s[1..])
  }

  /** How many characters of pattern the stars in front of it are. */
  function Stars(p: seq<byte>): (n: nat)
    ensures n <= |p| && n <= 2
  {
    if p == [] || p[0] != STAR then 0 else if |p| > 1 && p[1] == STAR then 2 else 1
  }

  // ---- The matcher as the code goes about it ----

  /** What one alternative matches from the front of s; -1 when it does not. */
  function Tail(p: seq<byte>, s: seq<byte>): (n: int)
    ensures -1 <= n <= |s|
    decreases |p|, 0, 0
  {
    if p == [] then 0
    else if s == [] then if p[0] == DOLLAR then 0 else -1
    else if p[0] == STAR then
      var rest := p[Stars(p)..];
      var run := if Stars(p) == 2 then |s| else Reach(s);
      if rest == [] || rest == [DOLLAR] then run else Back(rest, s, run)
    else if p[0] == ANY || Lower(p[0]) == Lower(s[0]) then
      var n := Tail(p[1..], s[1..]);
      if n < 0 then -1 else n + 1
    else -1
  }

  /** The rest of the pattern, tried behind len characters, and then behind fewer. */
  function Back(rest: seq<byte>, s: seq<byte>, len: nat): (n: int)
    requires len <= |s|
    ensures -1 <= n <= |s|
    decreases |rest|, 1, len
  {
    var res := Tail(rest, s[len..]);
    if res > 0 then len + res else if len == 0 then -1 else Back(rest, s, len - 1)
  }

  predicate IsSeparator(c: byte) {
    c == BAR || c == COMMA
  }

  predicate NoSeparator(p: seq<byte>) {
    forall i :: 0 <= i < |p| ==> !IsSeparator(p[i])
  }

  /** Where the first '|' is, or else the first ','; the length when there is neither. */
  function Separator(p: seq<byte>): (k: nat)
    ensures k <= |p| && (k < |p| ==> IsSeparator(p[k]))
    ensures k == |p| <==> NoSeparator(p)
  {
    if FirstOf(p, BAR) < |p| then FirstOf(p, BAR) else FirstOf(p, COMMA)
  }

  /** `mg_match_prefix_n`. */
  function MatchPrefix(p: seq<byte>, s: seq<byte>): (n: nat)
    ensures n <= |s|
    decreases |p|
  {
    var k := Separator(p);
    if k < |p| then
      var res := MatchPrefix(p[..k], s);
      if res > 0 then res else MatchPrefix(p[k + 1..], s)
    else
      var t := Tail(p, s);
      if t < 0 then 0 else t
  }

  // ---- What a pattern means ----

  /** p matches the first n characters of s; what follows a '$' at the end of s is ignored. */
  ghost predicate Matches(p: seq<byte>, s: seq<byte>, n: nat)
    decreases |p|
  {
    n <= |s|
    && if p == [] then n == 0
       else if p[0] == STAR then
         exists k :: 0 <= k <= n && (Stars(p) == 2 || SLASH !in s[..k]) && Matches(p[Stars(p)..], s[k..], n - k)
       else
         || (p[0] == DOLLAR && s == [])
         || (n > 0 && (p[0] == ANY || Lower(p[0]) == Lower(s[0])) && Matches(p[1..], s[1..], n - 1))
  }

  /** The same, where no star stands at the end of s, and what follows a star matches something. */
  ghost predicate MatchesMore(p: seq<byte>, s: seq<byte>, n: nat)
    decreases |p|
  {
    n <= |s|
    && if p == [] then n == 0
       else if p[0] == STAR then
         s != [] && exists k :: 0 <= k <= n && StarTakes(p, s, n, k) && MatchesMore(p[Stars(p)..], s[k..], n - k)
       else
         || (p[0] == DOLLAR && s == [])
         || (n > 0 && (p[0] == ANY || Lower(p[0]) == Lower(s[0])) && MatchesMore(p[1..], s[1..], n - 1))
  }

  ghost predicate StarTakes(p: seq<byte>, s: seq<byte>, n: nat, k: nat)
    requires k <= n <= |s|
  {
    (Stars(p) == 2 || SLASH !in s[..k]) && (p[Stars(p)..] == [] || n > k)
  }

  /** The alternative ends in "*$". */
  predicate StarDollarEnd(a: seq<byte>) {
    |a| > 1 && a[|a| - 2] == STAR && a[|a| - 1] == DOLLAR
  }

  /** An alternative with "*$" at its end read as "*". */
  function Loosened(a: seq<byte>): seq<byte> {
    if StarDollarEnd(a) then a[..|a| - 1] else a
  }

  ghost predicate IsAlternative(a: seq<byte>, p: seq<byte>) {
    exists lo, hi :: 0 <= lo <= hi <= |p| && Between(p, lo, hi) && a == p[lo..hi]
  }

  /** No separator from lo to hi, but one on either side, unless the pattern starts or ends there. */
  ghost predicate Between(p: seq<byte>, lo: nat, hi: nat)
    requires lo <= hi <= |p|
  {
    && (forall i :: lo <= i < hi ==> !IsSeparator(p[i]))
    && (lo == 0 || IsSeparator(p[lo - 1]))
    && (hi == |p| || IsSeparator(p[hi]))
  }

  // ---- The matcher against the meaning ----

  lemma {:induction false} MoreIsMatch(p: seq<byte>, s: seq<byte>, n: nat)
    requires MatchesMore(p, s, n)
    ensures Matches(p, s, n)
    decreases |p|
  {
    if p != [] && p[0] == STAR {
      var k :| 0 <= k <= n && StarTakes(p, s, n, k) && MatchesMore(p[Stars(p)..], s[k..], n - k);
      MoreIsMatch(p[Stars(p)..], s[k..], n - k);
    } else if p != [] && n > 0 && s != [] && MatchesMore(p[1..], s[1..], n - 1) {
      MoreIsMatch(p[1..], s[1..], n - 1);
    }
  }

  lemma RestHasNoStarDollar(p: seq<byte>, k: nat)
    requires !StarDollarEnd(p) && k <= |p|
    ensures !StarDollarEnd(p[k..])
    ensures p != [] && p[0] == STAR ==> p[Stars(p)..] != [DOLLAR]
  {
    if p != [] && p[0] == STAR && Stars(p) < |p| {
      assert p[Stars(p) - 1] == STAR && p[Stars(p)..][0] == p[Stars(p)];
    }
  }

  lemma {:induction false} PlainTailMatches(p: seq<byte>, s: seq<byte>)
    requires !StarDollarEnd(p) && Tail(p, s) >= 0
    ensures MatchesMore(p, s, Tail(p, s))
    decreases |p|, 0, 0
  {
    if p == [] || s == [] {
    } else if p[0] == STAR {
      var rest := p[Stars(p)..];
      var run := if Stars(p) == 2 then |s| else Reach(s);
      RestHasNoStarDollar(p, Stars(p));
      if rest == [] {
        assert StarTakes(p, s, run, run) && MatchesMore(rest, s[run..], 0);
      } else {
        var k := BackMatches(rest, s, run);
        var n := Tail(p, s);
        assert SLASH in s[..k] ==> SLASH in s[..run];
        assert StarTakes(p, s, n, k) && MatchesMore(rest, s[k..], n - k);
      }
    } else {
      RestHasNoStarDollar(p, 1);
      PlainTailMatches(p[1..], s[1..]);
    }
  }

  lemma {:induction false} BackMatches(rest: seq<byte>, s: seq<byte>, len: nat) returns (k: nat)
    requires !StarDollarEnd(rest) && len <= |s| && Back(rest, s, len) >= 0
    ensures k <= len && k < Back(rest, s, len) && MatchesMore(rest, s[k..], Back(rest, s, len) - k)
    decreases |rest|, 1, len
  {
    if Tail(rest, s[len..]) > 0 {
      k := len;
      PlainTailMatches(rest, s[len..]);
    } else {
      k := BackMatches(rest, s, len - 1);
    }
  }

  lemma ReachIsFarthest(s: seq<byte>, k: nat)
    requires k <= |s|
    ensures k > Reach(s) ==> SLASH in s[..k]
  {
    if k > Reach(s) {
      assert s[..k][Reach(s)] == s[Reach(s)];
    }
  }

  /** And where there is such a match, the matcher finds one. */
  lemma {:induction false} MatchIsFound(p: seq<byte>, s: seq<byte>, n: nat)
    requires !StarDollarEnd(p) && MatchesMore(p, s, n)
    ensures Tail(p, s) >= 0 && (n > 0 ==> Tail(p, s) > 0)
    decreases |p|, 0, 0
  {
    if p == [] || s == [] {
    } else if p[0] == STAR {
      var rest := p[Stars(p)..];
      var run := if Stars(p) == 2 then |s| else Reach(s);
      RestHasNoStarDollar(p, Stars(p));
      var k :| 0 <= k <= n && StarTakes(p, s, n, k) && MatchesMore(rest, s[k..], n - k);
      if Stars(p) != 2 {
        ReachIsFarthest(s, k);
      }
      if rest != [] {
        BackFinds(rest, s, run, k, n - k);
      }
    } else {
      RestHasNoStarDollar(p, 1);
      MatchIsFound(p[1..], s[1..], n - 1);
    }
  }

  lemma {:induction false} BackFinds(rest: seq<byte>, s: seq<byte>, len: nat, k: nat, n: nat)
    requires !StarDollarEnd(rest) && k <= len <= |s| && n > 0 && MatchesMore(rest, s[k..], n)
    ensures Back(rest, s, len) > 0
    decreases |rest|, 1, len
  {
    if len == k {
      MatchIsFound(rest, s[k..], n);
    } else {
      BackFinds(rest, s, len - 1, k, n);
    }
  }

  /** The alternatives of a pattern are those before a separator and those behind it. */
  lemma AlternativesSplit(a: seq<byte>, p: seq<byte>, k: nat)
    requires k < |p| && IsSeparator(p[k])
    ensures IsAlternative(a, p) <==> IsAlternative(a, p[..k]) || IsAlternative(a, p[k + 1..])
  {
    hide IsSeparator;
    if IsAlternative(a, p) {
      AlternativeIsInPart(a, p, k);
    }
    if IsAlternative(a, p[..k]) {
      var lo, hi :| 0 <= lo <= hi <= k && Between(p[..k], lo, hi) && a == p[..k][lo..hi];
      BetweenBefore(p, k, lo, hi);
    }
    if IsAlternative(a, p[k + 1..]) {
      var lo, hi :| 0 <= lo <= hi <= |p[k + 1..]| && Between(p[k + 1..], lo, hi) && a == p[k + 1..][lo..hi];
      BetweenBehind(p, k, lo + k + 1, hi + k + 1);
    }
  }

  lemma AlternativeIsInPart(a: seq<byte>, p: seq<byte>, k: nat)
    requires k < |p| && IsSeparator(p[k]) && IsAlternative(a, p)
    ensures IsAlternative(a, p[..k]) || IsAlternative(a, p[k + 1..])
  {
    hide IsSeparator;
    var lo, hi :| 0 <= lo <= hi <= |p| && Between(p, lo, hi) && a == p[lo..hi];
    if hi <= k {
      BetweenBefore(p, k, lo, hi);
    } else {
      BetweenBehind(p, k, lo, hi);
    }
  }

  lemma BetweenBefore(p: seq<byte>, k: nat, lo: nat, hi: nat)
    requires lo <= hi <= k < |p| && IsSeparator(p[k])
    ensures Between(p[..k], lo, hi) <==> Between(p, lo, hi)
    ensures p[..k][lo..hi] == p[lo..hi]
  {}

  lemma BetweenBehind(p: seq<byte>, k: nat, lo: nat, hi: nat)
    requires k < lo <= hi <= |p| && IsSeparator(p[k])
    ensures Between(p[k + 1..], lo - k - 1, hi - k - 1) <==> Between(p, lo, hi)
    ensures p[k + 1..][lo - k - 1..hi - k - 1] == p[lo..hi]
  {
    hide IsSeparator;
    var q := p[k + 1..];
    assert forall i :: lo <= i < hi ==> p[i] == q[i - k - 1];
    assert forall i :: lo - k - 1 <= i < hi - k - 1 ==> q[i] == p[i + k + 1];
  }

  lemma OnlyAlternative(a: seq<byte>, p: seq<byte>)
    requires NoSeparator(p)
    ensures IsAlternative(a, p) <==> a == p
  {
    assert p[0..|p|] == p && Between(p, 0, |p|);
  }

  /** Behind a star, a '$' at the end of an alternative asks for nothing. */
  lemma {:induction false} StarDollarIsStar(p: seq<byte>, s: seq<byte>)
    ensures Tail(p + [STAR, DOLLAR], s) == Tail(p + [STAR], s)
    decreases |p|, 0, 0
  {
    var a, b := p + [STAR, DOLLAR], p + [STAR];
    if p != [] && s != [] {
      if p[0] == STAR {
        var k := Stars(b);
        assert Stars(a) == k;
        if k <= |p| {
          assert a[k..] == p[k..] + [STAR, DOLLAR] && b[k..] == p[k..] + [STAR];
          BackIsSame(p[k..], s, if k == 2 then |s| else Reach(s));
        } else {
          assert a[k..] == [DOLLAR] && b[k..] == [];
        }
      } else {
        assert a[1..] == p[1..] + [STAR, DOLLAR] && b[1..] == p[1..] + [STAR];
        StarDollarIsStar(p[1..], s[1..]);
      }
    } else if s != [] {
      assert a[1..] == [DOLLAR] && b[1..] == [];
    }
  }

  lemma {:induction false} BackIsSame(p: seq<byte>, s: seq<byte>, len: nat)
    requires len <= |s|
    ensures Back(p + [STAR, DOLLAR], s, len) == Back(p + [STAR], s, len)
    decreases |p|, 1, len
  {
    StarDollarIsStar(p, s[len..]);
    if len > 0 {
      BackIsSame(p, s, len - 1);
    }
  }

  lemma LoosenedIsSame(a: seq<byte>, s: seq<byte>)
    ensures Tail(a, s) == Tail(Loosened(a), s) && !StarDollarEnd(Loosened(a))
  {
    if StarDollarEnd(a) {
      var p := a[..|a| - 2];
      assert a == p + [STAR, DOLLAR] && Loosened(a) == p + [STAR];
      StarDollarIsStar(p, s);
    }
  }

  /** What the matcher finds for an alternative is a match of it, with "*$" at its end read as "*". */
  lemma TailMatches(a: seq<byte>, s: seq<byte>)
    requires Tail(a, s) >= 0
    ensures MatchesMore(Loosened(a), s, Tail(a, s))
  {
    hide Tail, MatchesMore, Loosened;
    LoosenedIsSame(a, s);
    PlainTailMatches(Loosened(a), s);
  }

  /** Some alternative has a match that takes something. */
  ghost predicate Findable(p: seq<byte>, s: seq<byte>) {
    exists a, n: nat :: IsAlternative(a, p) && n > 0 && MatchesMore(Loosened(a), s, n)
  }

  lemma FindableSplit(p: seq<byte>, s: seq<byte>, k: nat)
    requires k < |p| && IsSeparator(p[k])
    ensures Findable(p, s) <==> Findable(p[..k], s) || Findable(p[k + 1..], s)
  {
    hide MatchesMore, IsAlternative, Loosened;
    forall a
      ensures IsAlternative(a, p) <==> IsAlternative(a, p[..k]) || IsAlternative(a, p[k + 1..])
    {
      AlternativesSplit(a, p, k);
    }
  }

  lemma FindableAlone(p: seq<byte>, s: seq<byte>)
    requires NoSeparator(p)
    ensures Findable(p, s) <==> Tail(p, s) > 0
    ensures IsAlternative(p, p)
  {
    hide MatchesMore, IsAlternative, Tail, Loosened;
    OnlyAlternative(p, p);
    LoosenedIsSame(p, s);
    if Tail(p, s) > 0 {
      TailMatches(p, s);
    }
    if a, n: nat :| IsAlternative(a, p) && n > 0 && MatchesMore(Loosened(a), s, n) {
      OnlyAlternative(a, p);
      MatchIsFound(Loosened(a), s, n);
    }
  }

  /**
   * Something is found exactly when some alternative, with "*$" at its end read as "*", has a match that takes
   * something, leaves no star at the end of the string, and leaves no star before what matches nothing.
   */
  lemma {:induction false} FoundIffFindable(p: seq<byte>, s: seq<byte>)
    ensures MatchPrefix(p, s) > 0 <==> Findable(p, s)
    decreases |p|
  {
    hide Findable, Tail;
    var k := Separator(p);
    if k < |p| {
      FoundIffFindable(p[..k], s);
      FoundIffFindable(p[k + 1..], s);
      FindableSplit(p, s, k);
    } else {
      FindableAlone(p, s);
    }
  }

  /** What is found is what the matcher finds for one of the alternatives. */
  lemma {:induction false} FoundForAlternative(p: seq<byte>, s: seq<byte>) returns (a: seq<byte>)
    requires MatchPrefix(p, s) > 0
    ensures IsAlternative(a, p) && Tail(a, s) == MatchPrefix(p, s)
    decreases |p|
  {
    hide IsAlternative, Tail;
    var k := Separator(p);
    if k < |p| {
      a := FoundForAlternative(if MatchPrefix(p[..k], s) > 0 then p[..k] else p[k + 1..], s);
      AlternativesSplit(a, p, k);
    } else {
      a := p;
      OnlyAlternative(p, p);
    }
  }

  /**
   * What is found is a match: that many characters from the front of the string match one of the alternatives, with
   * "*$" at its end read as "*".
   */
  lemma FoundIsMatch(p: seq<byte>, s: seq<byte>) returns (a: seq<byte>)
    requires MatchPrefix(p, s) > 0
    ensures IsAlternative(a, p) && Matches(Loosened(a), s, MatchPrefix(p, s))
  {
    hide Matches, IsAlternative, Tail, Loosened;
    a := FoundForAlternative(p, s);
    TailMatches(a, s);
    MoreIsMatch(Loosened(a), s, Tail(a, s));
  }

  // ---- When an alternative with a '$' behind a star is matched as it stands ----

  /** How many stars p ends in. */
  function StarsAtEnd(p: seq<byte>): (n: nat)
    ensures n <= |p|
  {
    if p == [] || p[|p| - 1] != STAR then 0 else 1 + StarsAtEnd(p[..|p| - 1])
  }

  predicate OddStars(p: seq<byte>) {
    StarsAtEnd(p) % 2 == 1
  }

  /** The alternative ends in a '$' behind an odd number of stars, so that the last of them stands alone. */
  predicate LooseDollar(a: seq<byte>) {
    a != [] && a[|a| - 1] == DOLLAR && OddStars(a[..|a| - 1])
  }

  lemma {:induction false} StarsAtEndDrop(p: seq<byte>, k: nat)
    requires k <= |p|
    ensures StarsAtEnd(p[k..]) == if StarsAtEnd(p) <= |p| - k then StarsAtEnd(p) else |p| - k
    decreases |p|
  {
    if k < |p| && p[|p| - 1] == STAR {
      assert p[k..][..|p| - k - 1] == p[..|p| - 1][k..];
      StarsAtEndDrop(p[..|p| - 1], k);
    }
  }

  lemma {:induction false} StarsOnly(p: seq<byte>)
    ensures StarsAtEnd(p) == |p| <==> forall i :: 0 <= i < |p| ==> p[i] == STAR
    ensures StarsAtEnd(p) < |p| ==> p[|p| - 1 - StarsAtEnd(p)] != STAR
  {
    if p != [] && p[|p| - 1] == STAR {
      StarsOnly(p[..|p| - 1]);
    }
  }

  lemma OneOff(p: seq<byte>)
    requires |p| > 1 && (p[0] != STAR || p[1] != STAR)
    ensures OddStars(p[1..]) == OddStars(p)
  {
    hide StarsAtEnd;
    StarsOnly(p);
    StarsAtEndDrop(p, 1);
  }

  lemma TwoOff(p: seq<byte>)
    requires |p| > 2 && p[0] == p[1] == STAR
    ensures OddStars(p[2..]) == OddStars(p)
  {
    hide StarsAtEnd;
    StarsOnly(p);
    StarsAtEndDrop(p, 2);
  }

  /** Taking off a token in front leaves the number of stars at the end odd or even. */
  lemma TokenOff(p: seq<byte>)
    requires p != []
    ensures var k := if p[0] == STAR then Stars(p) else 1;
            if k < |p| then OddStars(p[k..]) == OddStars(p) else OddStars(p) == (p[0] == STAR && k == 1)
  {
    hide OddStars;
    if |p| > 2 && p[0] == STAR && p[1] == STAR {
      TwoOff(p);
    } else if |p| > 1 && (p[0] != STAR || p[1] != STAR) {
      OneOff(p);
    } else {
      OneToken(p);
    }
  }

  lemma OneToken(p: seq<byte>)
    requires |p| == 1 || (|p| == 2 && p[0] == p[1] == STAR)
    ensures OddStars(p) == (|p| == 1 && p[0] == STAR)
  {
    hide StarsAtEnd;
    StarsOnly(p);
  }

  /** What a '$' at the end of an alternative asks for: the end of the string, or a '$' there. */
  lemma {:induction false} DollarAtEnd(p: seq<byte>, s: seq<byte>, n: nat)
    ensures Matches(p + [DOLLAR], s, n)
            <==> (n == |s| && Matches(p, s, n)) || (0 < n <= |s| && s[n - 1] == DOLLAR && Matches(p, s, n - 1))
    decreases |p|
  {
    var a := p + [DOLLAR];
    if p == [] {
      assert a[1..] == [];
    } else if p[0] == STAR {
      DollarBehindStar(p, s, n);
    } else {
      assert a[1..] == p[1..] + [DOLLAR];
      if 0 < n <= |s| {
        DollarAtEnd(p[1..], s[1..], n - 1);
      }
    }
  }

  lemma {:induction false} DollarBehindStar(p: seq<byte>, s: seq<byte>, n: nat)
    requires p != [] && p[0] == STAR
    ensures Matches(p + [DOLLAR], s, n)
            <==> (n == |s| && Matches(p, s, n)) || (0 < n <= |s| && s[n - 1] == DOLLAR && Matches(p, s, n - 1))
    decreases |p|, 0
  {
    var a, rest := p + [DOLLAR], p[Stars(p)..];
    assert Stars(a) == Stars(p) && a[Stars(a)..] == rest + [DOLLAR];
    forall k: nat | k <= n <= |s|
      ensures Matches(rest + [DOLLAR], s[k..], n - k)
              <==> (n == |s| && Matches(rest, s[k..], n - k))
                   || (k < n && s[n - 1] == DOLLAR && Matches(rest, s[k..], n - 1 - k))
    {
      DollarAtEnd(rest, s[k..], n - k);
    }
  }

  /** Where the last star is one of two, what is matched is all of the string. */
  lemma {:induction false} DoubleStarReachesEnd(p: seq<byte>, s: seq<byte>)
    requires p != [] && p[|p| - 1] == STAR && !OddStars(p) && Tail(p, s) >= 0
    ensures Tail(p, s) == |s|
    decreases |p|, 0, 0
  {
    TokenOff(p);
    if s == [] {
    } else if p[0] == STAR {
      if p[Stars(p)..] != [] {
        BackReachesEnd(p[Stars(p)..], s, if Stars(p) == 2 then |s| else Reach(s));
      }
    } else {
      DoubleStarReachesEnd(p[1..], s[1..]);
    }
  }

  lemma {:induction false} BackReachesEnd(rest: seq<byte>, s: seq<byte>, len: nat)
    requires rest != [] && rest[|rest| - 1] == STAR && !OddStars(rest)
    requires len <= |s| && Back(rest, s, len) >= 0
    ensures Back(rest, s, len) == |s|
    decreases |rest|, 1, len
  {
    if Tail(rest, s[len..]) > 0 {
      DoubleStarReachesEnd(rest, s[len..]);
    } else {
      BackReachesEnd(rest, s, len - 1);
    }
  }

  /**
   * What is found for an alternative is a match of it as it stands exactly when it does not end in a '$' behind an odd
   * number of stars, or all of the string was matched, or a '$' of the string stands where the '$' asks for it.
   */
  lemma FoundAsItStandsIff(a: seq<byte>, s: seq<byte>)
    requires Tail(a, s) >= 0
    ensures var n := Tail(a, s);
            Matches(a, s, n)
            <==> !LooseDollar(a) || n == |s| || (n > 0 && s[n - 1] == DOLLAR && Matches(Loosened(a), s, n - 1))
  {
    hide Matches, Tail;
    var n, p := Tail(a, s), Loosened(a);
    LoosenedIsSame(a, s);
    TailMatches(a, s);
    MoreIsMatch(p, s, n);
    if StarDollarEnd(a) {
      assert a == p + [DOLLAR];
      DollarAtEnd(p, s, n);
      if !LooseDollar(a) {
        DoubleStarReachesEnd(p, s);
      }
    } else if LooseDollar(a) {
      assert false;
    }
  }

  /** A string for a pattern that ends in a single star. */
  function Sample(p: seq<byte>): seq<byte> {
    if p == [] then []
    else if p == [STAR] then [97, SLASH]
    else if p[0] == STAR then Sample(p[Stars(p)..])
    else [if p[0] == ANY then 97 else p[0]] + Sample(p[1..])
  }

  function Slashes(s: seq<byte>): nat {
    if s == [] then 0 else (if s[0] == SLASH then 1 else 0) + Slashes(s[1..])
  }

  lemma {:induction false} SampleEnds(p: seq<byte>)
    requires OddStars(p)
    ensures var s := Sample(p);
            |s| > 1 && s[|s| - 2] == 97 && s[|s| - 1] == SLASH && Slashes(s) == Slashes(p) + 1
    decreases |p|
  {
    hide OddStars;
    NoStarsNotOdd();
    TokenOff(p);
    if p == [STAR] {
      SampleOfStar();
    } else if p[0] == STAR {
      SampleEnds(p[Stars(p)..]);
      NoSlashInStars(p);
    } else {
      SampleEnds(p[1..]);
      assert Sample(p)[1..] == Sample(p[1..]);
    }
  }

  lemma {:induction false} SampleMatches(p: seq<byte>)
    requires OddStars(p)
    ensures |Sample(p)| > 1 && MatchesMore(p, Sample(p), |Sample(p)| - 1)
    decreases |p|
  {
    hide OddStars, Slashes;
    NoStarsNotOdd();
    TokenOff(p);
    SampleEnds(p);
    var s := Sample(p);
    if p == [STAR] {
      SampleOfStar();
    } else if p[0] == STAR {
      var rest := p[Stars(p)..];
      SampleEnds(rest);
      SampleMatches(rest);
      assert s[0..] == s;
      assert StarTakes(p, s, |s| - 1, 0) && MatchesMore(rest, s[0..], |s| - 1 - 0);
    } else {
      SampleMatches(p[1..]);
      assert s[1..] == Sample(p[1..]);
    }
  }

  lemma NoStarsNotOdd()
    ensures !OddStars([])
  {}

  lemma SampleOfStar()
    ensures Slashes([STAR]) == 0 && Slashes([97, SLASH]) == 1 && MatchesMore([STAR], [97, SLASH], 1)
  {
    var p: seq<byte>, s: seq<byte> := [STAR], [97, SLASH];
    assert s[1..] == [SLASH] && [SLASH][1..] == [] && p[1..] == [];
    assert StarTakes(p, s, 1, 1) && MatchesMore([], s[1..], 0);
  }

  lemma NoSlashInStars(p: seq<byte>)
    requires p != [] && p[0] == STAR
    ensures Slashes(p) == Slashes(p[Stars(p)..])
  {
    if Stars(p) == 2 {
      assert p[1..][1..] == p[2..];
    }
  }

  lemma {:induction false} FewerSlashes(s: seq<byte>, k: nat)
    requires k <= |s|
    ensures Slashes(s[k..]) <= Slashes(s)
  {
    if k > 0 {
      assert s[1..][k - 1..] == s[k..];
      FewerSlashes(s[1..], k - 1);
    } else {
      assert s[0..] == s;
    }
  }

  lemma {:induction false} ReachesLast(s: seq<byte>)
    requires s != [] && s[|s| - 1] == SLASH && Slashes(s) <= 1
    ensures Reach(s) == |s| - 1
  {
    if |s| > 1 {
      ReachesLast(s[1..]);
      LastIsCounted(s[1..]);
    }
  }

  lemma {:induction false} LastIsCounted(s: seq<byte>)
    requires s != [] && s[|s| - 1] == SLASH
    ensures Slashes(s) >= 1
  {
    if |s| > 1 {
      LastIsCounted(s[1..]);
    }
  }

  /** A single star at the end does not get past the last slash, where there is one for each before it and no more. */
  lemma {:induction false} SingleStarStops(p: seq<byte>, s: seq<byte>)
    requires OddStars(p) && DOLLAR !in p && Tail(p, s) >= 0
    requires s != [] && s[|s| - 1] == SLASH && Slashes(s) <= Slashes(p) + 1
    ensures Tail(p, s) == |s| - 1
    decreases |p|, 0, 0
  {
    TokenOff(p);
    if p[0] == STAR {
      var rest := p[Stars(p)..];
      NoSlashInStars(p);
      if rest == [] {
        ReachesLast(s);
      } else {
        BackStops(rest, s, if Stars(p) == 2 then |s| else Reach(s));
      }
    } else {
      assert p[1..][0] != DOLLAR;
      SingleStarStops(p[1..], s[1..]);
    }
  }

  lemma {:induction false} BackStops(rest: seq<byte>, s: seq<byte>, len: nat)
    requires rest != [] && OddStars(rest) && DOLLAR !in rest && len <= |s| && Back(rest, s, len) >= 0
    requires s != [] && s[|s| - 1] == SLASH && Slashes(s) <= Slashes(rest) + 1
    ensures Back(rest, s, len) == |s| - 1
    decreases |rest|, 1, len
  {
    if Tail(rest, s[len..]) > 0 {
      FewerSlashes(s, len);
      SingleStarStops(rest, s[len..]);
    } else {
      BackStops(rest, s, len - 1);
    }
  }

  /**
   * All that is found for an alternative whose only '$' is at its end, if it has one, is a match of it as it stands
   * exactly when that '$' is not behind an odd number of stars.
   */
  lemma AsItStandsIff(a: seq<byte>)
    requires forall i :: 0 <= i < |a| - 1 ==> a[i] != DOLLAR
    ensures !LooseDollar(a) <==> forall s :: Tail(a, s) > 0 ==> Matches(a, s, Tail(a, s))
  {
    hide Matches, Tail, MatchesMore, OddStars, Sample;
    if LooseDollar(a) {
      var p := a[..|a| - 1];
      SomeStar(a);
      SampleEnds(p);
      SampleMatches(p);
      var s := Sample(p);
      LoosenedIsSame(a, s);
      MatchIsFound(p, s, |s| - 1);
      SingleStarStops(p, s);
      FoundAsItStandsIff(a, s);
      assert !Matches(a, s, Tail(a, s));
    } else {
      forall s | Tail(a, s) > 0
        ensures Matches(a, s, Tail(a, s))
      {
        FoundAsItStandsIff(a, s);
      }
    }
  }

  lemma SomeStar(a: seq<byte>)
    requires LooseDollar(a)
    ensures StarDollarEnd(a) && Loosened(a) == a[..|a| - 1]
  {}

  /** A star at the end of the string is not matched: "a*" against "a". */
  lemma StarAtTheEndIsMissed()
    ensures Matches([97, STAR], [97], 1) && MatchPrefix([97, STAR], [97]) == 0
  {
    assert [97, STAR][1..] == [STAR] && [97 as byte][1..] == [];
    assert Stars([STAR]) == 1 && [STAR][1..] == [];
    assert Matches([], [][0..], 0);
    assert Matches([STAR], [], 0);
    assert NoSeparator([97, STAR]) && Tail([STAR], []) == -1;
  }

  /** Behind a star, a '$' does not ask for the end of the string: "*$" against "a/". */
  lemma DollarBehindStarIsIgnored()
    ensures MatchPrefix([STAR, DOLLAR], [97, SLASH]) == 1 && !Matches([STAR, DOLLAR], [97, SLASH], 1)
  {
    var p: seq<byte>, s: seq<byte> := [STAR, DOLLAR], [97, SLASH];
    assert p[1..] == [DOLLAR] && s[1..] == [SLASH] && [SLASH][1..] == [];
    assert NoSeparator(p);
    assert Reach([SLASH]) == 0 && Reach(s) == 1;
    assert !Matches([DOLLAR], s[0..], 1);
    assert !Matches([DOLLAR], s[1..], 0);
  }

  // ---- The code ----

  /** `mg_match_prefix_n`. */
  method Match(pattern: seq<byte>, str: seq<byte>) returns (n: nat)
    ensures n == MatchPrefix(pattern, str)
    decreases |pattern|, 1
  {
    hide Tail, Back;
    var k := Search(pattern, BAR);
    if k == |pattern| {
      k := Search(pattern, COMMA);
    }
    if k < |pattern| {
      n := Match(pattern[..k], str);
      if n > 0 {
        return;
      }
      n := Match(pattern[k + 1..], str);
      return;
    }
    ghost var goal := MatchPrefix(pattern, str);
    assert pattern[0..] == pattern && str[0..] == str;
    var i: nat, j: nat := 0, 0;
    while i < |pattern| && j < |str|
      invariant i <= |pattern| && j <= |str|
      invariant Later(j, Tail(pattern[i..], str[j..])) == goal
    {
      Unfold(pattern, i, str, j);
      if pattern[i] == ANY {
      } else if pattern[i] == STAR {
        n := Star(pattern, i, str, j);
        return;
      } else if Lower(pattern[i]) != Lower(str[j]) {
        break;
      }
      i, j := i + 1, j + 1;
    }
    TailEnds(pattern, i, str, j);
    if i < |pattern| && pattern[i] == DOLLAR {
      return if j == |str| then |str| else 0;
    }
    return if i == |pattern| then j else 0;
  }

  /** A result behind j characters, with 0 for none. */
  function Later(j: nat, t: int): int {
    if t < 0 then 0 else j + t
  }

  lemma Unfold(p: seq<byte>, i: nat, s: seq<byte>, j: nat)
    requires i < |p| && j < |s|
    ensures p[i] != STAR && (p[i] == ANY || Lower(p[i]) == Lower(s[j])) ==>
              Later(j, Tail(p[i..], s[j..])) == Later(j + 1, Tail(p[i + 1..], s[j + 1..]))
  {
    assert p[i..][1..] == p[i + 1..] && s[j..][1..] == s[j + 1..];
  }

  lemma TailEnds(p: seq<byte>, i: nat, s: seq<byte>, j: nat)
    requires i <= |p| && j <= |s|
    ensures i == |p| ==> Tail(p[i..], s[j..]) == 0
    ensures i < |p| && j == |s| ==> Tail(p[i..], s[j..]) == if p[i] == DOLLAR then 0 else -1
    ensures i < |p| && j < |s| && p[i] != STAR && p[i] != ANY && Lower(p[i]) != Lower(s[j]) ==>
              Tail(p[i..], s[j..]) == -1
  {}

  lemma NoSeparatorLater(p: seq<byte>, i: nat)
    requires i <= |p| && Separator(p) == |p|
    ensures Separator(p[i..]) == |p[i..]|
  {}

  /** The branch for a star at i of the pattern and j of the string. */
  method Star(pattern: seq<byte>, star: nat, str: seq<byte>, j: nat) returns (n: nat)
    requires star < |pattern| && j < |str| && pattern[star] == STAR && Separator(pattern) == |pattern|
    ensures n == Later(j, Tail(pattern[star..], str[j..]))
    decreases |pattern|, 0
  {
    hide Back;
    var i := star + 1;
    var len: nat := 0;
    if i < |pattern| && pattern[i] == STAR {
      i := i + 1;
      len := |str| - j;
    } else {
      while j + len < |str| && str[j + len] != SLASH
        invariant j + len <= |str| && len + Reach(str[j + len..]) == Reach(str[j..])
      {
        assert str[j + len..][1..] == str[j + len + 1..];
        len := len + 1;
      }
    }
    assert pattern[star..][Stars(pattern[star..])..] == pattern[i..];
    if i == |pattern| || (pattern[i] == DOLLAR && i == |pattern| - 1) {
      return j + len;
    }
    NoSeparatorLater(pattern, i);
    n := TryBack(pattern[i..], str, j, len);
  }

  /** The do-while loop. */
  method TryBack(rest: seq<byte>, str: seq<byte>, j: nat, run: nat) returns (n: nat)
    requires j + run <= |str| && Separator(rest) == |rest|
    ensures n == Later(j, Back(rest, str[j..], run))
    decreases |rest|, 2
  {
    hide Tail;
    var len: nat, res: nat, more := run, 0, true;
    while more
      invariant len <= run
      invariant more ==> Back(rest, str[j..], len) == Back(rest, str[j..], run)
      invariant !more ==> Back(rest, str[j..], run) == if res == 0 then -1 else len + res
      decreases more, len
    {
      assert str[j..][len..] == str[j + len..];
      res := Match(rest, str[j + len..]);
      more := res == 0 && len != 0;
      if more {
        len := len - 1;
      }
    }
    return if res == 0 then 0 else j + res + len;
  }
}
