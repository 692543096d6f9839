/** What mongoose.h:2350-2356 promises of the glob matcher: for which patterns it holds. */
module GlobLaws {
  import opened Bytes
  import opened Chars
  import opened Glob

  // ---- The documented meaning ----

  /** A '?' is exactly one character which is no '/'. */
  predicate Takes(x: byte, c: byte) {
    if x == ANY then c != SLASH else Lower(x) == Lower(c)
  }

  /** p matches the first n characters of s. */
  ghost predicate Documented(p: seq<byte>, s: seq<byte>, n: nat)
    decreases |p|
  {
    n <= |s|
    && if p == [] then n == 0
       else if p[0] == STAR then
         exists k :: 0 <= k <= n && (Stars(p) == 2 || SLASH !in s[..k]) && Documented(p[Stars(p)..], s[k..], n - k)
       else
         || (p[0] == DOLLAR && s == [])
         || (n > 0 && Takes(p[0], s[0]) && Documented(p[1..], s[1..], n - 1))
  }

  lemma {:induction false} DocumentedMatches(p: seq<byte>, s: seq<byte>, n: nat)
    requires Documented(p, s, n)
    ensures Matches(p, s, n)
    decreases |p|
  {
    if p != [] && p[0] == STAR {
      var k :| 0 <= k <= n && (Stars(p) == 2 || SLASH !in s[..k]) && Documented(p[Stars(p)..], s[k..], n - k);
      DocumentedMatches(p[Stars(p)..], s[k..], n - k);
    } else if p != [] && n > 0 && Documented(p[1..], s[1..], n - 1) {
      DocumentedMatches(p[1..], s[1..], n - 1);
    }
  }

  /** Without a '?' it is what the matcher goes by. */
  lemma {:induction false} SameWithoutAny(p: seq<byte>, s: seq<byte>, n: nat)
    requires ANY !in p && Matches(p, s, n)
    ensures Documented(p, s, n)
    decreases |p|
  {
    if p != [] && p[0] == STAR {
      var k :| 0 <= k <= n && (Stars(p) == 2 || SLASH !in s[..k]) && Matches(p[Stars(p)..], s[k..], n - k);
      SameWithoutAny(p[Stars(p)..], s[k..], n - k);
    } else if p != [] && n > 0 && Matches(p[1..], s[1..], n - 1) {
      SameWithoutAny(p[1..], s[1..], n - 1);
    }
  }

  // ---- The three relations, one token at a time ----

  /** What a star of p may take: k characters. */
  predicate MayTake(p: seq<byte>, s: seq<byte>, k: nat)
    requires k <= |s|
  {
    Stars(p) == 2 || SLASH !in s[..k]
  }

  lemma StarParts(p: seq<byte>, s: seq<byte>, n: nat) returns (k: nat)
    requires p != [] && p[0] == STAR && Documented(p, s, n)
    ensures k <= n <= |s| && MayTake(p, s, k) && Documented(p[Stars(p)..], s[k..], n - k)
  {
    k :| 0 <= k <= n && (Stars(p) == 2 || SLASH !in s[..k]) && Documented(p[Stars(p)..], s[k..], n - k);
  }

  lemma StarMatches(p: seq<byte>, s: seq<byte>, n: nat) returns (k: nat)
    requires p != [] && p[0] == STAR && Matches(p, s, n)
    ensures k <= n <= |s| && MayTake(p, s, k) && Matches(p[Stars(p)..], s[k..], n - k)
  {
    k :| 0 <= k <= n && (Stars(p) == 2 || SLASH !in s[..k]) && Matches(p[Stars(p)..], s[k..], n - k);
  }

  lemma StarMore(p: seq<byte>, s: seq<byte>, n: nat) returns (k: nat)
    requires p != [] && p[0] == STAR && MatchesMore(p, s, n)
    ensures k <= n <= |s| && MayTake(p, s, k) && MatchesMore(p[Stars(p)..], s[k..], n - k)
    ensures s != [] && (p[Stars(p)..] == [] || n > k)
  {
    k :| 0 <= k <= n && StarTakes(p, s, n, k) && MatchesMore(p[Stars(p)..], s[k..], n - k);
  }

  lemma PutStar(p: seq<byte>, s: seq<byte>, n: nat, k: nat)
    requires p != [] && p[0] == STAR && k <= n <= |s| && MayTake(p, s, k)
    ensures Documented(p[Stars(p)..], s[k..], n - k) ==> Documented(p, s, n)
    ensures Matches(p[Stars(p)..], s[k..], n - k) ==> Matches(p, s, n)
    ensures s != [] && (p[Stars(p)..] == [] || n > k) && MatchesMore(p[Stars(p)..], s[k..], n - k) ==>
              MatchesMore(p, s, n)
  {
    assert s != [] && (p[Stars(p)..] == [] || n > k) ==> StarTakes(p, s, n, k);
  }

  lemma Other(p: seq<byte>, s: seq<byte>, n: nat)
    requires p != [] && p[0] != STAR && p[0] != DOLLAR
    ensures Documented(p, s, n) <==> 0 < n <= |s| && Takes(p[0], s[0]) && Documented(p[1..], s[1..], n - 1)
    ensures Matches(p, s, n)
            <==> 0 < n <= |s| && (p[0] == ANY || Lower(p[0]) == Lower(s[0])) && Matches(p[1..], s[1..], n - 1)
    ensures MatchesMore(p, s, n)
            <==> 0 < n <= |s| && (p[0] == ANY || Lower(p[0]) == Lower(s[0])) && MatchesMore(p[1..], s[1..], n - 1)
  {}

  lemma Nothing(s: seq<byte>, n: nat)
    ensures Documented([], s, n) <==> n == 0
    ensures Matches([], s, n) <==> n == 0
    ensures MatchesMore([], s, n) <==> n == 0
  {}

  lemma Bounded(p: seq<byte>, s: seq<byte>, n: nat)
    ensures Documented(p, s, n) || Matches(p, s, n) || MatchesMore(p, s, n) ==> n <= |s|
  {}

  // ---- Patterns one behind the other ----

  /** No star of one belongs with a star of the other. */
  predicate Apart(p: seq<byte>, r: seq<byte>) {
    p == [] || r == [] || p[|p| - 1] != STAR || r[0] != STAR
  }

  /** The first token of p, and what is behind it. */
  lemma FirstToken(p: seq<byte>, r: seq<byte>)
    requires p != [] && Apart(p, r) && DOLLAR !in p
    ensures (p + r)[0] == p[0] != DOLLAR
    ensures p[0] == STAR ==> 0 < Stars(p) == Stars(p + r)
    ensures p[0] == STAR ==> (p + r)[Stars(p)..] == p[Stars(p)..] + r && Apart(p[Stars(p)..], r)
    ensures p[0] != STAR ==> (p + r)[1..] == p[1..] + r && Apart(p[1..], r)
  {
    assert p[0] in p;
  }

  lemma {:induction false} Split(p: seq<byte>, r: seq<byte>, s: seq<byte>, n: nat) returns (k: nat)
    requires DOLLAR !in p && Apart(p, r) && Documented(p + r, s, n)
    ensures k <= n <= |s| && Documented(p, s, k) && Documented(r, s[k..], n - k)
    decreases |p|
  {
    hide Documented, Takes, Stars, Apart, MayTake;
    if p == [] {
      k := 0;
      Nothing(s, 0);
      Bounded(r, s, n);
      assert p + r == r && s[0..] == s;
    } else {
      FirstToken(p, r);
      if p[0] == STAR {
        var i := StarParts(p + r, s, n);
        var j := Split(p[Stars(p)..], r, s[i..], n - i);
        k := i + j;
        SliceBehind(s, i, j);
        SameTake(p, p + r, s, i);
        PutStar(p, s, k, i);
      } else {
        Other(p + r, s, n);
        var j := Split(p[1..], r, s[1..], n - 1);
        k := j + 1;
        SliceBehind(s, 1, j);
        Other(p, s, k);
      }
    }
  }

  lemma SameTake(p: seq<byte>, q: seq<byte>, s: seq<byte>, k: nat)
    requires Stars(p) == Stars(q) && k <= |s|
    ensures MayTake(p, s, k) == MayTake(q, s, k)
  {}

  lemma {:induction false} Join(p: seq<byte>, r: seq<byte>, s: seq<byte>, k: nat, n: nat)
    requires DOLLAR !in p && Apart(p, r) && k <= n <= |s| && Documented(p, s, k) && Documented(r, s[k..], n - k)
    ensures Documented(p + r, s, n)
    decreases |p|
  {
    hide Documented, Takes, Stars, Apart, MayTake;
    if p == [] {
      Nothing(s, k);
      assert p + r == r && s[0..] == s;
    } else {
      FirstToken(p, r);
      if p[0] == STAR {
        var i := StarParts(p, s, k);
        SliceBehind(s, i, k - i);
        Join(p[Stars(p)..], r, s[i..], k - i, n - i);
        SameTake(p, p + r, s, i);
        PutStar(p + r, s, n, i);
      } else {
        Other(p, s, k);
        SliceBehind(s, 1, k - 1);
        Join(p[1..], r, s[1..], k - 1, n - 1);
        Other(p + r, s, n);
      }
    }
  }

  /** The same for what the matcher finds, of which the front is a match. */
  lemma {:induction false} MoreSplit(p: seq<byte>, r: seq<byte>, s: seq<byte>, n: nat) returns (k: nat)
    requires DOLLAR !in p && Apart(p, r) && MatchesMore(p + r, s, n)
    ensures k <= n <= |s| && Matches(p, s, k) && MatchesMore(r, s[k..], n - k)
    decreases |p|
  {
    hide Matches, MatchesMore, Stars, Apart, MayTake;
    if p == [] {
      k := 0;
      Nothing(s, 0);
      Bounded(r, s, n);
      assert p + r == r && s[0..] == s;
    } else {
      FirstToken(p, r);
      if p[0] == STAR {
        var i := StarMore(p + r, s, n);
        var j := MoreSplit(p[Stars(p)..], r, s[i..], n - i);
        k := i + j;
        SliceBehind(s, i, j);
        SameTake(p, p + r, s, i);
        PutStar(p, s, k, i);
      } else {
        Other(p + r, s, n);
        var j := MoreSplit(p[1..], r, s[1..], n - 1);
        k := j + 1;
        SliceBehind(s, 1, j);
        Other(p, s, k);
      }
    }
  }

  lemma {:induction false} MoreJoin(p: seq<byte>, r: seq<byte>, s: seq<byte>, k: nat, n: nat)
    requires DOLLAR !in p && Apart(p, r) && k < n <= |s| && Matches(p, s, k) && MatchesMore(r, s[k..], n - k)
    ensures MatchesMore(p + r, s, n)
    decreases |p|
  {
    hide Matches, MatchesMore, Stars, Apart, MayTake;
    if p == [] {
      Nothing(s, k);
      assert p + r == r && s[0..] == s;
    } else {
      FirstToken(p, r);
      if p[0] == STAR {
        var i := StarMatches(p, s, k);
        SliceBehind(s, i, k - i);
        MoreJoin(p[Stars(p)..], r, s[i..], k - i, n - i);
        SameTake(p, p + r, s, i);
        PutStar(p + r, s, n, i);
      } else {
        Other(p, s, k);
        SliceBehind(s, 1, k - 1);
        MoreJoin(p[1..], r, s[1..], k - 1, n - 1);
        Other(p + r, s, n);
      }
    }
  }

  /** A match depends on the characters matched and on no others. */
  lemma {:induction false} Frame(p: seq<byte>, s: seq<byte>, t: seq<byte>, n: nat)
    requires DOLLAR !in p && n <= |s| && n <= |t| && s[..n] == t[..n] && Documented(p, s, n)
    ensures Documented(p, t, n)
    decreases |p|
  {
    hide Documented, Takes, Stars;
    if p == [] {
      Nothing(s, n);
      Nothing(t, n);
    } else {
      FirstToken(p, []);
      if p[0] == STAR {
        var k := StarParts(p, s, n);
        Fronts(s, t, k, n);
        Frame(p[Stars(p)..], s[k..], t[k..], n - k);
        PutStar(p, t, n, k);
      } else {
        Other(p, s, n);
        Fronts(s, t, 1, n);
        Frame(p[1..], s[1..], t[1..], n - 1);
        Other(p, t, n);
      }
    }
  }

  lemma Fronts(s: seq<byte>, t: seq<byte>, k: nat, n: nat)
    requires k <= n <= |s| && n <= |t| && s[..n] == t[..n]
    ensures s[..k] == t[..k] && s[k..][..n - k] == t[k..][..n - k] && (n > 0 ==> s[0] == t[0])
  {
    assert s[..k] == s[..n][..k] && t[..k] == t[..n][..k];
    assert s[k..][..n - k] == s[..n][k..] && t[k..][..n - k] == t[..n][k..];
    assert n > 0 ==> s[0] == s[..n][0] && t[0] == t[..n][0];
  }

  /** A character at the end takes the last character matched. */
  lemma AtTheEnd(p: seq<byte>, c: byte, s: seq<byte>, n: nat)
    requires DOLLAR !in p && c != STAR && c != DOLLAR
    ensures Documented(p + [c], s, n) <==> 0 < n <= |s| && Takes(c, s[n - 1]) && Documented(p, s, n - 1)
  {
    assert [c][1..] == [];
    if Documented(p + [c], s, n) {
      var k := Split(p, [c], s, n);
      assert Documented([], s[k..][1..], n - k - 1);
    }
    if 0 < n <= |s| && Takes(c, s[n - 1]) && Documented(p, s, n - 1) {
      assert Documented([c][1..], s[n - 1..][1..], 0);
      Join(p, [c], s, n - 1, n);
    }
  }

  /** And a single star takes what is left up to there. */
  lemma StarAtTheEnd(p: seq<byte>, s: seq<byte>, n: nat) returns (k: nat)
    requires DOLLAR !in p && (p == [] || p[|p| - 1] != STAR) && Documented(p + [STAR], s, n)
    ensures k <= n <= |s| && Documented(p, s, k) && SLASH !in s[k..n]
  {
    k := Split(p, [STAR], s, n);
    OneStar(s[k..], n - k);
    assert s[k..][..n - k] == s[k..n];
  }

  lemma StarCloses(p: seq<byte>, s: seq<byte>, k: nat, n: nat)
    requires DOLLAR !in p && (p == [] || p[|p| - 1] != STAR)
    requires k <= n <= |s| && Documented(p, s, k) && SLASH !in s[k..n]
    ensures Documented(p + [STAR], s, n)
  {
    assert s[k..][..n - k] == s[k..n];
    OneStar(s[k..], n - k);
    Join(p, [STAR], s, k, n);
  }

  lemma OneStar(s: seq<byte>, n: nat)
    ensures Documented([STAR], s, n) <==> n <= |s| && SLASH !in s[..n]
  {
    assert Stars([STAR]) == 1 && [STAR][1..] == [];
    if n <= |s| && SLASH !in s[..n] {
      assert Documented([], s[n..], n - n);
    }
  }

  // ---- Stars at the end ----

  function Run(m: nat): (r: seq<byte>)
    ensures |r| == m && forall i :: 0 <= i < m ==> r[i] == STAR
  {
    seq(m, _ => STAR)
  }

  /** The alternative without the stars at its end. */
  function Core(a: seq<byte>): seq<byte> {
    a[..|a| - StarsAtEnd(a)]
  }

  lemma CoreAndRun(a: seq<byte>)
    ensures a == Core(a) + Run(StarsAtEnd(a)) && (Core(a) != [] ==> Core(a)[|Core(a)| - 1] != STAR)
  {
    StarsOnly(a);
    StarsAreAtEnd(a);
  }

  lemma {:induction false} StarsAreAtEnd(a: seq<byte>)
    ensures forall i :: |a| - StarsAtEnd(a) <= i < |a| ==> a[i] == STAR
  {
    if a != [] && a[|a| - 1] == STAR {
      StarsAreAtEnd(a[..|a| - 1]);
    }
  }

  lemma RunParts(m: nat)
    ensures m > 0 ==> Run(m) != [] && Run(m)[0] == STAR && Stars(Run(m)) == if m == 1 then 1 else 2
    ensures m > 1 ==> Run(m)[2..] == Run(m - 2)
    ensures m == 1 ==> Run(m)[1..] == []
    ensures Run(0) == []
  {}

  /** Two stars or more take anything. */
  lemma {:induction false} RunTakesAll(m: nat, s: seq<byte>, n: nat)
    requires m >= 2 && n <= |s|
    ensures Documented(Run(m), s, n)
    decreases m
  {
    RunParts(m);
    RunTakesNone(m - 2, s[n..]);
    assert Documented(Run(m)[2..], s[n..], n - n);
  }

  lemma {:induction false} RunTakesNone(m: nat, s: seq<byte>)
    ensures Documented(Run(m), s, 0)
    decreases m
  {
    RunParts(m);
    if m > 0 {
      if m > 1 {
        RunTakesNone(m - 2, s);
      }
      assert s[0..] == s && s[..0] == [];
      assert Documented(Run(m)[Stars(Run(m))..], s[0..], 0 - 0);
    }
  }

  /** To the matcher, an odd number of stars from three on must come to an end behind a character that is no '/'. */
  lemma {:induction false} OddRunEnds(m: nat, s: seq<byte>, n: nat)
    requires m % 2 == 1 && MatchesMore(Run(m), s, n)
    ensures n <= |s| && SLASH in s[..n] ==> m > 1
    ensures m > 1 ==> n > 0 && s[n - 1] != SLASH
    decreases m
  {
    RunParts(m);
    var p := Run(m);
    var k :| 0 <= k <= n && StarTakes(p, s, n, k) && MatchesMore(p[Stars(p)..], s[k..], n - k);
    if m > 1 {
      OddRunEnds(m - 2, s[k..], n - k);
      if m == 3 {
        assert s[k..][..n - k][n - k - 1] == s[n - 1];
      }
    }
  }

  /** It takes one character: any but a '/', and with an even number of stars a '/', too. */
  lemma {:induction false} RunTakesOne(m: nat, c: byte)
    requires m > 0 && (m % 2 == 0 || c != SLASH)
    ensures MatchesMore(Run(m), [c], 1)
    decreases m
  {
    RunParts(m);
    var p, s := Run(m), [c];
    if m <= 2 {
      assert StarTakes(p, s, 1, 1) && MatchesMore(p[Stars(p)..], s[1..], 1 - 1);
    } else {
      RunTakesOne(m - 2, c);
      assert s[0..] == s && StarTakes(p, s, 1, 0) && MatchesMore(p[Stars(p)..], s[0..], 1 - 0);
    }
  }

  // ---- Alternatives with one '?' whose fault never shows ----

  /** Whatever p matches, it also matches with a '/' and what is behind it up to the next. */
  predicate Absorbs(p: seq<byte>)
    decreases |p|
  {
    StarsAtEnd(p) >= 2 || (|p| >= 2 && p[|p| - 2] == SLASH && p[|p| - 1] == STAR && Absorbs(p[..|p| - 2]))
  }

  /** Whatever p matches, it also matches with one more '/'. */
  predicate Extends(p: seq<byte>)
    decreases |p|
  {
    Absorbs(p) || (p != [] && p[|p| - 1] == SLASH && Extends(p[..|p| - 1]))
  }

  /** The last "**" of p is followed by nothing but "*", then "/" and "*" by turns, then slashes, then "*". */
  predicate Shields(p: seq<byte>) {
    Extends(p) || (p != [] && p[|p| - 1] == STAR && Extends(p[..|p| - 1]))
  }

  /** The only '?' is last but for an odd number of stars, three or more, and is shielded by what is before it. */
  predicate Shielded(a: seq<byte>) {
    && OddStars(a) && StarsAtEnd(a) > 1
    && var b := Core(a);
       b != [] && b[|b| - 1] == ANY && ANY !in b[..|b| - 1] && Shields(b[..|b| - 1])
  }

  lemma LastStar(p: seq<byte>)
    ensures StarsAtEnd(p) == 0 <==> p == [] || p[|p| - 1] != STAR
    ensures StarsAtEnd(p) == 1 ==> p == p[..|p| - 1] + [STAR]
    ensures StarsAtEnd(p) == 1 && |p| > 1 ==> p[|p| - 2] != STAR
  {
    if StarsAtEnd(p) > 0 {
      assert p == p[..|p| - 1] + [STAR];
    }
  }

  /** Two stars or more at the end take what follows. */
  lemma DoubleTakesMore(p: seq<byte>, s: seq<byte>, j: nat, m: nat)
    requires StarsAtEnd(p) >= 2 && DOLLAR !in p && Documented(p, s, j) && j <= m <= |s|
    ensures Documented(p, s, m)
  {
    CoreAndRun(p);
    var k := Split(Core(p), Run(StarsAtEnd(p)), s, j);
    RunTakesAll(StarsAtEnd(p), s[k..], m - k);
    Join(Core(p), Run(StarsAtEnd(p)), s, k, m);
  }

  lemma {:induction false} AbsorbsMore(p: seq<byte>, s: seq<byte>, j: nat, m: nat)
    requires Absorbs(p) && DOLLAR !in p && Documented(p, s, j) && j < m <= |s| && s[j] == SLASH && SLASH !in s[j + 1..m]
    ensures Documented(p, s, m)
    decreases |p|
  {
    hide Documented, StarsAtEnd;
    if StarsAtEnd(p) >= 2 {
      DoubleTakesMore(p, s, j, m);
    } else {
      var q, u := p[..|p| - 2], p[..|p| - 1];
      assert u == q + [SLASH] && p == u + [STAR];
      var i := StarAtTheEnd(u, s, j);
      AtTheEnd(q, SLASH, s, i);
      if i - 1 < j {
        assert s[i - 1 + 1..j] == s[i..j];
        AbsorbsMore(q, s, i - 1, j);
      }
      AtTheEnd(q, SLASH, s, j + 1);
      StarCloses(u, s, j + 1, m);
    }
  }

  lemma {:induction false} ExtendsByOne(p: seq<byte>, s: seq<byte>, j: nat)
    requires Extends(p) && DOLLAR !in p && Documented(p, s, j) && j < |s| && s[j] == SLASH
    ensures Documented(p, s, j + 1)
    decreases |p|
  {
    hide Documented, Absorbs;
    if Absorbs(p) {
      AbsorbsMore(p, s, j, j + 1);
    } else {
      var q := p[..|p| - 1];
      assert p == q + [SLASH];
      AtTheEnd(q, SLASH, s, j);
      ExtendsByOne(q, s, j - 1);
      AtTheEnd(q, SLASH, s, j + 1);
    }
  }

  /** Up to the first character that is no slash. */
  lemma {:induction false} ExtendsUpTo(p: seq<byte>, s: seq<byte>, j: nat, n: nat) returns (z: nat)
    requires Extends(p) && DOLLAR !in p && Documented(p, s, j) && j < n <= |s| && s[n - 1] != SLASH
    ensures z < n && s[z] != SLASH && Documented(p, s, z)
    decreases n - j
  {
    if s[j] != SLASH {
      z := j;
    } else {
      ExtendsByOne(p, s, j);
      z := ExtendsUpTo(p, s, j + 1, n);
    }
  }

  lemma ShieldsUpTo(p: seq<byte>, s: seq<byte>, j: nat, n: nat) returns (z: nat)
    requires Shields(p) && DOLLAR !in p && Documented(p, s, j) && j < n <= |s| && s[n - 1] != SLASH
    ensures z < n && s[z] != SLASH && Documented(p, s, z)
  {
    hide Extends, Absorbs, Documented;
    if Extends(p) {
      z := ExtendsUpTo(p, s, j, n);
    } else {
      var q := p[..|p| - 1];
      assert p == q + [STAR];
      LastStar(p);
      DoubleExtends(p);
      var k := StarAtTheEnd(q, s, j);
      if k < j {
        z := j - 1;
        assert s[k..j][j - 1 - k] == s[z];
        assert s[k..z] == s[k..j][..z - k];
        StarCloses(q, s, k, z);
      } else {
        z := ExtendsUpTo(q, s, j, n);
        StarCloses(q, s, z, z);
      }
    }
  }

  lemma DoubleExtends(p: seq<byte>)
    ensures StarsAtEnd(p) >= 2 ==> Extends(p)
    ensures StarsAtEnd(p) < 2 && p != [] && p[|p| - 1] == STAR ==> |p| == 1 || p[|p| - 2] != STAR
  {}

  /** What the matcher finds for a shielded '?' is a match as documented. */
  lemma ShieldedIsDocumented(a: seq<byte>, s: seq<byte>, n: nat)
    requires Shielded(a) && DOLLAR !in a && MatchesMore(a, s, n)
    ensures Documented(a, s, n)
  {
    hide Documented, MatchesMore, Matches, Shields, StarsAtEnd;
    var m, b := StarsAtEnd(a), Core(a);
    var p, r := b[..|b| - 1], [ANY] + Run(m);
    CoreAndRun(a);
    assert b == p + [ANY] && a == p + r;
    var k := MoreSplit(p, r, s, n);
    Other(r, s[k..], n - k);
    assert r[1..] == Run(m) && s[k..][1..] == s[k + 1..];
    OddRunEnds(m, s[k + 1..], n - k - 1);
    SameWithoutAny(p, s, k);
    var z := ShieldsUpTo(p, s, k, n);
    RunTakesAll(m, s[z + 1..], n - z - 1);
    assert s[z..][1..] == s[z + 1..];
    Other(r, s[z..], n - z);
    Join(p, r, s, z, n);
  }

  // ---- Strings that show the fault ----

  /** A '/' for each '?', nothing for a star. */
  function Slashed(p: seq<byte>): (s: seq<byte>)
    ensures |s| <= |p|
  {
    if p == [] then []
    else if p[0] == STAR then Slashed(p[1..])
    else [if p[0] == ANY then SLASH else p[0]] + Slashed(p[1..])
  }

  lemma {:induction false} SlashedJoin(p: seq<byte>, q: seq<byte>)
    ensures Slashed(p + q) == Slashed(p) + Slashed(q)
  {
    if p == [] {
      assert p + q == q;
    } else {
      assert (p + q)[1..] == p[1..] + q;
      SlashedJoin(p[1..], q);
    }
  }

  lemma SlashedStars(p: seq<byte>)
    requires p != [] && p[0] == STAR
    ensures Slashed(p[Stars(p)..]) == Slashed(p)
  {
    if Stars(p) == 2 {
      assert p[1..][1..] == p[2..];
    }
  }

  /** It is matched, whatever follows. */
  lemma {:induction false} SlashedMatches(p: seq<byte>, t: seq<byte>)
    requires DOLLAR !in p
    ensures Matches(p, Slashed(p) + t, |Slashed(p)|)
    decreases |p|
  {
    hide Matches, Stars;
    var s, n := Slashed(p) + t, |Slashed(p)|;
    if p == [] {
      Nothing(s, n);
    } else {
      FirstToken(p, []);
      if p[0] == STAR {
        SlashedStars(p);
        SlashedMatches(p[Stars(p)..], t);
        assert s[0..] == s && s[..0] == [];
        MayTakeNone(p, s);
        PutStar(p, s, n, 0);
      } else {
        SlashedMatches(p[1..], t);
        assert s[1..] == Slashed(p[1..]) + t;
        Other(p, s, n);
      }
    }
  }

  lemma MayTakeNone(p: seq<byte>, s: seq<byte>)
    ensures MayTake(p, s, 0)
  {}

  /** And nothing shorter is. */
  lemma {:induction false} AtLeastSlashed(p: seq<byte>, s: seq<byte>, n: nat)
    requires DOLLAR !in p && Matches(p, s, n)
    ensures n >= |Slashed(p)|
    decreases |p|
  {
    hide Matches, Stars;
    if p != [] {
      FirstToken(p, []);
      if p[0] == STAR {
        SlashedStars(p);
        var k := StarMatches(p, s, n);
        AtLeastSlashed(p[Stars(p)..], s[k..], n - k);
      } else {
        Other(p, s, n);
        AtLeastSlashed(p[1..], s[1..], n - 1);
      }
    }
  }

  function Count(s: seq<byte>): nat {
    if s == [] then 0 else (if s[0] == SLASH then 0 else 1) + Count(s[1..])
  }

  lemma {:induction false} CountJoin(s: seq<byte>, t: seq<byte>)
    ensures Count(s + t) == Count(s) + Count(t)
  {
    if s == [] {
      assert s + t == t;
    } else {
      assert (s + t)[1..] == s[1..] + t;
      CountJoin(s[1..], t);
    }
  }

  /** How many characters that are no slashes p needs, but for a '$' at its end. */
  function Needs(p: seq<byte>): nat {
    if p == [] then 0 else (if p[0] in {STAR, SLASH, DOLLAR} then 0 else 1) + Needs(p[1..])
  }

  lemma NeedsStars(p: seq<byte>)
    requires p != [] && p[0] == STAR
    ensures Needs(p[Stars(p)..]) == Needs(p)
  {
    if Stars(p) == 2 {
      assert p[1..][1..] == p[2..];
    }
  }

  predicate DollarOnlyLast(a: seq<byte>) {
    forall i :: 0 <= i < |a| - 1 ==> a[i] != DOLLAR
  }

  /** It gets them. */
  lemma {:induction false} GetsWhatItNeeds(p: seq<byte>, s: seq<byte>, n: nat)
    requires DollarOnlyLast(p) && Documented(p, s, n)
    ensures n <= |s| && Count(s[..n]) >= Needs(p)
    decreases |p|
  {
    hide Documented, Stars;
    Bounded(p, s, n);
    if p == [] {
    } else if p[0] == STAR {
      NeedsStars(p);
      var k := StarParts(p, s, n);
      SomeStars(p);
      GetsWhatItNeeds(p[Stars(p)..], s[k..], n - k);
      assert s[..n] == s[..k] + s[k..][..n - k];
      CountJoin(s[..k], s[k..][..n - k]);
    } else if p[0] == DOLLAR {
      assert |p| == 1;
      assert Needs(p[1..]) == 0;
    } else {
      Other(p, s, n);
      GetsWhatItNeeds(p[1..], s[1..], n - 1);
      assert s[..n][1..] == s[1..][..n - 1];
    }
  }

  lemma SomeStars(p: seq<byte>)
    requires p != [] && p[0] == STAR
    ensures 0 < Stars(p) <= |p| && forall i :: 0 <= i < Stars(p) ==> p[i] == STAR
  {}

  /** A '/' for each '?' is not enough. */
  lemma {:induction false} SlashedFallsShort(p: seq<byte>)
    requires DOLLAR !in p
    ensures Count(Slashed(p)) + Anys(p) == Needs(p)
    ensures ANY in p <==> Anys(p) > 0
  {
    if p != [] {
      assert p[0] in p;
      SlashedFallsShort(p[1..]);
      assert p == [p[0]] + p[1..];
      var s := Slashed(p);
      if p[0] != STAR {
        assert s[1..] == Slashed(p[1..]);
      }
    }
  }

  function Anys(p: seq<byte>): nat {
    if p == [] then 0 else (if p[0] == ANY then 1 else 0) + Anys(p[1..])
  }

  lemma {:induction false} NeedsJoin(p: seq<byte>, q: seq<byte>)
    ensures Needs(p + q) == Needs(p) + Needs(q) && Anys(p + q) == Anys(p) + Anys(q)
  {
    if p == [] {
      assert p + q == q;
    } else {
      assert (p + q)[1..] == p[1..] + q;
      NeedsJoin(p[1..], q);
    }
  }

  lemma CountFront(s: seq<byte>, n: nat)
    requires n <= |s|
    ensures Count(s[..n]) <= Count(s)
  {
    assert s == s[..n] + s[n..];
    CountJoin(s[..n], s[n..]);
  }

  lemma TooFew(a: seq<byte>, s: seq<byte>)
    requires DollarOnlyLast(a) && Count(s) < Needs(a)
    ensures forall n: nat :: !Documented(a, s, n)
  {
    forall n: nat
      ensures !Documented(a, s, n)
    {
      if Documented(a, s, n) {
        GetsWhatItNeeds(a, s, n);
        CountFront(s, n);
      }
    }
  }

  /** The matcher finds the front of the pattern in these characters, if it finds the rest behind them. */
  lemma SlashedIsFound(b: seq<byte>, r: seq<byte>, e: seq<byte>, j: nat)
    requires b != [] && b[|b| - 1] != STAR && DOLLAR !in b && MatchesMore(r, e, j)
    ensures MatchesMore(b + r, Slashed(b) + e, |Slashed(b)| + j) && |Slashed(b)| > 0
  {
    hide MatchesMore, Matches, Slashed;
    var p, c := b[..|b| - 1], b[|b| - 1];
    assert b == p + [c] && b + r == p + ([c] + r);
    var w := if c == ANY then SLASH else c;
    OneSlashed(c);
    SlashedJoin(p, [c]);
    SlashedMatches(p, [w] + e);
    var s, k := Slashed(b) + e, |Slashed(p)|;
    assert s == Slashed(p) + ([w] + e);
    assert s[k..] == [w] + e && s[k..][1..] == e && ([c] + r)[1..] == r;
    assert c in b;
    Bounded(r, e, j);
    Other([c] + r, s[k..], 1 + j);
    MoreJoin(p, [c] + r, s, k, k + 1 + j);
  }

  lemma OneSlashed(c: byte)
    requires c != STAR
    ensures Slashed([c]) == [if c == ANY then SLASH else c]
  {
    assert [c][1..] == [];
  }

  lemma RunNeedsNothing(m: nat)
    ensures Needs(Run(m)) == 0 && DOLLAR !in Run(m)
    decreases m
  {
    if m > 0 {
      assert Run(m)[1..] == Run(m - 1);
      RunNeedsNothing(m - 1);
    }
  }

  /** A '?' in b is not served by these characters and slashes behind them. */
  lemma SlashesShow(b: seq<byte>, r: seq<byte>, e: seq<byte>)
    requires DOLLAR !in b && ANY in b && DollarOnlyLast(b + r) && Count(e) == 0
    ensures forall n: nat :: !Documented(b + r, Slashed(b) + e, n)
  {
    hide Documented;
    SlashedFallsShort(b);
    NeedsJoin(b, r);
    CountJoin(Slashed(b), e);
    TooFew(b + r, Slashed(b) + e);
  }

  /** A character other than '/' and c. */
  function OtherThan(c: byte): (x: byte)
    ensures x != SLASH && Lower(x) != Lower(c) && x != ANY && x != STAR
  {
    if Lower(c) == 97 then 98 else 97
  }

  /** Nor by one other character at the end, where a character follows the '?'. */
  lemma LiteralShows(b: seq<byte>, c: byte, m: nat)
    requires DOLLAR !in b && ANY in b && c != STAR && c != DOLLAR && c != ANY
    ensures forall n: nat :: !Documented(b + [c] + Run(m), Slashed(b + [c]) + [OtherThan(c)], n)
  {
    hide Documented, Slashed;
    var r, s := [c] + Run(m), Slashed(b + [c]) + [OtherThan(c)];
    assert b + [c] + Run(m) == b + r;
    SlashedJoin(b, [c]);
    OneSlashed(c);
    forall n: nat
      ensures !Documented(b + r, s, n)
    {
      if Documented(b + r, s, n) {
        var k := Split(b, r, s, n);
        Other(r, s[k..], n - k);
        assert s[k..][0] == s[k];
        GetsWhatItNeeds(b, s, k);
        assert s[..k] == Slashed(b)[..k];
        CountFront(Slashed(b), k);
        SlashedFallsShort(b);
      }
    }
  }

  // ---- A '?' that is last and not shielded ----

  /** Characters that p matches, but not with a '/' behind them. */
  function Stuck(p: seq<byte>): seq<byte>
    decreases |p|
  {
    if p == [] then []
    else
      var c, u := p[|p| - 1], p[..|p| - 1];
      if c == SLASH then Stuck(u) + [SLASH]
      else if c != STAR then Slashed(p)
      else if u == [] || u[|u| - 1] != SLASH then Slashed(u)
      else
        var v := u[..|u| - 1];
        if v != [] && v[|v| - 1] == STAR then Stuck(v) + [SLASH]
        else if v == [] then [SLASH]
        else Slashed(v) + [SLASH, OtherThan(v[|v| - 1])]
  }

  /** p matches all of t, not t and a '/', and no front of t that ends before a character but a '/'. */
  ghost predicate IsStuck(p: seq<byte>, t: seq<byte>) {
    && Documented(p, t, |t|) && !Documented(p, t + [SLASH], |t| + 1)
    && forall z :: 0 <= z < |t| && t[z] != SLASH ==>
                     z < |Slashed(p)| || (z == |Slashed(p)| && p != [] && p[|p| - 1] == STAR)
  }

  lemma MatchedAsIs(p: seq<byte>)
    requires DOLLAR !in p && ANY !in p
    ensures Documented(p, Slashed(p), |Slashed(p)|)
  {
    SlashedMatches(p, []);
    assert Slashed(p) + [] == Slashed(p);
    SameWithoutAny(p, Slashed(p), |Slashed(p)|);
  }

  lemma {:induction false} StuckIsStuck(p: seq<byte>)
    requires !Extends(p) && DOLLAR !in p && ANY !in p
    ensures IsStuck(p, Stuck(p))
    decreases |p|
  {
    hide Documented, Slashed, Stuck, IsStuck;
    StuckParts(p);
    if p == [] {
      StuckAtStart();
    } else {
      var c, u := p[|p| - 1], p[..|p| - 1];
      assert p == u + [c] && c in p;
      if c == SLASH {
        StuckIsStuck(u);
        StuckBehindSlash(u, Stuck(u));
      } else if c != STAR {
        StuckAtLiteral(u, c);
      } else {
        LastStar(p);
        DoubleExtends(p);
        if u == [] || u[|u| - 1] != SLASH {
          StuckAtStar(u);
        } else {
          var v := u[..|u| - 1];
          assert u == v + [SLASH];
          assert p[..|p| - 2] == v;
          if v != [] && v[|v| - 1] == STAR {
            StarExtends(v);
            StuckIsStuck(v);
            StuckBehindSlashStar(v, Stuck(v));
          } else {
            StuckByOther(v);
          }
        }
      }
    }
  }

  lemma StuckParts(p: seq<byte>)
    ensures p == [] ==> Stuck(p) == []
    ensures p != [] ==>
              var c, u := p[|p| - 1], p[..|p| - 1];
              Stuck(p) == if c == SLASH then Stuck(u) + [SLASH]
                          else if c != STAR then Slashed(p)
                          else if u == [] || u[|u| - 1] != SLASH then Slashed(u)
                          else
                            var v := u[..|u| - 1];
                            if v != [] && v[|v| - 1] == STAR then Stuck(v) + [SLASH]
                            else if v == [] then [SLASH]
                            else Slashed(v) + [SLASH, OtherThan(v[|v| - 1])]
  {}

  lemma StarExtends(p: seq<byte>)
    requires p != [] && p[|p| - 1] == STAR
    ensures Extends(p) <==> Absorbs(p)
  {}

  lemma StuckAtStart()
    ensures IsStuck([], [])
  {}

  lemma StuckBehindSlash(u: seq<byte>, t: seq<byte>)
    requires DOLLAR !in u && IsStuck(u, t)
    ensures IsStuck(u + [SLASH], t + [SLASH])
  {
    hide Documented, Slashed;
    var s := t + [SLASH];
    AtTheEnd(u, SLASH, s, |s|);
    assert s[..|t|] == t[..|t|];
    Frame(u, t, s, |t|);
    AtTheEnd(u, SLASH, s + [SLASH], |s| + 1);
    assert (s + [SLASH])[..|s|] == s[..|s|];
    if Documented(u, s + [SLASH], |s|) {
      Frame(u, s + [SLASH], s, |s|);
    }
    SlashedJoin(u, [SLASH]);
    OneSlashed(SLASH);
  }

  lemma StuckAtLiteral(u: seq<byte>, c: byte)
    requires DOLLAR !in u && ANY !in u && c !in {STAR, SLASH, ANY, DOLLAR}
    ensures IsStuck(u + [c], Slashed(u + [c]))
  {
    hide Documented, Slashed;
    var p := u + [c];
    var t := Slashed(p);
    MatchedAsIs(p);
    AtTheEnd(u, c, t + [SLASH], |t| + 1);
  }

  lemma StuckAtStar(u: seq<byte>)
    requires DOLLAR !in u && ANY !in u && (u == [] || u[|u| - 1] !in {STAR, SLASH})
    ensures IsStuck(u + [STAR], Slashed(u))
  {
    hide Documented, Slashed;
    var p, t := u + [STAR], Slashed(u);
    MatchedAsIs(u);
    StarCloses(u, t, |t|, |t|);
    NoSlashBehind(u, t + [SLASH]);
    SlashedJoin(u, [STAR]);
    SlashedStar();
  }

  lemma SlashedStar()
    ensures Slashed([STAR]) == [] && Slashed([]) == []
  {
    assert [STAR][1..] == [];
  }

  /** A single star takes no '/'. */
  lemma StarTakesNoSlash(u: seq<byte>, s: seq<byte>)
    requires DOLLAR !in u && (u == [] || u[|u| - 1] != STAR) && s != [] && s[|s| - 1] == SLASH
    requires Documented(u + [STAR], s, |s|)
    ensures Documented(u, s, |s|)
  {
    hide Documented;
    var k := StarAtTheEnd(u, s, |s|);
    LastIsIn(s, k);
  }

  lemma LastIsIn(s: seq<byte>, k: nat)
    requires k <= |s|
    ensures k < |s| ==> s[|s| - 1] in s[k..|s|]
  {
    assert k < |s| ==> s[k..|s|][|s| - 1 - k] == s[|s| - 1];
  }

  lemma LastTaken(u: seq<byte>, s: seq<byte>)
    requires DOLLAR !in u && (u == [] || u[|u| - 1] != STAR) && s != [] && Documented(u, s, |s|)
    ensures u != [] && Takes(u[|u| - 1], s[|s| - 1]) && Documented(u[..|u| - 1], s, |s| - 1)
  {
    hide Documented;
    Nothing(s, |s|);
    assert u != [];
    assert u == u[..|u| - 1] + [u[|u| - 1]] && u[|u| - 1] in u;
    AtTheEnd(u[..|u| - 1], u[|u| - 1], s, |s|);
  }

  /** What is before the star ends otherwise than in a '/'. */
  lemma NoSlashBehind(u: seq<byte>, s: seq<byte>)
    requires DOLLAR !in u && (u == [] || u[|u| - 1] !in {STAR, SLASH, ANY}) && s != [] && s[|s| - 1] == SLASH
    ensures !Documented(u + [STAR], s, |s|)
  {
    hide Documented;
    if Documented(u + [STAR], s, |s|) {
      StarTakesNoSlash(u, s);
      LastTaken(u, s);
    }
  }

  /** Behind a slash and a star a '/' is matched only if what is before it matches up to there. */
  lemma SlashStar(v: seq<byte>, s: seq<byte>)
    requires DOLLAR !in v && s != [] && s[|s| - 1] == SLASH && Documented(v + [SLASH] + [STAR], s, |s|)
    ensures Documented(v, s[..|s| - 1], |s| - 1)
  {
    hide Documented;
    var u := v + [SLASH];
    StarTakesNoSlash(u, s);
    LastTaken(u, s);
    assert u[..|u| - 1] == v;
    Frame(v, s, s[..|s| - 1], |s| - 1);
  }

  lemma StuckBehindSlashStar(v: seq<byte>, t: seq<byte>)
    requires DOLLAR !in v && IsStuck(v, t)
    ensures IsStuck(v + [SLASH] + [STAR], t + [SLASH])
  {
    hide Documented, Slashed, IsStuck;
    var u, s := v + [SLASH], t + [SLASH];
    StuckBehindSlash(v, t);
    StarKeepsStuck(v, u, t, s);
  }

  lemma StarKeepsStuck(v: seq<byte>, u: seq<byte>, t: seq<byte>, s: seq<byte>)
    requires DOLLAR !in v && u == v + [SLASH] && s == t + [SLASH] && IsStuck(u, s) && IsStuck(v, t)
    ensures IsStuck(u + [STAR], s)
  {
    hide Documented, Slashed;
    StarCloses(u, s, |s|, |s|);
    assert (s + [SLASH])[..|s|] == s;
    if Documented(u + [STAR], s + [SLASH], |s| + 1) {
      SlashStar(v, s + [SLASH]);
    }
    SlashedJoin(u, [STAR]);
    SlashedStar();
  }

  lemma StuckByOther(v: seq<byte>)
    requires DOLLAR !in v && ANY !in v && (v == [] || v[|v| - 1] != STAR)
    ensures IsStuck(v + [SLASH] + [STAR],
                    if v == [] then [SLASH] else Slashed(v) + [SLASH, OtherThan(v[|v| - 1])])
  {
    hide IsStuck, Slashed, OtherThan;
    var x := if v == [] then [] else [OtherThan(v[|v| - 1])];
    SlashedJoin(v, [SLASH]);
    OneSlashed(SLASH);
    SlashedStar();
    var s := Slashed(v) + [SLASH] + x;
    assert s == if v == [] then [SLASH] else Slashed(v) + [SLASH, OtherThan(v[|v| - 1])];
    OtherSticks(v, s, x);
  }

  lemma OtherSticks(v: seq<byte>, s: seq<byte>, x: seq<byte>)
    requires DOLLAR !in v && ANY !in v && (v == [] || v[|v| - 1] != STAR)
    requires x == if v == [] then [] else [OtherThan(v[|v| - 1])]
    requires s == Slashed(v + [SLASH]) + x && |Slashed(v + [SLASH])| > 0
    ensures IsStuck(v + [SLASH] + [STAR], s)
  {
    hide Documented, Slashed;
    var u := v + [SLASH];
    OtherIsMatched(u, x);
    SlashedJoin(u, [STAR]);
    SlashedStar();
    OtherIsStuck(v, s);
  }

  lemma OtherIsMatched(u: seq<byte>, x: seq<byte>)
    requires DOLLAR !in u && ANY !in u && (u == [] || u[|u| - 1] != STAR) && SLASH !in x
    ensures var s := Slashed(u) + x; Documented(u + [STAR], s, |s|)
  {
    hide Documented, Slashed;
    var t, s := Slashed(u), Slashed(u) + x;
    MatchedAsIs(u);
    assert s[..|t|] == t && s[|t|..|s|] == x;
    Frame(u, t, s, |t|);
    StarCloses(u, s, |t|, |s|);
  }

  lemma OtherIsStuck(v: seq<byte>, s: seq<byte>)
    requires DOLLAR !in v && ANY !in v && s != [] && (v != [] ==> v[|v| - 1] != STAR && !Takes(v[|v| - 1], s[|s| - 1]))
    ensures !Documented(v + [SLASH] + [STAR], s + [SLASH], |s| + 1)
  {
    hide Documented;
    if Documented(v + [SLASH] + [STAR], s + [SLASH], |s| + 1) {
      assert (s + [SLASH])[..|s|] == s;
      SlashStar(v, s + [SLASH]);
      LastTaken(v, s);
    }
  }

  /** Where the matcher lets the '?' take a '/', though another character behind it would do. */
  lemma UnshieldedShows(p: seq<byte>, m: nat)
    requires !Shields(p) && DOLLAR !in p && ANY !in p && m % 2 == 1 && m > 1
    ensures var s := StuckFront(p) + [SLASH, 97];
            && MatchesMore(p + [ANY] + Run(m), s, |s|)
            && forall n: nat :: !Documented(p + [ANY] + Run(m), s, n)
  {
    hide Documented, MatchesMore, Matches, Slashed, Shields, IsStuck;
    var t, r := StuckFront(p), [ANY] + Run(m);
    var s := t + [SLASH, 97];
    FrontIsStuck(p);
    FrontMatches(p, t, s);
    DocumentedMatches(p, s, |t|);
    RunTakesOne(m, 97);
    assert s[|t|..][1..] == [97] && r[1..] == Run(m);
    Other(r, s[|t|..], 2);
    MoreJoin(p, r, s, |t|, |s|);
    assert p + [ANY] + Run(m) == p + r;
    forall n: nat
      ensures !Documented(p + r, s, n)
    {
      if Documented(p + r, s, n) {
        var z := Split(p, r, s, n);
        Other(r, s[z..], n - z);
        assert s[z..][0] == s[z];
        NotThere(p, t, s, z);
      }
    }
  }

  /** Up to the single star at its end p is stuck, or all of p. */
  function StuckFront(p: seq<byte>): seq<byte> {
    if p != [] && p[|p| - 1] == STAR then Stuck(p[..|p| - 1]) else Stuck(p)
  }

  /** p matches all of t, not t and a '/', and no front of t that ends before a character but a '/'. */
  ghost predicate IsFront(p: seq<byte>, t: seq<byte>) {
    && Documented(p, t, |t|) && !Documented(p, t + [SLASH], |t| + 1)
    && forall z :: 0 <= z < |t| && t[z] != SLASH ==> z < |Slashed(p)|
  }

  lemma FrontIsStuck(p: seq<byte>)
    requires !Shields(p) && DOLLAR !in p && ANY !in p
    ensures IsFront(p, StuckFront(p))
  {
    hide Documented, Slashed, Stuck, Extends;
    if p != [] && p[|p| - 1] == STAR {
      var u := p[..|p| - 1];
      var t := Stuck(u);
      assert p == u + [STAR];
      LastStar(p);
      DoubleExtends(p);
      StuckIsStuck(u);
      StarCloses(u, t, |t|, |t|);
      SlashedJoin(u, [STAR]);
      SlashedStar();
      if Documented(p, t + [SLASH], |t| + 1) {
        StarTakesNoSlash(u, t + [SLASH]);
      }
    } else {
      StuckIsStuck(p);
    }
  }

  lemma FrontMatches(p: seq<byte>, t: seq<byte>, s: seq<byte>)
    requires DOLLAR !in p && Documented(p, t, |t|) && t <= s
    ensures Documented(p, s, |t|)
  {
    Frame(p, t, s, |t|);
  }

  lemma NotThere(p: seq<byte>, t: seq<byte>, s: seq<byte>, z: nat)
    requires DOLLAR !in p && IsFront(p, t) && s == t + [SLASH, 97] && z < |s| && s[z] != SLASH
    ensures !Documented(p, s, z)
  {
    hide Documented, Slashed;
    if Documented(p, s, z) {
      DocumentedMatches(p, s, z);
      AtLeastSlashed(p, s, z);
      assert z == |t| + 1;
      Frame(p, s, t + [SLASH], z);
    }
  }

  // ---- For which alternatives the documentation holds ----

  lemma EndOfRun(m: nat)
    ensures m == 0 ==> MatchesMore(Run(m), [], 0)
    ensures m == 1 ==> MatchesMore(Run(m), [SLASH], 0)
    ensures m > 0 && m % 2 == 0 ==> MatchesMore(Run(m), [SLASH], 1)
  {
    RunParts(m);
    if m == 1 {
      assert StarTakes(Run(m), [SLASH], 0, 0) && MatchesMore(Run(m)[1..], [SLASH][0..], 0 - 0);
    } else if m > 0 && m % 2 == 0 {
      RunTakesOne(m, SLASH);
    }
  }

  lemma InCore(a: seq<byte>, b: seq<byte>, m: nat)
    requires a == b + Run(m) && ANY in a && DOLLAR !in a
    ensures ANY in b && DOLLAR !in b && b != []
  {
    var i :| 0 <= i < |a| && a[i] == ANY;
    assert a[i] == b[i];
    assert forall c <- b :: c in a;
  }

  /** Characters for which the matcher finds what is no match, if a '?' of the alternative is not shielded. */
  lemma AnyShows(a: seq<byte>) returns (s: seq<byte>)
    requires DollarOnlyLast(a) && ANY in a && !LooseDollar(a) && !Shielded(a)
    ensures Tail(a, s) > 0 && forall n: nat :: !Documented(a, s, n)
  {
    hide Documented, MatchesMore, Tail, Slashed, StarsAtEnd, Shields;
    if a[|a| - 1] == DOLLAR {
      s := DollarShows(a);
    } else {
      var m, b := StarsAtEnd(a), Core(a);
      CoreAndRun(a);
      NoDollar(a);
      InCore(a, b, m);
      if m > 1 && m % 2 == 1 {
        s := OddStarsShow(a, b, m);
      } else {
        var e, j := if m == 0 then [] else [SLASH], if m <= 1 then 0 else 1;
        s := Slashed(b) + e;
        EndOfRun(m);
        SlashedIsFound(b, Run(m), e, j);
        SlashesShow(b, Run(m), e);
        MatchIsFound(a, s, |Slashed(b)| + j);
      }
    }
  }

  lemma NoDollar(a: seq<byte>)
    requires DollarOnlyLast(a) && (a == [] || a[|a| - 1] != DOLLAR)
    ensures DOLLAR !in a
  {}

  lemma DollarShows(a: seq<byte>) returns (s: seq<byte>)
    requires DollarOnlyLast(a) && ANY in a && !LooseDollar(a) && a[|a| - 1] == DOLLAR
    ensures Tail(a, s) > 0 && forall n: nat :: !Documented(a, s, n)
  {
    hide Documented, MatchesMore, Tail, Slashed, StarsAtEnd;
    var p := a[..|a| - 1];
    var m, b := StarsAtEnd(p), Core(p);
    assert a == p + [DOLLAR];
    CoreAndRun(p);
    InCore(p, b, m);
    LastStar(p);
    EndOfRun(m);
    assert a == b + (Run(m) + [DOLLAR]);
    if m == 0 {
      s := Slashed(b) + [];
      DollarAlone();
      assert Run(m) + [DOLLAR] == [DOLLAR];
      SlashedIsFound(b, [DOLLAR], [], 0);
      MatchIsFound(a, s, |Slashed(b)|);
      SlashesShow(b, [DOLLAR], []);
    } else {
      s := Slashed(b) + [SLASH];
      SlashedIsFound(b, Run(m), [SLASH], 1);
      LoosenedIsSame(a, s);
      MatchIsFound(p, s, |Slashed(b)| + 1);
      SlashesShow(b, Run(m) + [DOLLAR], [SLASH]);
    }
  }

  lemma DollarAlone()
    ensures MatchesMore([DOLLAR], [], 0)
  {}

  lemma OddStarsShow(a: seq<byte>, b: seq<byte>, m: nat) returns (s: seq<byte>)
    requires a == b + Run(m) && b == Core(a) && m == StarsAtEnd(a) && m > 1 && m % 2 == 1
    requires DOLLAR !in a && DOLLAR !in b && ANY in b && b[|b| - 1] != STAR && !Shielded(a)
    ensures Tail(a, s) > 0 && forall n: nat :: !Documented(a, s, n)
  {
    hide Documented, MatchesMore, Tail, Slashed, StarsAtEnd, Shields;
    var p, c := b[..|b| - 1], b[|b| - 1];
    assert b == p + [c];
    if c == ANY && ANY !in p {
      s := StuckFront(p) + [SLASH, 97];
      UnshieldedShows(p, m);
      MatchIsFound(a, s, |s|);
    } else {
      var x := OtherThan(c);
      s := Slashed(b) + [x];
      RunTakesOne(m, x);
      SlashedIsFound(b, Run(m), [x], 1);
      MatchIsFound(a, s, |Slashed(b)| + 1);
      if c == ANY {
        TwoAnysShow(p, m, x);
      } else {
        assert c in b;
        LiteralShows(p, c, m);
      }
    }
  }

  lemma TwoAnysShow(p: seq<byte>, m: nat, x: byte)
    requires DOLLAR !in p && ANY in p
    ensures forall n: nat :: !Documented(p + [ANY] + Run(m), Slashed(p + [ANY]) + [x], n)
  {
    hide Documented;
    var b := p + [ANY];
    SlashedFallsShort(b);
    SlashedFallsShort(p);
    NeedsJoin(p, [ANY]);
    NeedsJoin(b, Run(m));
    RunNeedsNothing(m);
    CountJoin(Slashed(b), [x]);
    OneCounts(x);
    TooFew(b + Run(m), Slashed(b) + [x]);
  }

  lemma OneCounts(x: byte)
    ensures Count([x]) <= 1 && Anys([ANY]) == 1
  {
    assert [x][1..] == [] && [ANY][1..] == [];
  }

  /**
   * All that is found for an alternative with no '$' but at its end is a match as documented exactly when the '$' is
   * not behind an odd number of stars, and the alternative has no '?' or just one, which is shielded.
   */
  lemma AsDocumentedIff(a: seq<byte>)
    requires DollarOnlyLast(a)
    ensures !LooseDollar(a) && (ANY !in a || Shielded(a))
            <==> forall s :: Tail(a, s) > 0 ==> Documented(a, s, Tail(a, s))
  {
    hide Documented, Matches, MatchesMore, Tail, LooseDollar, Shielded;
    AsItStandsIff(a);
    if LooseDollar(a) {
      var s :| Tail(a, s) > 0 && !Matches(a, s, Tail(a, s));
      if Documented(a, s, Tail(a, s)) {
        DocumentedMatches(a, s, Tail(a, s));
      }
      assert !Documented(a, s, Tail(a, s));
    } else if ANY in a && !Shielded(a) {
      var s := AnyShows(a);
    } else {
      forall s | Tail(a, s) > 0
        ensures Documented(a, s, Tail(a, s))
      {
        if ANY !in a {
          SameWithoutAny(a, s, Tail(a, s));
        } else {
          ShieldedEnds(a);
          TailMatches(a, s);
          ShieldedIsDocumented(a, s, Tail(a, s));
        }
      }
    }
  }

  lemma ShieldedEnds(a: seq<byte>)
    requires DollarOnlyLast(a) && Shielded(a)
    ensures DOLLAR !in a && !StarDollarEnd(a)
  {
    LastStar(a);
  }

  /** A '?' takes a '/'. */
  lemma AnyTakesSlash()
    ensures MatchPrefix([ANY], [SLASH]) == 1 && forall n: nat :: !Documented([ANY], [SLASH], n)
  {
    assert [ANY][1..] == [] && [SLASH][1..] == [] && NoSeparator([ANY]);
    assert Tail([], []) == 0;
  }

  /** What is found for a pattern of which all alternatives are so is a match of one of them as documented. */
  lemma FoundAsDocumented(p: seq<byte>, s: seq<byte>) returns (a: seq<byte>)
    requires forall a :: IsAlternative(a, p) ==> DollarOnlyLast(a) && !LooseDollar(a) && (ANY !in a || Shielded(a))
    requires MatchPrefix(p, s) > 0
    ensures IsAlternative(a, p) && Documented(a, s, MatchPrefix(p, s))
  {
    hide Documented, MatchPrefix, LooseDollar, Shielded, IsAlternative;
    a := FoundForAlternative(p, s);
    AsDocumentedIff(a);
  }

  // ---- For which alternatives all that matches is found ----

  function WithoutDollar(a: seq<byte>): seq<byte> {
    if a != [] && a[|a| - 1] == DOLLAR then a[..|a| - 1] else a
  }

  /** It does not end in a star, or is one star, or an even number of them. */
  predicate EndsWell(b: seq<byte>) {
    StarsAtEnd(b) == 0 || b == [STAR] || (StarsAtEnd(b) == |b| && |b| % 2 == 0)
  }

  lemma {:induction false} TakesSome(p: seq<byte>, s: seq<byte>, n: nat)
    requires DollarOnlyLast(p) && WithoutDollar(p) != [] && StarsAtEnd(WithoutDollar(p)) == 0 && Matches(p, s, n)
    ensures n > 0
    decreases |p|
  {
    hide Matches, StarsAtEnd, Stars;
    var b := WithoutDollar(p);
    LastStar(b);
    if p[0] == STAR {
      var k := StarMatches(p, s, n);
      SomeStars(p);
      RestEndsSo(p, Stars(p));
      TakesSome(p[Stars(p)..], s[k..], n - k);
    } else {
      Other(p, s, n);
    }
  }

  lemma RestEndsSo(p: seq<byte>, k: nat)
    requires DollarOnlyLast(p) && WithoutDollar(p) != [] && StarsAtEnd(WithoutDollar(p)) == 0
    requires 0 < k <= |p| && forall i :: 0 <= i < k ==> p[i] == STAR
    ensures DollarOnlyLast(p[k..]) && WithoutDollar(p[k..]) != [] && StarsAtEnd(WithoutDollar(p[k..])) == 0
  {
    LastStar(WithoutDollar(p));
    LastStar(WithoutDollar(p[k..]));
  }

  lemma {:induction false} MatchIsMore(p: seq<byte>, s: seq<byte>, n: nat)
    requires DollarOnlyLast(p) && StarsAtEnd(WithoutDollar(p)) == 0 && Matches(p, s, n)
    ensures MatchesMore(p, s, n)
    decreases |p|
  {
    hide StarsAtEnd, Stars;
    if WithoutDollar(p) == [] {
    } else if p[0] == STAR {
      hide Matches, MatchesMore;
      var k := StarMatches(p, s, n);
      SomeStars(p);
      RestEndsSo(p, Stars(p));
      TakesSome(p[Stars(p)..], s[k..], n - k);
      MatchIsMore(p[Stars(p)..], s[k..], n - k);
      PutStar(p, s, n, k);
    } else {
      hide Matches, MatchesMore;
      Other(p, s, n);
      if |p| > 1 {
        LastStar(WithoutDollar(p));
        LastStar(WithoutDollar(p[1..]));
      }
      MatchIsMore(p[1..], s[1..], n - 1);
    }
  }

  lemma {:induction false} EvenRunTakesAll(m: nat, s: seq<byte>)
    requires m > 0 && m % 2 == 0 && s != []
    ensures MatchesMore(Run(m), s, |s|)
    decreases m
  {
    hide MatchesMore;
    RunParts(m);
    if m == 2 {
      Nothing(s[|s|..], 0);
      PutStar(Run(m), s, |s|, |s|);
    } else {
      EvenRunTakesAll(m - 2, s);
      assert s[0..] == s;
      PutStar(Run(m), s, |s|, 0);
    }
  }

  lemma StarsOfAll(b: seq<byte>)
    requires StarsAtEnd(b) == |b|
    ensures b == Run(|b|)
  {
    StarsOnly(b);
  }

  /** Nothing that an alternative which ends well matches is missed. */
  lemma WellIsFound(a: seq<byte>, s: seq<byte>, n: nat)
    requires DollarOnlyLast(a) && EndsWell(WithoutDollar(a)) && n > 0 && Matches(a, s, n)
    ensures Tail(a, s) > 0
  {
    hide Matches, MatchesMore, Tail, StarsAtEnd, Run;
    var b := WithoutDollar(a);
    LastStar(b);
    LoosenedIsSame(a, s);
    Bounded(a, s, n);
    if StarsAtEnd(b) == 0 {
      MatchIsMore(a, s, n);
      MatchIsFound(a, s, n);
    } else if b == [STAR] {
      OneStarTakes(a, s, n);
      MatchIsFound(b, s, 1);
    } else {
      StarsOfAll(b);
      EvenRunTakesAll(|b|, s);
      MatchIsFound(b, s, |s|);
    }
  }

  lemma OneStarTakes(a: seq<byte>, s: seq<byte>, n: nat)
    requires WithoutDollar(a) == [STAR] && n > 0 && Matches(a, s, n)
    ensures MatchesMore([STAR], s, 1)
  {
    var k := StarMatches(a, s, n);
    assert Stars(a) == 1 && (a == [STAR] || a == [STAR, DOLLAR]);
    if k > 0 {
      assert s[..k][0] == s[0];
    } else {
      assert s[0..] == s;
    }
    assert s[..1] == [s[0]];
    assert StarTakes([STAR], s, 1, 1) && MatchesMore([STAR][1..], s[1..], 1 - 1);
  }

  /** Characters that an alternative which does not end well matches, and for which nothing is found. */
  lemma StarMisses(a: seq<byte>) returns (s: seq<byte>)
    requires DollarOnlyLast(a) && !EndsWell(WithoutDollar(a))
    ensures s != [] && Matches(a, s, |s|) && Tail(a, s) <= 0
  {
    hide Matches, MatchesMore, Tail, StarsAtEnd, Run, Slashed;
    var b := WithoutDollar(a);
    var m, core := StarsAtEnd(b), Core(b);
    CoreAndRun(b);
    LastStar(b);
    s := if core == [] then [SLASH] else Slashed(core);
    if core == [] {
      StarsOfAll(b);
      RunTakesAll(m, s, 1);
      DocumentedMatches(b, s, 1);
    } else {
      CoreMatches(core, m);
    }
    DollarAtEnd(b, s, |s|);
    assert a == b || a == b + [DOLLAR];
    if Tail(a, s) > 0 {
      TailMatches(a, s);
      assert Loosened(a) == b;
      StarNeedsMore(core, m, s, Tail(a, s));
    }
  }

  lemma CoreMatches(core: seq<byte>, m: nat)
    requires core != [] && core[|core| - 1] != STAR && DOLLAR !in core
    ensures Slashed(core) != [] && Matches(core + Run(m), Slashed(core), |Slashed(core)|)
  {
    hide Matches, Slashed;
    var b := core + Run(m);
    SlashedMatches(b, []);
    SlashedJoin(core, Run(m));
    RunSlashed(m);
    assert Slashed(b) + [] == Slashed(core);
    var p := core[..|core| - 1];
    assert core == p + [core[|core| - 1]];
    SlashedJoin(p, [core[|core| - 1]]);
    OneSlashed(core[|core| - 1]);
  }

  lemma {:induction false} RunSlashed(m: nat)
    ensures Slashed(Run(m)) == []
  {
    if m > 0 {
      assert Run(m)[1..] == Run(m - 1);
      RunSlashed(m - 1);
    }
  }

  lemma StarNeedsMore(core: seq<byte>, m: nat, s: seq<byte>, n: nat)
    requires DOLLAR !in core && (core == [] || core[|core| - 1] != STAR) && m > 0 && n > 0
    requires MatchesMore(core + Run(m), s, n)
    ensures |s| > |Slashed(core)|
    ensures core == [] && m % 2 == 1 && m > 1 ==> s != [SLASH]
  {
    hide Matches, MatchesMore, Slashed;
    RunParts(m);
    var k := MoreSplit(core, Run(m), s, n);
    AtLeastSlashed(core, s, k);
    var _ := StarMore(Run(m), s[k..], n - k);
    if core == [] && m % 2 == 1 && m > 1 {
      assert core + Run(m) == Run(m);
      OddRunEnds(m, s, n);
    }
  }

  /**
   * All that an alternative with no '$' but at its end matches is found exactly when, but for the '$', it does not end
   * in a star, or is a single star, or an even number of stars.
   */
  lemma StarsAreMatchedIff(a: seq<byte>)
    requires DollarOnlyLast(a)
    ensures EndsWell(WithoutDollar(a)) <==> forall s, n: nat :: n > 0 && Matches(a, s, n) ==> Tail(a, s) > 0
  {
    hide Matches, Tail, EndsWell, WithoutDollar;
    if EndsWell(WithoutDollar(a)) {
      forall s, n: nat | n > 0 && Matches(a, s, n)
        ensures Tail(a, s) > 0
      {
        WellIsFound(a, s, n);
      }
    } else {
      var s := StarMisses(a);
    }
  }

  /** Where all alternatives end well, something is found for whatever one of them matches. */
  lemma MatchedIsFound(p: seq<byte>, a: seq<byte>, s: seq<byte>, n: nat)
    requires forall b :: IsAlternative(b, p) ==> DollarOnlyLast(b) && EndsWell(WithoutDollar(b))
    requires IsAlternative(a, p) && n > 0 && Matches(a, s, n)
    ensures MatchPrefix(p, s) > 0
  {
    hide Matches, MatchesMore, Tail, EndsWell, WithoutDollar, IsAlternative, MatchPrefix;
    WellIsFound(a, s, n);
    TailMatches(a, s);
    FoundIffFindable(p, s);
  }

  /** One alternative may make up for another: "a*|a" finds all that it matches, though "a*" does not. */
  lemma OneMakesUpForAnother(a: seq<byte>, s: seq<byte>, n: nat)
    requires IsAlternative(a, [97, STAR, BAR, 97]) && n > 0 && Matches(a, s, n)
    ensures MatchPrefix([97, STAR, BAR, 97], s) > 0 && !EndsWell([97, STAR])
  {
    hide Matches, MatchesMore, Tail, IsAlternative;
    var p := [97, STAR, BAR, 97];
    assert p[..2] == [97, STAR] && p[3..] == [97] && [97, STAR][..1] == [97];
    assert StarsAtEnd([97]) == 0 && StarsAtEnd([97, STAR]) == 1;
    AlternativesSplit(a, p, 2);
    OnlyAlternative(a, [97, STAR]);
    OnlyAlternative(a, [97]);
    OnlyAlternative([97], [97]);
    AlternativesSplit([97], p, 2);
    Other(a, s, n);
    Nothing(s[1..], 0);
    assert [97 as byte][1..] == [];
    Other([97], s, 1);
    assert Loosened([97]) == [97];
    FoundIffFindable(p, s);
  }

  // ---- Which match is found ----

  /** One star stops at a '/', two do not; they are told apart by two octets. */
  lemma StarsAre(p: seq<byte>, s: seq<byte>)
    ensures Stars(p) == if |p| > 1 && p[0] == 42 && p[1] == 42 then 2 else if p != [] && p[0] == 42 then 1 else 0
    ensures Reach(s) == FirstOf(s, 47)
  {
    ReachIsFirst(s);
  }

  lemma {:induction false} ReachIsFirst(s: seq<byte>)
    ensures Reach(s) == FirstOf(s, SLASH)
  {
    if s != [] {
      ReachIsFirst(s[1..]);
    }
  }

  /** A star takes as much as it can with something behind it that matches; at the end it takes all it can. */
  lemma StarIsGreedy(p: seq<byte>, s: seq<byte>)
    requires p != [] && p[0] == STAR && s != []
    ensures var n, rest, run := Tail(p, s), p[Stars(p)..], if Stars(p) == 2 then |s| else FirstOf(s, SLASH);
            if rest == [] || rest == [DOLLAR] then n == run
            else if n > 0 then
              exists k: nat :: k <= run && Tail(rest, s[k..]) > 0 && n == k + Tail(rest, s[k..])
                               && forall j: nat :: k < j <= run ==> Tail(rest, s[j..]) <= 0
            else forall k: nat :: k <= run ==> Tail(rest, s[k..]) <= 0
  {
    hide Back;
    ReachIsFirst(s);
    var rest, run := p[Stars(p)..], if Stars(p) == 2 then |s| else FirstOf(s, SLASH);
    if rest != [] && rest != [DOLLAR] {
      BackIsGreedy(rest, s, run);
    }
  }

  lemma {:induction false} BackIsGreedy(rest: seq<byte>, s: seq<byte>, run: nat)
    requires run <= |s|
    ensures var n := Back(rest, s, run);
            if n > 0 then
              exists k: nat :: k <= run && Tail(rest, s[k..]) > 0 && n == k + Tail(rest, s[k..])
                               && forall j: nat :: k < j <= run ==> Tail(rest, s[j..]) <= 0
            else n == -1 && forall k: nat :: k <= run ==> Tail(rest, s[k..]) <= 0
    decreases run
  {
    hide Tail;
    if Tail(rest, s[run..]) <= 0 && run > 0 {
      BackIsGreedy(rest, s, run - 1);
    }
  }

  /** The first alternative for which something is found decides. */
  lemma {:induction false} FirstAlternativeWins(p: seq<byte>, s: seq<byte>) returns (lo: nat, hi: nat)
    requires MatchPrefix(p, s) > 0
    ensures lo <= hi <= |p| && Between(p, lo, hi) && Tail(p[lo..hi], s) == MatchPrefix(p, s)
    ensures forall i: nat, j: nat :: i <= j < lo && Between(p, i, j) ==> Tail(p[i..j], s) <= 0
    decreases |p|
  {
    hide Tail, Between, IsSeparator;
    var k := Separator(p);
    if k == |p| {
      lo, hi := 0, |p|;
      assert p[0..|p|] == p && Between(p, 0, |p|) by { WholeIsBetween(p); }
    } else if MatchPrefix(p[..k], s) > 0 {
      lo, hi := FirstAlternativeWins(p[..k], s);
      BetweenBefore(p, k, lo, hi);
      forall i: nat, j: nat | i <= j < lo && Between(p, i, j)
        ensures Tail(p[i..j], s) <= 0
      {
        BetweenBefore(p, k, i, j);
      }
    } else {
      var l, h := FirstAlternativeWins(p[k + 1..], s);
      lo, hi := l + k + 1, h + k + 1;
      BetweenBehind(p, k, lo, hi);
      forall i: nat, j: nat | i <= j < lo && Between(p, i, j)
        ensures Tail(p[i..j], s) <= 0
      {
        if i <= k {
          EndsBefore(p, k, i, j);
          BetweenBefore(p, k, i, j);
          NoneFound(p[..k], s, i, j);
        } else {
          BetweenBehind(p, k, i, j);
        }
      }
    }
  }

  lemma WholeIsBetween(p: seq<byte>)
    requires NoSeparator(p)
    ensures p[0..|p|] == p && Between(p, 0, |p|)
  {}

  lemma EndsBefore(p: seq<byte>, k: nat, i: nat, j: nat)
    requires k < |p| && IsSeparator(p[k]) && i <= k && i <= j <= |p| && Between(p, i, j)
    ensures j <= k
  {}

  /** Where nothing is found for a pattern, nothing is found for any of its alternatives. */
  lemma NoneFound(p: seq<byte>, s: seq<byte>, i: nat, j: nat)
    requires MatchPrefix(p, s) == 0 && i <= j <= |p| && Between(p, i, j)
    ensures Tail(p[i..j], s) <= 0
  {
    hide Tail, MatchPrefix, Between, MatchesMore;
    if Tail(p[i..j], s) > 0 {
      TailMatches(p[i..j], s);
      assert IsAlternative(p[i..j], p);
      FoundIffFindable(p, s);
    }
  }

  /** "*.c" and "*.h" as alternatives, "a?c", "**" and a '$'. */
  lemma Examples()
    ensures MatchPrefix([42, 46, 99, 124, 42, 46, 104], [120, 46, 104]) == 3
    ensures MatchPrefix([42, 46, 99, 44, 42, 46, 104], [120, 46, 104]) == 3
    ensures MatchPrefix([97, 63, 99], [65, 98, 67, 100]) == 3
    ensures MatchPrefix([42], [97, 47, 98]) == 1 && MatchPrefix([42, 42], [97, 47, 98]) == 3
    ensures MatchPrefix([97, 36], [97]) == 1 && MatchPrefix([97, 36], [97, 98]) == 0
  {
    TwoAlternatives();
    SmallPatterns();
  }

  lemma SmallPatterns()
    ensures MatchPrefix([97, 63, 99], [65, 98, 67, 100]) == 3
    ensures MatchPrefix([42], [97, 47, 98]) == 1 && MatchPrefix([42, 42], [97, 47, 98]) == 3
    ensures MatchPrefix([97, 36], [97]) == 1 && MatchPrefix([97, 36], [97, 98]) == 0
  {
    hide Tail;
    AnyCase();
    StarAlone();
    DollarLast();
    assert NoSeparator([97, 63, 99]) && NoSeparator([42]) && NoSeparator([42, 42]) && NoSeparator([97, 36]);
  }

  lemma AnyCase()
    ensures Tail([97, 63, 99], [65, 98, 67, 100]) == 3
  {
    assert [97, 63, 99][1..] == [63, 99] && [63, 99][1..] == [99] && [99 as byte][1..] == [];
    assert [65, 98, 67, 100][1..] == [98, 67, 100] && [98, 67, 100][1..] == [67, 100] && [67, 100][1..] == [100];
    assert Tail([99], [67, 100]) == 1 && Tail([63, 99], [98, 67, 100]) == 2;
  }

  lemma StarAlone()
    ensures Tail([42], [97, 47, 98]) == 1 && Tail([42, 42], [97, 47, 98]) == 3
  {
    assert [42 as byte][1..] == [] && [42, 42][2..] == [];
    assert [97, 47, 98][1..] == [47, 98] && Reach([47, 98]) == 0 && Reach([97, 47, 98]) == 1;
  }

  lemma DollarLast()
    ensures Tail([97, 36], [97]) == 1 && Tail([97, 36], [97, 98]) == -1
  {
    assert [97, 36][1..] == [36] && [97 as byte][1..] == [] && [97, 98][1..] == [98];
    assert Tail([36], []) == 0 && Tail([36], [98]) == -1;
  }

  lemma TwoAlternatives()
    ensures MatchPrefix([42, 46, 99, 124, 42, 46, 104], [120, 46, 104]) == 3
    ensures MatchPrefix([42, 46, 99, 44, 42, 46, 104], [120, 46, 104]) == 3
  {
    var p, q := [42, 46, 99, 124, 42, 46, 104], [42, 46, 99, 44, 42, 46, 104];
    DotLetter(99);
    DotLetter(104);
    hide Tail;
    assert p[..3] == [42, 46, 99] == q[..3] && p[4..] == [42, 46, 104] == q[4..];
    Separators(p, q);
  }

  lemma Separators(p: seq<byte>, q: seq<byte>)
    requires p == [42, 46, 99, 124, 42, 46, 104] && q == [42, 46, 99, 44, 42, 46, 104]
    ensures Separator(p) == 3 && Separator(q) == 3 && NoSeparator([42, 46, 99]) && NoSeparator([42, 46, 104])
  {
    FirstOfAt([42, 46, 99], [124, 42, 46, 104], 124);
    assert p == [42, 46, 99] + [124, 42, 46, 104];
    FirstOfAt(q, [], 124);
    assert q + [] == q;
    FirstOfAt([42, 46, 99], [44, 42, 46, 104], 44);
    assert q == [42, 46, 99] + [44, 42, 46, 104];
  }

  lemma DotLetter(c: byte)
    requires c == 99 || c == 104
    ensures Tail([42, 46, c], [120, 46, 104]) == if c == 104 then 3 else -1
  {
    hide Back;
    var s: seq<byte> := [120, 46, 104];
    assert [42, 46, c][1..] == [46, c];
    assert s[1..] == [46, 104] && s[1..][1..] == [104] && [104 as byte][1..] == [];
    assert Reach([]) == 0 && Reach([104]) == 1 && Reach([46, 104]) == 2 && Reach(s) == 3;
    DotBehind(c, s);
  }

  lemma DotBehind(c: byte, s: seq<byte>)
    requires (c == 99 || c == 104) && s == [120, 46, 104]
    ensures Back([46, c], s, 3) == if c == 104 then 3 else -1
  {
    DotTails(c, s);
    hide Tail;
    assert Back([46, c], s, 0) == -1;
    assert Back([46, c], s, 1) == if c == 104 then 3 else -1;
    assert Back([46, c], s, 2) == if c == 104 then 3 else -1;
  }

  lemma DotTails(c: byte, s: seq<byte>)
    requires (c == 99 || c == 104) && s == [120, 46, 104]
    ensures Tail([46, c], s[3..]) == -1 && Tail([46, c], s[2..]) == -1 && Tail([46, c], s[0..]) == -1
    ensures Tail([46, c], s[1..]) == if c == 104 then 2 else -1
  {
    assert [46, c][1..] == [c] && [c][1..] == [] && s[1..][1..] == [104] && [104 as byte][1..] == [];
    assert Tail([c], [104]) == if c == 104 then 1 else -1;
  }
}
