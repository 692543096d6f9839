/** Dot-segment removal, in place, against the algorithm of section 5.2.4 of RFC 3986. */
module UriPath {
  import opened Bytes
  import opened Chars

  /** Where the next component begins: behind the slash that ends this one. */
  function NextStart(s: seq<byte>): (n: nat)
    ensures s != [] ==> 0 < n <= |s|
    ensures s == [] ==> n == 0
  {
    if FirstOf(s, SLASH) < |s| then FirstOf(s, SLASH) + 1 else |s|
  }

  // ---- What the code computes ----

  function BackTo(d: nat, buf: seq<byte>): (e: nat)
    requires d <= |buf|
    ensures e <= d
  {
    if d > 0 && buf[d - 1] != SLASH then BackTo(d - 1, buf) else d
  }

  /** Backtracks to the previous slash. */
  function Back(buf: seq<byte>): seq<byte> {
    buf[..BackTo(if |buf| > 1 && buf[|buf| - 1] == SLASH then |buf| - 1 else |buf|, buf)]
  }

  /** One turn of the loop on the components: the output after the next component of rest. */
  function Step(buf: seq<byte>, rest: seq<byte>): seq<byte> {
    var c := rest[..FirstOf(rest, SLASH)];
    if Vcmp(c, [DOT]) then buf
    else if Vcmp(c, [DOT, DOT]) then Back(buf)
    else buf + rest[..NextStart(rest)]
  }

  function Walk(buf: seq<byte>, rest: seq<byte>): seq<byte>
    decreases |rest|
  {
    if rest == [] then buf else Walk(Step(buf, rest), rest[NextStart(rest)..])
  }

  /** `mg_normalize_uri_path` on a path that begins with a slash. */
  function Normalized(path: seq<byte>): seq<byte> {
    var d := Walk([], path);
    if d == [] then [SLASH] else d
  }

  // ---- Section 5.2.4 of RFC 3986 ----

  /** The output buffer without its last segment and the slash before it. */
  function WithoutLastSegment(out: seq<byte>): (r: seq<byte>)
    ensures |r| <= |out|
  {
    if out == [] then [] else if out[|out| - 1] == SLASH then out[..|out| - 1] else WithoutLastSegment(out[..|out| - 1])
  }

  /** The length of the first segment of the input buffer with the slash before it, if any. */
  function FirstSegment(input: seq<byte>): (n: nat)
    requires input != []
    ensures 0 < n <= |input|
  {
    1 + FirstOf(input[1..], SLASH)
  }

  function RemoveDotSegments(input: seq<byte>, out: seq<byte>): seq<byte>
    decreases |input|
  {
    if input == [] then out
    else if [DOT, DOT, SLASH] <= input then RemoveDotSegments(input[3..], out)
    else if [DOT, SLASH] <= input then RemoveDotSegments(input[2..], out)
    else if [SLASH, DOT, SLASH] <= input then RemoveDotSegments(input[2..], out)
    else if input == [SLASH, DOT] then RemoveDotSegments([SLASH], out)
    else if [SLASH, DOT, DOT, SLASH] <= input then RemoveDotSegments(input[3..], WithoutLastSegment(out))
    else if input == [SLASH, DOT, DOT] then RemoveDotSegments([SLASH], WithoutLastSegment(out))
    else if input == [DOT] || input == [DOT, DOT] then out
    else
      var n := FirstSegment(input);
      RemoveDotSegments(input[n..], out + input[..n])
  }

  // ---- The two agree ----

  lemma {:induction false} BackRemovesSegment(out: seq<byte>)
    requires out == [] || out[0] == SLASH
    ensures Back(out + [SLASH]) == WithoutLastSegment(out) + [SLASH]
  {
    var buf := out + [SLASH];
    if out == [] {
      assert buf == [SLASH] && buf[..1] == buf;
    } else {
      BackToSegment(out, |out|);
      var e := BackTo(|out|, buf);
      assert buf[..e] == out[..e] && out[..|out|] == out;
    }
  }

  /** Backtracking stops right behind the slash that the last segment begins with. */
  lemma {:induction false} BackToSegment(out: seq<byte>, d: nat)
    requires 0 < d <= |out| && out[0] == SLASH
    ensures var e := BackTo(d, out + [SLASH]);
            e > 0 && out[..e] == WithoutLastSegment(out[..d]) + [SLASH]
  {
    var head := out[..d];
    if out[d - 1] == SLASH {
      assert head == head[..d - 1] + [SLASH];
    } else {
      assert head[..d - 1] == out[..d - 1];
      BackToSegment(out, d - 1);
    }
  }

  /** A component that `mg_vcmp` takes for "." or ".." and that is longer. */
  predicate Misread(c: seq<byte>) {
    (Vcmp(c, [DOT]) && c != [DOT]) || (Vcmp(c, [DOT, DOT]) && c != [DOT, DOT])
  }

  /** No component is. */
  predicate Readable(s: seq<byte>)
    decreases |s|
  {
    s == [] || (!Misread(s[..FirstOf(s, SLASH)]) && Readable(s[NextStart(s)..]))
  }

  lemma {:induction false} ShortIsReadable(s: seq<byte>)
    requires |s| < TWO32
    ensures Readable(s)
    decreases |s|
  {
    if s != [] {
      var c := s[..FirstOf(s, SLASH)];
      VcmpExact(c, [DOT]);
      VcmpExact(c, [DOT, DOT]);
      ShortIsReadable(s[NextStart(s)..]);
    }
  }

  lemma DotsAreRead()
    ensures Vcmp([DOT], [DOT]) && Vcmp([DOT, DOT], [DOT, DOT])
    ensures !Vcmp([DOT, DOT], [DOT]) && !Vcmp([DOT], [DOT, DOT])
  {
    VcmpExact([DOT], [DOT]);
    VcmpExact([DOT, DOT], [DOT, DOT]);
    VcmpExact([DOT, DOT], [DOT]);
    VcmpExact([DOT], [DOT, DOT]);
  }

  /** What the algorithm does with a segment that is followed by a slash. */
  lemma SegmentStep(c: seq<byte>, later: seq<byte>, out: seq<byte>)
    requires SLASH !in c
    ensures RemoveDotSegments([SLASH] + (c + ([SLASH] + later)), out)
            == if c == [DOT] then RemoveDotSegments([SLASH] + later, out)
               else if c == [DOT, DOT] then RemoveDotSegments([SLASH] + later, WithoutLastSegment(out))
               else RemoveDotSegments([SLASH] + later, out + ([SLASH] + c))
  {
    hide RemoveDotSegments;
    Rebracket([SLASH], c, [SLASH] + later);
    if c == [DOT] {
      DotStep(later, out);
      assert [SLASH] + [DOT] + ([SLASH] + later) == [SLASH, DOT, SLASH] + later;
    } else if c == [DOT, DOT] {
      DotDotStep(later, out);
      assert [SLASH] + [DOT, DOT] + ([SLASH] + later) == [SLASH, DOT, DOT, SLASH] + later;
    } else {
      PlainStep(c, later, out);
    }
  }

  lemma DotStep(later: seq<byte>, out: seq<byte>)
    ensures RemoveDotSegments([SLASH, DOT, SLASH] + later, out) == RemoveDotSegments([SLASH] + later, out)
  {
    var input := [SLASH, DOT, SLASH] + later;
    assert input[0] == SLASH && [SLASH, DOT, SLASH] <= input;
    assert input[2..] == [SLASH] + later;
  }

  lemma DotDotStep(later: seq<byte>, out: seq<byte>)
    ensures RemoveDotSegments([SLASH, DOT, DOT, SLASH] + later, out)
            == RemoveDotSegments([SLASH] + later, WithoutLastSegment(out))
  {
    hide WithoutLastSegment;
    var input := [SLASH, DOT, DOT, SLASH] + later;
    assert input[0] == SLASH && input[2] == DOT && |input| > 2;
    assert !([DOT, DOT, SLASH] <= input) && !([DOT, SLASH] <= input) && !([SLASH, DOT, SLASH] <= input);
    assert [SLASH, DOT, DOT, SLASH] <= input;
    assert input[3..] == [SLASH] + later;
  }

  lemma PlainStep(c: seq<byte>, later: seq<byte>, out: seq<byte>)
    requires SLASH !in c && c != [DOT] && c != [DOT, DOT]
    ensures RemoveDotSegments([SLASH] + c + ([SLASH] + later), out)
            == RemoveDotSegments([SLASH] + later, out + ([SLASH] + c))
  {
    hide FirstOf, WithoutLastSegment;
    var head, tail := [SLASH] + c, [SLASH] + later;
    var input := head + tail;
    assert input[1..] == c + tail;
    FirstOfAt(c, tail, SLASH);
    assert input[|head|..] == tail && input[..|head|] == head;
    assert input[0] == SLASH && input[|head|] == SLASH;
    assert |c| > 0 ==> input[1] == c[0];
    assert |c| > 1 ==> input[2] == c[1];
    assert |c| > 2 ==> input[3] == c[2];
  }

  /** What the algorithm does with the last segment. */
  lemma LastSegment(c: seq<byte>, out: seq<byte>)
    requires SLASH !in c
    ensures RemoveDotSegments([SLASH] + c, out)
            == if c == [DOT] then out + [SLASH]
               else if c == [DOT, DOT] then WithoutLastSegment(out) + [SLASH]
               else out + ([SLASH] + c)
  {
    var input := [SLASH] + c;
    FirstOfAt(c, [], SLASH);
    assert input[1..] == c == c + [];
    assert input[1 + |c|..] == [] && input[..1 + |c|] == input;
    JustSlash(out);
    JustSlash(WithoutLastSegment(out));
    assert |c| > 0 ==> input[1] == c[0];
    assert |c| > 1 ==> input[2] == c[1];
    assert |c| > 2 ==> input[3] == c[2] && c[2] != SLASH;
  }

  lemma JustSlash(out: seq<byte>)
    ensures RemoveDotSegments([SLASH], out) == out + [SLASH]
  {
    assert [SLASH][..1] == [SLASH] && [SLASH][1..] == [];
  }

  lemma SegmentsOf(rest: seq<byte>) returns (c: seq<byte>, later: seq<byte>)
    requires rest != []
    ensures c == rest[..FirstOf(rest, SLASH)] && later == rest[NextStart(rest)..] && SLASH !in c
    ensures if FirstOf(rest, SLASH) < |rest|
            then rest == c + ([SLASH] + later) && rest[..NextStart(rest)] == c + [SLASH]
            else rest == c && later == [] && rest[..NextStart(rest)] == c
  {
    c, later := rest[..FirstOf(rest, SLASH)], rest[NextStart(rest)..];
  }

  /** The code is one slash ahead of the algorithm. */
  lemma {:induction false} WalkRefines(out: seq<byte>, rest: seq<byte>)
    requires (out == [] || out[0] == SLASH) && Readable(rest)
    ensures Walk(out + [SLASH], rest) == RemoveDotSegments([SLASH] + rest, out)
    decreases |rest|
  {
    hide RemoveDotSegments, FirstOf, NextStart, Back, WithoutLastSegment, Vcmp;
    if rest == [] {
      JustSlash(out);
      assert [SLASH] + rest == [SLASH];
    } else {
      var c, later := SegmentsOf(rest);
      DotsAreRead();
      BackRemovesSegment(out);
      if later == [] && c == rest {
        LastSegment(c, out);
        assert out + [SLASH] + c == out + ([SLASH] + c);
      } else {
        SegmentStep(c, later, out);
        assert out + [SLASH] + (c + [SLASH]) == (out + ([SLASH] + c)) + [SLASH];
        SegmentDropped(out);
        if c == [DOT] {
          WalkRefines(out, later);
        } else if c == [DOT, DOT] {
          WalkRefines(WithoutLastSegment(out), later);
        } else {
          WalkRefines(out + ([SLASH] + c), later);
        }
      }
    }
  }

  lemma SegmentDropped(out: seq<byte>)
    requires out == [] || out[0] == SLASH
    ensures WithoutLastSegment(out) <= out
  {}

  /**
   * On every path that begins with a slash the code computes what the RFC specifies, if it misreads no component; no
   * path of at most 2^32 octets has such a component.
   */
  lemma RefinesRfc3986(path: seq<byte>)
    requires path != [] && path[0] == SLASH && (|path| <= TWO32 || Readable(path[1..]))
    ensures Normalized(path) == RemoveDotSegments(path, [])
  {
    hide Walk, RemoveDotSegments;
    if |path| <= TWO32 {
      ShortIsReadable(path[1..]);
    }
    FirstTurn(path);
    WalkRefines([], path[1..]);
    assert [] + [SLASH] == [SLASH] && path == [SLASH] + path[1..];
    NextComponentClean([]);
    assert NoDots([SLASH]);
    WalkInvariant([SLASH], path[1..]);
  }

  /** A path of one component is normalised as the RFC specifies exactly when the component is not misread. */
  lemma OneComponentIff(c: seq<byte>)
    requires SLASH !in c
    ensures Normalized([SLASH] + c) == RemoveDotSegments([SLASH] + c, []) <==> !Misread(c)
  {
    hide RemoveDotSegments, FirstOf;
    var path := [SLASH] + c;
    assert path[1..] == c;
    FirstOfAt(c, [], SLASH);
    assert c + [] == c && c[..|c|] == c && c[|c|..] == [];
    if !Misread(c) {
      assert Readable([]);
      RefinesRfc3986(path);
    } else {
      FirstTurn(path);
      LastSegment(c, []);
      DotsAreRead();
      assert Back([SLASH]) == [SLASH] by { assert [SLASH][..1] == [SLASH]; }
      assert Walk(Step([SLASH], c), []) == [SLASH];
    }
  }

  lemma FirstTurn(path: seq<byte>)
    requires path != [] && path[0] == SLASH
    ensures Walk([], path) == Walk([SLASH], path[1..])
  {
    assert !Vcmp([], [DOT]) && !Vcmp([], [DOT, DOT]);
    assert path[..0] == [] && [] + path[..1] == [SLASH];
  }

  // ---- What the result looks like ----

  /** No component is "." or "..", as the code compares them. */
  predicate NoDots(s: seq<byte>)
    decreases |s|
  {
    s == [] || (var c := s[..FirstOf(s, SLASH)];
                !Vcmp(c, [DOT]) && !Vcmp(c, [DOT, DOT]) && NoDots(s[NextStart(s)..]))
  }

  /** Output that can be continued with a component: it begins with a slash, has no dots and is at a boundary. */
  ghost predicate Continuable(buf: seq<byte>) {
    buf != [] && buf[0] == SLASH && buf[|buf| - 1] == SLASH && NoDots(buf)
  }

  lemma {:induction false} FirstSlashInside(a: seq<byte>, b: seq<byte>)
    requires a != [] && a[|a| - 1] == SLASH
    ensures FirstOf(a + b, SLASH) == FirstOf(a, SLASH) < |a|
  {
    if a[0] != SLASH {
      assert (a + b)[1..] == a[1..] + b;
      FirstSlashInside(a[1..], b);
    }
  }

  /** Components do not straddle a boundary. */
  lemma {:induction false} NoDotsAppend(a: seq<byte>, b: seq<byte>)
    requires a == [] || a[|a| - 1] == SLASH
    ensures NoDots(a + b) <==> NoDots(a) && NoDots(b)
    decreases |a|
  {
    if a == [] {
      assert a + b == b;
    } else {
      FirstSlashInside(a, b);
      var k := FirstOf(a, SLASH);
      assert (a + b)[..k] == a[..k] && (a + b)[k + 1..] == a[k + 1..] + b;
      NoDotsAppend(a[k + 1..], b);
    }
  }

  lemma {:induction false} BackToSlash(d: nat, buf: seq<byte>)
    requires 0 < d <= |buf| && buf[0] == SLASH
    ensures BackTo(d, buf) > 0 && buf[BackTo(d, buf) - 1] == SLASH
  {
    if buf[d - 1] != SLASH {
      BackToSlash(d - 1, buf);
    }
  }

  lemma BackContinuable(buf: seq<byte>)
    requires Continuable(buf)
    ensures Continuable(Back(buf)) && |Back(buf)| <= |buf|
  {
    var d := if |buf| > 1 && buf[|buf| - 1] == SLASH then |buf| - 1 else |buf|;
    BackToSlash(d, buf);
    var e := BackTo(d, buf);
    assert buf == buf[..e] + buf[e..];
    NoDotsAppend(buf[..e], buf[e..]);
  }

  lemma {:induction false} WalkInvariant(buf: seq<byte>, rest: seq<byte>)
    requires Continuable(buf)
    ensures var w := Walk(buf, rest);
            w != [] && w[0] == SLASH && NoDots(w) && |w| <= |buf| + |rest|
    decreases |rest|
  {
    hide Vcmp, Back;
    if rest != [] {
      var c, later := SegmentsOf(rest);
      if Vcmp(c, [DOT, DOT]) {
        BackContinuable(buf);
      } else if !Vcmp(c, [DOT]) {
        NextComponentClean(c);
        NoDotsAppend(buf, rest[..NextStart(rest)]);
      }
      if later == [] && c == rest {
        assert Walk(Step(buf, rest), []) == Step(buf, rest);
      } else {
        WalkInvariant(Step(buf, rest), later);
      }
    }
  }

  lemma NextComponentClean(c: seq<byte>)
    requires SLASH !in c && !Vcmp(c, [DOT]) && !Vcmp(c, [DOT, DOT])
    ensures NoDots(c) && NoDots(c + [SLASH])
  {
    FirstOfAt(c, [], SLASH);
    FirstOfAt(c, [SLASH], SLASH);
    assert c + [] == c && (c + [SLASH])[..|c|] == c;
  }

  /** The result begins with a slash, has no dot component and is no longer than the path. */
  lemma NormalizedClean(path: seq<byte>)
    requires path != [] && path[0] == SLASH
    ensures var p := Normalized(path);
            p != [] && p[0] == SLASH && NoDots(p) && |p| <= |path|
  {
    FirstTurn(path);
    NextComponentClean([]);
    assert [] + [SLASH] == [SLASH] && NoDots([SLASH]);
    WalkInvariant([SLASH], path[1..]);
  }

  /** What having no dot component means for the text between two slashes. */
  lemma NoDotsBetween(s: seq<byte>, i: nat, j: nat)
    requires NoDots(s) && i < j <= |s| && s[i] == SLASH && SLASH !in s[i + 1..j] && (j == |s| || s[j] == SLASH)
    ensures s[i + 1..j] != [DOT] && s[i + 1..j] != [DOT, DOT]
  {
    hide NoDots, FirstOf, Vcmp;
    var front, c, later := s[..i + 1], s[i + 1..j], s[j..];
    ThreeParts(s, i + 1, j);
    Rebracket(front, c, later);
    hide *;
    Behind(s, front, c, later);
  }

  lemma Behind(s: seq<byte>, front: seq<byte>, c: seq<byte>, later: seq<byte>)
    requires s == front + (c + later) && NoDots(s) && front != [] && front[|front| - 1] == SLASH
    requires SLASH !in c && (later == [] || later[0] == SLASH)
    ensures c != [DOT] && c != [DOT, DOT]
  {
    hide NoDots, FirstOf, Vcmp;
    NoDotsAppend(front, c + later);
    NoDotsFirst(c, later);
  }

  lemma NoDotsFirst(c: seq<byte>, later: seq<byte>)
    requires SLASH !in c && (later == [] || later[0] == SLASH) && NoDots(c + later)
    ensures c != [DOT] && c != [DOT, DOT]
  {
    hide FirstOf, NextStart, Vcmp;
    DotsAreRead();
    FirstOfAt(c, later, SLASH);
    assert (c + later)[..|c|] == c;
  }

  lemma {:induction false} WalkCopies(buf: seq<byte>, rest: seq<byte>)
    requires NoDots(rest)
    ensures Walk(buf, rest) == buf + rest
    decreases |rest|
  {
    if rest == [] {
      assert buf + rest == buf;
    } else {
      var n := NextStart(rest);
      WalkCopies(buf + rest[..n], rest[n..]);
      assert rest == rest[..n] + rest[n..];
      Rebracket(buf, rest[..n], rest[n..]);
    }
  }

  /** Normalising twice is normalising once. */
  lemma Idempotent(path: seq<byte>)
    requires path != [] && path[0] == SLASH
    ensures Normalized(Normalized(path)) == Normalized(path)
  {
    NormalizedClean(path);
    WalkCopies([], Normalized(path));
    assert [] + Normalized(path) == Normalized(path);
  }

  // ---- In place ----

  /** `memmove` of the octets from s to end, between two blocks that may be one. */
  method Move(src: array<byte>, s: nat, end: nat, dst: array<byte>, d: nat, ghost n: nat)
    requires s <= end <= n <= src.Length && d + (end - s) <= dst.Length
    modifies dst
    ensures dst[..d + (end - s)] == old(dst[..d]) + old(src[s..end])
    ensures d <= s ==> src[end..n] == old(src[end..n])
  {
    forall i | 0 <= i < end - s {
      dst[d + i] := src[s + i];
    }
  }

  /** `parse_uri_component` for slashes: where the component at s ends and the next begins. */
  method ScanComponent(a: array<byte>, s: nat, n: nat) returns (end: nat, next: nat)
    requires s < n <= a.Length
    ensures end == s + FirstOf(a[s..n], SLASH) && next == s + NextStart(a[s..n])
  {
    end := s;
    while end < n && a[end] != SLASH
      invariant s <= end <= n && end + FirstOf(a[end..n], SLASH) == s + FirstOf(a[s..n], SLASH)
    {
      assert a[end..n][1..] == a[end + 1..n];
      end := end + 1;
    }
    next := if end < n then end + 1 else end;
  }

  /** Backtracks in the output. */
  method Backtrack(dst: array<byte>, d: nat) returns (e: nat)
    requires d <= dst.Length
    ensures e <= d && dst[..e] == Back(dst[..d])
  {
    ghost var buf := dst[..d];
    e := d;
    if e > 1 && dst[e - 1] == SLASH {
      e := e - 1;
    }
    ghost var from := e;
    while e > 0 && dst[e - 1] != SLASH
      invariant e <= from && BackTo(e, buf) == BackTo(from, buf)
    {
      e := e - 1;
    }
  }

  /** One turn of the loop; the output never overtakes the path. */
  method Turn(src: array<byte>, s: nat, n: nat, dst: array<byte>, d: nat) returns (next: nat, e: nat)
    requires d <= s < n <= src.Length && n <= dst.Length
    modifies dst
    ensures e <= next <= n && next == s + NextStart(old(src[s..n]))
    ensures dst[..e] == Step(old(dst[..d]), old(src[s..n]))
    ensures src[next..n] == old(src[s..n])[NextStart(old(src[s..n]))..]
  {
    ghost var whole, rest := src[..], src[s..n];
    var end;
    end, next := ScanComponent(src, s, n);
    Cuts(whole, s, end, n);
    Cuts(whole, s, next, n);
    hide FirstOf, NextStart, Vcmp, Back;
    e := Apply(src, s, end, next, dst, d, n);
  }

  /** What becomes of the component from s to end, with the slash behind it up to next. */
  method Apply(src: array<byte>, s: nat, end: nat, next: nat, dst: array<byte>, d: nat, ghost n: nat) returns (e: nat)
    requires d <= s <= end <= next <= n <= src.Length && d + (next - s) <= dst.Length
    modifies dst
    ensures var c, buf := old(src[s..end]), old(dst[..d]);
            && e <= d + (next - s)
            && dst[..e] == if Vcmp(c, [DOT]) then buf else if Vcmp(c, [DOT, DOT]) then Back(buf)
                           else buf + old(src[s..next])
    ensures src[next..n] == old(src[next..n])
  {
    hide Vcmp, Back;
    var component := src[s..end];
    e := d;
    if Vcmp(component, [DOT]) {
    } else if Vcmp(component, [DOT, DOT]) {
      e := Backtrack(dst, d);
    } else {
      Move(src, s, next, dst, d, n);
      e := d + (next - s);
    }
  }

  lemma Cuts(a: seq<byte>, s: nat, k: nat, n: nat)
    requires s <= k <= n <= |a|
    ensures a[s..n][..k - s] == a[s..k] && a[s..n][k - s..] == a[k..n]
  {
    SliceAgain(a, s, n, 0, k - s);
    SliceAgain(a, s, n, k - s, n - s);
  }

  lemma WalkTurn(buf: seq<byte>, rest: seq<byte>)
    requires rest != []
    ensures Walk(buf, rest) == Walk(Step(buf, rest), rest[NextStart(rest)..])
  {}

  lemma WalkEnds(buf: seq<byte>)
    ensures Walk(buf, []) == buf
  {}

  /** `mg_normalize_uri_path`; the path and the output may be the same block. */
  method Normalize(src: array<byte>, n: nat, dst: array<byte>) returns (ok: bool, len: nat)
    requires n <= src.Length && n <= dst.Length
    modifies dst
    ensures ok == (n > 0 && old(src[..n])[0] == SLASH)
    ensures ok ==> len <= dst.Length && dst[..len] == Normalized(old(src[..n]))
    ensures !ok ==> len == 0 && dst[..] == old(dst[..])
  {
    if n == 0 || src[0] != SLASH {
      return false, 0;
    }
    hide Step, NextStart, Walk;
    ghost var path, rest := src[..n], src[..n];
    var s, d := 0, 0;
    assert src[0..n] == path;
    while s < n
      invariant 0 <= d <= s <= n && src[s..n] == rest
      invariant Walk(dst[..d], rest) == Walk([], path)
      decreases n - s
    {
      WalkTurn(dst[..d], rest);
      rest := rest[NextStart(rest)..];
      s, d := Turn(src, s, n, dst, d);
    }
    WalkEnds(dst[..d]);
    if d == 0 {
      dst[d] := SLASH;
      d := d + 1;
    }
    return true, d;
  }
}
