/**
 Exactly when a compiled glob is answered segment by segment in the face of line terminators, which
 `**` does not cross: which paths are answered so for every pattern, and which patterns on every path.
 */
module GlobTerminators {
  import opened Sequences
  import opened Text
  import opened Regex
  import opened Glob
  import opened GlobSegments

  // ---- Which paths ----

  lemma {:induction false} DeepAcceptsExactly(s: string)
    ensures Accepts([Deep], s) <==> NoTerminators(s)
  {
    assert [Deep][1..] == [];
    if NoTerminators(s) {
      DeepAcceptsAll(s);
    }
    if k :| 0 <= k <= |s| && NoTerminators(s[..k]) && Accepts([], s[k..]) {
      assert s[..k] == s;
    }
  }

  lemma {:induction false} DeepSegmentAcceptsAll(stars: string, parts: seq<string>)
    requires stars == "**" && parts != []
    ensures PathMatch([stars], parts)
  {
    assert OpenEnded(stars) && stars[..0] == "" && parts[0][..0] == "";
    assert WildMatch(stars[..0], parts[0][..0]);
  }

  /** As a pattern of its own `**` is read segment by segment, but stops at every line terminator. */
  lemma {:induction false} DeepStopsAtTerminators(path: string, stars: string)
    requires stars == "**"
    ensures SegmentWise(Split('/', Normalize(stars)))
    ensures PathMatch(Split('/', Normalize(stars)), Split('/', Normalize(path)))
    ensures AnswersBySegments(path, stars) <==> NoTerminators(Normalize(path))
  {
    StarsNotPlain(stars);
    TestIsAccepts(path, stars);
    DeepAcceptsExactly(Normalize(path));
    DeepSegmentAcceptsAll(stars, Split('/', Normalize(path)));
  }

  ghost predicate AllAnswersBySegments(path: string) {
    forall pattern :: SegmentWise(Split('/', Normalize(pattern))) ==> AnswersBySegments(path, pattern)
  }

  /** The paths on which every segment-wise pattern is answered by segments are those without line terminators. */
  lemma {:induction false} TerminatorsExact(path: string)
    ensures AllAnswersBySegments(path) <==> NoTerminators(Normalize(path))
  {
    DeepStopsAtTerminators(path, "**");
    if NoTerminators(Normalize(path)) {
      forall pattern | SegmentWise(Split('/', Normalize(pattern))) ensures AnswersBySegments(path, pattern) {
        GlobMatchesBySegments(path, pattern);
      }
    }
  }

  /** The shortest failing path: `**` is to accept any remainder, and rejects a single line feed. */
  lemma {:induction false} TerminatorStopsDeep(path: string, stars: string)
    requires path == "\n" && stars == "**"
    ensures !AnswersBySegments(path, stars) && PathMatch(Split('/', Normalize(stars)), Split('/', Normalize(path)))
  {
    assert Normalize(path)[0] == '\n';
    DeepStopsAtTerminators(path, stars);
  }

  // ---- Which patterns ----

  /** The parts that hold a line terminator. */
  ghost function Broken(parts: seq<string>): nat {
    if parts == [] then 0 else Broken(parts[1..]) + if NoTerminators(parts[0]) then 0 else 1
  }

  lemma {:induction false} BrokenAppend(a: seq<string>, b: seq<string>)
    ensures Broken(a + b) == Broken(a) + Broken(b)
  {
    if a == [] {
      assert a + b == b;
    } else {
      BrokenAppend(a[1..], b);
      assert (a + b)[1..] == a[1..] + b;
    }
  }

  lemma {:induction false} SplitAtSlash(s: string, k: nat)
    requires k < |s| && s[k] == '/'
    ensures Split('/', s) == Split('/', s[..k]) + Split('/', s[k + 1..])
    decreases |s|
  {
    var f := FirstPart(s);
    if f >= k {
      assert f == k;
      SplitFirst('/', s[..k], "");
    } else {
      var rest := s[f + 1..];
      SplitAtSlash(rest, k - f - 1);
      assert rest[k - f - 1 + 1..] == s[k + 1..];
      SplitPrefix(s, f, k);
      Assoc([s[..f]], Split('/', rest[..k - f - 1]), Split('/', s[k + 1..]));
    }
  }

  lemma {:induction false} SplitPrefix(s: string, f: nat, k: nat)
    requires f < k <= |s| && s[f] == '/' && '/' !in s[..f]
    ensures Split('/', s[..k]) == [s[..f]] + Split('/', s[f + 1..][..k - f - 1])
  {
    var t := s[..k];
    assert t[..f] == s[..f] && t[f + 1..] == s[f + 1..][..k - f - 1];
    SplitAt(t, f);
  }

  lemma {:induction false} UnbrokenParts(s: string)
    requires NoTerminators(s)
    ensures Broken(Split('/', s)) == 0
    decreases |s|
  {
    var f := FirstPart(s);
    assert NoTerminators(s[..f]);
    if f < |s| {
      UnbrokenParts(s[f + 1..]);
      assert Split('/', s)[1..] == Split('/', s[f + 1..]);
    }
  }

  /** After a stretch without slashes that ends in s at k, at most one part more is broken than in the rest. */
  lemma {:induction false} BrokenAfter(s: string, k: nat)
    requires k <= |s| && '/' !in s[..k] && NoTerminators(s[k..])
    ensures Broken(Split('/', s)) <= 1
  {
    var f := FirstPart(s);
    PrefixOfFirst(s, k);
    if f < |s| {
      assert s[f + 1..] == s[k..][f + 1 - k..];
      UnbrokenParts(s[f + 1..]);
      assert Split('/', s)[1..] == Split('/', s[f + 1..]);
    } else {
      assert Split('/', s)[1..] == [];
    }
  }

  lemma {:induction false} RestSegments(segments: seq<string>)
    requires SegmentWise(segments) && |segments| > 1
    ensures SegmentWise(segments[1..]) && (segments[0] == "**" || Plain(segments[0]))
    ensures SlashFree(segments) ==> SlashFree(segments[1..])
  {
    var rest := segments[1..];
    assert rest[|rest| - 1] == segments[|segments| - 1];
    assert forall i :: 0 <= i < |rest| ==> rest[i] == segments[i + 1];
  }

  /** Only a segment other than `**` takes a broken part, and only one. */
  lemma {:induction false} FewBroken(segments: seq<string>, s: string)
    requires SegmentWise(segments) && SlashFree(segments)
    requires Accepts(Tokens(Join('/', segments)), s)
    ensures Broken(Split('/', s)) <= |segments|
    decreases |segments|
  {
    if |segments| == 1 {
      LastFewBroken(segments[0], s);
    } else {
      var rest := segments[1..];
      RestSegments(segments);
      assert Join('/', segments) == segments[0] + ['/'] + Join('/', rest);
      var k := FirstTakes(segments[0], Join('/', rest), s);
      if k >= 0 {
        FewBroken(rest, s[k + 1..]);
        SplitAtSlash(s, k);
        BrokenAppend(Split('/', s[..k]), Split('/', s[k + 1..]));
      } else {
        FewBroken(rest, s);
      }
    }
  }

  lemma {:induction false} LastFewBroken(segment: string, s: string)
    requires '/' !in segment && (Plain(segment) || OpenEnded(segment)) && Accepts(Tokens(segment), s)
    ensures Broken(Split('/', s)) <= 1
  {
    assert s[0..] == s;
    var p := if Plain(segment) then segment else segment[..|segment| - 2];
    if !Plain(segment) {
      OpenTokens(segment);
    }
    var ts: seq<Token> := if Plain(segment) then [] else [Deep];
    assert Tokens(segment) + [] == Tokens(segment);
    var k := AcceptsThenWild(p, ts, s, 0);
    assert s[0..k] == s[..k];
    if !Plain(segment) {
      DeepAcceptsExactly(s[k..]);
    }
    BrokenAfter(s, k);
  }

  /** A segment that is not the last one takes what stands before a slash, or `**` takes nothing at all. */
  lemma {:induction false} FirstTakes(segment: string, rest: string, s: string) returns (k: int)
    requires '/' !in segment && (segment == "**" || Plain(segment))
    requires Accepts(Tokens(segment + ['/'] + rest), s)
    ensures -1 <= k < |s|
    ensures k == -1 ==> Accepts(Tokens(rest), s)
    ensures k >= 0 ==> s[k] == '/' && Accepts(Tokens(rest), s[k + 1..]) && Broken(Split('/', s[..k])) <= 1
  {
    if Plain(segment) {
      SlashTokens(segment, rest);
      var after := [Lit('/')] + Tokens(rest);
      assert s[0..] == s;
      k := AcceptsThenWild(segment, after, s, 0);
      assert after[1..] == Tokens(rest) && s[k..][1..] == s[k + 1..];
      assert s[..k] == s[0..k];
      SplitFirst('/', s[..k], "");
      assert [s[..k]][1..] == [];
    } else {
      DeepTokens(segment, rest);
      assert ([DeepDir] + Tokens(rest))[1..] == Tokens(rest);
      if Accepts(Tokens(rest), s) {
        k := -1;
      } else {
        k :| 0 <= k < |s| && s[k] == '/' && NoTerminators(s[..k]) && Accepts(Tokens(rest), s[k + 1..]);
        UnbrokenParts(s[..k]);
      }
    }
  }

  /** The segment with nothing for every `*`. */
  function Bare(segment: string): (r: string)
    ensures forall c :: c in r ==> c in segment
  {
    if segment == [] then []
    else if segment[0] == '*' then Bare(segment[1..])
    else [segment[0]] + Bare(segment[1..])
  }

  lemma {:induction false} BareMatches(segment: string)
    ensures WildMatch(segment, Bare(segment))
  {
    if segment != [] {
      BareMatches(segment[1..]);
      var t := Bare(segment);
      assert t[0..] == t;
      assert segment[0] != '*' ==> t[1..] == Bare(segment[1..]);
    }
  }

  function Feeds(n: nat): (r: seq<string>)
    ensures |r| == n && forall part :: part in r ==> part == "\n"
  {
    seq(n, _ => "\n")
  }

  lemma {:induction false} FeedsBroken(n: nat)
    ensures Broken(Feeds(n)) == n
  {
    if n > 0 {
      FeedsBroken(n - 1);
      assert Feeds(n)[1..] == Feeds(n - 1);
      assert IsLineTerminator(Feeds(n)[0][0]);
    }
  }

  /** Parts that match segment by segment, with n line feeds for every `**`. */
  function Parts(segments: seq<string>, n: nat): seq<string>
    requires segments != []
  {
    var head := segments[0];
    if |segments| == 1 then
      if |head| >= 2 && head[|head| - 2..] == "**" then [Bare(head[..|head| - 2])] + Feeds(n) else [Bare(head)]
    else (if head == "**" then Feeds(n) else [Bare(head)]) + Parts(segments[1..], n)
  }

  lemma {:induction false} PartsMatch(segments: seq<string>, n: nat)
    requires SegmentWise(segments)
    ensures Parts(segments, n) != [] && PathMatch(segments, Parts(segments, n))
    decreases |segments|
  {
    var head, parts := segments[0], Parts(segments, n);
    if |segments| == 1 {
      if OpenEnded(head) {
        var p := head[..|head| - 2];
        BareMatches(p);
        assert parts[0] == Bare(p) && parts[0][..|Bare(p)|] == Bare(p);
      } else {
        BareMatches(head);
        PlainNotStarred(head);
      }
    } else {
      var rest := segments[1..];
      RestSegments(segments);
      PartsMatch(rest, n);
      if head == "**" {
        assert parts[n..] == Parts(rest, n);
      } else {
        BareMatches(head);
        assert parts[1..] == Parts(rest, n);
      }
    }
  }

  lemma {:induction false} PlainNotStarred(segment: string)
    requires Plain(segment)
    ensures |segment| >= 2 ==> segment[|segment| - 2..] != "**"
  {
    var n := |segment|;
    if n >= 2 {
      assert segment[n - 2] != '*' || segment[n - 1] != '*';
      assert segment[n - 2..] == [segment[n - 2], segment[n - 1]];
    }
  }

  lemma {:induction false} PartsBroken(segments: seq<string>, n: nat)
    requires SegmentWise(segments) && exists segment :: segment in segments && !Plain(segment)
    ensures Broken(Parts(segments, n)) >= n
    decreases |segments|
  {
    var head := segments[0];
    FeedsBroken(n);
    if |segments| == 1 {
      assert segments == [head];
      BrokenAppend([Bare(head[..|head| - 2])], Feeds(n));
    } else {
      var rest := segments[1..];
      RestSegments(segments);
      assert segments == [head] + rest;
      if head == "**" {
        BrokenAppend(Feeds(n), Parts(rest, n));
      } else {
        PartsBroken(rest, n);
        BrokenAppend([Bare(head)], Parts(rest, n));
      }
    }
  }

  ghost predicate Clean(segments: seq<string>, c: char) {
    forall segment :: segment in segments ==> c !in segment
  }

  lemma {:induction false} PartsClean(segments: seq<string>, n: nat, c: char)
    requires segments != [] && Clean(segments, c) && c != '\n'
    ensures Clean(Parts(segments, n), c)
    decreases |segments|
  {
    var head := segments[0];
    assert head in segments;
    if |segments| > 1 {
      assert Clean(segments[1..], c);
      PartsClean(segments[1..], n, c);
    }
  }

  lemma {:induction false} JoinClean(parts: seq<string>, c: char)
    requires parts != [] && Clean(parts, c) && c != '/'
    ensures c !in Join('/', parts)
  {
    assert parts[0] in parts;
    if |parts| > 1 {
      assert Clean(parts[1..], c);
      JoinClean(parts[1..], c);
    }
  }

  /** Every text without backslashes is the normal form of some path. */
  lemma {:induction false} NormalPath(s: string)
    requires '\\' !in s
    ensures Normalize("./" + s) == s
  {
    var path := "./" + s;
    assert Slashes(path) == path by {
      assert forall i :: 0 <= i < |path| ==> path[i] != '\\' by {
        assert forall i :: 2 <= i < |path| ==> path[i] in s;
      }
    }
    assert path[..2] == "./" && path[2..] == s;
  }

  /** A text holds `**` only inside one of its segments. */
  lemma {:induction false} StarsInSegment(p: string)
    requires forall segment :: segment in Split('/', p) ==> Plain(segment)
    ensures Plain(p)
    decreases |p|
  {
    var f := FirstPart(p);
    var first := p[..f];
    assert Split('/', p)[0] in Split('/', p) && Plain(first);
    if f < |p| {
      var rest := p[f + 1..];
      StarsInSegment(rest);
      forall i | 0 <= i < |p| - 1 ensures p[i] != '*' || p[i + 1] != '*' {
        if i + 1 < f {
          assert first[i] == p[i] && first[i + 1] == p[i + 1];
        } else if i > f {
          assert rest[i - f - 1] == p[i] && rest[i - f] == p[i + 1];
        }
      }
    } else {
      assert first == p;
    }
  }

  /** A path that matches segment by segment and is rejected, for any pattern with `**`. */
  function Counterexample(p: string): string {
    var segments := Split('/', p);
    if segments == [] then "" else "./" + Join('/', Parts(segments, |segments| + 1))
  }

  lemma {:induction false} CounterexampleParts(p: string)
    requires SegmentWise(Split('/', p)) && '\\' !in p
    ensures Split('/', Normalize(Counterexample(p))) == Parts(Split('/', p), |Split('/', p)| + 1)
  {
    var segments := Split('/', p);
    var n := |segments| + 1;
    var parts := Parts(segments, n);
    PartsMatch(segments, n);
    SegmentsClean(p);
    PartsClean(segments, n, '/');
    PartsClean(segments, n, '\\');
    JoinClean(parts, '\\');
    NormalPath(Join('/', parts));
    assert forall i :: 0 <= i < |parts| ==> parts[i] in parts;
    SplitJoin('/', parts);
  }

  lemma {:induction false} SegmentsClean(p: string)
    requires '\\' !in p
    ensures Clean(Split('/', p), '/') && Clean(Split('/', p), '\\')
    decreases |p|
  {
    var f := FirstPart(p);
    if f < |p| {
      SegmentsClean(p[f + 1..]);
    }
  }

  lemma {:induction false} NormalHasNoBackslash(pattern: string)
    ensures '\\' !in Normalize(pattern)
  {
  }

  lemma {:induction false} CounterexampleMatches(p: string)
    requires SegmentWise(Split('/', p)) && '\\' !in p
    ensures PathMatch(Split('/', p), Split('/', Normalize(Counterexample(p))))
  {
    CounterexampleParts(p);
    PartsMatch(Split('/', p), |Split('/', p)| + 1);
  }

  lemma {:induction false} CounterexampleBroken(p: string)
    requires SegmentWise(Split('/', p)) && '\\' !in p && !Plain(p)
    ensures Broken(Split('/', Normalize(Counterexample(p)))) > |Split('/', p)|
  {
    CounterexampleParts(p);
    var segment := StarredSegment(p);
    PartsBroken(Split('/', p), |Split('/', p)| + 1);
  }

  lemma {:induction false} StarredSegment(p: string) returns (segment: string)
    requires !Plain(p)
    ensures segment in Split('/', p) && !Plain(segment)
  {
    if forall segment :: segment in Split('/', p) ==> Plain(segment) {
      StarsInSegment(p);
    }
    segment :| segment in Split('/', p) && !Plain(segment);
  }

  lemma {:induction false} CounterexampleRejected(p: string, s: string)
    requires SegmentWise(Split('/', p)) && '\\' !in p && Broken(Split('/', s)) > |Split('/', p)|
    ensures !Accepts(Tokens(p), s)
  {
    var segments := Split('/', p);
    JoinSplit('/', p);
    SegmentsClean(p);
    assert SlashFree(segments) by {
      assert forall i :: 0 <= i < |segments| ==> segments[i] in segments;
    }
    if Accepts(Tokens(p), s) {
      FewBroken(segments, s);
    }
  }

  lemma {:induction false} CounterexampleFails(pattern: string)
    requires SegmentWise(Split('/', Normalize(pattern))) && !Plain(Normalize(pattern))
    ensures !AnswersBySegments(Counterexample(Normalize(pattern)), pattern)
  {
    var p := Normalize(pattern);
    var path := Counterexample(p);
    NormalHasNoBackslash(pattern);
    CounterexampleMatches(p);
    CounterexampleBroken(p);
    CounterexampleRejected(p, Normalize(path));
    TestIsAccepts(path, pattern);
  }

  /** The segment-wise patterns answered by segments on every path are those without `**`. */
  lemma {:induction false} DoubleStarExact(pattern: string)
    requires SegmentWise(Split('/', Normalize(pattern)))
    ensures (forall path :: AnswersBySegments(path, pattern)) <==> Plain(Normalize(pattern))
  {
    if Plain(Normalize(pattern)) {
      forall path ensures AnswersBySegments(path, pattern) {
        GlobMatchesBySegments(path, pattern);
      }
    } else {
      CounterexampleFails(pattern);
    }
  }
}
