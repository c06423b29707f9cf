/**
 The reading of a glob segment by segment, and its agreement with the compiled expression.
 A pattern is read this way when `**` stands alone in every segment but the last, and in the
 last one only at its end.
 */
module GlobSegments {
  import opened Sequences
  import opened Regex
  import opened Text
  import opened Glob
  import opened GlobLanguage

  /** `*` stands for any run of characters, every other character for itself. */
  ghost predicate WildMatch(segment: string, t: string) {
    if segment == [] then t == []
    else if segment[0] == '*' then exists k :: 0 <= k <= |t| && WildMatch(segment[1..], t[k..])
    else t != [] && t[0] == segment[0] && WildMatch(segment[1..], t[1..])
  }

  /** No `**` inside. */
  ghost predicate Plain(segment: string) {
    forall i :: 0 <= i < |segment| - 1 ==> segment[i] != '*' || segment[i + 1] != '*'
  }

  /** A plain segment followed by `**`. */
  ghost predicate OpenEnded(segment: string) {
    && |segment| >= 2 && segment[|segment| - 2..] == "**"
    && Plain(segment[..|segment| - 1])
  }

  ghost predicate SegmentWise(segments: seq<string>) {
    && segments != []
    && (forall i :: 0 <= i < |segments| - 1 ==> segments[i] == "**" || Plain(segments[i]))
    && (Plain(segments[|segments| - 1]) || OpenEnded(segments[|segments| - 1]))
  }

  /**
   `**` as a segment skips any number of whole path segments; a final `**` accepts any remainder;
   every other segment matches one path segment.
   */
  ghost predicate PathMatch(segments: seq<string>, parts: seq<string>)
    requires segments != [] && parts != []
    decreases |segments|
  {
    var head := segments[0];
    if |segments| == 1 then
      if OpenEnded(head)
      then exists k :: 0 <= k <= |parts[0]| && WildMatch(head[..|head| - 2], parts[0][..k])
      else |parts| == 1 && WildMatch(head, parts[0])
    else if head == "**" then exists n :: 0 <= n < |parts| && PathMatch(segments[1..], parts[n..])
    else |parts| >= 2 && WildMatch(head, parts[0]) && PathMatch(segments[1..], parts[1..])
  }

  // ---- Tokens of a segment ----

  function HeadOf(c: char): Token {
    if c == '*' then Wild else Lit(c)
  }

  /** Outside `**` the tokens follow the characters. */
  lemma {:induction false} SingleStep(s: string)
    requires s != [] && (s[0] != '*' || |s| == 1 || s[1] != '*')
    ensures Tokens(s) == [HeadOf(s[0])] + Tokens(s[1..])
  {
  }

  lemma {:induction false} TokensAppend(p: string, rest: string)
    requires Plain(p)
    requires p == [] || rest == [] || p[|p| - 1] != '*' || rest[0] != '*'
    ensures Tokens(p + rest) == Tokens(p) + Tokens(rest)
  {
    if p == [] {
      assert p + rest == rest;
    } else {
      TokensAppend(p[1..], rest);
      TokensCons(p[0], p[1..], rest);
      assert p == [p[0]] + p[1..];
    }
  }

  lemma {:induction false} TokensCons(c: char, tail: string, rest: string)
    requires c != '*' || tail == [] || tail[0] != '*'
    requires c != '*' || tail + rest == [] || (tail + rest)[0] != '*'
    requires Tokens(tail + rest) == Tokens(tail) + Tokens(rest)
    ensures Tokens([c] + tail + rest) == Tokens([c] + tail) + Tokens(rest)
  {
    Assoc([c], tail, rest);
    Assoc([HeadOf(c)], Tokens(tail), Tokens(rest));
  }

  lemma {:induction false} AcceptsThenWild(segment: string, ts: seq<Token>, s: string, i: nat) returns (k: nat)
    requires Plain(segment) && '/' !in segment && i <= |s|
    requires Accepts(Tokens(segment) + ts, s[i..])
    ensures i <= k <= |s| && '/' !in s[i..k] && WildMatch(segment, s[i..k]) && Accepts(ts, s[k..])
    decreases |segment|
  {
    if segment == [] {
      k := i;
      assert Tokens(segment) + ts == ts;
    } else {
      var m := HeadToken(segment, ts);
      var l := AcceptsConsumes(Tokens(segment) + ts, s, i);
      k := AcceptsThenWild(segment[1..], ts, s, l);
      assert s[i..k] == s[i..l] + s[l..k];
      assert s[i..k][l - i..] == s[l..k];
    }
  }

  /** The stretch the first character of a segment takes. */
  lemma {:induction false} WildHead(segment: string, s: string, i: nat, k: nat) returns (l: nat)
    requires segment != [] && '/' !in segment && i <= k <= |s|
    requires '/' !in s[i..k] && WildMatch(segment, s[i..k])
    ensures i <= l <= k && WildMatch(segment[1..], s[l..k]) && Consumes(HeadOf(segment[0]), s, i, l)
  {
    var t := s[i..k];
    if segment[0] == '*' {
      var n :| 0 <= n <= |t| && WildMatch(segment[1..], t[n..]);
      l := i + n;
      assert s[i..l] == t[..n] && t[n..] == s[l..k];
    } else {
      l := i + 1;
      assert t[1..] == s[l..k];
    }
  }

  lemma {:induction false} WildThenAccepts(segment: string, ts: seq<Token>, s: string, i: nat, k: nat)
    requires Plain(segment) && '/' !in segment && i <= k <= |s|
    requires '/' !in s[i..k] && WildMatch(segment, s[i..k]) && Accepts(ts, s[k..])
    ensures Accepts(Tokens(segment) + ts, s[i..])
    decreases |segment|
  {
    if segment == [] {
      assert Tokens(segment) + ts == ts;
    } else {
      var m := HeadToken(segment, ts);
      var l := WildHead(segment, s, i, k);
      assert forall c :: c in s[l..k] ==> c in s[i..k];
      WildThenAccepts(segment[1..], ts, s, l, k);
      ConsumesAccepts(Tokens(segment) + ts, s, i, l);
    }
  }

  /** The first token of a plain segment. */
  lemma {:induction false} HeadToken(segment: string, ts: seq<Token>) returns (t: Token)
    requires Plain(segment) && segment != []
    ensures t == HeadOf(segment[0])
    ensures Tokens(segment) + ts != [] && (Tokens(segment) + ts)[0] == t
    ensures (Tokens(segment) + ts)[1..] == Tokens(segment[1..]) + ts
    ensures Plain(segment[1..])
  {
    t := HeadOf(segment[0]);
    SingleStep(segment);
  }

  // ---- Parts of a path ----

  lemma {:induction false} SplitAt(s: string, k: nat)
    requires k <= |s| && '/' !in s[..k]
    requires k < |s| ==> s[k] == '/'
    ensures k < |s| ==> Split('/', s) == [s[..k]] + Split('/', s[k + 1..])
    ensures k == |s| ==> Split('/', s) == [s]
  {
    if k < |s| {
      var before, after := s[..k], s[k + 1..];
      assert s == before + ['/'] + after;
      SplitFirst('/', before, after);
    } else {
      SplitFirst('/', s, []);
      assert s[..k] == s;
    }
  }

  /** The first part is the stretch before the first slash. */
  lemma {:induction false} FirstPart(s: string) returns (k: nat)
    ensures k <= |s| && '/' !in s[..k] && (k < |s| ==> s[k] == '/')
    ensures forall i :: 0 <= i < k ==> s[i] != '/'
    ensures Split('/', s)[0] == s[..k]
    ensures if k < |s| then Split('/', s) == [s[..k]] + Split('/', s[k + 1..]) else Split('/', s) == [s]
  {
    k := 0;
    while k < |s| && s[k] != '/'
      invariant k <= |s| && '/' !in s[..k]
    {
      assert s[..k + 1] == s[..k] + [s[k]];
      k := k + 1;
    }
    SplitAt(s, k);
    assert k == |s| ==> s[..k] == s;
    assert forall i :: 0 <= i < k ==> s[i] in s[..k];
  }

  /** What follows a slash are the last parts, but not all of them. */
  lemma {:induction false} PartsAfterSlash(s: string, k: nat) returns (n: nat)
    requires k < |s| && s[k] == '/'
    ensures 0 < n < |Split('/', s)| && Split('/', s)[n..] == Split('/', s[k + 1..])
    decreases |s|
  {
    var f := FirstPart(s);
    if f >= k {
      n := 1;
      assert f == k;
      assert Split('/', s)[1..] == Split('/', s[k + 1..]);
    } else {
      var rest := s[f + 1..];
      var m := PartsAfterSlash(rest, k - f - 1);
      n := m + 1;
      assert rest[k - f - 1 + 1..] == s[k + 1..];
      assert Split('/', s)[1..][m..] == Split('/', s)[n..];
    }
  }

  lemma {:induction false} SlashBeforeParts(s: string, n: nat) returns (k: nat)
    requires 0 < n < |Split('/', s)|
    ensures k < |s| && s[k] == '/' && Split('/', s)[n..] == Split('/', s[k + 1..])
    decreases |s|
  {
    var f := FirstPart(s);
    var rest := s[f + 1..];
    if n == 1 {
      k := f;
      assert Split('/', s)[1..] == Split('/', rest);
    } else {
      var m := SlashBeforeParts(rest, n - 1);
      k := f + 1 + m;
      assert rest[m + 1..] == s[k + 1..];
      assert Split('/', s)[n..] == Split('/', rest)[n - 1..];
    }
  }

  // ---- Agreement ----

  lemma {:induction false} LastPlain(segment: string, s: string)
    requires Plain(segment) && '/' !in segment
    ensures Accepts(Tokens(segment), s) <==> PathMatch([segment], Split('/', s))
  {
    assert s[0..] == s && Tokens(segment) + [] == Tokens(segment);
    PlainNotOpen(segment);
    if Accepts(Tokens(segment), s) {
      var k := AcceptsThenWild(segment, [], s, 0);
      assert s[0..k] == s;
      SplitAt(s, |s|);
    }
    if PathMatch([segment], Split('/', s)) {
      JoinSplit('/', s);
      assert Split('/', s)[0] == s;
      assert s[0..|s|] == s;
      WildThenAccepts(segment, [], s, 0, |s|);
    }
  }

  lemma {:induction false} StarsNotPlain(stars: string)
    requires stars == "**"
    ensures !Plain(stars) && OpenEnded(stars)
    ensures Normalize(stars) == stars && Split('/', stars) == [stars] && Tokens(stars) == [Deep]
  {
    assert stars[0] == '*' && stars[1] == '*';
    assert Slashes(stars) == stars;
    SplitFirst('/', stars, "");
    assert stars[2..] == "";
  }

  lemma {:induction false} PlainNotOpen(segment: string)
    requires Plain(segment)
    ensures !OpenEnded(segment)
  {
    var n := |segment|;
    if n >= 2 {
      assert segment[n - 2] != '*' || segment[n - 1] != '*';
      assert segment[n - 2..] == [segment[n - 2], segment[n - 1]];
    }
  }

  /** A slash-free prefix of s is a prefix of its first part. */
  lemma {:induction false} PrefixOfFirst(s: string, k: nat)
    requires k <= |s| && '/' !in s[..k]
    ensures k <= |Split('/', s)[0]| && Split('/', s)[0][..k] == s[..k]
  {
    var f := FirstPart(s);
    assert forall i :: 0 <= i < k ==> s[i] in s[..k];
    assert s[..f][..if k <= f then k else f] == s[..if k <= f then k else f];
  }

  lemma {:induction false} FirstIsPrefix(s: string, k: nat)
    requires k <= |Split('/', s)[0]|
    ensures k <= |s| && '/' !in s[..k] && Split('/', s)[0][..k] == s[..k]
  {
    var f := FirstPart(s);
    assert s[..f][..k] == s[..k];
  }

  lemma {:induction false} OpenAccepted(p: string, s: string) returns (k: nat)
    requires Plain(p) && '/' !in p && Accepts(Tokens(p) + [Deep], s)
    ensures k <= |Split('/', s)[0]| && WildMatch(p, Split('/', s)[0][..k])
  {
    assert s[0..] == s;
    k := AcceptsThenWild(p, [Deep], s, 0);
    assert s[0..k] == s[..k];
    PrefixOfFirst(s, k);
  }

  lemma {:induction false} AcceptedOpen(p: string, s: string, k: nat)
    requires Plain(p) && '/' !in p && NoTerminators(s)
    requires k <= |Split('/', s)[0]| && WildMatch(p, Split('/', s)[0][..k])
    ensures Accepts(Tokens(p) + [Deep], s)
  {
    FirstIsPrefix(s, k);
    assert s[0..] == s && s[0..k] == s[..k];
    DeepAcceptsAll(s[k..]);
    WildThenAccepts(p, [Deep], s, 0, k);
  }

  lemma {:induction false} LastOpen(segment: string, s: string)
    requires OpenEnded(segment) && '/' !in segment && NoTerminators(s)
    ensures Accepts(Tokens(segment), s) <==> PathMatch([segment], Split('/', s))
  {
    var p, first := segment[..|segment| - 2], Split('/', s)[0];
    OpenTokens(segment);
    if Accepts(Tokens(segment), s) {
      var k := OpenAccepted(p, s);
    }
    if k :| 0 <= k <= |first| && WildMatch(p, first[..k]) {
      AcceptedOpen(p, s, k);
    }
  }

  lemma {:induction false} OpenTokens(segment: string)
    requires OpenEnded(segment)
    ensures var p := segment[..|segment| - 2]; Plain(p) && Tokens(segment) == Tokens(p) + [Deep]
    ensures forall c :: c in segment[..|segment| - 2] ==> c in segment
  {
    var n := |segment|;
    var p := segment[..n - 2];
    assert segment == p + "**";
    forall i | 0 <= i < |p| - 1 ensures p[i] != '*' || p[i + 1] != '*' {
      assert segment[..n - 1][i] == p[i] && segment[..n - 1][i + 1] == p[i + 1];
    }
    if p != [] {
      assert segment[..n - 1][n - 3] == p[n - 3] && segment[..n - 1][n - 2] == '*';
    }
    TokensAppend(p, "**");
    assert Tokens("**") == [Deep] + Tokens("**"[2..]);
  }

  lemma {:induction false} DeepAcceptsAll(s: string)
    requires NoTerminators(s)
    ensures Accepts([Deep], s)
  {
    assert s[|s|..] == [] && s[..|s|] == s;
    assert [Deep][1..] == [] && Accepts([Deep][1..], s[|s|..]);
  }

  /** The tokens ts and the segments rest agree on every suffix of s. */
  ghost predicate AgreeOn(ts: seq<Token>, rest: seq<string>, s: string)
    requires rest != []
  {
    forall k :: 0 <= k <= |s| ==> (Accepts(ts, s[k..]) <==> PathMatch(rest, Split('/', s[k..])))
  }

  /** A plain segment that is not the last one. */
  lemma {:induction false} InnerPlain(segment: string, ts: seq<Token>, rest: seq<string>, s: string)
    requires Plain(segment) && '/' !in segment && rest != [] && AgreeOn(ts, rest, s)
    ensures Accepts(Tokens(segment) + ([Lit('/')] + ts), s) <==>
            && |Split('/', s)| >= 2 && WildMatch(segment, Split('/', s)[0])
            && PathMatch(rest, Split('/', s)[1..])
  {
    var f := FirstPart(s);
    var after := [Lit('/')] + ts;
    assert s[0..] == s && s[0..f] == s[..f];
    if Accepts(Tokens(segment) + after, s) {
      var k := AcceptsThenWild(segment, after, s, 0);
      assert forall i :: 0 <= i < k ==> s[i] in s[0..k];
      assert f == k;
    }
    if f < |s| {
      assert Split('/', s)[1..] == Split('/', s[f + 1..]);
      assert Accepts(ts, s[f + 1..]) <==> PathMatch(rest, Split('/', s[f + 1..]));
      if WildMatch(segment, s[..f]) && Accepts(ts, s[f + 1..]) {
        WildThenAccepts(segment, after, s, 0, f);
      }
    }
  }

  lemma {:induction false} DeepSkips(ts: seq<Token>, rest: seq<string>, s: string) returns (n: nat)
    requires rest != [] && AgreeOn(ts, rest, s) && Accepts([DeepDir] + ts, s)
    ensures n < |Split('/', s)| && PathMatch(rest, Split('/', s)[n..])
  {
    assert ([DeepDir] + ts)[1..] == ts;
    if Accepts(ts, s) {
      n := 0;
      assert s[0..] == s && Split('/', s)[0..] == Split('/', s);
    } else {
      var k :| 0 <= k < |s| && s[k] == '/' && NoTerminators(s[..k]) && Accepts(ts, s[k + 1..]);
      n := PartsAfterSlash(s, k);
    }
  }

  lemma {:induction false} SkipsDeep(ts: seq<Token>, rest: seq<string>, s: string, n: nat)
    requires rest != [] && AgreeOn(ts, rest, s) && NoTerminators(s)
    requires n < |Split('/', s)| && PathMatch(rest, Split('/', s)[n..])
    ensures Accepts([DeepDir] + ts, s)
  {
    assert ([DeepDir] + ts)[1..] == ts;
    if n == 0 {
      assert s[0..] == s && Split('/', s)[0..] == Split('/', s);
    } else {
      var k := SlashBeforeParts(s, n);
      assert NoTerminators(s[..k]) && Accepts(ts, s[k + 1..]);
    }
  }

  /** A `**` that is not the last segment. */
  lemma {:induction false} InnerDeep(ts: seq<Token>, rest: seq<string>, s: string)
    requires rest != [] && NoTerminators(s) && AgreeOn(ts, rest, s)
    ensures Accepts([DeepDir] + ts, s) <==>
            exists n :: 0 <= n < |Split('/', s)| && PathMatch(rest, Split('/', s)[n..])
  {
    if Accepts([DeepDir] + ts, s) {
      var n := DeepSkips(ts, rest, s);
    }
    if n :| 0 <= n < |Split('/', s)| && PathMatch(rest, Split('/', s)[n..]) {
      SkipsDeep(ts, rest, s, n);
    }
  }

  ghost predicate SlashFree(segments: seq<string>) {
    forall i :: 0 <= i < |segments| ==> '/' !in segments[i]
  }

  lemma {:induction false} SlashTokens(segment: string, rest: string)
    requires Plain(segment)
    ensures Tokens(segment + ['/'] + rest) == Tokens(segment) + ([Lit('/')] + Tokens(rest))
  {
    var after := ['/'] + rest;
    assert after[1..] == rest && segment + ['/'] + rest == segment + after;
    TokensAppend(segment, after);
  }

  /** The segments can be read on s: only `**` minds line terminators. */
  ghost predicate ReadableOn(segments: seq<string>, s: string) {
    && SegmentWise(segments) && SlashFree(segments)
    && (NoTerminators(s) || forall segment :: segment in segments ==> Plain(segment))
  }

  lemma {:induction false} RestReadable(segments: seq<string>, s: string, k: nat)
    requires ReadableOn(segments, s) && |segments| > 1 && k <= |s|
    ensures ReadableOn(segments[1..], s[k..])
  {
    var rest := segments[1..];
    assert rest[|rest| - 1] == segments[|segments| - 1];
    assert forall i :: 0 <= i < |rest| ==> rest[i] == segments[i + 1];
  }

  lemma {:induction false} LastAgrees(segment: string, s: string)
    requires ReadableOn([segment], s)
    ensures Accepts(Tokens(segment), s) <==> PathMatch([segment], Split('/', s))
  {
    assert segment in [segment] && [segment][0] == segment;
    if Plain(segment) {
      LastPlain(segment, s);
    } else {
      LastOpen(segment, s);
    }
  }

  lemma {:induction false} FirstAgrees(segments: seq<string>, ts: seq<Token>, s: string)
    requires ReadableOn(segments, s) && |segments| > 1
    requires ts == Tokens(Join('/', segments[1..])) && AgreeOn(ts, segments[1..], s)
    ensures Accepts(Tokens(segments[0] + ['/'] + Join('/', segments[1..])), s) <==> PathMatch(segments, Split('/', s))
  {
    var rest := segments[1..];
    assert segments[0] in segments;
    if Plain(segments[0]) {
      NotStars(segments[0]);
      SlashTokens(segments[0], Join('/', rest));
      InnerPlain(segments[0], ts, rest, s);
    } else {
      DeepTokens(segments[0], Join('/', rest));
      InnerDeep(ts, rest, s);
    }
  }

  lemma {:induction false} NotStars(segment: string)
    requires Plain(segment)
    ensures segment != "**"
  {
    assert |segment| >= 2 ==> segment[0] != '*' || segment[1] != '*';
  }

  lemma {:induction false} DeepTokens(stars: string, rest: string)
    requires stars == "**"
    ensures Tokens(stars + ['/'] + rest) == [DeepDir] + Tokens(rest)
  {
    assert (stars + ['/'] + rest)[3..] == rest;
  }

  lemma {:induction false} SegmentsAgree(segments: seq<string>, s: string)
    requires ReadableOn(segments, s)
    ensures Accepts(Tokens(Join('/', segments)), s) <==> PathMatch(segments, Split('/', s))
    decreases |segments|
  {
    if |segments| == 1 {
      assert segments == [segments[0]];
      LastAgrees(segments[0], s);
    } else {
      var rest := segments[1..];
      var ts := Tokens(Join('/', rest));
      forall k | 0 <= k <= |s| ensures Accepts(ts, s[k..]) <==> PathMatch(rest, Split('/', s[k..])) {
        RestReadable(segments, s, k);
        SegmentsAgree(rest, s[k..]);
      }
      assert Join('/', segments) == segments[0] + ['/'] + Join('/', rest);
      FirstAgrees(segments, ts, s);
    }
  }

  /** No segment of a text without `**` holds one. */
  lemma {:induction false} PlainSegments(pattern: string)
    requires Plain(pattern)
    ensures forall segment :: segment in Split('/', pattern) ==> Plain(segment)
    decreases |pattern|
  {
    var f := FirstPart(pattern);
    assert Plain(pattern[..f]);
    if f < |pattern| {
      var rest := pattern[f + 1..];
      forall i | 0 <= i < |rest| - 1 ensures rest[i] != '*' || rest[i + 1] != '*' {
        assert rest[i] == pattern[f + 1 + i] && rest[i + 1] == pattern[f + 1 + i + 1];
      }
      PlainSegments(rest);
    }
  }

  /** The expression compiled from the pattern, parsed and tested on the path, answers as the segments do. */
  ghost predicate AnswersBySegments(path: string, pattern: string) {
    var re := Parse("^" + Emit(Tokens(Normalize(pattern))) + "$");
    && re.Some?
    && (Test(re.value, Normalize(path)) <==> PathMatch(Split('/', Normalize(pattern)), Split('/', Normalize(path))))
  }

  lemma {:induction false} TestIsAccepts(path: string, pattern: string)
    ensures var re := Parse("^" + Emit(Tokens(Normalize(pattern))) + "$");
            re.Some? && (Test(re.value, Normalize(path)) <==> Accepts(Tokens(Normalize(pattern)), Normalize(path)))
  {
    TokensStarFree(Normalize(pattern));
    EmittedTextParses(Tokens(Normalize(pattern)));
    CompiledLanguage(Tokens(Normalize(pattern)), Normalize(path));
  }

  /**
   Compilation preserves meaning: the parsed expression of a segment-wise pattern accepts exactly the
   paths that match segment by segment, unless the pattern holds `**` and the path a line terminator.
   */
  lemma {:induction false} GlobMatchesBySegments(path: string, pattern: string)
    requires SegmentWise(Split('/', Normalize(pattern)))
    requires NoTerminators(Normalize(path)) || Plain(Normalize(pattern))
    ensures AnswersBySegments(path, pattern)
  {
    var p := Normalize(pattern);
    TestIsAccepts(path, pattern);
    JoinSplit('/', p);
    if Plain(p) {
      PlainSegments(p);
    }
    SegmentsAgree(Split('/', p), Normalize(path));
  }
}
