/**
 Correctness of the glob compiler (scripts/test-feedback/cache-key.ts): the text it writes parses
 to the intended tree, and that tree accepts what the tokens of the glob accept.
 */
module GlobLanguage {
  import opened Wrappers
  import opened Regex
  import opened Glob

  /** Compile, parse, test: what turboGlobMatches answers. */
  method TurboGlobMatches(path: string, pattern: string) returns (b: bool)
    ensures b <==> Accepts(Tokens(Normalize(pattern)), Normalize(path))
  {
    var expression := CompileGlob(Normalize(pattern));
    var re := Parse(expression);
    TokensStarFree(Normalize(pattern));
    EmittedTextParses(Tokens(Normalize(pattern)));
    CompiledLanguage(Tokens(Normalize(pattern)), Normalize(path));
    b := Test(re.value, Normalize(path));
  }

  // ---- The emitted text parses to the intended tree ----

  function TokenRe(t: Token): Re {
    match t
    case DeepDir => Opt(Cat(Star(Dot), Cat(Chr('/'), Empty)))
    case Deep => Star(Dot)
    case Wild => Star(NotIn("/"))
    case Lit(c) => Chr(c)
  }

  function TokensRe(ts: seq<Token>): Re {
    if ts == [] then Cat(End, Empty) else Cat(TokenRe(ts[0]), TokensRe(ts[1..]))
  }

  /** Each token's text is one term, whatever follows, as long as no quantifier does. */
  lemma {:induction false} TermOfToken(t: Token, rest: string)
    requires t.Lit? ==> t.c != '*'
    requires !StartsQuantifier(rest)
    ensures TokenText(t) != [] && TokenText(t)[0] != ')' && !StartsQuantifier(TokenText(t) + rest)
    ensures ParseTerm(TokenText(t) + rest) == Some(Parsed(TokenRe(t), rest))
  {
    match t
    case DeepDir =>
      DirectoriesText(rest);
    case Deep =>
      var s := ".*" + rest;
      assert s[1..] == "*" + rest && s[1..][1..] == rest;
    case Wild =>
      WildText(rest);
    case Lit(c) =>
      var s := TokenText(t) + rest;
      if c in "|\\{}()[]^$+?." {
        assert s[2..] == rest && s[1] == c;
      } else {
        assert s[1..] == rest;
      }
  }

  lemma {:induction false} WildText(rest: string)
    requires !StartsQuantifier(rest)
    ensures ParseTerm("[^/]*" + rest) == Some(Parsed(TokenRe(Wild), rest))
  {
    var s := "[^/]*" + rest;
    var inner := s[2..];
    assert inner == "/]*" + rest && inner[1..] == "]*" + rest;
    assert ClassLength(inner[1..]) == 0;
    assert ClassLength(inner) == 1;
    assert inner[..1] == "/" && inner[2..] == "*" + rest && inner[2..][1..] == rest;
  }

  lemma {:induction false} TermsCons(term: Re, s: string, rest: string, more: Parsed)
    requires s != [] && s[0] != ')'
    requires ParseTerm(s) == Some(Parsed(term, rest)) && ParseTerms(rest) == Some(more)
    ensures ParseTerms(s) == Some(Parsed(Cat(term, more.re), more.rest))
  {
  }

  lemma {:induction false} DirectoriesText(rest: string)
    requires !StartsQuantifier(rest)
    ensures ParseTerm("(?:.*/)?" + rest) == Some(Parsed(TokenRe(DeepDir), rest))
  {
    var body, close := ".*/)?" + rest, ")?" + rest;
    DotStarTerms(body, "/)?" + rest, close);
    GroupTerm("(?:.*/)?" + rest, body, close, rest, Cat(Star(Dot), Cat(Chr('/'), Empty)));
  }

  /** The end of the group is no term. */
  lemma {:induction false} SlashTerms(slash: string, close: string)
    requires slash == ['/'] + close && close != [] && close[0] == ')'
    ensures ParseTerms(slash) == Some(Parsed(Cat(Chr('/'), Empty), close))
  {
    assert slash[1..] == close;
    TermsCons(Chr('/'), slash, close, Parsed(Empty, close));
  }

  lemma {:induction false} DotStarTerms(body: string, slash: string, close: string)
    requires body == ".*" + slash && slash == ['/'] + close && close != [] && close[0] == ')'
    ensures ParseTerms(body) == Some(Parsed(Cat(Star(Dot), Cat(Chr('/'), Empty)), close))
  {
    SlashTerms(slash, close);
    assert body[1..] == ['*'] + slash && body[1..][1..] == slash;
    TermsCons(Star(Dot), body, slash, Parsed(Cat(Chr('/'), Empty), close));
  }

  lemma {:induction false} GroupTerm(s: string, body: string, close: string, rest: string, inner: Re)
    requires s == "(?:" + body && close == ")?" + rest && !StartsQuantifier(rest)
    requires ParseTerms(body) == Some(Parsed(inner, close))
    ensures ParseTerm(s) == Some(Parsed(Opt(inner), rest))
  {
    assert s[3..] == body;
    assert close[1..] == ['?'] + rest && close[1..][1..] == rest;
  }

  lemma {:induction false} TermsOfTokens(ts: seq<Token>)
    requires StarFree(ts)
    ensures !StartsQuantifier(Emit(ts) + "$")
    ensures ParseTerms(Emit(ts) + "$") == Some(Parsed(TokensRe(ts), ""))
  {
    if ts == [] {
      assert "$"[1..] == "";
      TermsCons(End, "$", "", Parsed(Empty, ""));
    } else {
      TermsOfTokens(ts[1..]);
      TermOfToken(ts[0], Emit(ts[1..]) + "$");
      var tail := Emit(ts[1..]) + "$";
      assert Emit(ts) + "$" == TokenText(ts[0]) + tail;
      TermsCons(TokenRe(ts[0]), Emit(ts) + "$", tail, Parsed(TokensRe(ts[1..]), ""));
    }
  }

  /** Every compiled glob is a valid regular expression, and the expected one. */
  lemma {:induction false} EmittedTextParses(ts: seq<Token>)
    requires StarFree(ts)
    ensures Parse("^" + Emit(ts) + "$") == Some(Cat(Begin, TokensRe(ts)))
  {
    TermsOfTokens(ts);
    var s := "^" + Emit(ts) + "$";
    assert s[1..] == Emit(ts) + "$";
    TermsCons(Begin, s, s[1..], Parsed(TokensRe(ts), ""));
  }

  // ---- The tree's language is the tokens' language ----

  lemma {:induction false} StarDot(s: string, i: nat, j: nat)
    requires i <= j <= |s|
    ensures Match(Star(Dot), s, i, j) <==> NoTerminators(s[i..j])
    decreases j - i
  {
    if i < j {
      StarDot(s, i + 1, j);
      assert s[i..j] == [s[i]] + s[i + 1..j];
    }
  }

  lemma {:induction false} StarNotSlash(s: string, i: nat, j: nat)
    requires i <= j <= |s|
    ensures Match(Star(NotIn("/")), s, i, j) <==> '/' !in s[i..j]
    decreases j - i
  {
    if i < j {
      StarNotSlash(s, i + 1, j);
      assert s[i..j] == [s[i]] + s[i + 1..j];
    }
  }

  /** The stretch s[i..k] is one the token may consume. */
  ghost predicate Consumes(t: Token, s: string, i: nat, k: nat)
    requires i <= k <= |s|
  {
    match t
    case Lit(c) => k == i + 1 && s[i] == c
    case Wild => '/' !in s[i..k]
    case Deep => NoTerminators(s[i..k])
    case DeepDir => i == k || (i < k && s[k - 1] == '/' && NoTerminators(s[i..k - 1]))
  }

  lemma {:induction false} TokenLanguage(t: Token, s: string, i: nat, k: nat)
    requires i <= k <= |s|
    ensures Match(TokenRe(t), s, i, k) <==> Consumes(t, s, i, k)
  {
    match t
    case Lit(c) =>
    case Wild => StarNotSlash(s, i, k);
    case Deep => StarDot(s, i, k);
    case DeepDir => DirectoriesLanguage(s, i, k);
  }

  lemma {:induction false} DirectoriesLanguage(s: string, i: nat, j: nat)
    requires i <= j <= |s|
    ensures Match(TokenRe(DeepDir), s, i, j) <==> Consumes(DeepDir, s, i, j)
  {
    forall k | i <= k <= j
      ensures Match(Star(Dot), s, i, k) <==> NoTerminators(s[i..k])
      ensures Match(Cat(Chr('/'), Empty), s, k, j) <==> j == k + 1 && s[k] == '/'
    {
      StarDot(s, i, k);
      SlashLanguage(s, k, j);
    }
    if i < j {
      assert Match(Cat(Star(Dot), Cat(Chr('/'), Empty)), s, i, j) <==> s[j - 1] == '/' && NoTerminators(s[i..j - 1]);
    }
  }

  lemma {:induction false} SlashLanguage(s: string, i: nat, j: nat)
    requires i <= j <= |s|
    ensures Match(Cat(Chr('/'), Empty), s, i, j) <==> j == i + 1 && s[i] == '/'
  {
    if Match(Cat(Chr('/'), Empty), s, i, j) {
      var k := CatSplit(Chr('/'), Empty, s, i, j);
    }
    if j == i + 1 && s[i] == '/' {
      assert Match(Chr('/'), s, i, j) && Match(Empty, s, j, j);
    }
  }

  /** Accepting is consuming one stretch and accepting the rest. */
  lemma {:induction false} AcceptsStep(ts: seq<Token>, s: string, i: nat)
    requires ts != [] && i <= |s|
    ensures Accepts(ts, s[i..]) <==>
            exists k :: i <= k <= |s| && Consumes(ts[0], s, i, k) && Accepts(ts[1..], s[k..])
  {
    if Accepts(ts, s[i..]) {
      var k := AcceptsConsumes(ts, s, i);
    }
    if k :| i <= k <= |s| && Consumes(ts[0], s, i, k) && Accepts(ts[1..], s[k..]) {
      ConsumesAccepts(ts, s, i, k);
    }
  }

  lemma {:induction false} Slices(s: string, i: nat, k: nat)
    requires i <= k <= |s|
    ensures s[i..][k - i..] == s[k..] && s[i..][..k - i] == s[i..k]
  {
  }

  lemma {:induction false} AcceptsConsumes(ts: seq<Token>, s: string, i: nat) returns (k: nat)
    requires ts != [] && i <= |s| && Accepts(ts, s[i..])
    ensures i <= k <= |s| && Consumes(ts[0], s, i, k) && Accepts(ts[1..], s[k..])
  {
    var path := s[i..];
    match ts[0]
    case Lit(c) =>
      k := i + 1;
      Slices(s, i, k);
    case Wild =>
      var l :| 0 <= l <= |path| && '/' !in path[..l] && Accepts(ts[1..], path[l..]);
      k := i + l;
      Slices(s, i, k);
    case Deep =>
      var l :| 0 <= l <= |path| && NoTerminators(path[..l]) && Accepts(ts[1..], path[l..]);
      k := i + l;
      Slices(s, i, k);
    case DeepDir =>
      k := DirectoriesConsumed(ts, s, i);
  }

  lemma {:induction false} DirectoriesConsumed(ts: seq<Token>, s: string, i: nat) returns (k: nat)
    requires ts != [] && ts[0] == DeepDir && i <= |s| && Accepts(ts, s[i..])
    ensures i <= k <= |s| && Consumes(DeepDir, s, i, k) && Accepts(ts[1..], s[k..])
  {
    if Accepts(ts[1..], s[i..]) {
      k := i;
    } else {
      var l := DirectoriesTaken(ts, s[i..]);
      k := i + l + 1;
      assert s[i..][l + 1..] == s[k..];
      DirectoriesShifted(s, i, l);
    }
  }

  lemma {:induction false} DirectoriesTaken(ts: seq<Token>, path: string) returns (l: nat)
    requires ts != [] && ts[0] == DeepDir && Accepts(ts, path) && !Accepts(ts[1..], path)
    ensures l < |path| && path[l] == '/' && NoTerminators(path[..l]) && Accepts(ts[1..], path[l + 1..])
  {
    l :| 0 <= l < |path| && path[l] == '/' && NoTerminators(path[..l]) && Accepts(ts[1..], path[l + 1..]);
  }

  lemma {:induction false} DirectoriesShifted(s: string, i: nat, l: nat)
    requires i + l < |s| && s[i..][l] == '/' && NoTerminators(s[i..][..l])
    ensures Consumes(DeepDir, s, i, i + l + 1)
    ensures s[i..][l + 1..] == s[i + l + 1..]
  {
    Slices(s, i, i + l);
    Slices(s, i, i + l + 1);
  }

  lemma {:induction false} ConsumesAccepts(ts: seq<Token>, s: string, i: nat, k: nat)
    requires ts != [] && i <= k <= |s| && Consumes(ts[0], s, i, k) && Accepts(ts[1..], s[k..])
    ensures Accepts(ts, s[i..])
  {
    Slices(s, i, k);
    var path, l := s[i..], k - i;
    match ts[0]
    case Lit(c) => assert path[1..] == s[k..];
    case Wild => assert '/' !in path[..l] && Accepts(ts[1..], path[l..]);
    case Deep => assert NoTerminators(path[..l]) && Accepts(ts[1..], path[l..]);
    case DeepDir =>
      if i < k {
        Slices(s, i, k - 1);
        assert path[l - 1] == '/' && NoTerminators(path[..l - 1]) && Accepts(ts[1..], path[l - 1 + 1..]);
      }
  }

  lemma {:induction false} TokensLanguage(ts: seq<Token>, s: string, i: nat, j: nat)
    requires i <= j <= |s|
    ensures Match(TokensRe(ts), s, i, j) <==> j == |s| && Accepts(ts, s[i..])
    decreases |ts|
  {
    if ts == [] {
      EndLanguage(s, i, j);
    } else {
      forall k | i <= k <= j
        ensures Match(TokensRe(ts[1..]), s, k, j) <==> j == |s| && Accepts(ts[1..], s[k..])
        ensures Match(TokenRe(ts[0]), s, i, k) <==> Consumes(ts[0], s, i, k)
      {
        TokensLanguage(ts[1..], s, k, j);
        TokenLanguage(ts[0], s, i, k);
      }
      AcceptsStep(ts, s, i);
    }
  }

  lemma {:induction false} EndLanguage(s: string, i: nat, j: nat)
    requires i <= j <= |s|
    ensures Match(TokensRe([]), s, i, j) <==> j == |s| && s[i..] == []
  {
    assert Match(TokensRe([]), s, i, j) <==> i == j == |s| by {
      if i == j == |s| {
        assert Match(End, s, j, j) && Match(Empty, s, j, j);
      }
    }
  }

  /** The compiled expression accepts exactly the paths the tokens accept. */
  lemma {:induction false} CompiledLanguage(ts: seq<Token>, path: string)
    ensures Test(Cat(Begin, TokensRe(ts)), path) <==> Accepts(ts, path)
  {
    var re := Cat(Begin, TokensRe(ts));
    assert path[0..] == path;
    TokensLanguage(ts, path, 0, |path|);
    if Accepts(ts, path) {
      assert Match(Begin, path, 0, 0) && Match(TokensRe(ts), path, 0, |path|);
      assert Match(re, path, 0, |path|);
    }
    if Test(re, path) {
      var i, j :| 0 <= i <= j <= |path| && Match(re, path, i, j);
      var k := CatSplit(Begin, TokensRe(ts), path, i, j);
      TokensLanguage(ts, path, k, j);
    }
  }
}
