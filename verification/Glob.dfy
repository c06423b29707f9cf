/**
 The glob-to-regex compiler of the cache key (scripts/test-feedback/cache-key.ts): the tokens of a
 glob, the paths they accept, and the text of the regular expression that is emitted for them.
 */
module Glob {
  import opened Regex

  function Slashes(s: string): (r: string)
    ensures |r| == |s|
  {
    seq(|s|, i requires 0 <= i < |s| => if s[i] == '\\' then '/' else s[i])
  }

  function StripDot(s: string): string {
    if |s| >= 2 && s[..2] == "./" then s[2..] else s
  }

  function Normalize(s: string): string {
    StripDot(Slashes(s))
  }

  /** Backslashes become slashes, and one leading `./` (or `.\`) is taken off; nothing else changes. */
  lemma {:induction false} NormalizedAt(s: string, i: nat)
    ensures var skip := if |s| >= 2 && s[0] == '.' && (s[1] == '/' || s[1] == '\\') then 2 else 0;
            && |Normalize(s)| == |s| - skip
            && (i < |s| - skip ==> Normalize(s)[i] == if s[i + skip] == '\\' then '/' else s[i + skip])
  {
    var t := Slashes(s);
    if |s| >= 2 {
      assert t[..2] == [t[0], t[1]];
    }
  }

  function EscapeRegex(c: char): string {
    if c in "|\\{}()[]^$+?." then ['\\', c] else [c]
  }

  // ---- The tokens of a glob and their meaning ----

  datatype Token = DeepDir | Deep | Wild | Lit(c: char)

  function Tokens(pattern: string): seq<Token> {
    if pattern == [] then []
    else if pattern[0] != '*' then [Lit(pattern[0])] + Tokens(pattern[1..])
    else if |pattern| < 2 || pattern[1] != '*' then [Wild] + Tokens(pattern[1..])
    else if |pattern| < 3 || pattern[2] != '/' then [Deep] + Tokens(pattern[2..])
    else [DeepDir] + Tokens(pattern[3..])
  }

  /** A star never becomes a literal. */
  ghost predicate StarFree(ts: seq<Token>) {
    forall i :: 0 <= i < |ts| && ts[i].Lit? ==> ts[i].c != '*'
  }

  lemma {:induction false} TokensStarFree(pattern: string)
    ensures StarFree(Tokens(pattern))
  {
    if pattern != [] {
      var n := if pattern[0] != '*' || |pattern| < 2 || pattern[1] != '*' then 1
               else if |pattern| < 3 || pattern[2] != '/' then 2 else 3;
      TokensStarFree(pattern[n..]);
    }
  }

  ghost predicate NoTerminators(s: string) {
    forall i :: 0 <= i < |s| ==> !IsLineTerminator(s[i])
  }

  /** The paths a token list accepts, read from the left. */
  ghost predicate Accepts(ts: seq<Token>, path: string) {
    if ts == [] then path == []
    else match ts[0]
      case Lit(c) => path != [] && path[0] == c && Accepts(ts[1..], path[1..])
      case Wild => exists k :: 0 <= k <= |path| && '/' !in path[..k] && Accepts(ts[1..], path[k..])
      case Deep => exists k :: 0 <= k <= |path| && NoTerminators(path[..k]) && Accepts(ts[1..], path[k..])
      case DeepDir =>
        || Accepts(ts[1..], path)
        || exists k :: 0 <= k < |path| && path[k] == '/' && NoTerminators(path[..k]) && Accepts(ts[1..], path[k + 1..])
  }

  // ---- The compiler ----

  function TokenText(t: Token): string {
    match t
    case DeepDir => "(?:.*/)?"
    case Deep => ".*"
    case Wild => "[^/]*"
    case Lit(c) => EscapeRegex(c)
  }

  function Emit(ts: seq<Token>): string {
    if ts == [] then [] else TokenText(ts[0]) + Emit(ts[1..])
  }

  /** The loop over the normalized pattern, appending to the expression. */
  method CompileGlob(pattern: string) returns (expression: string)
    ensures expression == "^" + Emit(Tokens(pattern)) + "$"
  {
    expression := "^";
    var index := 0;
    while index < |pattern|
      invariant index <= |pattern|
      invariant expression + Emit(Tokens(pattern[index..])) == "^" + Emit(Tokens(pattern))
    {
      EmitStep(pattern, index, expression);
      var character := pattern[index];
      if character == '*' && index + 1 < |pattern| && pattern[index + 1] == '*' {
        if index + 2 < |pattern| && pattern[index + 2] == '/' {
          expression := expression + "(?:.*/)?";
          index := index + 2;
        } else {
          expression := expression + ".*";
          index := index + 1;
        }
      } else if character == '*' {
        expression := expression + "[^/]*";
      } else {
        expression := expression + EscapeRegex(character);
      }
      index := index + 1;
    }
    assert pattern[index..] == [];
    expression := expression + "$";
  }

  /** The token at an index and the text it adds. */
  function TokenAt(pattern: string, index: nat): (Token, nat)
    requires index < |pattern|
  {
    if pattern[index] != '*' then (Lit(pattern[index]), 1)
    else if index + 1 >= |pattern| || pattern[index + 1] != '*' then (Wild, 1)
    else if index + 2 >= |pattern| || pattern[index + 2] != '/' then (Deep, 2)
    else (DeepDir, 3)
  }

  lemma {:induction false} EmitStep(pattern: string, index: nat, expression: string)
    requires index < |pattern|
    ensures var (t, n) := TokenAt(pattern, index);
            && index + n <= |pattern|
            && expression + Emit(Tokens(pattern[index..]))
               == expression + TokenText(t) + Emit(Tokens(pattern[index + n..]))
  {
    var (t, n) := TokenAt(pattern, index);
    var rest := pattern[index..];
    assert rest[n..] == pattern[index + n..];
    assert Tokens(rest) == [t] + Tokens(rest[n..]);
  }
}
