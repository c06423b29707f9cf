/**
 The fragment of ECMAScript regular expressions (section 22.2 of ECMA-262, no flags) that the
 glob compiler writes: a parser from source text to syntax trees, and the language of a tree.
 Text outside the fragment does not parse.
 */
module Regex {
  import opened Wrappers

  datatype Re =
    | Empty
    | Chr(c: char)
    | Dot
    | NotIn(chars: string)
    | Begin
    | End
    | Cat(first: Re, second: Re)
    | Star(body: Re)
    | Opt(body: Re)

  predicate IsLineTerminator(c: char) {
    c == '\n' || c == '\r' || c == '\U{2028}' || c == '\U{2029}'
  }

  const SYNTAX_CHARACTERS: string := "^$\\.*+?()[]{}|"

  datatype Parsed = Parsed(re: Re, rest: string)

  /** Alternative: a sequence of terms, up to the end of the text or a closing parenthesis. */
  function ParseTerms(s: string): (r: Option<Parsed>)
    ensures r.Some? ==> |r.value.rest| <= |s|
    decreases |s|, 1
  {
    if s == [] || s[0] == ')' then Some(Parsed(Empty, s))
    else match ParseTerm(s)
      case None => None
      case Some(Parsed(term, rest)) =>
        match ParseTerms(rest)
        case None => None
        case Some(Parsed(more, rest')) => Some(Parsed(Cat(term, more), rest'))
  }

  /** Term: an assertion, or an atom with an optional greedy quantifier. */
  function ParseTerm(s: string): (r: Option<Parsed>)
    requires s != []
    ensures r.Some? ==> |r.value.rest| < |s|
    decreases |s|, 0
  {
    if s[0] == '^' then Some(Parsed(Begin, s[1..]))
    else if s[0] == '$' then Some(Parsed(End, s[1..]))
    else if s[0] == '(' then
      if |s| < 3 || s[1] != '?' || s[2] != ':' then None
      else match ParseTerms(s[3..])
        case None => None
        case Some(Parsed(body, rest)) => if rest == [] then None else Quantify(body, rest[1..])
    else if s[0] == '[' then
      if |s| < 2 || s[1] != '^' then None
      else
        var k := ClassLength(s[2..]);
        if k == |s[2..]| || s[2..][k] != ']' then None else Quantify(NotIn(s[2..][..k]), s[2..][k + 1..])
    else if s[0] == '\\' then
      if |s| < 2 || (s[1] !in SYNTAX_CHARACTERS && s[1] != '/') then None else Quantify(Chr(s[1]), s[2..])
    else if s[0] == '.' then Quantify(Dot, s[1..])
    else if s[0] in SYNTAX_CHARACTERS then None
    else Quantify(Chr(s[0]), s[1..])
  }

  /** The plain characters at the start of a class. */
  function ClassLength(s: string): (k: nat)
    ensures k <= |s|
  {
    if s == [] || s[0] == ']' || s[0] == '\\' || s[0] == '-' then 0 else 1 + ClassLength(s[1..])
  }

  predicate StartsQuantifier(s: string) {
    s != [] && (s[0] == '*' || s[0] == '?' || s[0] == '+' || s[0] == '{')
  }

  function Quantify(atom: Re, s: string): (r: Option<Parsed>)
    ensures r.Some? ==> |r.value.rest| <= |s|
  {
    if !StartsQuantifier(s) then Some(Parsed(atom, s))
    else if StartsQuantifier(s[1..]) || s[0] == '+' || s[0] == '{' then None
    else Some(Parsed(if s[0] == '*' then Star(atom) else Opt(atom), s[1..]))
  }

  function Parse(text: string): Option<Re> {
    match ParseTerms(text)
    case None => None
    case Some(Parsed(re, rest)) => if rest == [] then Some(re) else None
  }

  /** re matches s[i..j] within s. */
  predicate Match(re: Re, s: string, i: nat, j: nat)
    requires i <= j <= |s|
    decreases re, j - i
  {
    match re
    case Empty => i == j
    case Chr(c) => j == i + 1 && s[i] == c
    case Dot => j == i + 1 && !IsLineTerminator(s[i])
    case NotIn(chars) => j == i + 1 && s[i] !in chars
    case Begin => i == j == 0
    case End => i == j == |s|
    case Cat(a, b) => exists k :: i <= k <= j && Match(a, s, i, k) && Match(b, s, k, j)
    case Star(a) => i == j || exists k :: i < k <= j && Match(a, s, i, k) && Match(re, s, k, j)
    case Opt(a) => i == j || Match(a, s, i, j)
  }

  lemma {:induction false} CatSplit(a: Re, b: Re, s: string, i: nat, j: nat) returns (k: nat)
    requires i <= j <= |s| && Match(Cat(a, b), s, i, j)
    ensures i <= k <= j && Match(a, s, i, k) && Match(b, s, k, j)
  {
    k :| i <= k <= j && Match(a, s, i, k) && Match(b, s, k, j);
  }

  /** RegExp.prototype.test: some stretch of s matches. */
  predicate Test(re: Re, s: string) {
    exists i, j :: 0 <= i <= j <= |s| && Match(re, s, i, j)
  }
}
