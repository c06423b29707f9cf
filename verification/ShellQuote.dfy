/**
 The copyable `ok clone` command (docs/src/lib/share-splash.ts): for all strings, the shell reads
 back exactly the words that were printed.
 */
module ShellQuote {
  import opened Sequences
  import opened Wrappers
  import opened ShellWords

  // ---- The printer ----

  /** Every quote of s leaves the quoted text, is escaped, and enters it again. */
  function EscapeQuotes(s: string): string {
    if s == [] then []
    else (if s[0] == '\'' then "'\\''" else [s[0]]) + EscapeQuotes(s[1..])
  }

  function SingleQuote(s: string): string {
    ['\''] + (EscapeQuotes(s) + ['\''])
  }

  predicate IsSafe(c: char) {
    || 'A' <= c <= 'Z' || 'a' <= c <= 'z' || '0' <= c <= '9'
    || c == '.' || c == '_' || c == '/' || c == '@' || c == '+' || c == '-'
  }

  predicate IsSafeToken(s: string) {
    s != [] && forall i :: 0 <= i < |s| ==> IsSafe(s[i])
  }

  function QuoteArg(s: string): string {
    if IsSafeToken(s) then s else SingleQuote(s)
  }

  function CloneCommand(owner: string, repo: string, branch: string): string {
    "ok clone " + (QuoteArg(owner) + ("/" + (QuoteArg(repo) + (" -b " + QuoteArg(branch)))))
  }

  lemma {:induction false} EscapedLonger(s: string)
    ensures |EscapeQuotes(s)| >= |s|
  {
    if s != [] {
      EscapedLonger(s[1..]);
    }
  }

  /** The code points of ASCII letters and digits. */
  predicate IsAlphanumeric(code: int) {
    65 <= code <= 90 || 97 <= code <= 122 || 48 <= code <= 57
  }

  /** Letters, digits and six marks are printed bare; everything else, the empty text included, is quoted. */
  lemma {:induction false} BareExact(s: string, marks: string)
    requires marks == "._/@+-"
    ensures QuoteArg(s) == s <==> s != [] && forall c :: c in s ==> IsAlphanumeric(c as int) || c in marks
    ensures QuoteArg(s) != s ==> QuoteArg(s)[0] == '\'' && QuoteArg(s)[|QuoteArg(s)| - 1] == '\''
  {
    EscapedLonger(s);
    forall c: char ensures IsSafe(c) <==> IsAlphanumeric(c as int) || c in marks {
      SafeExact(c, marks);
    }
    assert forall i :: 0 <= i < |s| ==> s[i] in s;
  }

  lemma {:induction false} SafeExact(c: char, marks: string)
    requires marks == "._/@+-"
    ensures IsSafe(c) <==> IsAlphanumeric(c as int) || c in marks
  {
  }

  // ---- Round trip ----

  lemma {:induction false} QuotedChar(c: char, word: string, rest: string)
    ensures Words((if c == '\'' then "'\\''" else [c]) + rest, InQuotes(word)) == Words(rest, InQuotes(word + [c]))
  {
    if c == '\'' {
      var s, t, u := "'\\''" + rest, "\\''" + rest, "'" + rest;
      assert s[1..] == t && t[2..] == u && u[1..] == rest;
      assert Words(s, InQuotes(word)) == Words(t, InWord(word));
      assert Words(t, InWord(word)) == Words(u, InWord(word + ['\'']));
    } else {
      assert ([c] + rest)[1..] == rest;
    }
  }

  /** Escaped text inside quotes adds exactly itself to the word. */
  lemma {:induction false} QuotedText(t: string, word: string, rest: string)
    ensures Words(EscapeQuotes(t) + (['\''] + rest), InQuotes(word)) == Words(rest, InWord(word + t))
  {
    var close := ['\''] + rest;
    if t == [] {
      assert EscapeQuotes(t) + close == close && close[1..] == rest && word + t == word;
    } else {
      var first, more := if t[0] == '\'' then "'\\''" else [t[0]], EscapeQuotes(t[1..]);
      QuotedText(t[1..], word + [t[0]], rest);
      QuotedChar(t[0], word, more + close);
      Assoc(first, more, close);
      assert word + [t[0]] + t[1..] == word + t;
    }
  }

  lemma {:induction false} SafeIsPlain(c: char)
    requires IsSafe(c)
    ensures !IsSpecial(c) && !IsBlank(c) && c != '\'' && c != '\\'
  {
  }

  lemma {:induction false} PlainChar(c: char, at: Reading, rest: string)
    requires !at.InQuotes? && !IsSpecial(c) && !IsBlank(c) && c != '\'' && c != '\\'
    ensures Words([c] + rest, at) == Words(rest, InWord(WordSoFar(at) + [c]))
  {
    assert ([c] + rest)[1..] == rest;
  }

  lemma {:induction false} SafeText(t: string, at: Reading, rest: string)
    requires !at.InQuotes? && IsSafeToken(t)
    ensures Words(t + rest, at) == Words(rest, InWord(WordSoFar(at) + t))
    decreases |t|
  {
    SafeIsPlain(t[0]);
    PlainChar(t[0], at, t[1..] + rest);
    Assoc([t[0]], t[1..], rest);
    assert [t[0]] + t[1..] == t;
    if |t| == 1 {
      assert t[1..] + rest == rest && t == [t[0]];
    } else {
      SafeText(t[1..], InWord(WordSoFar(at) + [t[0]]), rest);
      Assoc(WordSoFar(at), [t[0]], t[1..]);
    }
  }

  /** A printed argument adds exactly the argument to the word, even when it is empty. */
  lemma {:induction false} ArgAddsItself(s: string, at: Reading, rest: string)
    requires !at.InQuotes?
    ensures Words(QuoteArg(s) + rest, at) == Words(rest, InWord(WordSoFar(at) + s))
  {
    if IsSafeToken(s) {
      SafeText(s, at, rest);
    } else {
      var inner := EscapeQuotes(s) + (['\''] + rest);
      assert SingleQuote(s) + rest == ['\''] + inner;
      assert (['\''] + inner)[1..] == inner;
      QuotedText(s, WordSoFar(at), rest);
    }
  }

  /** A blank ends the word; then comes a safe word of its own. */
  lemma {:induction false} NextWord(t: string, at: Reading, rest: string)
    requires !at.InQuotes? && IsSafeToken(t)
    ensures Words(" " + (t + rest), at)
            == match Words(rest, InWord(t))
               case None => None
               case Some(more) => Some(Finished(at) + more)
  {
    assert (" " + (t + rest))[1..] == t + rest;
    SafeText(t, Between, rest);
    assert [] + t == t;
  }

  lemma {:induction false} BlankEnds(at: Reading, rest: string)
    requires !at.InQuotes?
    ensures Words(" " + rest, at)
            == match Words(rest, Between)
               case None => None
               case Some(more) => Some(Finished(at) + more)
  {
    assert (" " + rest)[1..] == rest;
  }

  lemma {:induction false} LastWord(branch: string)
    ensures Words(" " + QuoteArg(branch), InWord("-b")) == Some(["-b", branch])
  {
    BlankEnds(InWord("-b"), QuoteArg(branch));
    ArgAddsItself(branch, Between, []);
    assert QuoteArg(branch) + [] == QuoteArg(branch) && WordSoFar(Between) + branch == branch;
    assert Words(QuoteArg(branch), Between) == Some([branch]);
    assert ["-b"] + [branch] == ["-b", branch];
  }

  lemma {:induction false} BranchWords(at: Reading, branch: string)
    requires at.InWord?
    ensures Words(" -b " + QuoteArg(branch), at) == Some([at.word, "-b", branch])
  {
    LastWord(branch);
    NextWord("-b", at, " " + QuoteArg(branch));
    BranchText(QuoteArg(branch));
    assert [at.word] + ["-b", branch] == [at.word, "-b", branch];
  }

  lemma {:induction false} BranchText(arg: string)
    ensures " -b " + arg == " " + ("-b" + (" " + arg))
    ensures IsSafeToken("-b")
  {
  }

  lemma {:induction false} TargetWords(at: Reading, owner: string, repo: string, branch: string)
    requires !at.InQuotes?
    ensures Words(QuoteArg(owner) + ("/" + (QuoteArg(repo) + (" -b " + QuoteArg(branch)))), at)
            == Some([WordSoFar(at) + owner + "/" + repo, "-b", branch])
  {
    var end := " -b " + QuoteArg(branch);
    var tail := QuoteArg(repo) + end;
    ArgAddsItself(owner, at, "/" + tail);
    SafeText("/", InWord(WordSoFar(at) + owner), tail);
    ArgAddsItself(repo, InWord(WordSoFar(at) + owner + "/"), end);
    BranchWords(InWord(WordSoFar(at) + owner + "/" + repo), branch);
  }

  lemma {:induction false} CommandText(target: string)
    ensures "ok clone " + target == "ok" + (" " + ("clone" + (" " + target)))
    ensures IsSafeToken("ok") && IsSafeToken("clone")
  {
  }

  lemma {:induction false} CommandWords(target: string, words: seq<string>)
    requires Words(target, Between) == Some(words)
    ensures Words("ok clone " + target, Between) == Some(["ok"] + (["clone"] + words))
  {
    CommandText(target);
    var tail := " " + ("clone" + (" " + target));
    BlankEnds(InWord("clone"), target);
    NextWord("clone", InWord("ok"), " " + target);
    SafeText("ok", Between, tail);
    assert WordSoFar(Between) + "ok" == "ok";
  }

  /** For all strings, the shell splits the printed command into exactly these five words. */
  lemma {:induction false} CloneCommandWords(owner: string, repo: string, branch: string)
    ensures Words(CloneCommand(owner, repo, branch), Between)
            == Some(["ok", "clone", owner + "/" + repo, "-b", branch])
  {
    var target := QuoteArg(owner) + ("/" + (QuoteArg(repo) + (" -b " + QuoteArg(branch))));
    var words := [owner + "/" + repo, "-b", branch];
    TargetWords(Between, owner, repo, branch);
    assert WordSoFar(Between) + owner == owner;
    CommandWords(target, words);
    assert ["ok"] + (["clone"] + words) == ["ok", "clone", owner + "/" + repo, "-b", branch];
  }

  /** Different targets or branches never print the same command. */
  lemma {:induction false} CloneCommandInjective(
    owner: string, repo: string, branch: string, owner': string, repo': string, branch': string)
    requires CloneCommand(owner, repo, branch) == CloneCommand(owner', repo', branch')
    ensures owner + "/" + repo == owner' + "/" + repo' && branch == branch'
  {
    CloneCommandWords(owner, repo, branch);
    CloneCommandWords(owner', repo', branch');
    var a, b := ["ok", "clone", owner + "/" + repo, "-b", branch], ["ok", "clone", owner' + "/" + repo', "-b", branch'];
    assert a[2] == b[2] && a[4] == b[4];
  }
}
