/**
 The splitting of a command line into words by the POSIX shell, with quote removal (sections 2.2.1,
 2.2.2 and 2.3 of the Shell Command Language volume of POSIX.1-2017). A line that would need any
 other shell feature (operators, expansions, patterns, double quotes, comments) is not split at all.
 */
module ShellWords {
  import opened Wrappers

  predicate IsBlank(c: char) {
    c == ' ' || c == '\t'
  }

  /** Characters that mean something to the shell when they are not quoted. */
  predicate IsSpecial(c: char) {
    c in "|&;<>()$`\"\n*?[#~=%{}!"
  }

  /** Where the reading stands: between words, in a word, or inside single quotes of a word. */
  datatype Reading = Between | InWord(word: string) | InQuotes(word: string)

  function WordSoFar(at: Reading): string {
    if at.Between? then [] else at.word
  }

  function Finished(at: Reading): seq<string> {
    if at.InWord? then [at.word] else []
  }

  /** The words of s after quote removal; None when a quote is left open or another feature is used. */
  function Words(s: string, at: Reading): Option<seq<string>> {
    if s == [] then
      if at.InQuotes? then None else Some(Finished(at))
    else if at.InQuotes? then
      Words(s[1..], if s[0] == '\'' then InWord(at.word) else InQuotes(at.word + [s[0]]))
    else if IsBlank(s[0]) then
      match Words(s[1..], Between)
      case None => None
      case Some(more) => Some(Finished(at) + more)
    else if s[0] == '\'' then Words(s[1..], InQuotes(WordSoFar(at)))
    else if s[0] == '\\' then
      if |s| == 1 then None
      else if s[1] == '\n' then Words(s[2..], at)
      else Words(s[2..], InWord(WordSoFar(at) + [s[1]]))
    else if IsSpecial(s[0]) then None
    else Words(s[1..], InWord(WordSoFar(at) + [s[0]]))
  }

  /** Outside quotes, every character with a meaning of its own is refused. */
  lemma {:induction false} SpecialRefused(c: char, at: Reading, rest: string)
    requires !at.InQuotes? && c in "|&;<>()$`\"\n*?[#~=%{}!"
    ensures Words([c] + rest, at) == None
  {
  }

  /** Inside quotes only a quote ends the text; without one the line is refused. */
  lemma {:induction false} OpenQuoteRefused(text: string, word: string)
    requires '\'' !in text
    ensures Words(text, InQuotes(word)) == None
  {
    if text != [] {
      OpenQuoteRefused(text[1..], word + [text[0]]);
    }
  }

  /** Outside quotes, blanks and tabs end a word, a backslash keeps the next character, and one before a line feed vanishes. */
  lemma {:induction false} Unquoted(c: char, at: Reading, rest: string)
    requires !at.InQuotes?
    ensures c == ' ' || c == '\t' ==>
              Words([c] + rest, at) == match Words(rest, Between)
                                       case None => None
                                       case Some(more) => Some(Finished(at) + more)
    ensures Words("\\\n" + rest, at) == Words(rest, at) && Words("\\", at) == None
    ensures c != '\n' ==> Words(['\\', c] + rest, at) == Words(rest, InWord(WordSoFar(at) + [c]))
  {
    assert ([c] + rest)[1..] == rest;
    assert ("\\\n" + rest)[2..] == rest;
    assert (['\\', c] + rest)[2..] == rest;
  }
}
