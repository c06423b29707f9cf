/** Commit subjects (packages/core/src/shadow-repo-layout.ts): the formatters and the single-line composer. */
module Subject {
  import opened Wrappers
  import opened Text
  import opened CommitBody
  import opened CommitLaws

  const MAX_LEN: nat := 72

  /** LF, VT, FF, CR, NEL, LINE SEPARATOR, PARAGRAPH SEPARATOR. */
  predicate IsLineBreak(c: char) {
    '\n' <= c <= '\r' || c == '\U{0085}' || c == '\U{2028}' || c == '\U{2029}'
  }

  function StripLineBreaks(s: string): (r: string)
    ensures |r| == |s|
    ensures forall i :: 0 <= i < |s| ==> r[i] == if IsLineBreak(s[i]) then ' ' else s[i]
  {
    seq(|s|, i requires 0 <= i < |s| => if IsLineBreak(s[i]) then ' ' else s[i])
  }

  const DASH: string := " \U{2014} "
  const ELLIPSIS: string := "\U{2026}"

  function Compose(base: string, summaries: seq<string>): string {
    var safeBase := StripLineBreaks(base);
    if |summaries| == 0 then safeBase
    else if |summaries| >= 2 then safeBase + " (" + Digits(|summaries|) + " edits)"
    else
      var summary := StripLineBreaks(summaries[0]);
      var prefix := safeBase + DASH;
      var full := prefix + summary;
      if |full| <= MAX_LEN then full
      else
        var budget := MAX_LEN - |prefix| - 1;
        if budget <= 0 then full[..MAX_LEN] else prefix + summary[..budget] + ELLIPSIS
  }

  // ---- The formatters ----

  function Take(s: string, n: nat): string {
    if |s| <= n then s else s[..n]
  }

  function WipSubject(docs: seq<string>): string {
    if |docs| == 0 then "wip: auto-save"
    else if |docs| == 1 then "wip: " + docs[0]
    else "wip: " + Digits(|docs|) + " docs"
  }

  function ReconcileSubject(docName: string): string {
    "reconcile: " + docName
  }

  function RollbackSubject(docName: string, sha: string): string {
    "rollback: " + docName + " to " + Take(sha, 7)
  }

  function ParkSubject(oldBranch: string, newBranch: string): string {
    "park: " + oldBranch + " -> " + newBranch
  }

  function RenameSubject(oldName: string, newName: string): string {
    "rename: " + oldName + " -> " + newName
  }

  function CheckpointSubject(message: string): string {
    "checkpoint: " + message
  }

  function ImportSubject(oldHead: Option<string>, newHead: string): string {
    if oldHead.Some? && oldHead.value != "" then "import: from " + Take(oldHead.value, 8) + ".." + Take(newHead, 8)
    else "import: initial at " + Take(newHead, 8)
  }

  // ---- One line ----

  ghost predicate NoLineBreak(s: string) {
    forall i :: 0 <= i < |s| ==> !IsLineBreak(s[i])
  }

  /** Whatever the base and the summaries contain, the subject is a single line. */
  lemma {:induction false} ComposedIsSingleLine(base: string, summaries: seq<string>)
    ensures NoLineBreak(Compose(base, summaries)) && '\n' !in Compose(base, summaries)
  {
    assert NoLineBreak(DASH) && NoLineBreak(ELLIPSIS);
    if |summaries| == 1 {
      var prefix, summary := StripLineBreaks(base) + DASH, StripLineBreaks(summaries[0]);
      assert NoLineBreak(prefix) && NoLineBreak(summary);
    }
  }

  /**
   The bound of 72 is kept exactly as follows: always with one summary; otherwise only when base and
   edit count fit by themselves.
   */
  lemma {:induction false} ComposedLength(base: string, summaries: seq<string>)
    ensures |Compose(base, summaries)| <= MAX_LEN <==>
            || |summaries| == 1
            || (|summaries| == 0 && |base| <= MAX_LEN)
            || (|summaries| >= 2 && |base| + 9 + |Digits(|summaries|)| <= MAX_LEN)
  {
  }

  /** The base is kept whole exactly when it is not cut for being over the bound itself. */
  lemma {:induction false} BaseKept(base: string, summaries: seq<string>)
    ensures StripLineBreaks(base) <= Compose(base, summaries) <==> |summaries| != 1 || |base| <= MAX_LEN
  {
    var safeBase := StripLineBreaks(base);
    if |summaries| == 1 {
      var full := safeBase + DASH + StripLineBreaks(summaries[0]);
      if |base| <= MAX_LEN {
        assert safeBase <= full[..if |full| <= MAX_LEN then |full| else MAX_LEN];
      }
    }
  }

  ghost predicate EndsWith(s: string, end: string) {
    |end| <= |s| && s[|s| - |end|..] == end
  }

  /**
   With one summary the subject is base, dash and summary when that fits. Otherwise it is as long as may be
   and a beginning of that text: all of it, or, when base and dash leave room for two characters or more,
   all but the last, which is an ellipsis.
   */
  lemma {:induction false} OneSummary(base: string, summary: string)
    ensures var full, c := StripLineBreaks(base + DASH + summary), Compose(base, [summary]);
            && (|base| + 3 + |summary| <= 72 ==> c == full)
            && (|base| + 3 + |summary| > 72 ==>
                  && |c| == 72
                  && (if |base| <= 67 then c[..71] == full[..71] && c[71] == ELLIPSIS[0] else c == full[..72]))
  {
    var prefix, rest := StripLineBreaks(base) + DASH, StripLineBreaks(summary);
    assert StripLineBreaks(base + DASH + summary) == prefix + rest;
    if |base| + 3 + |summary| > 72 && |base| <= 67 {
      assert (prefix + rest)[..71] == prefix + rest[..68 - |base|];
    }
  }

  /** Without a summary the subject is the base; with several it ends with their number. */
  lemma {:induction false} OtherSummaries(base: string, summaries: seq<string>, count: string)
    requires |summaries| != 1 && count == Digits(|summaries|)
    ensures |summaries| == 0 ==> Compose(base, summaries) == StripLineBreaks(base)
    ensures |summaries| >= 2 ==>
              && StripLineBreaks(base) <= Compose(base, summaries) && EndsWith(Compose(base, summaries), " (" + count + " edits)")
              && |Compose(base, summaries)| == |base| + |count| + 9
  {
    if |summaries| >= 2 {
      var c, end := Compose(base, summaries), " (" + count + " edits)";
      assert c == StripLineBreaks(base) + end;
    }
  }

  /** Exactly the line breaks are replaced: LF to CR, NEL, LINE SEPARATOR and PARAGRAPH SEPARATOR. */
  lemma {:induction false} BreaksExact(s: string, i: nat)
    requires i < |s|
    ensures var code := s[i] as int;
            StripLineBreaks(s)[i] == if 10 <= code <= 13 || code == 133 || code == 8232 || code == 8233 then ' ' else s[i]
  {
  }

  // ---- The parts of a subject ----

  /** The text consists of the parts, one after the other. */
  ghost predicate Assembles(s: string, parts: seq<string>) {
    if parts == [] then s == [] else parts[0] <= s && Assembles(s[|parts[0]|..], parts[1..])
  }

  /** A beginning of n characters, or all of a shorter text. */
  ghost predicate Abbreviates(a: string, s: string, n: nat) {
    a <= s && |a| <= n && (|a| == n || a == s)
  }

  lemma {:induction false} TwoParts(a: string, b: string)
    ensures Assembles(a + b, [a, b])
  {
    assert [a, b][1..] == [b] && [b][1..] == [] && (a + b)[|a|..] == b;
    assert Assembles(b[|b|..], []);
  }

  lemma {:induction false} ThreeParts(a: string, b: string, c: string)
    ensures Assembles(a + b + c, [a, b, c])
  {
    TwoParts(b, c);
    assert [a, b, c][1..] == [b, c] && (a + b + c)[|a|..] == b + c;
  }

  lemma {:induction false} FourParts(a: string, b: string, c: string, d: string)
    ensures Assembles(a + b + c + d, [a, b, c, d])
  {
    ThreeParts(b, c, d);
    assert [a, b, c, d][1..] == [b, c, d] && (a + b + c + d)[|a|..] == b + c + d;
  }

  /** What the subject of a drain says: nothing, its one document, or how many there are. */
  lemma {:induction false} WipParts(docs: seq<string>)
    ensures |docs| == 0 ==> WipSubject(docs) == "wip: auto-save"
    ensures |docs| == 1 ==> Assembles(WipSubject(docs), ["wip: ", docs[0]])
    ensures |docs| >= 2 ==> Assembles(WipSubject(docs), ["wip: ", Digits(|docs|), " docs"])
  {
    if |docs| == 1 {
      TwoParts("wip: ", docs[0]);
    } else if |docs| >= 2 {
      ThreeParts("wip: ", Digits(|docs|), " docs");
    }
  }

  /** What the other subjects say; commits are abbreviated. */
  lemma {:induction false} NamedParts(a: string, b: string)
    ensures Assembles(ReconcileSubject(a), ["reconcile: ", a]) && Assembles(CheckpointSubject(a), ["checkpoint: ", a])
    ensures Assembles(ParkSubject(a, b), ["park: ", a, " -> ", b]) && Assembles(RenameSubject(a, b), ["rename: ", a, " -> ", b])
    ensures exists short :: Abbreviates(short, b, 7) && Assembles(RollbackSubject(a, b), ["rollback: ", a, " to ", short])
  {
    TwoParts("reconcile: ", a);
    TwoParts("checkpoint: ", a);
    FourParts("park: ", a, " -> ", b);
    FourParts("rename: ", a, " -> ", b);
    FourParts("rollback: ", a, " to ", Take(b, 7));
    assert Abbreviates(Take(b, 7), b, 7);
  }

  /** An import names both heads, or the new one alone when there was no old one. */
  lemma {:induction false} ImportParts(oldHead: Option<string>, newHead: string)
    ensures exists new8 :: Abbreviates(new8, newHead, 8) &&
              if oldHead == None || oldHead == Some("") then Assembles(ImportSubject(oldHead, newHead), ["import: initial at ", new8])
              else exists old8 :: Abbreviates(old8, oldHead.value, 8)
                     && Assembles(ImportSubject(oldHead, newHead), ["import: from ", old8, "..", new8])
  {
    var new8 := Take(newHead, 8);
    assert Abbreviates(new8, newHead, 8);
    if oldHead == None || oldHead == Some("") {
      TwoParts("import: initial at ", new8);
    } else {
      var old8 := Take(oldHead.value, 8);
      assert Abbreviates(old8, oldHead.value, 8);
      FourParts("import: from ", old8, "..", new8);
    }
  }

  function LongBase(): (r: string)
    ensures |r| == MAX_LEN + 1
  {
    seq(MAX_LEN + 1, _ => 'x')
  }

  /** A base of 73 characters exceeds the bound without a summary, and loses its end with one. */
  lemma {:induction false} LongBaseBreaksBoth()
    ensures |Compose(LongBase(), [])| > MAX_LEN
    ensures !(StripLineBreaks(LongBase()) <= Compose(LongBase(), ["y"]))
  {
    BaseKept(LongBase(), ["y"]);
  }

  // ---- Subjects are not structured lines ----

  /** Starts with a visible character that no structured line starts with. */
  ghost predicate PlainStart(s: string) {
    s != [] && !IsSpace(s[0]) && !IsLineBreak(s[0]) && s[0] != 'o'
  }

  lemma {:induction false} PlainLine(prefix: string, s: string)
    requires PlainStart(s) && prefix != [] && prefix[0] == 'o'
    ensures Payload(prefix, s) == None
  {
    SpacesEnd(TrimStart(s));
    assert TrimStart(s) == s;
  }

  /** Every formatter's subject starts plainly. */
  lemma {:induction false} FormattersStartPlain(
    docs: seq<string>, a: string, b: string, oldHead: Option<string>)
    ensures PlainStart(WipSubject(docs))
    ensures PlainStart(ReconcileSubject(a)) && PlainStart(RollbackSubject(a, b)) && PlainStart(ParkSubject(a, b))
    ensures PlainStart(RenameSubject(a, b)) && PlainStart(CheckpointSubject(a)) && PlainStart(ImportSubject(oldHead, a))
  {
    assert WipSubject(docs)[0] == 'w';
    assert ReconcileSubject(a)[0] == 'r' && RollbackSubject(a, b)[0] == 'r' && ParkSubject(a, b)[0] == 'p';
    assert RenameSubject(a, b)[0] == 'r' && CheckpointSubject(a)[0] == 'c' && ImportSubject(oldHead, a)[0] == 'i';
  }

  /** The commit message of a drain: subject, blank line, one actor line per writer. */
  function Message(base: string, summaries: seq<string>, actors: seq<OkActor>): string {
    Join('\n', LineTexts(MessageLines(base, summaries, actors)))
  }

  function MessageLines(base: string, summaries: seq<string>, actors: seq<OkActor>): (r: seq<BodyLine>)
    ensures |r| == |actors| + 2
  {
    [OtherLine(Compose(base, summaries)), OtherLine("")]
    + seq(|actors|, i requires 0 <= i < |actors| => ActorLine(actors[i]))
  }

  function ElideAll(actors: seq<OkActor>): (r: seq<OkActor>)
    ensures |r| == |actors|
  {
    seq(|actors|, i requires 0 <= i < |actors| => Elide(actors[i]))
  }

  lemma {:induction false} MessageActors(base: string, summaries: seq<string>, actors: seq<OkActor>)
    ensures ActorsIn(MessageLines(base, summaries, actors)) == ElideAll(actors)
  {
    var lines := MessageLines(base, summaries, actors);
    if actors == [] {
      assert |lines| == 2 && ActorIn(lines[0]) == None && ActorIn(lines[1]) == None;
      assert lines[..1][..0] == [] && ActorsIn(lines[..1]) == [];
    } else {
      var n := |actors| - 1;
      MessageActors(base, summaries, actors[..n]);
      assert lines[..|lines| - 1] == MessageLines(base, summaries, actors[..n]);
      assert ElideAll(actors) == ElideAll(actors[..n]) + [Elide(actors[n])];
    }
  }

  lemma {:induction false} MessageComposed(base: string, summaries: seq<string>, actors: seq<OkActor>)
    requires PlainStart(base) && forall i :: 0 <= i < |actors| ==> actors[i].writerId != ""
    ensures Composed(MessageLines(base, summaries, actors))
  {
    var lines := MessageLines(base, summaries, actors);
    ComposedIsSingleLine(base, summaries);
    PlainLine(ACTOR_PREFIX, Compose(base, summaries));
    assert Payload(ACTOR_PREFIX, "") == None;
    forall i | 0 <= i < |lines| ensures ComposedLine(lines[i]) {
      if i >= 2 {
        assert lines[i] == ActorLine(actors[i - 2]);
      }
    }
  }

  /**
   Reading a written message back: exactly the actors, in order; the subject adds none, whatever the
   summaries say.
   */
  lemma {:induction false} MessageRoundTrip(base: string, summaries: seq<string>, actors: seq<OkActor>)
    requires PlainStart(base) && forall i :: 0 <= i < |actors| ==> actors[i].writerId != ""
    ensures ActorsOfLines(Split('\n', Message(base, summaries, actors))) == ElideAll(actors)
    ensures actors != [] ==> ReadContributors(Message(base, summaries, actors)) == AsContributors(ElideAll(actors))
  {
    MessageComposed(base, summaries, actors);
    MessageActors(base, summaries, actors);
    ActorsRoundTrip(MessageLines(base, summaries, actors));
    if actors != [] {
      ContributorsAreActors(MessageLines(base, summaries, actors));
    }
  }

  /** A message is the subject, a blank line and a line for each actor. */
  lemma {:induction false} MessageLayout(base: string, summaries: seq<string>, actors: seq<OkActor>)
    requires PlainStart(base) && forall i :: 0 <= i < |actors| ==> actors[i].writerId != ""
    ensures var lines := Split('\n', Message(base, summaries, actors));
            && |lines| == |actors| + 2 && lines[0] == Compose(base, summaries) && lines[1] == ""
            && forall i :: 0 <= i < |actors| ==> lines[i + 2] == FormatOkActor(actors[i])
  {
    var ls := MessageLines(base, summaries, actors);
    MessageComposed(base, summaries, actors);
    SingleLines(ls);
    SplitJoin('\n', LineTexts(ls));
  }

  /** The reader of a single actor returns the first one. */
  lemma {:induction false} MessageFirstActor(base: string, summaries: seq<string>, actors: seq<OkActor>)
    requires PlainStart(base) && forall i :: 0 <= i < |actors| ==> actors[i].writerId != ""
    ensures FirstActor(Split('\n', Message(base, summaries, actors))) == if actors == [] then None else Some(Elide(actors[0]))
  {
    var ls := MessageLines(base, summaries, actors);
    var lines := LineTexts(ls);
    MessageComposed(base, summaries, actors);
    SingleLines(ls);
    SplitJoin('\n', lines);
    PlainLine(ACTOR_PREFIX, Compose(base, summaries));
    AfterTwo(lines);
    if actors != [] {
      ActorLineRoundTrip(actors[0]);
      assert lines[2] == FormatOkActor(actors[0]);
    }
  }

  /** Two lines without the prefix are passed over. */
  lemma {:induction false} AfterTwo(lines: seq<string>)
    requires |lines| >= 2 && Payload(ACTOR_PREFIX, lines[0]) == None && Payload(ACTOR_PREFIX, lines[1]) == None
    ensures FirstActor(lines) == if |lines| == 2 then None
                                 else if Payload(ACTOR_PREFIX, lines[2]).Some? then ActorOfLine(lines[2])
                                 else FirstActor(lines[3..])
  {
    var rest := lines[1..][1..];
    assert FirstActor(lines) == FirstActor(lines[1..]) == FirstActor(rest);
    if |lines| > 2 {
      assert rest[0] == lines[2] && rest[1..] == lines[3..];
    }
  }
}
