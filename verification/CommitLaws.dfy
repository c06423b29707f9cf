/** Printed body lines are single lines and read back, wherever they stand in a message. */
module CommitLaws {
  import opened Wrappers
  import opened Text
  import opened JsonNumber
  import opened JsonText
  import opened JsonLaws
  import opened CommitBody

  // ---- Properties of a printed object ----

  lemma {:induction false} PropertyOf(members: seq<Member>, i: nat)
    requires UniqueMembers(members) && i < |members|
    ensures Property(members, members[i].name) == Some(members[i].value)
  {
    if i > 0 {
      assert members[0].name != members[i].name;
      PropertyOf(members[1..], i - 1);
    }
  }

  lemma {:induction false} PropertyNone(members: seq<Member>, name: string)
    requires forall i :: 0 <= i < |members| ==> members[i].name != name
    ensures Property(members, name) == None
  {
    if members != [] {
      PropertyNone(members[1..], name);
    }
  }

  lemma {:induction false} PropertyAppend(a: seq<Member>, b: seq<Member>, name: string)
    ensures Property(a + b, name) == if Property(a, name).Some? then Property(a, name) else Property(b, name)
  {
    if a == [] {
      assert a + b == b;
    } else {
      PropertyAppend(a[1..], b, name);
      assert (a + b)[1..] == a[1..] + b;
    }
  }

  /** Length and first character tell all the names of one object apart. */
  function Signature(name: string): int {
    if name == [] then 0 else 1000 * |name| + name[0] as int
  }

  lemma {:induction false} SignaturesUnique(members: seq<Member>, signatures: seq<int>)
    requires |members| == |signatures|
    requires forall i :: 0 <= i < |members| ==> Signature(members[i].name) == signatures[i]
    requires forall i, j :: 0 <= i < j < |signatures| ==> signatures[i] != signatures[j]
    ensures UniqueMembers(members)
  {
    forall i, j | 0 <= i < j < |members| ensures members[i].name != members[j].name {
      assert signatures[i] != signatures[j];
    }
  }

  // ---- Lists ----

  lemma {:induction false} TextsOfStrings(ss: seq<string>)
    ensures Texts(Strings(ss)) == ss && AllText(Strings(ss))
  {
    if ss != [] {
      var n := |ss| - 1;
      TextsOfStrings(ss[..n]);
      assert Strings(ss)[..n] == Strings(ss[..n]);
      assert ss == ss[..n] + [ss[n]];
    }
  }

  lemma {:induction false} RenameRoundTrip(r: Rename)
    ensures RenameOf(Obj([Member("from", Str(r.from)), Member("to", Str(r.to))])) == Some(r)
  {
    var ms := [Member("from", Str(r.from)), Member("to", Str(r.to))];
    SignaturesUnique(ms, [4000 + 'f' as int, 2000 + 't' as int]);
    PropertyOf(ms, 0);
    PropertyOf(ms, 1);
  }

  lemma {:induction false} RenamesRoundTrip(rs: seq<Rename>)
    ensures RenamesIn(Renames(rs)) == rs
  {
    if rs != [] {
      var n := |rs| - 1;
      RenamesRoundTrip(rs[..n]);
      RenameRoundTrip(rs[n]);
      assert Renames(rs)[..n] == Renames(rs[..n]);
      assert rs == rs[..n] + [rs[n]];
    }
  }

  lemma {:induction false} RenamesPrintable(rs: seq<Rename>)
    ensures Printable(Arr(Renames(rs)))
  {
    forall i | 0 <= i < |rs| ensures Printable(Renames(rs)[i]) {
      var ms := [Member("from", Str(rs[i].from)), Member("to", Str(rs[i].to))];
      SignaturesUnique(ms, [4000 + 'f' as int, 2000 + 't' as int]);
    }
  }

  lemma {:induction false} StringsPrintable(ss: seq<string>)
    ensures Printable(Arr(Strings(ss)))
  {
  }

  // ---- Lines ----

  lemma {:induction false} SpacesEnd(s: string)
    requires s != [] && !IsSpace(s[0])
    ensures Trim(s) != [] && Trim(s)[0] == s[0]
  {
    TrimEndKeepsFirst(s);
  }

  lemma {:induction false} TrimEndKeepsFirst(s: string)
    requires s != [] && !IsSpace(s[0])
    ensures TrimEnd(s) != [] && TrimEnd(s)[0] == s[0]
  {
    if IsSpace(s[|s| - 1]) {
      assert |s| > 1;
      TrimEndKeepsFirst(s[..|s| - 1]);
    }
  }

  /** A prefix that can begin a structured line. */
  ghost predicate LinePrefix(prefix: string) {
    prefix != [] && !IsSpace(prefix[0]) && Visible(prefix)
  }

  /** The text after the prefix of a formatted line is what was printed, and there is no line feed. */
  lemma {:induction false} FormattedLine(prefix: string, members: seq<Member>)
    requires LinePrefix(prefix)
    ensures var line := prefix + Print(Obj(members));
            && Payload(prefix, line) == Some(Print(Obj(members)))
            && Visible(line) && '\n' !in line
  {
    var text := Print(Obj(members));
    var line := prefix + text;
    PrintVisible(Obj(members));
    assert text[|text| - 1] == '}';
    assert line[0] == prefix[0] && line[|line| - 1] == '}';
    assert line[|prefix|..] == text;
  }

  // ---- Actors ----

  function BaseMembers(a: OkActor): (r: seq<Member>)
    ensures |r| == 11 && ActorMembers(a) == r + OptionalMembers(a)
  {
    ActorMembers(a)[..11]
  }

  lemma {:induction false} BaseUnique(a: OkActor)
    ensures UniqueMembers(BaseMembers(a))
  {
    SignaturesUnique(BaseMembers(a), ACTOR_SIGNATURES);
  }

  const ACTOR_SIGNATURES: seq<int> := [
    1000 + 'v' as int, 9000 + 'w' as int, 9000 + 'p' as int, 13000 + 'a' as int, 10000 + 'a' as int,
    11000 + 'c' as int, 14000 + 'c' as int, 5000 + 'l' as int, 12000 + 'd' as int, 10000 + 'c' as int,
    4000 + 'd' as int]

  /** The optional names are none of the others. */
  lemma {:induction false} OptionalAreNew(a: OkActor)
    ensures forall i :: 0 <= i < 11 ==>
              BaseMembers(a)[i].name != "summaries" && BaseMembers(a)[i].name != "previous_paths"
    ensures Property(BaseMembers(a), "summaries") == None && Property(BaseMembers(a), "previous_paths") == None
  {
    var base := BaseMembers(a);
    forall i | 0 <= i < 11 ensures base[i].name != "summaries" && base[i].name != "previous_paths" {
      assert Signature(base[i].name) == ACTOR_SIGNATURES[i];
      assert ACTOR_SIGNATURES[i] != 9000 + 's' as int && ACTOR_SIGNATURES[i] != 14000 + 'p' as int;
      assert Signature("summaries") == 9000 + 's' as int && Signature("previous_paths") == 14000 + 'p' as int;
    }
    PropertyNone(base, "summaries");
    PropertyNone(base, "previous_paths");
  }

  lemma {:induction false} ActorPrintable(a: OkActor)
    ensures Printable(Obj(ActorMembers(a)))
  {
    var base, optional := BaseMembers(a), OptionalMembers(a);
    var ms := ActorMembers(a);
    BaseUnique(a);
    OptionalAreNew(a);
    forall i, j | 0 <= i < j < |ms| ensures ms[i].name != ms[j].name {
      if i < 11 {
        assert ms[i] == base[i];
        assert ms[j] == if j < 11 then base[j] else optional[j - 11];
      } else {
        assert ms[i] == optional[i - 11] && ms[j] == optional[j - 11];
      }
    }
    forall i | 0 <= i < |ms| ensures Printable(ms[i].value) {
      ActorValuePrintable(a, i);
    }
  }

  lemma {:induction false} ActorValuePrintable(a: OkActor, i: nat)
    requires i < |ActorMembers(a)|
    ensures Printable(ActorMembers(a)[i].value)
  {
    StringsPrintable(a.docs);
    if NonEmpty(a.summaries) != None {
      StringsPrintable(a.summaries.value);
    }
    if NonEmpty(a.previousPaths) != None {
      RenamesPrintable(a.previousPaths.value);
    }
    if i < 11 {
      assert ActorMembers(a)[i] == BaseMembers(a)[i];
    } else {
      assert ActorMembers(a)[i] == OptionalMembers(a)[i - 11];
    }
  }

  /** The names of the eleven fixed members, by position. */
  lemma {:induction false} BaseProperty(a: OkActor, i: nat)
    requires i < 11
    ensures Property(ActorMembers(a), BaseMembers(a)[i].name) == Some(BaseMembers(a)[i].value)
  {
    BaseUnique(a);
    PropertyOf(BaseMembers(a), i);
    PropertyAppend(BaseMembers(a), OptionalMembers(a), BaseMembers(a)[i].name);
  }

  lemma {:induction false} FixedFields(a: OkActor)
    ensures var ms := ActorMembers(a);
            && Property(ms, "v") == Some(Num(ONE))
            && Property(ms, "writer_id") == Some(Str(a.writerId))
            && Property(ms, "principal") == Some(Nullable(a.principal))
            && Property(ms, "agent_session") == Some(Nullable(a.agentSession))
            && Property(ms, "agent_type") == Some(Nullable(a.agentType))
            && Property(ms, "client_name") == Some(Nullable(a.clientName))
            && Property(ms, "client_version") == Some(Nullable(a.clientVersion))
            && Property(ms, "label") == Some(Nullable(a.userLabel))
            && Property(ms, "display_name") == Some(Str(a.displayName))
            && Property(ms, "color_seed") == Some(Str(a.colorSeed))
            && Property(ms, "docs") == Some(Arr(Strings(a.docs)))
  {
    BaseProperty(a, 0);
    BaseProperty(a, 1);
    BaseProperty(a, 2);
    BaseProperty(a, 3);
    BaseProperty(a, 4);
    BaseProperty(a, 5);
    BaseProperty(a, 6);
    BaseProperty(a, 7);
    BaseProperty(a, 8);
    BaseProperty(a, 9);
    BaseProperty(a, 10);
  }

  lemma {:induction false} OptionalFields(a: OkActor)
    ensures ReadSummaries(Property(ActorMembers(a), "summaries")) == NonEmpty(a.summaries)
    ensures ReadRenames(Property(ActorMembers(a), "previous_paths")) == NonEmpty(a.previousPaths)
  {
    OptionalAreNew(a);
    PropertyAppend(BaseMembers(a), OptionalMembers(a), "summaries");
    PropertyAppend(BaseMembers(a), OptionalMembers(a), "previous_paths");
    if NonEmpty(a.summaries) != None {
      TextsOfStrings(a.summaries.value);
    }
    if NonEmpty(a.previousPaths) != None {
      RenamesRoundTrip(a.previousPaths.value);
    }
  }

  /** The optional members come last, and only for lists that are not empty. */
  lemma {:induction false} ElidedWhenEmpty(a: OkActor)
    ensures var ms, some := ActorMembers(a), a.summaries.Some? && a.summaries.value != [];
            && (Property(ms, "summaries").Some? <==> some)
            && (Property(ms, "previous_paths").Some? <==> a.previousPaths.Some? && a.previousPaths.value != [])
            && (some ==> |ms| > 11 && ms[11].name == "summaries")
            && (Property(ms, "previous_paths").Some? ==> ms[|ms| - 1].name == "previous_paths")
  {
    OptionalAreNew(a);
    PropertyAppend(BaseMembers(a), OptionalMembers(a), "summaries");
    PropertyAppend(BaseMembers(a), OptionalMembers(a), "previous_paths");
  }

  /** The object printed for an actor reads back; an empty writer id is replaced by the derived one. */
  lemma {:induction false} ActorObjectRoundTrip(a: OkActor)
    ensures ReadActor(ActorMembers(a))
            == Some(Elide(a).(writerId := if a.writerId != "" then a.writerId
                                          else DerivedWriter(a.agentSession, a.principal, a.displayName)))
  {
    FixedFields(a);
    OptionalFields(a);
    TextsOfStrings(a.docs);
    forall s: Option<string> ensures TextOption(Some(Nullable(s))) == s {}
  }

  /** A formatted actor line reads back exactly, up to empty lists, precisely when it names a writer. */
  lemma {:induction false} ActorLineRoundTrip(a: OkActor)
    ensures ActorOfLine(FormatOkActor(a)) == Some(Elide(a)) <==> a.writerId != ""
    ensures ActorOfLine(FormatOkActor(a)).Some?
    ensures '\n' !in FormatOkActor(a)
  {
    FormattedLine(ACTOR_PREFIX, ActorMembers(a));
    ActorPrintable(a);
    JsonRoundTrip(Obj(ActorMembers(a)));
    ActorObjectRoundTrip(a);
  }

  /** An actor without a writer id comes back under another one, here that of the file system. */
  lemma {:induction false} NamelessActor(a: OkActor)
    requires a == OkActor("", None, None, None, None, None, None, "File System", "grey", [], None, None)
    ensures ActorOfLine(FormatOkActor(a)) == Some(a.(writerId := "file-system"))
  {
    FormattedLine(ACTOR_PREFIX, ActorMembers(a));
    ActorPrintable(a);
    JsonRoundTrip(Obj(ActorMembers(a)));
    ActorObjectRoundTrip(a);
  }

  // ---- Bodies ----

  datatype BodyLine = ActorLine(actor: OkActor) | OtherLine(text: string)

  function LineText(l: BodyLine): string {
    match l
    case ActorLine(a) => FormatOkActor(a)
    case OtherLine(text) => text
  }

  function LineTexts(ls: seq<BodyLine>): (r: seq<string>)
    ensures |r| == |ls|
  {
    seq(|ls|, i requires 0 <= i < |ls| => LineText(ls[i]))
  }

  /** An actor names its writer; any other line is one line and no actor line. */
  ghost predicate ComposedLine(l: BodyLine) {
    match l
    case ActorLine(a) => a.writerId != ""
    case OtherLine(text) => '\n' !in text && ActorOfLine(text) == None
  }

  ghost predicate Composed(ls: seq<BodyLine>) {
    forall i :: 0 <= i < |ls| ==> ComposedLine(ls[i])
  }

  /** The actor a line stands for, empty lists elided. */
  function ActorIn(l: BodyLine): Option<OkActor> {
    match l
    case ActorLine(a) => Some(Elide(a))
    case OtherLine(_) => None
  }

  /** The actors of a body, in order. */
  function ActorsIn(ls: seq<BodyLine>): seq<OkActor> {
    if ls == [] then [] else ActorsIn(ls[..|ls| - 1]) + Optional(ActorIn(ls[|ls| - 1]))
  }

  lemma {:induction false} LineReadsBack(l: BodyLine)
    requires ComposedLine(l)
    ensures ActorOfLine(LineText(l)) == ActorIn(l) && '\n' !in LineText(l)
  {
    if l.ActorLine? {
      ActorLineRoundTrip(l.actor);
    }
  }

  lemma {:induction false} ActorsSnoc(lines: seq<string>, line: string, actors: seq<OkActor>, actor: Option<OkActor>)
    requires ActorsOfLines(lines) == actors && ActorOfLine(line) == actor
    ensures ActorsOfLines(lines + [line]) == actors + Optional(actor)
  {
    assert (lines + [line])[..|lines|] == lines;
  }

  lemma {:induction false} LinesReadBack(ls: seq<BodyLine>)
    requires Composed(ls)
    ensures ActorsOfLines(LineTexts(ls)) == ActorsIn(ls)
  {
    if ls != [] {
      var front, last := ls[..|ls| - 1], ls[|ls| - 1];
      LinesReadBack(front);
      LineReadsBack(last);
      ActorsSnoc(LineTexts(front), LineText(last), ActorsIn(front), ActorIn(last));
      TextsSnoc(ls);
    }
  }

  lemma {:induction false} TextsSnoc(ls: seq<BodyLine>)
    requires ls != []
    ensures LineTexts(ls) == LineTexts(ls[..|ls| - 1]) + [LineText(ls[|ls| - 1])]
  {
  }

  lemma {:induction false} SingleLines(ls: seq<BodyLine>)
    requires Composed(ls)
    ensures forall i :: 0 <= i < |ls| ==> '\n' !in LineTexts(ls)[i]
  {
    forall i | 0 <= i < |ls| ensures '\n' !in LineTexts(ls)[i] {
      LineReadsBack(ls[i]);
    }
  }

  /** Round trip of whole bodies: the reader returns exactly the actors that were written, in order. */
  lemma {:induction false} ActorsRoundTrip(ls: seq<BodyLine>)
    requires ls != [] && Composed(ls)
    ensures ActorsOfLines(Split('\n', Join('\n', LineTexts(ls)))) == ActorsIn(ls)
  {
    LinesReadBack(ls);
    SingleLines(ls);
    SplitJoin('\n', LineTexts(ls));
  }

  /** With at least one actor, legacy lines are ignored and the projections are returned. */
  lemma {:induction false} ContributorsAreActors(ls: seq<BodyLine>)
    requires ls != [] && Composed(ls) && ActorsIn(ls) != []
    ensures ReadContributors(Join('\n', LineTexts(ls))) == AsContributors(ActorsIn(ls))
  {
    ActorsRoundTrip(ls);
  }

  /** The projection of an actor, field by field; summaries are absent exactly when there are none. */
  ghost predicate Projects(c: Contributor, a: OkActor) {
    && c.version == Some(ONE) && c.id == a.writerId && c.name == a.displayName
    && c.colorSeed == Some(a.colorSeed) && c.docs == a.docs
    && (c.summaries == None <==> a.summaries == None || a.summaries == Some([]))
    && (c.summaries.Some? ==> c.summaries == a.summaries)
  }

  lemma {:induction false} FieldsProjected(a: OkActor)
    ensures Projects(AsContributor(a), a)
  {
  }

  /** A composed body with an actor is read as the projections of its actors, in order. */
  lemma {:induction false} ContributorFields(ls: seq<BodyLine>)
    requires ls != [] && Composed(ls) && ActorsIn(ls) != []
    ensures var contributors := ReadContributors(Join('\n', LineTexts(ls)));
            && |contributors| == |ActorsIn(ls)|
            && forall i :: 0 <= i < |contributors| ==> Projects(contributors[i], ActorsIn(ls)[i])
  {
    ContributorsAreActors(ls);
    forall i | 0 <= i < |ActorsIn(ls)| ensures Projects(AsContributors(ActorsIn(ls))[i], ActorsIn(ls)[i]) {
      FieldsProjected(ActorsIn(ls)[i]);
    }
  }

  // ---- Checkpoints ----

  /** The size and the counters of a checkpoint are finite, neither Infinity nor NaN. */
  predicate FiniteNumbers(p: Checkpoint) {
    && (p.size.Some? ==> IsFinite(p.size.value))
    && (match p.loss
        case ObserverDuplication(n) => IsFinite(n)
        case AutoConsolidation(n, _) => IsFinite(n)
        case _ => true)
  }

  /** What the reader carries back of a loss: everything but `which`. */
  function WithoutWhich(loss: Loss): Loss {
    match loss
    case BridgeMergeLoss(lost, _) => BridgeMergeLoss(lost, None)
    case _ => loss
  }

  lemma {:induction false} LossRoundTrip(p: Checkpoint)
    requires FiniteNumbers(p)
    ensures ReadLoss(KindOf(p.loss), LossMembers(p.loss)) == Some(WithoutWhich(p.loss))
    ensures Printable(Obj(LossMembers(p.loss)))
  {
    var ms := LossMembers(p.loss);
    match p.loss
    case BridgeMergeLoss(_, _) => MergeLossRoundTrip(p.loss);
    case AutoConsolidation(n, trigger) =>
      SignaturesUnique(ms, [10000 + 'f' as int, 7000 + 't' as int]);
      PropertyOf(ms, 0);
      PropertyOf(ms, 1);
    case ProducerGuardLoss(_) => PropertyOf(ms, 0);
    case ObserverDuplication(_) => PropertyOf(ms, 0);
    case ExternalChangeRescue(_) => PropertyOf(ms, 0);
  }

  lemma {:induction false} MergeLossRoundTrip(loss: Loss)
    requires loss.BridgeMergeLoss?
    ensures ReadLoss(KindOf(loss), LossMembers(loss)) == Some(WithoutWhich(loss))
    ensures Printable(Obj(LossMembers(loss)))
  {
    var ms := LossMembers(loss);
    StringsPrintable(loss.lostSubstrings);
    TextsOfStrings(loss.lostSubstrings);
    if loss.which != None {
      SignaturesUnique(ms, [14000 + 'l' as int, 5000 + 'w' as int]);
    }
    PropertyOf(ms, 0);
  }

  function CheckpointSignatures(p: Checkpoint): seq<int> {
    [4000 + 'k' as int, 8000 + 'm' as int]
    + (if p.docName == None then [] else [7000 + 'd' as int])
    + (if p.size == None then [] else [4000 + 's' as int])
  }

  lemma {:induction false} CheckpointUnique(p: Checkpoint)
    ensures UniqueMembers(CheckpointMembers(p))
  {
    SignaturesUnique(CheckpointMembers(p), CheckpointSignatures(p));
  }

  lemma {:induction false} CheckpointPrintable(p: Checkpoint)
    requires FiniteNumbers(p)
    ensures Printable(Obj(CheckpointMembers(p)))
  {
    CheckpointUnique(p);
    LossRoundTrip(p);
  }

  lemma {:induction false} CheckpointProperties(p: Checkpoint)
    ensures var ms := CheckpointMembers(p);
            && Property(ms, "kind") == Some(Str(KindOf(p.loss)))
            && Property(ms, "metadata") == Some(Obj(LossMembers(p.loss)))
            && Property(ms, "docName") == (if p.docName == None then None else Some(Str(p.docName.value)))
            && Property(ms, "size") == (if p.size == None then None else Some(Num(p.size.value)))
  {
    var ms := CheckpointMembers(p);
    CheckpointUnique(p);
    PropertyOf(ms, 0);
    PropertyOf(ms, 1);
    var s := CheckpointSignatures(p);
    assert forall i :: 0 <= i < |ms| ==> Signature(ms[i].name) == s[i];
    assert Signature("docName") == 7000 + 'd' as int && Signature("size") == 4000 + 's' as int;
    if p.docName == None {
      PropertyNone(ms, "docName");
    } else {
      PropertyOf(ms, 2);
    }
    if p.size == None {
      PropertyNone(ms, "size");
    } else {
      PropertyOf(ms, |ms| - 1);
    }
  }

  lemma {:induction false} CheckpointObjectRoundTrip(p: Checkpoint)
    requires FiniteNumbers(p)
    ensures ReadCheckpoint(CheckpointMembers(p)) == Some(p.(loss := WithoutWhich(p.loss)))
  {
    CheckpointProperties(p);
    LossRoundTrip(p);
  }

  lemma {:induction false} CheckpointLineRoundTrip(p: Checkpoint)
    requires FiniteNumbers(p)
    ensures Payload(CHECKPOINT_PREFIX, FormatCheckpoint(p)).Some?
    ensures CheckpointOfPayload(Payload(CHECKPOINT_PREFIX, FormatCheckpoint(p)).value)
            == Some(p.(loss := WithoutWhich(p.loss)))
    ensures '\n' !in FormatCheckpoint(p)
  {
    assert LinePrefix(CHECKPOINT_PREFIX);
    FormattedLine(CHECKPOINT_PREFIX, CheckpointMembers(p));
    CheckpointPrintable(p);
    JsonRoundTrip(Obj(CheckpointMembers(p)));
    CheckpointObjectRoundTrip(p);
  }

  /**
   A body with the formatted checkpoint among lines of any other kind parses back to the checkpoint,
   exact in every field but the optional `which`.
   */
  lemma {:induction false} CheckpointRoundTrip(before: seq<string>, p: Checkpoint, after: seq<string>)
    requires FiniteNumbers(p)
    requires forall i :: 0 <= i < |before| ==> '\n' !in before[i] && Payload(CHECKPOINT_PREFIX, before[i]) == None
    requires forall i :: 0 <= i < |after| ==> '\n' !in after[i]
    ensures FirstCheckpoint(Split('\n', Join('\n', before + [FormatCheckpoint(p)] + after)))
            == Some(p.(loss := WithoutWhich(p.loss)))
  {
    CheckpointLineRoundTrip(p);
    CheckpointAmong(before, FormatCheckpoint(p), after, Some(p.(loss := WithoutWhich(p.loss))));
  }

  /** The first checkpoint line of a body is the one that is read. */
  lemma {:induction false} CheckpointAmong(
    before: seq<string>, line: string, after: seq<string>, found: Option<Checkpoint>)
    requires Payload(CHECKPOINT_PREFIX, line).Some? && '\n' !in line
    requires CheckpointOfPayload(Payload(CHECKPOINT_PREFIX, line).value) == found
    requires forall i :: 0 <= i < |before| ==> '\n' !in before[i] && Payload(CHECKPOINT_PREFIX, before[i]) == None
    requires forall i :: 0 <= i < |after| ==> '\n' !in after[i]
    ensures FirstCheckpoint(Split('\n', Join('\n', before + [line] + after))) == found
  {
    var lines := before + ([line] + after);
    assert before + [line] + after == lines;
    SplitJoin('\n', lines);
    FirstCheckpointAfter(before, [line] + after);
  }

  lemma {:induction false} FirstCheckpointAfter(before: seq<string>, rest: seq<string>)
    requires forall i :: 0 <= i < |before| ==> Payload(CHECKPOINT_PREFIX, before[i]) == None
    ensures FirstCheckpoint(before + rest) == FirstCheckpoint(rest)
  {
    if before == [] {
      assert before + rest == rest;
    } else {
      assert (before + rest)[1..] == before[1..] + rest;
      FirstCheckpointAfter(before[1..], rest);
    }
  }
}
