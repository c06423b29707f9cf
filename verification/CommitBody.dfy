/**
 The structured lines of shadow-repository commit messages
 (packages/core/src/shadow-repo-layout.ts): `ok-actor:`, the legacy `ok-contributors:` and
 `ok-checkpoint-v1:`, each a prefix followed by one JSON object, with tolerant line readers.
 */
module CommitBody {
  import opened Wrappers
  import opened Text
  import opened JsonNumber
  import opened JsonText

  const ACTOR_PREFIX: string := "ok-actor: "
  const CONTRIBUTORS_PREFIX: string := "ok-contributors: "
  const CHECKPOINT_PREFIX: string := "ok-checkpoint-v1: "

  datatype Rename = Rename(from: string, to: string)

  datatype OkActor = OkActor(
    writerId: string,
    principal: Option<string>,
    agentSession: Option<string>,
    agentType: Option<string>,
    clientName: Option<string>,
    clientVersion: Option<string>,
    userLabel: Option<string>,
    displayName: string,
    colorSeed: string,
    docs: seq<string>,
    summaries: Option<seq<string>>,
    previousPaths: Option<seq<Rename>>)

  function Strings(ss: seq<string>): (r: seq<Json>)
    ensures |r| == |ss|
    ensures forall i :: 0 <= i < |ss| ==> r[i] == Str(ss[i])
  {
    seq(|ss|, i requires 0 <= i < |ss| => Str(ss[i]))
  }

  function Renames(rs: seq<Rename>): (r: seq<Json>)
    ensures |r| == |rs|
    ensures forall i :: 0 <= i < |rs| ==> r[i] == Obj([Member("from", Str(rs[i].from)), Member("to", Str(rs[i].to))])
  {
    seq(|rs|, i requires 0 <= i < |rs| => Obj([Member("from", Str(rs[i].from)), Member("to", Str(rs[i].to))]))
  }

  function Nullable(s: Option<string>): Json {
    match s
    case None => Null
    case Some(text) => Str(text)
  }

  /** Empty lists are elided like absent ones. */
  function NonEmpty<T>(s: Option<seq<T>>): Option<seq<T>> {
    if s == None || s.value == [] then None else s
  }

  function Elide(a: OkActor): OkActor {
    a.(summaries := NonEmpty(a.summaries), previousPaths := NonEmpty(a.previousPaths))
  }

  function ActorMembers(a: OkActor): seq<Member> {
    [ Member("v", Num(ONE)),
      Member("writer_id", Str(a.writerId)),
      Member("principal", Nullable(a.principal)),
      Member("agent_session", Nullable(a.agentSession)),
      Member("agent_type", Nullable(a.agentType)),
      Member("client_name", Nullable(a.clientName)),
      Member("client_version", Nullable(a.clientVersion)),
      Member("label", Nullable(a.userLabel)),
      Member("display_name", Str(a.displayName)),
      Member("color_seed", Str(a.colorSeed)),
      Member("docs", Arr(Strings(a.docs))) ]
    + OptionalMembers(a)
  }

  function OptionalMembers(a: OkActor): seq<Member> {
    (if NonEmpty(a.summaries) == None then [] else [Member("summaries", Arr(Strings(a.summaries.value)))])
    + (if NonEmpty(a.previousPaths) == None then [] else [Member("previous_paths", Arr(Renames(a.previousPaths.value)))])
  }

  function FormatOkActor(a: OkActor): string {
    ACTOR_PREFIX + Print(Obj(ActorMembers(a)))
  }

  // ---- Reading one actor ----

  function TextOr(v: Option<Json>, default: string): string {
    if v.Some? && v.value.Str? then v.value.text else default
  }

  function TextOption(v: Option<Json>): Option<string> {
    if v.Some? && v.value.Str? then Some(v.value.text) else None
  }

  predicate AllText(items: seq<Json>) {
    forall i :: 0 <= i < |items| ==> items[i].Str?
  }

  /** The strings of a list, everything else dropped. */
  function Texts(items: seq<Json>): seq<string> {
    if items == [] then []
    else Texts(items[..|items| - 1]) + if items[|items| - 1].Str? then [items[|items| - 1].text] else []
  }

  function RenameOf(raw: Json): Option<Rename> {
    if raw.Obj? then
      match (TextOption(Property(raw.members, "from")), TextOption(Property(raw.members, "to")))
      case (Some(from), Some(to)) => Some(Rename(from, to))
      case _ => None
    else None
  }

  /** Malformed elements are dropped one by one. */
  function RenamesIn(items: seq<Json>): seq<Rename> {
    if items == [] then []
    else RenamesIn(items[..|items| - 1]) + Optional(RenameOf(items[|items| - 1]))
  }

  function ReadSummaries(v: Option<Json>): Option<seq<string>> {
    if v.Some? && v.value.Arr? && AllText(v.value.items) then NonEmpty(Some(Texts(v.value.items))) else None
  }

  function ReadRenames(v: Option<Json>): Option<seq<Rename>> {
    if v.Some? && v.value.Arr? then NonEmpty(Some(RenamesIn(v.value.items))) else None
  }

  /** Lines from before the writer id was recorded. */
  function DerivedWriter(agentSession: Option<string>, principal: Option<string>, displayName: string): (id: string)
    ensures id != []
  {
    if agentSession.Some? && agentSession.value != "" then "agent-" + agentSession.value
    else if principal.Some? && principal.value != "" then principal.value
    else if displayName == "File System" then "file-system"
    else if displayName == "Git (upstream)" then "git-upstream"
    else "synapsenote-service"
  }

  function ReadActor(members: seq<Member>): Option<OkActor> {
    var displayName, docs := Property(members, "display_name"), Property(members, "docs");
    if Property(members, "v") != Some(Num(ONE)) then None
    else if !(displayName.Some? && displayName.value.Str?) then None
    else if !(docs.Some? && docs.value.Arr?) then None
    else
      var principal := TextOption(Property(members, "principal"));
      var agentSession := TextOption(Property(members, "agent_session"));
      var id := TextOr(Property(members, "writer_id"), "");
      Some(OkActor(
        if id != "" then id else DerivedWriter(agentSession, principal, displayName.value.text),
        principal,
        agentSession,
        TextOption(Property(members, "agent_type")),
        TextOption(Property(members, "client_name")),
        TextOption(Property(members, "client_version")),
        TextOption(Property(members, "label")),
        displayName.value.text,
        TextOr(Property(members, "color_seed"), "unknown"),
        Texts(docs.value.items),
        ReadSummaries(Property(members, "summaries")),
        ReadRenames(Property(members, "previous_paths"))))
  }

  // ---- Lines ----

  /** What a reader of one line sees: nothing unless the trimmed line starts with the prefix. */
  function Payload(prefix: string, line: string): Option<string> {
    var trimmed := Trim(line);
    if prefix <= trimmed then Some(trimmed[|prefix|..]) else None
  }

  function ActorOfLine(line: string): Option<OkActor> {
    match Payload(ACTOR_PREFIX, line)
    case None => None
    case Some(text) =>
      match Parse(text)
      case Some(Obj(members)) => ReadActor(members)
      case _ => None
  }

  function ActorsOfLines(lines: seq<string>): seq<OkActor> {
    if lines == [] then []
    else ActorsOfLines(lines[..|lines| - 1]) + Optional(ActorOfLine(lines[|lines| - 1]))
  }

  function Optional<T>(v: Option<T>): seq<T> {
    match v
    case None => []
    case Some(x) => [x]
  }

  lemma {:induction false} ActorsStep(lines: seq<string>, i: nat)
    requires i < |lines|
    ensures ActorsOfLines(lines[..i + 1]) == ActorsOfLines(lines[..i]) + Optional(ActorOfLine(lines[i]))
  {
    assert lines[..i + 1][..i] == lines[..i];
  }

  /** Every valid actor line of a body; malformed lines are skipped. */
  method ParseOkActors(body: string) returns (actors: seq<OkActor>)
    ensures actors == ActorsOfLines(Split('\n', body))
  {
    actors := [];
    var lines := Split('\n', body);
    for i := 0 to |lines|
      invariant actors == ActorsOfLines(lines[..i])
    {
      ActorsStep(lines, i);
      var entry := ActorOfLine(lines[i]);
      if entry.Some? {
        actors := actors + [entry.value];
      }
    }
    assert lines[..|lines|] == lines;
  }

  /** The first actor line decides, valid or not. */
  method ParseOkActor(body: string) returns (r: Option<OkActor>)
    ensures r == FirstActor(Split('\n', body))
  {
    var lines := Split('\n', body);
    for i := 0 to |lines|
      invariant FirstActor(lines) == FirstActor(lines[i..])
    {
      assert lines[i..][1..] == lines[i + 1..];
      if Payload(ACTOR_PREFIX, lines[i]).Some? {
        return ActorOfLine(lines[i]);
      }
    }
    return None;
  }

  function FirstActor(lines: seq<string>): Option<OkActor> {
    if lines == [] then None
    else if Payload(ACTOR_PREFIX, lines[0]).Some? then ActorOfLine(lines[0])
    else FirstActor(lines[1..])
  }

  // ---- Legacy contributors ----

  datatype Contributor = Contributor(
    version: Option<Number>,
    id: string,
    name: string,
    colorSeed: Option<string>,
    docs: seq<string>,
    summaries: Option<seq<string>>)

  /** A malformed summaries field is dropped; any other malformed field drops the entry. */
  function ReadContributor(members: seq<Member>): Option<Contributor> {
    var id, name, docs := Property(members, "id"), Property(members, "name"), Property(members, "docs");
    var colorSeed, summaries := Property(members, "colorSeed"), Property(members, "summaries");
    if !(id.Some? && id.value.Str? && name.Some? && name.value.Str?) then None
    else if !(docs.Some? && docs.value.Arr? && AllText(docs.value.items)) then None
    else if colorSeed.Some? && !colorSeed.value.Str? then None
    else
      var v := Property(members, "v");
      Some(Contributor(
        if v.Some? && v.value.Num? then Some(v.value.value) else None,
        id.value.text,
        name.value.text,
        TextOption(colorSeed),
        Texts(docs.value.items),
        if summaries.Some? && summaries.value.Arr? && AllText(summaries.value.items)
        then Some(Texts(summaries.value.items)) else None))
  }

  function ContributorOfLine(line: string): Option<Contributor> {
    match Payload(CONTRIBUTORS_PREFIX, line)
    case None => None
    case Some(text) =>
      match Parse(text)
      case Some(Obj(members)) => ReadContributor(members)
      case _ => None
  }

  function ContributorsOfLines(lines: seq<string>): seq<Contributor> {
    if lines == [] then []
    else ContributorsOfLines(lines[..|lines| - 1]) + Optional(ContributorOfLine(lines[|lines| - 1]))
  }

  lemma {:induction false} ContributorsStep(lines: seq<string>, i: nat)
    requires i < |lines|
    ensures ContributorsOfLines(lines[..i + 1]) == ContributorsOfLines(lines[..i]) + Optional(ContributorOfLine(lines[i]))
  {
    assert lines[..i + 1][..i] == lines[..i];
  }

  method ParseContributors(body: string) returns (contributors: seq<Contributor>)
    ensures contributors == ContributorsOfLines(Split('\n', body))
  {
    contributors := [];
    var lines := Split('\n', body);
    for i := 0 to |lines|
      invariant contributors == ContributorsOfLines(lines[..i])
    {
      ContributorsStep(lines, i);
      var entry := ContributorOfLine(lines[i]);
      if entry.Some? {
        contributors := contributors + [entry.value];
      }
    }
    assert lines[..|lines|] == lines;
  }

  /** An actor as the legacy record the renderers read. */
  function AsContributor(a: OkActor): Contributor {
    Contributor(Some(ONE), a.writerId, a.displayName, Some(a.colorSeed), a.docs, NonEmpty(a.summaries))
  }

  function AsContributors(actors: seq<OkActor>): (r: seq<Contributor>)
    ensures |r| == |actors|
  {
    seq(|actors|, i requires 0 <= i < |actors| => AsContributor(actors[i]))
  }

  /** Actor lines win over legacy lines. */
  function ReadContributors(body: string): seq<Contributor> {
    var actors := ActorsOfLines(Split('\n', body));
    if |actors| > 0 then AsContributors(actors) else ContributorsOfLines(Split('\n', body))
  }

  // ---- Checkpoints ----

  datatype Loss =
    | BridgeMergeLoss(lostSubstrings: seq<string>, which: Option<string>)
    | ProducerGuardLoss(construct: string)
    | ObserverDuplication(duplicatedLineCount: Number)
    | ExternalChangeRescue(incomingDiskSha: string)
    | AutoConsolidation(foldedRefs: Number, trigger: string)

  datatype Checkpoint = Checkpoint(loss: Loss, docName: Option<string>, size: Option<Number>)

  function KindOf(loss: Loss): string {
    match loss
    case BridgeMergeLoss(_, _) => "bridge-merge-loss"
    case ProducerGuardLoss(_) => "producer-guard-loss"
    case ObserverDuplication(_) => "observer-a-duplication"
    case ExternalChangeRescue(_) => "external-change-rescue"
    case AutoConsolidation(_, _) => "auto-consolidation"
  }

  function LossMembers(loss: Loss): seq<Member> {
    match loss
    case BridgeMergeLoss(lost, which) =>
      [Member("lostSubstrings", Arr(Strings(lost)))]
      + (if which == None then [] else [Member("which", Str(which.value))])
    case ProducerGuardLoss(construct) => [Member("construct", Str(construct))]
    case ObserverDuplication(n) => [Member("duplicatedLineCount", Num(n))]
    case ExternalChangeRescue(sha) => [Member("incomingDiskSha", Str(sha))]
    case AutoConsolidation(n, trigger) => [Member("foldedRefs", Num(n)), Member("trigger", Str(trigger))]
  }

  function CheckpointMembers(p: Checkpoint): seq<Member> {
    [Member("kind", Str(KindOf(p.loss))), Member("metadata", Obj(LossMembers(p.loss)))]
    + (if p.docName == None then [] else [Member("docName", Str(p.docName.value))])
    + (if p.size == None then [] else [Member("size", Num(p.size.value))])
  }

  function FormatCheckpoint(p: Checkpoint): string {
    CHECKPOINT_PREFIX + Print(Obj(CheckpointMembers(p)))
  }

  /** A finite number. */
  function NumberOption(v: Option<Json>): Option<Number> {
    if v.Some? && v.value.Num? && IsFinite(v.value.value) then Some(v.value.value) else None
  }

  predicate IsFinite(n: Number) {
    -OVERFLOW < ValueOf(n) < OVERFLOW
  }

  /** 2^1024 - 2^970: decimals from here on round to Infinity. */
  const OVERFLOW: real :=
    179769313486231580793728971405303415079934132710037826936173778980444968292764750946649017977587207096330286416692887910946555547851940402630657488671505820681908902000708383676273854845817711531764475730270069855571366959622842914819860834936475292719074168444365510704342711559699508093042880177904174497792.0

  function ReadLoss(kind: string, m: seq<Member>): Option<Loss> {
    if kind == "bridge-merge-loss" then
      var lost := Property(m, "lostSubstrings");
      if lost.Some? && lost.value.Arr? && AllText(lost.value.items)
      then Some(BridgeMergeLoss(Texts(lost.value.items), None)) else None
    else if kind == "producer-guard-loss" then
      match TextOption(Property(m, "construct"))
      case None => None
      case Some(construct) => Some(ProducerGuardLoss(construct))
    else if kind == "observer-a-duplication" then
      match NumberOption(Property(m, "duplicatedLineCount"))
      case None => None
      case Some(n) => Some(ObserverDuplication(n))
    else if kind == "external-change-rescue" then
      match TextOption(Property(m, "incomingDiskSha"))
      case None => None
      case Some(sha) => Some(ExternalChangeRescue(sha))
    else if kind == "auto-consolidation" then
      match (NumberOption(Property(m, "foldedRefs")), TextOption(Property(m, "trigger")))
      case (Some(n), Some(trigger)) => Some(AutoConsolidation(n, trigger))
      case _ => None
    else None
  }

  /** The properties of a metadata value; an array has none of the ones asked for. */
  function MetadataMembers(metadata: Option<Json>): Option<seq<Member>> {
    match metadata
    case Some(Obj(members)) => Some(members)
    case Some(Arr(_)) => Some([])
    case _ => None
  }

  function ReadCheckpoint(members: seq<Member>): Option<Checkpoint> {
    match MetadataMembers(Property(members, "metadata"))
    case None => None
    case Some(m) =>
      match ReadLoss(TextOr(Property(members, "kind"), ""), m)
      case None => None
      case Some(loss) =>
        Some(Checkpoint(loss, TextOption(Property(members, "docName")), NumberOption(Property(members, "size"))))
  }

  function CheckpointOfPayload(text: string): Option<Checkpoint> {
    match Parse(text)
    case Some(Obj(members)) => ReadCheckpoint(members)
    case _ => None
  }

  /** The first checkpoint line decides, valid or not. */
  method ParseCheckpoint(body: string) returns (r: Option<Checkpoint>)
    ensures r == FirstCheckpoint(Split('\n', body))
  {
    var lines := Split('\n', body);
    for i := 0 to |lines|
      invariant FirstCheckpoint(lines) == FirstCheckpoint(lines[i..])
    {
      assert lines[i..][1..] == lines[i + 1..];
      var payload := Payload(CHECKPOINT_PREFIX, lines[i]);
      if payload.Some? {
        return CheckpointOfPayload(payload.value);
      }
    }
    return None;
  }

  function FirstCheckpoint(lines: seq<string>): Option<Checkpoint> {
    if lines == [] then None
    else
      match Payload(CHECKPOINT_PREFIX, lines[0])
      case Some(text) => CheckpointOfPayload(text)
      case None => FirstCheckpoint(lines[1..])
  }
}
