/**
 What the tolerant readers of the commit-body lines accept, property by property: each object that is
 read, and only those, as the entry that is returned.
 */
module CommitReaders {
  import opened Sequences
  import opened Wrappers
  import opened Text
  import opened JsonNumber
  import opened JsonText
  import opened CommitBody

  // ---- Properties ----

  ghost predicate TextAt(ms: seq<Member>, key: string, text: string) {
    Property(ms, key) == Some(Str(text))
  }

  /** A text if there is one, and nothing for a value of any other kind. */
  ghost predicate OptionalText(ms: seq<Member>, key: string, o: Option<string>) {
    forall text :: o == Some(text) <==> TextAt(ms, key, text)
  }

  lemma {:induction false} OptionalTextExact(ms: seq<Member>, key: string, o: Option<string>)
    ensures TextOption(Property(ms, key)) == o <==> OptionalText(ms, key, o)
  {
    var v := Property(ms, key);
    if v.Some? && v.value.Str? {
      assert TextAt(ms, key, v.value.text);
    }
    if o.Some? {
      assert o == Some(o.value);
    }
  }

  // ---- Lists ----

  /** The texts among the items, in order. */
  ghost predicate TextsAmong(items: seq<Json>, texts: seq<string>) {
    if items == [] then texts == []
    else if items[0].Str? then texts != [] && texts[0] == items[0].text && TextsAmong(items[1..], texts[1..])
    else TextsAmong(items[1..], texts)
  }

  lemma {:induction false} TextsAppend(a: seq<Json>, b: seq<Json>)
    ensures Texts(a + b) == Texts(a) + Texts(b)
  {
    if b == [] {
      assert a + b == a;
    } else {
      var n := |b| - 1;
      assert (a + b)[..|a + b| - 1] == a + b[..n];
      TextsAppend(a, b[..n]);
    }
  }

  lemma {:induction false} TextsExact(items: seq<Json>, texts: seq<string>)
    ensures Texts(items) == texts <==> TextsAmong(items, texts)
  {
    if items != [] {
      var first := if items[0].Str? then [items[0].text] else [];
      assert items == [items[0]] + items[1..];
      assert [items[0]][..0] == [];
      assert Texts([items[0]]) == Texts([items[0]][..0]) + first == first;
      TextsAppend([items[0]], items[1..]);
      TextsExact(items[1..], if items[0].Str? && texts != [] then texts[1..] else texts);
      HeadSplit(first, Texts(items[1..]), texts);
    }
  }

  lemma {:induction false} HeadSplit<T>(first: seq<T>, rest: seq<T>, all: seq<T>)
    requires |first| <= 1
    ensures first + rest == all <==> if first == [] then rest == all else all != [] && all[0] == first[0] && rest == all[1..]
  {
    if first != [] && all != [] {
      assert all == [all[0]] + all[1..];
      assert (first + rest)[1..] == rest;
    }
  }

  ghost predicate IsRename(item: Json, r: Rename) {
    item.Obj? && TextAt(item.members, "from", r.from) && TextAt(item.members, "to", r.to)
  }

  lemma {:induction false} RenameExact(item: Json, r: Rename)
    ensures RenameOf(item) == Some(r) <==> IsRename(item, r)
  {
  }

  /** The well-formed renames among the items, in order. */
  ghost predicate RenamesAmong(items: seq<Json>, renames: seq<Rename>) {
    if items == [] then renames == []
    else if exists r :: IsRename(items[0], r)
    then renames != [] && IsRename(items[0], renames[0]) && RenamesAmong(items[1..], renames[1..])
    else RenamesAmong(items[1..], renames)
  }

  lemma {:induction false} RenamesAppend(a: seq<Json>, b: seq<Json>)
    ensures RenamesIn(a + b) == RenamesIn(a) + RenamesIn(b)
  {
    if b == [] {
      assert a + b == a;
    } else {
      var n := |b| - 1;
      assert (a + b)[..|a + b| - 1] == a + b[..n];
      RenamesAppend(a, b[..n]);
    }
  }

  lemma {:induction false} RenamesExact(items: seq<Json>, renames: seq<Rename>)
    ensures RenamesIn(items) == renames <==> RenamesAmong(items, renames)
  {
    if items != [] {
      var first := Optional(RenameOf(items[0]));
      assert items == [items[0]] + items[1..];
      assert [items[0]][..0] == [];
      assert RenamesIn([items[0]]) == RenamesIn([items[0]][..0]) + first == first;
      RenamesAppend([items[0]], items[1..]);
      RenamesExact(items[1..], if first != [] && renames != [] then renames[1..] else renames);
      HeadSplit(first, RenamesIn(items[1..]), renames);
      forall r ensures RenameOf(items[0]) == Some(r) <==> IsRename(items[0], r) {
        RenameExact(items[0], r);
      }
    }
  }

  lemma {:induction false} StringsOfTexts(items: seq<Json>)
    requires AllText(items)
    ensures Strings(Texts(items)) == items
  {
    if items != [] {
      var n := |items| - 1;
      StringsOfTexts(items[..n]);
      assert items == items[..n] + [items[n]];
      assert Texts(items) == Texts(items[..n]) + [items[n].text];
    }
  }

  lemma {:induction false} TextsOfAll(texts: seq<string>)
    ensures Texts(Strings(texts)) == texts && AllText(Strings(texts))
  {
    if texts != [] {
      var n := |texts| - 1;
      TextsOfAll(texts[..n]);
      assert Strings(texts)[..n] == Strings(texts[..n]);
      assert texts == texts[..n] + [texts[n]];
    }
  }

  /** A list of nothing but texts. */
  lemma {:induction false} AllTextExact(items: seq<Json>, texts: seq<string>)
    ensures AllText(items) && Texts(items) == texts <==> items == Strings(texts)
  {
    if AllText(items) {
      StringsOfTexts(items);
    }
    TextsOfAll(texts);
  }

  // ---- Actors ----

  /** The summaries are read only as a nonempty list of nothing but texts. */
  ghost predicate SummariesRead(ms: seq<Member>, o: Option<seq<string>>) {
    forall texts :: o == Some(texts) <==> texts != [] && Property(ms, "summaries") == Some(Arr(Strings(texts)))
  }

  /** Of the renames the well-formed ones are read, if there are any. */
  ghost predicate RenamesRead(ms: seq<Member>, o: Option<seq<Rename>>) {
    forall rs :: o == Some(rs) <==>
      rs != [] && exists items :: Property(ms, "previous_paths") == Some(Arr(items)) && RenamesAmong(items, rs)
  }

  /** The writer that is named, else the agent session, else the principal, else one known by its name. */
  ghost predicate WriterRead(ms: seq<Member>, a: OkActor) {
    if exists text :: text != "" && TextAt(ms, "writer_id", text) then TextAt(ms, "writer_id", a.writerId)
    else if a.agentSession.Some? && a.agentSession != Some("") then a.writerId == "agent-" + a.agentSession.value
    else if a.principal.Some? && a.principal != Some("") then Some(a.writerId) == a.principal
    else
      && (a.displayName == "File System" ==> a.writerId == "file-system")
      && (a.displayName == "Git (upstream)" ==> a.writerId == "git-upstream")
      && (a.displayName != "File System" && a.displayName != "Git (upstream)" ==> a.writerId == "synapsenote-service")
  }

  ghost predicate ColorRead(ms: seq<Member>, color: string) {
    if exists text :: TextAt(ms, "color_seed", text) then TextAt(ms, "color_seed", color) else color == "unknown"
  }

  ghost predicate DocsAmong(ms: seq<Member>, docs: seq<string>) {
    exists items :: Property(ms, "docs") == Some(Arr(items)) && TextsAmong(items, docs)
  }

  /** The object is read as this actor. */
  ghost predicate ActorRead(ms: seq<Member>, a: OkActor) {
    && Property(ms, "v") == Some(Num(ONE))
    && TextAt(ms, "display_name", a.displayName) && DocsAmong(ms, a.docs)
    && OptionalText(ms, "principal", a.principal) && OptionalText(ms, "agent_session", a.agentSession)
    && OptionalText(ms, "agent_type", a.agentType) && OptionalText(ms, "client_name", a.clientName)
    && OptionalText(ms, "client_version", a.clientVersion) && OptionalText(ms, "label", a.userLabel)
    && WriterRead(ms, a) && ColorRead(ms, a.colorSeed)
    && SummariesRead(ms, a.summaries) && RenamesRead(ms, a.previousPaths)
  }

  lemma {:induction false} SummariesExact(ms: seq<Member>, o: Option<seq<string>>)
    ensures ReadSummaries(Property(ms, "summaries")) == o <==> SummariesRead(ms, o)
  {
    var v := Property(ms, "summaries");
    forall texts ensures ReadSummaries(v) == Some(texts) <==> texts != [] && v == Some(Arr(Strings(texts))) {
      if v.Some? && v.value.Arr? {
        AllTextExact(v.value.items, texts);
      }
    }
    if SummariesRead(ms, o) {
      assert o.Some? ==> ReadSummaries(v) == Some(o.value);
      assert ReadSummaries(v).Some? ==> o == Some(ReadSummaries(v).value);
    }
  }

  lemma {:induction false} RenameListExact(ms: seq<Member>, o: Option<seq<Rename>>)
    ensures ReadRenames(Property(ms, "previous_paths")) == o <==> RenamesRead(ms, o)
  {
    var v := Property(ms, "previous_paths");
    forall rs ensures ReadRenames(v) == Some(rs) <==>
                      rs != [] && exists items :: v == Some(Arr(items)) && RenamesAmong(items, rs)
    {
      if v.Some? && v.value.Arr? {
        RenamesExact(v.value.items, rs);
      }
    }
    if RenamesRead(ms, o) {
      assert o.Some? ==> ReadRenames(v) == Some(o.value);
      assert ReadRenames(v).Some? ==> o == Some(ReadRenames(v).value);
    }
  }

  lemma {:induction false} WriterExact(ms: seq<Member>, a: OkActor)
    ensures var id := TextOr(Property(ms, "writer_id"), "");
            a.writerId == (if id != "" then id else DerivedWriter(a.agentSession, a.principal, a.displayName))
            <==> WriterRead(ms, a)
  {
    var v := Property(ms, "writer_id");
    if v.Some? && v.value.Str? && v.value.text != "" {
      assert TextAt(ms, "writer_id", v.value.text);
    }
  }

  lemma {:induction false} ColorExact(ms: seq<Member>, color: string)
    ensures TextOr(Property(ms, "color_seed"), "unknown") == color <==> ColorRead(ms, color)
  {
    var v := Property(ms, "color_seed");
    if v.Some? && v.value.Str? {
      assert TextAt(ms, "color_seed", v.value.text);
    }
  }

  lemma {:induction false} DocsExact(ms: seq<Member>, docs: seq<string>)
    ensures var v := Property(ms, "docs");
            v.Some? && v.value.Arr? && Texts(v.value.items) == docs <==> DocsAmong(ms, docs)
  {
    var v := Property(ms, "docs");
    if v.Some? && v.value.Arr? {
      TextsExact(v.value.items, docs);
    }
  }

  lemma {:induction false} OptionalTexts(ms: seq<Member>, a: OkActor)
    ensures OptionalText(ms, "principal", a.principal) <==> TextOption(Property(ms, "principal")) == a.principal
    ensures OptionalText(ms, "agent_session", a.agentSession) <==> TextOption(Property(ms, "agent_session")) == a.agentSession
    ensures OptionalText(ms, "agent_type", a.agentType) <==> TextOption(Property(ms, "agent_type")) == a.agentType
    ensures OptionalText(ms, "client_name", a.clientName) <==> TextOption(Property(ms, "client_name")) == a.clientName
    ensures OptionalText(ms, "client_version", a.clientVersion) <==> TextOption(Property(ms, "client_version")) == a.clientVersion
    ensures OptionalText(ms, "label", a.userLabel) <==> TextOption(Property(ms, "label")) == a.userLabel
  {
    OptionalTextExact(ms, "principal", a.principal);
    OptionalTextExact(ms, "agent_session", a.agentSession);
    OptionalTextExact(ms, "agent_type", a.agentType);
    OptionalTextExact(ms, "client_name", a.clientName);
    OptionalTextExact(ms, "client_version", a.clientVersion);
    OptionalTextExact(ms, "label", a.userLabel);
  }

  /** The reader's tests and the fields of its result. */
  predicate ReadsFields(ms: seq<Member>, a: OkActor) {
    var id, docs := TextOr(Property(ms, "writer_id"), ""), Property(ms, "docs");
    && Property(ms, "v") == Some(Num(ONE)) && Property(ms, "display_name") == Some(Str(a.displayName))
    && docs.Some? && docs.value.Arr? && Texts(docs.value.items) == a.docs
    && TextOption(Property(ms, "principal")) == a.principal && TextOption(Property(ms, "agent_session")) == a.agentSession
    && TextOption(Property(ms, "agent_type")) == a.agentType && TextOption(Property(ms, "client_name")) == a.clientName
    && TextOption(Property(ms, "client_version")) == a.clientVersion && TextOption(Property(ms, "label")) == a.userLabel
    && a.writerId == (if id != "" then id else DerivedWriter(a.agentSession, a.principal, a.displayName))
    && TextOr(Property(ms, "color_seed"), "unknown") == a.colorSeed
    && ReadSummaries(Property(ms, "summaries")) == a.summaries
    && ReadRenames(Property(ms, "previous_paths")) == a.previousPaths
  }

  lemma {:induction false} FieldsExact(ms: seq<Member>, a: OkActor)
    ensures ReadActor(ms) == Some(a) <==> ReadsFields(ms, a)
  {
  }

  /** An object is accepted exactly when it can be read as an actor, and is read as that one. */
  lemma {:induction false} ActorExact(ms: seq<Member>, a: OkActor)
    ensures ReadActor(ms) == Some(a) <==> ActorRead(ms, a)
  {
    FieldsExact(ms, a);
    OptionalTexts(ms, a);
    SummariesExact(ms, a.summaries);
    RenameListExact(ms, a.previousPaths);
    WriterExact(ms, a);
    ColorExact(ms, a.colorSeed);
    DocsExact(ms, a.docs);
  }

  // ---- Legacy contributors ----

  /** The object is read as this contributor: only a malformed list of summaries is let pass, and dropped. */
  ghost predicate ContributorRead(ms: seq<Member>, c: Contributor) {
    && TextAt(ms, "id", c.id) && TextAt(ms, "name", c.name)
    && Property(ms, "docs") == Some(Arr(Strings(c.docs)))
    && Property(ms, "colorSeed") == (if c.colorSeed.Some? then Some(Str(c.colorSeed.value)) else None)
    && (forall n :: c.version == Some(n) <==> Property(ms, "v") == Some(Num(n)))
    && (forall texts :: c.summaries == Some(texts) <==> Property(ms, "summaries") == Some(Arr(Strings(texts))))
  }

  lemma {:induction false} ListExact(v: Option<Json>, texts: seq<string>)
    ensures v.Some? && v.value.Arr? && AllText(v.value.items) && Texts(v.value.items) == texts <==> v == Some(Arr(Strings(texts)))
  {
    if v.Some? && v.value.Arr? {
      AllTextExact(v.value.items, texts);
    } else {
      AllTextExact([], texts);
    }
  }

  function NumberAt(v: Option<Json>): Option<Number> {
    if v.Some? && v.value.Num? then Some(v.value.value) else None
  }

  function ListAt(v: Option<Json>): Option<seq<string>> {
    if v.Some? && v.value.Arr? && AllText(v.value.items) then Some(Texts(v.value.items)) else None
  }

  lemma {:induction false} NumberAtExact(v: Option<Json>, o: Option<Number>)
    ensures o == NumberAt(v) <==> forall n :: o == Some(n) <==> v == Some(Num(n))
  {
    if v.Some? && v.value.Num? {
      assert v == Some(Num(v.value.value));
    }
    if o.Some? {
      assert o == Some(o.value);
    }
  }

  lemma {:induction false} ListAtExact(v: Option<Json>, o: Option<seq<string>>)
    ensures o == ListAt(v) <==> forall texts :: o == Some(texts) <==> v == Some(Arr(Strings(texts)))
  {
    forall texts ensures ListAt(v) == Some(texts) <==> v == Some(Arr(Strings(texts))) {
      ListExact(v, texts);
    }
    if forall texts :: o == Some(texts) <==> v == Some(Arr(Strings(texts))) {
      assert o.Some? ==> ListAt(v) == Some(o.value);
      assert ListAt(v).Some? ==> o == Some(ListAt(v).value);
    }
  }

  lemma {:induction false} ContributorExact(ms: seq<Member>, c: Contributor)
    ensures ReadContributor(ms) == Some(c) <==> ContributorRead(ms, c)
  {
    ListExact(Property(ms, "docs"), c.docs);
    NumberAtExact(Property(ms, "v"), c.version);
    ListAtExact(Property(ms, "summaries"), c.summaries);
  }

  // ---- Checkpoints ----

  ghost predicate FiniteAt(ms: seq<Member>, key: string, n: Number) {
    -OVERFLOW < ValueOf(n) < OVERFLOW && Property(ms, key) == Some(Num(n))
  }

  /** The metadata is read as this loss of the given kind. */
  ghost predicate LossRead(kind: string, m: seq<Member>, loss: Loss) {
    match loss
    case BridgeMergeLoss(lost, which) =>
      kind == "bridge-merge-loss" && which == None && Property(m, "lostSubstrings") == Some(Arr(Strings(lost)))
    case ProducerGuardLoss(construct) => kind == "producer-guard-loss" && TextAt(m, "construct", construct)
    case ObserverDuplication(n) => kind == "observer-a-duplication" && FiniteAt(m, "duplicatedLineCount", n)
    case ExternalChangeRescue(sha) => kind == "external-change-rescue" && TextAt(m, "incomingDiskSha", sha)
    case AutoConsolidation(n, trigger) =>
      kind == "auto-consolidation" && FiniteAt(m, "foldedRefs", n) && TextAt(m, "trigger", trigger)
  }

  lemma {:induction false} LossExact(kind: string, m: seq<Member>, loss: Loss)
    ensures ReadLoss(kind, m) == Some(loss) <==> LossRead(kind, m, loss)
  {
    if loss.BridgeMergeLoss? {
      ListExact(Property(m, "lostSubstrings"), loss.lostSubstrings);
    }
  }

  /** The object is read as this checkpoint; a list for metadata has no properties. */
  ghost predicate CheckpointRead(ms: seq<Member>, p: Checkpoint) {
    && (exists kind, m :: TextAt(ms, "kind", kind) && LossRead(kind, m, p.loss) && Property(ms, "metadata") == Some(Obj(m)))
    && OptionalText(ms, "docName", p.docName)
    && (forall n :: p.size == Some(n) <==> FiniteAt(ms, "size", n))
  }

  lemma {:induction false} SizeExact(ms: seq<Member>, size: Option<Number>)
    ensures NumberOption(Property(ms, "size")) == size <==> forall n :: size == Some(n) <==> FiniteAt(ms, "size", n)
  {
    var v := Property(ms, "size");
    if v.Some? && v.value.Num? && IsFinite(v.value.value) {
      assert FiniteAt(ms, "size", v.value.value);
    }
    if size.Some? {
      assert size == Some(size.value);
    }
  }

  lemma {:induction false} LossAt(ms: seq<Member>, loss: Loss)
    ensures (match MetadataMembers(Property(ms, "metadata"))
             case None => false
             case Some(m) => ReadLoss(TextOr(Property(ms, "kind"), ""), m) == Some(loss))
            <==> exists kind, m :: TextAt(ms, "kind", kind) && LossRead(kind, m, loss) && Property(ms, "metadata") == Some(Obj(m))
  {
    var kind := TextOr(Property(ms, "kind"), "");
    var m := MetadataMembers(Property(ms, "metadata"));
    NothingToRead(kind, loss);
    if m.Some? {
      LossExact(kind, m.value, loss);
      if LossRead(kind, m.value, loss) {
        assert TextAt(ms, "kind", kind);
      }
    }
  }

  /** Without properties there is no loss of any kind. */
  lemma {:induction false} NothingToRead(kind: string, loss: Loss)
    ensures !LossRead(kind, [], loss)
  {
  }

  lemma {:induction false} CheckpointExact(ms: seq<Member>, p: Checkpoint)
    ensures ReadCheckpoint(ms) == Some(p) <==> CheckpointRead(ms, p)
  {
    LossAt(ms, p.loss);
    OptionalTextExact(ms, "docName", p.docName);
    SizeExact(ms, p.size);
  }

  // ---- Lines ----

  /** The trimmed line is the prefix and the JSON text of an object. */
  ghost predicate Carries(prefix: string, line: string, ms: seq<Member>) {
    exists text :: Trim(line) == prefix + text && Parse(text) == Some(Obj(ms))
  }

  lemma {:induction false} PayloadExact(prefix: string, line: string, text: string)
    ensures Payload(prefix, line) == Some(text) <==> Trim(line) == prefix + text
  {
    var trimmed := Trim(line);
    if prefix <= trimmed {
      assert trimmed == prefix + trimmed[|prefix|..];
    }
    assert (prefix + text)[|prefix|..] == text;
  }

  function ObjectOf(prefix: string, line: string): Option<seq<Member>> {
    match Payload(prefix, line)
    case None => None
    case Some(text) =>
      match Parse(text)
      case Some(Obj(ms)) => Some(ms)
      case _ => None
  }

  lemma {:induction false} ObjectExact(prefix: string, line: string, ms: seq<Member>)
    ensures ObjectOf(prefix, line) == Some(ms) <==> Carries(prefix, line, ms)
  {
    if Payload(prefix, line).Some? {
      PayloadExact(prefix, line, Payload(prefix, line).value);
    }
    if text :| Trim(line) == prefix + text && Parse(text) == Some(Obj(ms)) {
      PayloadExact(prefix, line, text);
    }
  }

  /** A line is an actor exactly when it carries an object that reads as that actor. */
  lemma {:induction false} ActorLineExact(line: string, a: OkActor)
    ensures ActorOfLine(line) == Some(a) <==> exists ms :: Carries(ACTOR_PREFIX, line, ms) && ActorRead(ms, a)
  {
    var found := ObjectOf(ACTOR_PREFIX, line);
    if found.Some? {
      ObjectExact(ACTOR_PREFIX, line, found.value);
      ActorExact(found.value, a);
    }
    OnlyObject(ACTOR_PREFIX, line);
    assert ActorOfLine(line) == if found.Some? then ReadActor(found.value) else None;
  }

  lemma {:induction false} OnlyObject(prefix: string, line: string)
    ensures forall ms :: Carries(prefix, line, ms) ==> ObjectOf(prefix, line) == Some(ms)
  {
    forall ms | Carries(prefix, line, ms) ensures ObjectOf(prefix, line) == Some(ms) {
      ObjectExact(prefix, line, ms);
    }
  }

  lemma {:induction false} ContributorLineExact(line: string, c: Contributor)
    ensures ContributorOfLine(line) == Some(c) <==> exists ms :: Carries(CONTRIBUTORS_PREFIX, line, ms) && ContributorRead(ms, c)
  {
    var found := ObjectOf(CONTRIBUTORS_PREFIX, line);
    if found.Some? {
      ObjectExact(CONTRIBUTORS_PREFIX, line, found.value);
      ContributorExact(found.value, c);
    }
    OnlyObject(CONTRIBUTORS_PREFIX, line);
    assert ContributorOfLine(line) == if found.Some? then ReadContributor(found.value) else None;
  }

  // ---- Bodies ----

  /** The first line with the prefix, if there is one. */
  ghost predicate FirstWith(prefix: string, lines: seq<string>, i: nat) {
    && i < |lines| && prefix <= Trim(lines[i])
    && forall j :: 0 <= j < i ==> !(prefix <= Trim(lines[j]))
  }

  /** The single readers go by the first line with the prefix, whether or not it can be read. */
  lemma {:induction false} FirstActorDecides(lines: seq<string>, i: nat)
    requires FirstWith(ACTOR_PREFIX, lines, i)
    ensures FirstActor(lines) == ActorOfLine(lines[i])
  {
    if i > 0 {
      LaterFirst(ACTOR_PREFIX, lines, i);
      FirstActorDecides(lines[1..], i - 1);
    }
  }

  lemma {:induction false} FirstCheckpointDecides(lines: seq<string>, i: nat)
    requires FirstWith(CHECKPOINT_PREFIX, lines, i)
    ensures FirstCheckpoint(lines) == match ObjectOf(CHECKPOINT_PREFIX, lines[i])
                                      case Some(ms) => ReadCheckpoint(ms)
                                      case None => None
  {
    if i > 0 {
      LaterFirst(CHECKPOINT_PREFIX, lines, i);
      FirstCheckpointDecides(lines[1..], i - 1);
    }
  }

  lemma {:induction false} LaterFirst(prefix: string, lines: seq<string>, i: nat)
    requires FirstWith(prefix, lines, i) && i > 0
    ensures !(prefix <= Trim(lines[0])) && FirstWith(prefix, lines[1..], i - 1) && lines[1..][i - 1] == lines[i]
  {
    forall j | 0 <= j < i - 1 ensures !(prefix <= Trim(lines[1..][j])) {
      assert lines[1..][j] == lines[j + 1];
    }
  }

  lemma {:induction false} NoneDecides(lines: seq<string>)
    ensures (forall l :: l in lines ==> !(ACTOR_PREFIX <= Trim(l))) ==> FirstActor(lines) == None
    ensures (forall l :: l in lines ==> !(CHECKPOINT_PREFIX <= Trim(l))) ==> FirstCheckpoint(lines) == None
  {
    if lines != [] {
      NoneDecides(lines[1..]);
    }
  }

  /** The entries of the lines that have one, in order. */
  ghost predicate EntriesOf<T>(lines: seq<string>, read: string -> Option<T>, entries: seq<T>) {
    if lines == [] then entries == []
    else
      match read(lines[0])
      case None => EntriesOf(lines[1..], read, entries)
      case Some(x) => entries != [] && entries[0] == x && EntriesOf(lines[1..], read, entries[1..])
  }

  /** The plural readers return what each line that can be read holds, in order; actors win over legacy lines. */
  lemma {:induction false} BodyExact(body: string)
    ensures var lines := Split('\n', body);
            && EntriesOf(lines, ActorOfLine, ActorsOfLines(lines))
            && EntriesOf(lines, ContributorOfLine, ContributorsOfLines(lines))
            && (ActorsOfLines(lines) == [] ==> ReadContributors(body) == ContributorsOfLines(lines))
  {
    var lines := Split('\n', body);
    AllActors(lines);
    AllContributors(lines);
    AllEntries(lines, ActorOfLine);
    AllEntries(lines, ContributorOfLine);
  }

  /** The readers' loops, from the last line back. */
  function ReadAll<T>(lines: seq<string>, read: string -> Option<T>): seq<T> {
    if lines == [] then [] else ReadAll(lines[..|lines| - 1], read) + Optional(read(lines[|lines| - 1]))
  }

  lemma {:induction false} AllActors(lines: seq<string>)
    ensures ActorsOfLines(lines) == ReadAll(lines, ActorOfLine)
  {
    if lines != [] {
      AllActors(lines[..|lines| - 1]);
    }
  }

  lemma {:induction false} AllContributors(lines: seq<string>)
    ensures ContributorsOfLines(lines) == ReadAll(lines, ContributorOfLine)
  {
    if lines != [] {
      AllContributors(lines[..|lines| - 1]);
    }
  }

  lemma {:induction false} ReadSnoc<T>(front: seq<string>, last: string, read: string -> Option<T>)
    ensures ReadAll(front + [last], read) == ReadAll(front, read) + Optional(read(last))
  {
    assert (front + [last])[..|front|] == front;
  }

  lemma {:induction false} ReadFirst<T>(lines: seq<string>, read: string -> Option<T>)
    requires lines != []
    ensures ReadAll(lines, read) == Optional(read(lines[0])) + ReadAll(lines[1..], read)
  {
    var n := |lines| - 1;
    var front, last := lines[..n], lines[n];
    if n == 0 {
      assert lines[1..] == [] && front == [];
    } else {
      ReadFirst(front, read);
      ReadSnoc(front, last, read);
      ReadSnoc(front[1..], last, read);
      assert lines == front + [last] && lines[1..] == front[1..] + [last];
      Assoc(Optional(read(lines[0])), ReadAll(front[1..], read), Optional(read(last)));
    }
  }

  lemma {:induction false} AllEntries<T>(lines: seq<string>, read: string -> Option<T>)
    ensures EntriesOf(lines, read, ReadAll(lines, read))
  {
    if lines != [] {
      AllEntries(lines[1..], read);
      ReadFirst(lines, read);
      var first, rest := Optional(read(lines[0])), ReadAll(lines[1..], read);
      if first == [] {
        assert first + rest == rest;
      } else {
        assert (first + rest)[1..] == rest;
      }
    }
  }
}
