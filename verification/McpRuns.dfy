/**
 Two runs of the upsert of mcp_edit.rs on texts: the second reads what the first wrote and changes
 nothing.

 A fresh value has no spelling and no formatting until it is written, so the library never reads back
 the very tree it wrote. It reads the same document with everything filled in, its tables possibly in
 another order and at other positions; and it writes a document it has read as it stood.
 */
module McpRuns {
  import opened Wrappers
  import opened OrderedPairs
  import opened Toml
  import opened McpEdit
  import opened McpLaws
  import opened TomlLaws

  // ---- What writing fills in ----

  /** Where a value stands; in a list, also at which place of how many. */
  datatype Place = InTable | InArray(index: nat, count: nat) | InInline(index: nat, count: nat)

  /** What the library writes for a value or key that has no spelling or formatting of its own. */
  datatype Style = Style(
    spelling: Scalar -> string,
    keySpelling: string -> string,
    arrayLayout: string,
    inlineLayout: string,
    decor: Place -> Decor,
    leaf: Place -> Decor,
    dotted: Place -> Decor)

  function OrElse<T>(own: Option<T>, other: Option<T>): Option<T> {
    if own.Some? then own else other
  }

  function FilledDecor(own: Decor, other: Decor): Decor {
    Decor(OrElse(own.prefix, other.prefix), OrElse(own.suffix, other.suffix))
  }

  function FilledKey(style: Style, place: Place, key: Key): Key {
    Key(key.name, OrElse(key.spelling, Some(style.keySpelling(key.name))),
        FilledDecor(key.leaf, style.leaf(place)), FilledDecor(key.dotted, style.dotted(place)))
  }

  /** The value as it is read from its own rendering at a place. */
  function FilledValue(style: Style, place: Place, value: Value): Value
    decreases value
  {
    match value
    case ScalarValue(scalar, spelling, decor) =>
      ScalarValue(scalar, OrElse(spelling, Some(style.spelling(scalar))), FilledDecor(decor, style.decor(place)))
    case Array(values, layout, decor) =>
      Array(seq(|values|, i requires 0 <= i < |values| => FilledValue(style, InArray(i, |values|), values[i])),
            OrElse(layout, Some(style.arrayLayout)), FilledDecor(decor, style.decor(place)))
    case Inline(fields, layout, decor) =>
      Inline(FilledFields(style, fields), OrElse(layout, Some(style.inlineLayout)), FilledDecor(decor, style.decor(place)))
  }

  function FilledFields(style: Style, fields: Pairs<Value>): (r: Pairs<Value>)
    ensures |r| == |fields|
    ensures forall i :: 0 <= i < |r| ==> r[i] == FilledField(style, InInline(i, |fields|), fields[i])
    decreases fields
  {
    seq(|fields|, i requires 0 <= i < |fields| => FilledField(style, InInline(i, |fields|), fields[i]))
  }

  function FilledField(style: Style, place: Place, field: Pair<Value>): (r: Pair<Value>)
    ensures r.key.name == field.key.name
    decreases field
  {
    Pair(FilledKey(style, place, field.key), FilledValue(style, place, field.value))
  }

  function FilledItem(style: Style, item: Item): Item {
    match item
    case NoItem => NoItem
    case ValueItem(value) => ValueItem(FilledValue(style, InTable, value))
    case TableItem(table) => TableItem(FilledTable(style, table))
    case TableArray(tables) =>
      TableArray(seq(|tables|, i requires 0 <= i < |tables| => FilledTable(style, tables[i])))
  }

  /** All values filled in; a table of dotted keys has no header, whether or not it is called implicit. */
  function FilledTable(style: Style, table: Table): Table {
    table.(
      implicit := table.implicit && !table.dotted,
      entries := seq(|table.entries|, i requires 0 <= i < |table.entries| =>
        Pair(table.entries[i].key, FilledItem(style, table.entries[i].value))))
  }

  // ---- What is asked of the library ----

  /** The table is written with a header of its own or with dotted keys. */
  predicate Explicit(table: Table) {
    !table.implicit || table.dotted
  }

  /**
   The same items under the same names, every value filled in; keys in any order and spelling, tables at
   any position, and any formatting around keys, values and tables.
   */
  ghost predicate TableReadBack(style: Style, table: Table, back: Table) {
    && (Explicit(table) ==> Explicit(back))
    && (forall name ::
          && (Contains(table, name) <==> Contains(back, name))
          && (Contains(table, name) ==> ItemReadBack(style, Get(table.entries, name), Get(back.entries, name))))
  }

  ghost predicate ItemReadBack(style: Style, item: Item, back: Item) {
    match (item, back)
    case (NoItem, NoItem) => true
    case (ValueItem(v), ValueItem(w)) => w == FilledValue(style, InTable, v).(decor := w.decor)
    case (TableItem(t), TableItem(u)) => TableReadBack(style, t, u)
    case (TableArray(ts), TableArray(us)) =>
      |ts| == |us| && forall i :: 0 <= i < |ts| ==> TableReadBack(style, ts[i], us[i])
    case _ => false
  }

  /** The text of a tree is read back as the same document, and that is written as the same text. */
  ghost predicate ReadsBack(library: Library, style: Style, tree: Table, back: Table) {
    && library.parse(library.render(tree)) == Some(back)
    && library.render(back) == library.render(tree)
    && TableReadBack(style, tree, back)
  }

  /** What the values of a tree lack is written as the style says. */
  predicate WritesStyle(library: Library, style: Style, tree: Table) {
    library.render(FilledTable(style, tree)) == library.render(tree)
  }

  // ---- Filling in ----

  lemma {:induction false} FilledTwice(style: Style, place: Place, value: Value)
    ensures FilledValue(style, place, FilledValue(style, place, value)) == FilledValue(style, place, value)
    decreases value
  {
    match value
    case ScalarValue(_, _, _) =>
    case Array(values, _, _) =>
      forall i | 0 <= i < |values| {
        FilledTwice(style, InArray(i, |values|), values[i]);
      }
    case Inline(fields, _, _) =>
      forall i | 0 <= i < |fields| {
        FieldTwice(style, InInline(i, |fields|), fields[i]);
      }
  }

  lemma {:induction false} FieldTwice(style: Style, place: Place, field: Pair<Value>)
    ensures FilledField(style, place, FilledField(style, place, field)) == FilledField(style, place, field)
    decreases field
  {
    FilledTwice(style, place, field.value);
  }

  /** Formatting around a value is filled in apart from the value. */
  lemma {:induction false} FilledAround(style: Style, p: Place, q: Place, value: Value, decor: Decor)
    ensures FilledValue(style, p, value.(decor := decor))
            == FilledValue(style, q, value).(decor := FilledDecor(decor, style.decor(p)))
  {
  }

  /** A wanted value merged into what it was read back as: no difference once filled in. */
  lemma {:induction false} MergedAgain(style: Style, p: Place, q: Place, wanted: Value, written: Value, back: Value)
    requires written == wanted.(decor := written.decor)
    requires back == FilledValue(style, p, written).(decor := back.decor)
    ensures FilledValue(style, q, MergeValue(back, wanted)) == FilledValue(style, q, back)
  {
    var around := FilledDecor(back.decor, style.decor(q));
    FilledAround(style, q, p, written, back.decor);
    FilledAround(style, q, p, FilledValue(style, p, written), back.decor);
    FilledTwice(style, p, written);
  }

  // ---- The keys of the entry ----

  /** The value is the wanted one, but for the formatting around it. */
  predicate IsWritten(value: Value, wanted: Value) {
    value == wanted.(decor := value.decor)
  }

  ghost predicate FieldsWritten(fields: Pairs<Value>, desired: Desired) {
    forall key :: Has(desired, key) ==> Has(fields, key) && IsWritten(Get(fields, key), Get(desired, key))
  }

  ghost predicate EntriesWritten(entries: Pairs<Item>, desired: Desired) {
    forall key :: Has(desired, key) ==>
      Has(entries, key) && Get(entries, key).ValueItem? && IsWritten(Get(entries, key).value, Get(desired, key))
  }

  /** Every edited entry holds what was asked for. */
  lemma {:induction false} ReconciledFields(fields: Pairs<Value>, desired: Desired)
    requires Managed(desired) && UniqueNames(fields)
    ensures FieldsWritten(Reconcile(fields, desired, MergeValue), desired)
    ensures UniqueNames(Reconcile(fields, desired, MergeValue))
  {
    ReconcileUnique(fields, desired, MergeValue);
    forall key | Has(desired, key)
      ensures var r := Reconcile(fields, desired, MergeValue); Has(r, key) && IsWritten(Get(r, key), Get(desired, key))
    {
      ReconcileGet(fields, desired, MergeValue, key);
    }
  }

  lemma {:induction false} ReconciledEntries(entries: Pairs<Item>, desired: Desired)
    requires Managed(desired) && UniqueNames(entries)
    ensures EntriesWritten(Reconcile(entries, AsItems(desired), MergeItem), desired)
  {
    ItemsManaged(desired);
    forall key | Has(desired, key)
      ensures var r := Reconcile(entries, AsItems(desired), MergeItem);
              Has(r, key) && Get(r, key).ValueItem? && IsWritten(Get(r, key).value, Get(desired, key))
    {
      ReconcileGet(entries, AsItems(desired), MergeItem, key);
      FindSameNames(AsItems(desired), desired, key);
    }
  }

  lemma {:induction false} NothingAdded<V>(ps: Pairs<V>, wanted: Pairs<V>, merge: (V, V) -> V)
    requires UniqueNames(ps) && UniqueNames(wanted) && NewKeys(wanted)
    requires forall key :: Has(wanted, key) ==> Has(ps, key)
    ensures Reconcile(ps, wanted, merge) == Updated(ps, wanted, merge)
  {
    ReconcileClosed(ps, wanted, merge);
    NothingMissing(ps, wanted);
  }

  lemma {:induction false} FoundByFilling(style: Style, fields: Pairs<Value>, key: string)
    ensures Find(FilledFields(style, fields), key) == Find(fields, key)
  {
    FindSameNames(FilledFields(style, fields), fields, key);
  }

  lemma {:induction false} FieldAgain(style: Style, place: Place, field: Pair<Value>, fields: Pairs<Value>, desired: Desired)
    requires UniqueNames(fields) && FieldsWritten(fields, desired) && field in fields
    ensures var back := FilledField(style, place, field);
            FilledField(style, place, Merged(back, desired, MergeValue)) == FilledField(style, place, back)
  {
    var key, back := field.key.name, FilledField(style, place, field);
    if Has(desired, key) {
      var i: nat :| i < |fields| && fields[i] == field;
      FindAt(fields, i);
      MergedAgain(style, place, place, Get(desired, key), field.value, back.value);
    }
  }

  lemma {:induction false} UniqueByFilling(style: Style, fields: Pairs<Value>)
    requires UniqueNames(fields)
    ensures UniqueNames(FilledFields(style, fields))
  {
  }

  /** The key loop over an inline entry that was read back. */
  lemma {:induction false} FieldsAgain(style: Style, fields: Pairs<Value>, desired: Desired)
    requires Managed(desired) && UniqueNames(fields) && FieldsWritten(fields, desired)
    ensures var back := FilledFields(style, fields);
            FilledFields(style, Reconcile(back, desired, MergeValue)) == FilledFields(style, back)
  {
    var back := FilledFields(style, fields);
    forall key ensures Has(back, key) <==> Has(fields, key) {
      FoundByFilling(style, fields, key);
    }
    UniqueByFilling(style, fields);
    NothingAdded(back, desired, MergeValue);
    forall i | 0 <= i < |back|
      ensures FilledField(style, InInline(i, |back|), Merged(back[i], desired, MergeValue))
              == FilledField(style, InInline(i, |back|), back[i])
    {
      FieldAgain(style, InInline(i, |back|), fields[i], fields, desired);
    }
    SameFields(style, back, Updated(back, desired, MergeValue));
  }

  lemma {:induction false} SameFields(style: Style, a: Pairs<Value>, b: Pairs<Value>)
    requires |a| == |b|
    requires forall i :: 0 <= i < |a| ==>
               FilledField(style, InInline(i, |a|), b[i]) == FilledField(style, InInline(i, |a|), a[i])
    ensures FilledFields(style, b) == FilledFields(style, a)
  {
  }

  /** Every wanted key was read back, as a value that merging does not change once filled in. */
  ghost predicate EntriesRead(style: Style, entries: Pairs<Item>, desired: Desired) {
    forall key :: Has(desired, key) ==>
      && Has(entries, key) && Get(entries, key).ValueItem?
      && (var value := Get(entries, key).value;
          FilledValue(style, InTable, MergeValue(value, Get(desired, key))) == FilledValue(style, InTable, value))
  }

  lemma {:induction false} WrittenIsRead(style: Style, entry: Table, back: Table, desired: Desired)
    requires EntriesWritten(entry.entries, desired) && TableReadBack(style, entry, back)
    ensures EntriesRead(style, back.entries, desired)
  {
    forall key | Has(desired, key)
      ensures Has(back.entries, key) && Get(back.entries, key).ValueItem?
      ensures var value := Get(back.entries, key).value;
              FilledValue(style, InTable, MergeValue(value, Get(desired, key))) == FilledValue(style, InTable, value)
    {
      assert Contains(entry, key);
      var written, value := Get(entry.entries, key).value, Get(back.entries, key).value;
      MergedAgain(style, InTable, InTable, Get(desired, key), written, value);
    }
  }

  lemma {:induction false} EntryAgain(style: Style, entry: Pair<Item>, entries: Pairs<Item>, desired: Desired)
    requires EntriesRead(style, entries, desired) && UniqueNames(entries) && entry in entries
    ensures var r := Merged(entry, AsItems(desired), MergeItem);
            r.key == entry.key && FilledItem(style, r.value) == FilledItem(style, entry.value)
  {
    var key := entry.key.name;
    FindSameNames(AsItems(desired), desired, key);
    if Has(desired, key) {
      var i: nat :| i < |entries| && entries[i] == entry;
      FindAt(entries, i);
    }
  }

  /** The key loop over an entry of its own that was read back. */
  lemma {:induction false} EntriesAgain(style: Style, entry: Table, back: Table, desired: Desired)
    requires Managed(desired) && UniqueNames(back.entries) && EntriesWritten(entry.entries, desired)
    requires TableReadBack(style, entry, back) && Explicit(entry)
    ensures FilledTable(style, UpdatedEntry(back, desired)) == FilledTable(style, back)
  {
    ItemsManaged(desired);
    WrittenIsRead(style, entry, back, desired);
    SameManagedNames(desired);
    NothingAdded(back.entries, AsItems(desired), MergeItem);
    forall i | 0 <= i < |back.entries|
      ensures var r := Merged(back.entries[i], AsItems(desired), MergeItem);
              r.key == back.entries[i].key && FilledItem(style, r.value) == FilledItem(style, back.entries[i].value)
    {
      EntryAgain(style, back.entries[i], back.entries, desired);
    }
    SameFilling(style, back, UpdatedEntry(back, desired));
  }

  lemma {:induction false} SameFilling(style: Style, a: Table, b: Table)
    requires Explicit(a) && b == a.(implicit := false, entries := b.entries) && |a.entries| == |b.entries|
    requires forall i :: 0 <= i < |a.entries| ==>
               b.entries[i].key == a.entries[i].key
               && FilledItem(style, b.entries[i].value) == FilledItem(style, a.entries[i].value)
    ensures FilledTable(style, b) == FilledTable(style, a)
  {
  }

  // ---- The document ----

  /** The entry after an edit, where it can be edited, is a table of its own that holds what was asked for. */
  ghost predicate TableWritten(item: Item, desired: Desired) {
    item.TableItem? && Explicit(item.table) && EntriesWritten(item.table.entries, desired)
  }

  ghost predicate InlineWritten(item: Item, desired: Desired) {
    && item.ValueItem? && item.value.Inline?
    && UniqueNames(item.value.fields) && FieldsWritten(item.value.fields, desired)
  }

  lemma {:induction false} EditedEntry(item: Item, desired: Desired)
    requires Managed(desired) && UniqueEntry(item)
    ensures InlineWritten(EntryAfter(true, item, desired), desired)
    ensures EntryAfter(false, item, desired).TableArray? || TableWritten(EntryAfter(false, item, desired), desired)
  {
    InlineManaged(desired);
    FreshIsReconciled(desired);
    ReconciledFields([], desired);
    if item.ValueItem? && item.value.Inline? {
      ReconciledFields(item.value.fields, desired);
    }
    EditedTable(item, desired);
  }

  lemma {:induction false} EditedTable(item: Item, desired: Desired)
    requires Managed(desired) && UniqueEntry(item)
    ensures EntryAfter(false, item, desired).TableArray? || TableWritten(EntryAfter(false, item, desired), desired)
  {
    FreshIsReconciled(desired);
    match EnsureTable(item)
    case None =>
    case Some(entry) =>
      EnsuredKeys(item, entry);
      ReconciledEntries(entry.entries, desired);
  }

  /** Replacing an item by one that is filled in alike. */
  lemma {:induction false} FilledPut(style: Style, table: Table, name: string, item: Item)
    requires Has(table.entries, name)
    requires FilledItem(style, item) == FilledItem(style, Get(table.entries, name))
    ensures FilledTable(style, table.(entries := Put(table.entries, name, item))) == FilledTable(style, table)
  {
  }

  lemma {:induction false} FilledFieldsPut(style: Style, fields: Pairs<Value>, name: string, value: Value)
    requires Has(fields, name)
    requires forall place :: FilledValue(style, place, value) == FilledValue(style, place, Get(fields, name))
    ensures FilledFields(style, Put(fields, name, value)) == FilledFields(style, fields)
  {
    SameFields(style, fields, Put(fields, name, value));
  }

  /** A table of servers that was read back. */
  lemma {:induction false} ServersAgain(style: Style, servers: Table, back: Table, name: string, desired: Desired)
    requires Managed(desired) && Contains(servers, name) && TableReadBack(style, servers, back)
    requires Has(back.entries, name) ==> UniqueEntry(Get(back.entries, name))
    requires var item := Get(servers.entries, name); item.TableArray? || TableWritten(item, desired)
    ensures FilledTable(style, UpsertIntoTable(back, name, desired)) == FilledTable(style, back)
  {
    var item, read := Get(servers.entries, name), Get(back.entries, name);
    assert ItemReadBack(style, item, read);
    if item.TableItem? {
      EntriesAgain(style, item.table, read.table, desired);
      FilledPut(style, back, name, TableItem(UpdatedEntry(read.table, desired)));
    }
  }

  /** An inline table of servers that was read back. */
  lemma {:induction false} InlineAgain(style: Style, servers: Pairs<Value>, name: string, desired: Desired)
    requires Managed(desired) && Has(servers, name) && InlineWritten(ValueItem(Get(servers, name)), desired)
    ensures var back := FilledFields(style, servers);
            FilledFields(style, UpsertIntoInline(back, name, desired)) == FilledFields(style, back)
  {
    var back := FilledFields(style, servers);
    var fields := Get(servers, name).fields;
    FoundByFilling(style, servers, name);
    InlineManaged(desired);
    FieldsAgain(style, fields, desired);
    var i := Find(servers, name);
    assert back[i] == FilledField(style, InInline(i, |servers|), servers[i]);
    var entry := Get(back, name);
    FilledFieldsPut(style, back, name, entry.(fields := Reconcile(entry.fields, desired, MergeValue)));
  }

  /** Writing once more into the tree that was read back gives a tree that is filled in alike. */
  lemma {:induction false} UpsertAgain(style: Style, root: Table, name: string, desired: Desired, back: Table)
    requires Managed(desired) && UniqueEntry(EntryOf(root, name)) && UniqueEntry(EntryOf(back, name))
    requires Upserted(root, name, desired).Ok?
    requires TableReadBack(style, Upserted(root, name, desired).value, back)
    ensures Existed(back, name) && Upserted(back, name, desired).Ok?
    ensures FilledTable(style, Upserted(back, name, desired).value) == FilledTable(style, back)
  {
    var next := Upserted(root, name, desired).value;
    EntryAfterUpsert(root, name, desired);
    EditedEntry(EntryOf(root, name), desired);
    assert ItemReadBack(style, Get(next.entries, SERVERS), Get(back.entries, SERVERS));
    if InlineServers(root) {
      InlineDocAgain(style, next, name, desired, back);
    } else {
      TableDocAgain(style, next, name, desired, back);
    }
  }

  lemma {:induction false} InlineDocAgain(style: Style, next: Table, name: string, desired: Desired, back: Table)
    requires Managed(desired) && InlineServers(next) && Existed(next, name) && InlineWritten(EntryOf(next, name), desired)
    requires Contains(back, SERVERS) && ItemReadBack(style, Get(next.entries, SERVERS), Get(back.entries, SERVERS))
    ensures Existed(back, name) && Upserted(back, name, desired).Ok?
    ensures FilledTable(style, Upserted(back, name, desired).value) == FilledTable(style, back)
  {
    var item, read := Get(next.entries, SERVERS), Get(back.entries, SERVERS);
    InlineAgain(style, item.value.fields, name, desired);
    FoundByFilling(style, item.value.fields, name);
    var again := ValueItem(read.value.(fields := UpsertIntoInline(read.value.fields, name, desired)));
    FilledPut(style, back, SERVERS, again);
  }

  lemma {:induction false} TableDocAgain(style: Style, next: Table, name: string, desired: Desired, back: Table)
    requires Managed(desired) && !InlineServers(next) && Existed(next, name) && UniqueEntry(EntryOf(back, name))
    requires EntryOf(next, name).TableArray? || TableWritten(EntryOf(next, name), desired)
    requires Contains(back, SERVERS) && ItemReadBack(style, Get(next.entries, SERVERS), Get(back.entries, SERVERS))
    ensures Existed(back, name) && Upserted(back, name, desired).Ok?
    ensures FilledTable(style, Upserted(back, name, desired).value) == FilledTable(style, back)
  {
    var item, read := Get(next.entries, SERVERS), Get(back.entries, SERVERS);
    ServersAgain(style, item.table, read.table, name, desired);
    FilledPut(style, back, SERVERS, TableItem(UpsertIntoTable(read.table, name, desired)));
  }

  // ---- Texts ----

  /**
   A second run of the same upsert on the text of the first reports no change, returns the same text and
   finds the entry, provided that the library reads that text back as the same document with every value
   filled in, and writes what values lack in one style.
   */
  lemma {:induction false} SecondRunUnchanged(library: Library, style: Style, text: string, name: string, entryJson: string, root: Table, members: seq<Member>, back: Table)
    requires library.parse(text) == Some(root) && library.parseJson(entryJson) == Some(Object(members))
    requires UniqueMembers(members) && UniqueEntry(EntryOf(root, name)) && UniqueEntry(EntryOf(back, name))
    requires Upserted(root, name, MembersToToml(members)).Ok?
    requires ReadsBack(library, style, Upserted(root, name, MembersToToml(members)).value, back)
    requires WritesStyle(library, style, back)
    requires var again := Upserted(back, name, MembersToToml(members)); again.Ok? ==> WritesStyle(library, style, again.value)
    ensures var first := UpsertText(library, text, name, entryJson);
            first.Ok? && UpsertText(library, first.value.text, name, entryJson)
                         == Ok(Outcome(first.value.text, false, true))
  {
    JsonMembersManaged(members);
    UpsertAgain(style, root, name, MembersToToml(members), back);
  }

  /**
   The outcome of an upsert of an object into a document that can host it: the text of the edited
   document, and changed exactly when the document as read had another text.
   */
  lemma {:induction false} UpsertReports(library: Library, text: string, name: string, entryJson: string, root: Table, members: seq<Member>)
    requires library.parse(text) == Some(root) && library.parseJson(entryJson) == Some(Object(members))
    requires Upserted(root, name, MembersToToml(members)).Ok?
    ensures var r := UpsertText(library, text, name, entryJson);
            && r.Ok? && r.value.text == library.render(Upserted(root, name, MembersToToml(members)).value)
            && (r.value.changed <==> r.value.text != library.render(root))
            && (r.value.existed <==> EntryOf(root, name) != NoItem)
  {
    ExistedExact(root, name);
  }

  /** Only an array of tables cannot host servers; the errors come in the order of the steps. */
  lemma {:induction false} UpsertFails(library: Library, text: string, name: string, entryJson: string)
    ensures var r := UpsertText(library, text, name, entryJson);
            var root, entry := library.parse(text), library.parseJson(entryJson);
            if root == None then r == Err("invalid TOML")
            else if entry == None then r == Err("invalid entry JSON")
            else if !entry.value.Object? then r == Err("entry JSON must be an object")
            else if HasServerArray(root.value) then r == Err("mcp_servers is not a table")
            else r.Ok?
    ensures if library.parse(text) == None then RemoveText(library, text, name) == Err("invalid TOML")
            else RemoveText(library, text, name).Ok?
  {
    if library.parse(text).Some? {
      ServersOf(library.parse(text).value);
    }
  }

  /** [[mcp_servers]] */
  predicate HasServerArray(root: Table) {
    Has(root.entries, SERVERS) && Get(root.entries, SERVERS).TableArray?
  }

  lemma {:induction false} ExistedExact(root: Table, name: string)
    ensures Existed(root, name) <==> EntryOf(root, name) != NoItem
  {
  }

  /**
   A first registration reports a change and no existing entry, for a library that writes a document as
   it read it and reads the edited one back.
   */
  lemma {:induction false} FirstRunReports(library: Library, style: Style, text: string, name: string, entryJson: string, root: Table, members: seq<Member>, back: Table)
    requires library.parse(text) == Some(root) && library.render(root) == text
    requires library.parseJson(entryJson) == Some(Object(members)) && EntryOf(root, name) == NoItem
    requires Upserted(root, name, MembersToToml(members)).Ok?
    requires var next := Upserted(root, name, MembersToToml(members)).value;
             library.parse(library.render(next)) == Some(back) && TableReadBack(style, next, back)
    ensures var r := UpsertText(library, text, name, entryJson);
            r.Ok? && r.value.changed && !r.value.existed && EntryOf(back, name) != NoItem
  {
    var next := Upserted(root, name, MembersToToml(members)).value;
    EntryAfterUpsert(root, name, MembersToToml(members));
    UpsertReports(library, text, name, entryJson, root, members);
    EntryReadBack(style, next, back, name);
  }

  /** Entries are read back. */
  lemma {:induction false} EntryReadBack(style: Style, tree: Table, back: Table, name: string)
    requires TableReadBack(style, tree, back)
    ensures EntryOf(tree, name) == NoItem <==> EntryOf(back, name) == NoItem
  {
    if Contains(tree, SERVERS) {
      var item, read := Get(tree.entries, SERVERS), Get(back.entries, SERVERS);
      assert ItemReadBack(style, item, read);
      if item.TableItem? {
        assert Contains(item.table, name) <==> Contains(read.table, name);
      } else if item.ValueItem? && item.value.Inline? {
        FoundByFilling(style, item.value.fields, name);
      }
    }
  }

  /** The outcome of a removal: the text of the document without the entry, changed and existed told apart. */
  lemma {:induction false} RemoveOutcome(library: Library, text: string, name: string, root: Table)
    requires library.parse(text) == Some(root)
    ensures var r := RemoveText(library, text, name);
            && r.Ok? && r.value.text == library.render(Removed(root, name))
            && (r.value.changed <==> r.value.text != library.render(root))
            && (r.value.existed <==> EntryOf(root, name) != NoItem)
  {
    ExistedExact(root, name);
  }

  /** Removing an absent entry changes nothing; removing one that is there does, and it is gone. */
  lemma {:induction false} RemoveReports(library: Library, style: Style, text: string, name: string, root: Table, back: Table)
    requires library.parse(text) == Some(root) && library.render(root) == text && UniqueServers(root)
    requires library.parse(library.render(Removed(root, name))) == Some(back)
    requires TableReadBack(style, Removed(root, name), back)
    ensures var r := RemoveText(library, text, name);
            && r.Ok? && r.value.text == library.render(Removed(root, name))
            && (r.value.changed <==> r.value.text != text)
            && (r.value.changed <==> EntryOf(root, name) != NoItem) && r.value.existed == r.value.changed
            && EntryOf(back, name) == NoItem
  {
    ExistedExact(root, name);
    RemoveOnlyEntry(root, name, name);
    RemoveFrame(root, name);
    ExistedExact(Removed(root, name), name);
    EntryReadBack(style, Removed(root, name), back, name);
  }

  /** A tree with its values filled in is one way of reading it back, fresh keys and tables included. */
  lemma {:induction false} FilledIsReadBack(style: Style, table: Table)
    ensures TableReadBack(style, table, FilledTable(style, table))
    decreases table
  {
    var back := FilledTable(style, table);
    forall name
      ensures Contains(table, name) <==> Contains(back, name)
      ensures Contains(table, name) ==> ItemReadBack(style, Get(table.entries, name), Get(back.entries, name))
    {
      FindSameNames(back.entries, table.entries, name);
      var i := Find(table.entries, name);
      if i < |table.entries| {
        FilledItemIsReadBack(style, table.entries[i].value);
      }
    }
  }

  lemma {:induction false} FilledItemIsReadBack(style: Style, item: Item)
    ensures ItemReadBack(style, item, FilledItem(style, item))
    decreases item
  {
    match item
    case TableItem(table) => FilledIsReadBack(style, table);
    case TableArray(tables) =>
      forall i | 0 <= i < |tables| {
        FilledIsReadBack(style, tables[i]);
      }
    case _ =>
  }

  /** Every managed key reads back, representable or not: as what its value becomes on its way through TOML. */
  lemma {:induction false} PutGetProjected(root: Table, name: string, members: seq<Member>, i: nat)
    requires UniqueMembers(members) && i < |members| && UniqueEntry(EntryOf(root, name))
    requires Upserted(root, name, MembersToToml(members)).Ok? && !EntryOf(root, name).TableArray?
    ensures Reads(
              EntryOf(Upserted(root, name, MembersToToml(members)).value, name), members[i].name, Projected(members[i].value))
  {
    var item := EntryOf(root, name);
    EntryAfterUpsert(root, name, MembersToToml(members));
    JsonProjected(members[i].value);
    if InlineServers(root) {
      InlineReadBack(item, members, i);
    } else {
      McpLaws.TableReadBack(item, EnsureTable(item).value, members, i);
      JsonMembersManaged(members);
      FreshIsReconciled(MembersToToml(members));
    }
  }
}
