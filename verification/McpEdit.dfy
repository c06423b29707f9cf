/**
 The insert-only upsert of one `[mcp_servers.<name>]` entry (packages/native-config/src/mcp_edit.rs).

 The library's parser and renderer are parameters. Main results (McpLaws, McpRuns): a second run on the
 text of the first is a no-op; the last of two writes wins, exactly when the order of the keys they add
 agrees; everything but the entry's managed keys is left as it was; and the entry reads back as the
 requested JSON.
*/
module McpEdit {
  import opened Wrappers
  import opened OrderedPairs
  import opened Toml

  const SERVERS: string := "mcp_servers"

  /** The desired managed keys: the members of the entry's JSON object, as values. */
  type Desired = Pairs<Value>

  function AsItems(desired: Desired): (r: Pairs<Item>)
    ensures |r| == |desired|
    ensures forall i :: 0 <= i < |r| ==> r[i] == Pair(desired[i].key, ValueItem(desired[i].value))
  {
    seq(|desired|, i requires 0 <= i < |desired| => Pair(desired[i].key, ValueItem(desired[i].value)))
  }

  function DesiredTable(desired: Desired): Table {
    Table(AsItems(desired), false, false, None, PLAIN)
  }

  /** What converting the desired table to an inline one gives: all top-level formatting cleared. */
  function DesiredInline(desired: Desired): (r: Desired)
    ensures |r| == |desired|
    ensures forall i :: 0 <= i < |r| ==>
              r[i] == Pair(desired[i].key.(leaf := PLAIN, dotted := PLAIN), desired[i].value.(decor := PLAIN))
  {
    seq(|desired|, i requires 0 <= i < |desired| =>
      Pair(desired[i].key.(leaf := PLAIN, dotted := PLAIN), desired[i].value.(decor := PLAIN)))
  }

  function MergeItem(existing: Item, wanted: Item): Item {
    if existing.NoItem? then wanted else PreserveDecor(existing, wanted)
  }

  function MergeValue(existing: Value, wanted: Value): Value {
    wanted.(decor := existing.decor)
  }

  /** The old header spacing of a migrated key is dropped. */
  function WithoutKeySuffix(key: Key): Key {
    key.(leaf := key.leaf.(suffix := Some("")), dotted := key.dotted.(suffix := Some("")))
  }

  function UpdatedEntry(entry: Table, desired: Desired): Table {
    entry.(implicit := false, entries := Reconcile(entry.entries, AsItems(desired), MergeItem))
  }

  function UpsertIntoTable(servers: Table, name: string, desired: Desired): Table {
    if !Contains(servers, name) then
      servers.(entries := Insert(servers.entries, name, TableItem(DesiredTable(desired))))
    else
      var i := Find(servers.entries, name);
      var Pair(key, item) := servers.entries[i];
      match EnsureTable(item)
      case None => servers
      case Some(entry) =>
        var key' := if item.TableItem? then key else WithoutKeySuffix(key);
        servers.(entries := servers.entries[i := Pair(key', TableItem(UpdatedEntry(entry, desired)))])
  }

  function UpsertIntoInline(servers: Pairs<Value>, name: string, desired: Desired): Pairs<Value> {
    var wanted := DesiredInline(desired);
    if Has(servers, name) && Get(servers, name).Inline? then
      var entry := Get(servers, name);
      Put(servers, name, entry.(fields := Reconcile(entry.fields, wanted, MergeValue)))
    else
      Insert(servers, name, Inline(wanted, None, PLAIN))
  }

  /** The root with an (implicit) servers table. */
  function WithServers(root: Table): (r: Table)
    ensures Contains(r, SERVERS)
  {
    if Contains(root, SERVERS) then root
    else
      var r := root.(entries := Insert(root.entries, SERVERS, TableItem(IMPLICIT_TABLE)));
      FindInserted(root.entries, SERVERS, TableItem(IMPLICIT_TABLE));
      r
  }

  lemma {:induction false} FindInserted<V>(ps: Pairs<V>, name: string, value: V)
    ensures Has(Insert(ps, name, value), name) && Get(Insert(ps, name, value), name) == value
    ensures Find(Insert(ps, name, value), name) == Find(ps, name)
    ensures Has(Put(ps, name, value), name) && Get(Put(ps, name, value), name) == value
    ensures Find(Put(ps, name, value), name) == Find(ps, name)
  {
    var i := Find(ps, name);
    forall key: Key | key.name == name {
      FindUpdate(ps, name, key, value);
    }
    if i == |ps| {
      FindAppend(ps, [Pair(NewKey(name), value)], name);
    }
  }

  lemma {:induction false} FindUpdate<V>(ps: Pairs<V>, name: string, key: Key, value: V)
    requires key.name == name
    ensures var i := Find(ps, name); i < |ps| ==> Find(ps[i := Pair(key, value)], name) == i
  {
    var i := Find(ps, name);
    if 0 < i < |ps| {
      assert ps[i := Pair(key, value)][1..] == ps[1..][i - 1 := Pair(key, value)];
      FindUpdate(ps[1..], name, key, value);
    }
  }

  /** The edit on the document tree. */
  function Upserted(root: Table, name: string, desired: Desired): Result<Table, string> {
    var base := WithServers(root);
    var item := Get(base.entries, SERVERS);
    if item.ValueItem? && item.value.Inline? then
      var servers := item.value.(fields := UpsertIntoInline(item.value.fields, name, desired));
      Ok(base.(entries := Put(base.entries, SERVERS, ValueItem(servers))))
    else match EnsureTable(item)
      case None => Err("mcp_servers is not a table")
      case Some(servers) =>
        Ok(base.(entries := Put(base.entries, SERVERS, TableItem(UpsertIntoTable(servers, name, desired)))))
  }

  /** contains_key on a table-like servers item. */
  predicate Existed(root: Table, name: string) {
    Contains(root, SERVERS) &&
    match Get(root.entries, SERVERS)
    case TableItem(servers) => Contains(servers, name)
    case ValueItem(Inline(servers, _, _)) => Has(servers, name)
    case _ => false
  }

  function Removed(root: Table, name: string): Table {
    if !Existed(root, name) then root
    else match Get(root.entries, SERVERS)
      case TableItem(servers) =>
        root.(entries := Put(root.entries, SERVERS,
          TableItem(servers.(entries := Remove(servers.entries, name)))))
      case ValueItem(servers) =>
        root.(entries := Put(root.entries, SERVERS, ValueItem(servers.(fields := Remove(servers.fields, name)))))
  }

  /** The third-party parser and renderer. */
  datatype Library = Library(
    parse: string -> Option<Table>,
    render: Table -> string,
    parseJson: string -> Option<Json>)

  datatype Outcome = Outcome(text: string, changed: bool, existed: bool)

  /** The outcome says changed exactly when its text is not that of the document as it was read. */
  predicate Reports(library: Library, text: string, outcome: Outcome) {
    library.parse(text).Some? && (outcome.changed <==> library.render(library.parse(text).value) != outcome.text)
  }

  function JsonObjectToTable(library: Library, entryJson: string): Result<Desired, string> {
    match library.parseJson(entryJson)
    case None => Err("invalid entry JSON")
    case Some(Object(members)) => Ok(MembersToToml(members))
    case Some(_) => Err("entry JSON must be an object")
  }

  /** upsert_mcp_server on texts. */
  function UpsertText(library: Library, text: string, name: string, entryJson: string): Result<Outcome, string> {
    match library.parse(text)
    case None => Err("invalid TOML")
    case Some(root) =>
      match JsonObjectToTable(library, entryJson)
      case Err(e) => Err(e)
      case Ok(desired) =>
        match Upserted(root, name, desired)
        case Err(e) => Err(e)
        case Ok(next) =>
          Ok(Outcome(library.render(next), library.render(next) != library.render(root), Existed(root, name)))
  }

  function RemoveText(library: Library, text: string, name: string): Result<Outcome, string> {
    match library.parse(text)
    case None => Err("invalid TOML")
    case Some(root) =>
      var next := Removed(root, name);
      Ok(Outcome(library.render(next), library.render(next) != library.render(root), Existed(root, name)))
  }

  // ---- The document and its edits in place ----

  class Document {
    var root: Table

    constructor (root: Table)
      ensures this.root == root
    {
      this.root := root;
    }

    /** The edit; a servers item that cannot host keys leaves an error. */
    method Upsert(name: string, desired: Desired) returns (error: Option<string>)
      modifies this
      ensures error == None <==> Upserted(old(root), name, desired).Ok?
      ensures error == None ==> root == Upserted(old(root), name, desired).value
      ensures error != None ==> error.value == Upserted(old(root), name, desired).error
    {
      if !Contains(root, SERVERS) {
        FindInserted(root.entries, SERVERS, TableItem(IMPLICIT_TABLE));
        root := root.(entries := Insert(root.entries, SERVERS, TableItem(IMPLICIT_TABLE)));
      }
      var item := Get(root.entries, SERVERS);
      if item.ValueItem? && item.value.Inline? {
        var fields := EditInline(item.value.fields, name, desired);
        root := root.(entries := Put(root.entries, SERVERS, ValueItem(item.value.(fields := fields))));
        return None;
      }
      var host := EnsureTable(item);
      if host == None {
        return Some("mcp_servers is not a table");
      }
      var servers := EditTable(host.value, name, desired);
      root := root.(entries := Put(root.entries, SERVERS, TableItem(servers)));
      return None;
    }

    method RemoveServer(name: string)
      modifies this
      ensures root == Removed(old(root), name)
    {
      if Existed(root, name) {
        var item := Get(root.entries, SERVERS);
        if item.TableItem? {
          var servers := item.table.(entries := Remove(item.table.entries, name));
          root := root.(entries := Put(root.entries, SERVERS, TableItem(servers)));
        } else {
          var servers := item.value.(fields := Remove(item.value.fields, name));
          root := root.(entries := Put(root.entries, SERVERS, ValueItem(servers)));
        }
      }
    }
  }

  /** The key loop over an entry hosted by an explicit table. */
  method EditTable(servers: Table, name: string, desired: Desired) returns (r: Table)
    ensures r == UpsertIntoTable(servers, name, desired)
  {
    if !Contains(servers, name) {
      return servers.(entries := Insert(servers.entries, name, TableItem(DesiredTable(desired))));
    }
    var i := Find(servers.entries, name);
    var item := servers.entries[i].value;
    var host := EnsureTable(item);
    if host == None {
      return servers;
    }
    var entry := host.value.(implicit := false);
    var wanted := AsItems(desired);
    for k := 0 to |wanted|
      invariant entry == host.value.(implicit := false, entries := Reconcile(host.value.entries, wanted[..k], MergeItem))
    {
      assert wanted[..k + 1][..k] == wanted[..k];
      var key, replacement := wanted[k].key.name, wanted[k].value;
      if Contains(entry, key) {
        replacement := CarryDecor(Get(entry.entries, key), replacement);
      }
      entry := entry.(entries := Put(entry.entries, key, replacement));
    }
    assert wanted[..|wanted|] == wanted;
    var key := servers.entries[i].key;
    if !item.TableItem? {
      key := WithoutKeySuffix(key);
    }
    r := servers.(entries := servers.entries[i := Pair(key, TableItem(entry))]);
  }

  /** The key loop over an entry inside an inline servers table. */
  method EditInline(servers: Pairs<Value>, name: string, desired: Desired) returns (r: Pairs<Value>)
    ensures r == UpsertIntoInline(servers, name, desired)
  {
    var wanted := DesiredInline(desired);
    if !Has(servers, name) || !Get(servers, name).Inline? {
      return Insert(servers, name, Inline(wanted, None, PLAIN));
    }
    var entry := Get(servers, name);
    var fields := entry.fields;
    for k := 0 to |wanted|
      invariant fields == Reconcile(entry.fields, wanted[..k], MergeValue)
    {
      assert wanted[..k + 1][..k] == wanted[..k];
      var key, value := wanted[k].key.name, wanted[k].value;
      if Has(fields, key) {
        value := value.(decor := Get(fields, key).decor);
      }
      fields := Put(fields, key, value);
    }
    assert wanted[..|wanted|] == wanted;
    r := Put(servers, name, entry.(fields := fields));
  }

  /** Parse, edit the document in place, render. */
  method UpsertMcpServer(library: Library, text: string, name: string, entryJson: string)
    returns (r: Result<Outcome, string>)
    ensures r == UpsertText(library, text, name, entryJson)
    ensures r.Ok? ==> Reports(library, text, r.value)
  {
    var parsed := library.parse(text);
    if parsed == None {
      return Err("invalid TOML");
    }
    var doc := new Document(parsed.value);
    var before := library.render(doc.root);
    var desired := JsonObjectToTable(library, entryJson);
    if desired.Err? {
      return Err(desired.error);
    }
    var existed := Existed(doc.root, name);
    var error := doc.Upsert(name, desired.value);
    if error != None {
      return Err(error.value);
    }
    var after := library.render(doc.root);
    r := Ok(Outcome(after, after != before, existed));
  }

  method RemoveMcpServer(library: Library, text: string, name: string) returns (r: Result<Outcome, string>)
    ensures r == RemoveText(library, text, name)
    ensures r.Ok? ==> Reports(library, text, r.value)
  {
    var parsed := library.parse(text);
    if parsed == None {
      return Err("invalid TOML");
    }
    var doc := new Document(parsed.value);
    var before := library.render(doc.root);
    var present := Existed(doc.root, name);
    doc.RemoveServer(name);
    var after := library.render(doc.root);
    r := Ok(Outcome(after, after != before, present));
  }
}
