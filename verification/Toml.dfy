/**
 The format-preserving TOML document model the edit engine works on, its table primitives
 (packages/native-config/src/document_helpers.rs) and its two JSON conversions (toml_json.rs and
 the value builders of mcp_edit.rs). Formatting is carried along and never looked into.
 */
module Toml {
  import opened Wrappers
  import opened OrderedPairs

  datatype Float = Finite(value: real) | NonFinite

  datatype Scalar =
    | Str(text: string)
    | Integer(n: int)
    | Real(f: Float)
    | Boolean(b: bool)
    | Datetime(literal: string)

  datatype Value =
    | ScalarValue(scalar: Scalar, spelling: Option<string>, decor: Decor)
    | Array(values: seq<Value>, layout: Option<string>, decor: Decor)
    | Inline(fields: Pairs<Value>, layout: Option<string>, decor: Decor)

  datatype Table = Table(entries: Pairs<Item>, implicit: bool, dotted: bool, position: Option<int>, decor: Decor)

  datatype Item = NoItem | ValueItem(value: Value) | TableItem(table: Table) | TableArray(tables: seq<Table>)

  const IMPLICIT_TABLE: Table := Table([], true, false, None, PLAIN)

  /** Present to the library: a placeholder counts as absent. */
  predicate Contains(t: Table, name: string) {
    Has(t.entries, name) && !Get(t.entries, name).NoItem?
  }

  // ---- Table primitives ----

  function WithoutSuffix(value: Value): Value {
    value.(decor := value.decor.(suffix := Some("")))
  }

  /** The values of an inline table on lines of their own. */
  function TableFromInline(fields: Pairs<Value>): (t: Table)
    ensures |t.entries| == |fields|
    ensures forall i :: 0 <= i < |fields| ==>
              t.entries[i] == Pair(NewKey(fields[i].key.name), ValueItem(WithoutSuffix(fields[i].value)))
  {
    IMPLICIT_TABLE.(entries :=
      seq(|fields|, i requires 0 <= i < |fields| =>
        Pair(NewKey(fields[i].key.name), ValueItem(WithoutSuffix(fields[i].value)))))
  }

  /** The rebuilding loop. */
  method RebuildTable(fields: Pairs<Value>) returns (t: Table)
    requires UniqueNames(fields)
    ensures t == TableFromInline(fields)
  {
    t := IMPLICIT_TABLE;
    for i := 0 to |fields|
      invariant t == TableFromInline(fields[..i])
    {
      var value := fields[i].value;
      value := value.(decor := value.decor.(suffix := Some("")));
      FindNone(t.entries, fields[i].key.name);
      t := t.(entries := Insert(t.entries, fields[i].key.name, ValueItem(value)));
    }
    assert fields[..|fields|] == fields;
  }

  /** The table to write into, migrating an inline table or a bare value; None for an array of tables. */
  function EnsureTable(item: Item): Option<Table> {
    match item
    case TableItem(t) => Some(t)
    case ValueItem(Inline(fields, _, _)) => Some(TableFromInline(fields))
    case ValueItem(_) => Some(IMPLICIT_TABLE)
    case NoItem => Some(IMPLICIT_TABLE)
    case TableArray(_) => None
  }

  /** Carry the formatting of an existing node over to its replacement. */
  function PreserveDecor(existing: Item, replacement: Item): Item
    decreases existing, 1
  {
    match (existing, replacement)
    case (TableItem(e), TableItem(r)) =>
      TableItem(r.(decor := e.decor, entries := PreserveEntries(e.entries, r.entries)))
    case (ValueItem(e), ValueItem(r)) => ValueItem(r.(decor := e.decor))
    case _ => replacement
  }

  function PreserveEntries(existing: Pairs<Item>, replacement: Pairs<Item>): Pairs<Item>
    decreases existing, 0
  {
    if existing == [] then replacement
    else
      var last := existing[|existing| - 1];
      PreserveEntry(last, PreserveEntries(existing[..|existing| - 1], replacement))
  }

  function PreserveEntry(last: Pair<Item>, entries: Pairs<Item>): Pairs<Item>
    decreases last, 2
  {
    var i := Find(entries, last.key.name);
    if last.value.NoItem? || i == |entries| then entries
    else
      var key := entries[i].key.(leaf := last.key.leaf, dotted := last.key.dotted);
      entries[i := Pair(key, if entries[i].value.NoItem? then NoItem else PreserveDecor(last.value, entries[i].value))]
  }

  /** The loop over the existing table's entries. */
  method CarryDecor(existing: Item, replacement: Item) returns (r: Item)
    ensures r == PreserveDecor(existing, replacement)
    decreases existing
  {
    match (existing, replacement)
    case (TableItem(e), TableItem(t)) =>
      var entries := t.entries;
      for k := 0 to |e.entries|
        invariant entries == PreserveEntries(e.entries[..k], t.entries)
      {
        var last := e.entries[k];
        assert e.entries[..k + 1][..k] == e.entries[..k];
        var i := Find(entries, last.key.name);
        if !last.value.NoItem? && i < |entries| {
          var key := entries[i].key.(leaf := last.key.leaf, dotted := last.key.dotted);
          var item := entries[i].value;
          if !item.NoItem? {
            item := CarryDecor(last.value, item);
          }
          entries := entries[i := Pair(key, item)];
        }
      }
      assert e.entries[..|e.entries|] == e.entries;
      r := TableItem(t.(decor := e.decor, entries := entries));
    case (ValueItem(e), ValueItem(v)) =>
      r := ValueItem(v.(decor := e.decor));
    case _ =>
      r := replacement;
  }

  // ---- JSON ----

  /** serde_json's numbers: integers between the least i64 and the greatest u64, and finite floats. */
  datatype JsonNumber = Whole(n: int) | Fraction(f: real)

  datatype Json =
    | Null
    | Bool(b: bool)
    | Number(number: JsonNumber)
    | Text(text: string)
    | List(items: seq<Json>)
    | Object(members: seq<Member>)

  datatype Member = Member(name: string, value: Json)

  predicate IsI64(n: int) {
    -0x8000_0000_0000_0000 <= n < 0x8000_0000_0000_0000
  }

  /** A number too wide for i64 becomes a float. */
  function NumberToToml(number: JsonNumber): Value {
    match number
    case Whole(n) =>
      if IsI64(n) then ScalarValue(Integer(n), None, PLAIN) else ScalarValue(Real(Finite(n as real)), None, PLAIN)
    case Fraction(f) => ScalarValue(Real(Finite(f)), None, PLAIN)
  }

  /** The spelling of a string on a single line; its escapes are the library's. */
  function SingleLine(text: string): Value {
    ScalarValue(Str(text), Some(text), PLAIN)
  }

  function JsonToToml(json: Json): (v: Value)
    ensures v.decor == PLAIN
  {
    match json
    case Null => ScalarValue(Str(""), None, PLAIN)
    case Bool(b) => ScalarValue(Boolean(b), None, PLAIN)
    case Number(number) => NumberToToml(number)
    case Text(text) => SingleLine(text)
    case List(items) => Array(JsonsToToml(items), None, PLAIN)
    case Object(members) => Inline(MembersToToml(members), None, PLAIN)
  }

  function JsonsToToml(items: seq<Json>): (r: seq<Value>)
    ensures |r| == |items|
  {
    if items == [] then [] else JsonsToToml(items[..|items| - 1]) + [JsonToToml(items[|items| - 1])]
  }

  function MembersToToml(members: seq<Member>): (r: Pairs<Value>)
    ensures |r| == |members|
    ensures forall i :: 0 <= i < |r| ==> r[i] == Pair(NewKey(members[i].name), JsonToToml(members[i].value))
  {
    if members == [] then []
    else
      var last := members[|members| - 1];
      MembersToToml(members[..|members| - 1]) + [Pair(NewKey(last.name), JsonToToml(last.value))]
  }

  function ValueToJson(value: Value): Json {
    match value
    case ScalarValue(Str(text), _, _) => Text(text)
    case ScalarValue(Integer(n), _, _) => Number(Whole(n))
    case ScalarValue(Real(Finite(f)), _, _) => Number(Fraction(f))
    case ScalarValue(Real(NonFinite), _, _) => Null
    case ScalarValue(Boolean(b), _, _) => Bool(b)
    case ScalarValue(Datetime(literal), _, _) => Text(literal)
    case Array(values, _, _) => List(ValuesToJson(values))
    case Inline(fields, _, _) => Object(FieldsToJson(fields))
  }

  function ValuesToJson(values: seq<Value>): seq<Json> {
    if values == [] then [] else ValuesToJson(values[..|values| - 1]) + [ValueToJson(values[|values| - 1])]
  }

  function FieldsToJson(fields: Pairs<Value>): seq<Member> {
    if fields == [] then []
    else FieldsToJson(fields[..|fields| - 1]) + [FieldToJson(fields[|fields| - 1])]
  }

  function FieldToJson(field: Pair<Value>): Member {
    Member(field.key.name, ValueToJson(field.value))
  }

  function ItemToJson(item: Item): Json {
    match item
    case NoItem => Null
    case ValueItem(value) => ValueToJson(value)
    case TableItem(table) => Object(EntriesToJson(table.entries))
    case TableArray(tables) => List(TablesToJson(tables))
  }

  /** Placeholders are skipped. */
  function EntriesToJson(entries: Pairs<Item>): seq<Member> {
    if entries == [] then []
    else EntriesToJson(entries[..|entries| - 1]) + EntryToJson(entries[|entries| - 1])
  }

  function EntryToJson(entry: Pair<Item>): seq<Member> {
    if entry.value.NoItem? then [] else [Member(entry.key.name, ItemToJson(entry.value))]
  }

  function TablesToJson(tables: seq<Table>): seq<Json> {
    if tables == [] then []
    else TablesToJson(tables[..|tables| - 1]) + [Object(EntriesToJson(tables[|tables| - 1].entries))]
  }

  /** No null anywhere and every integer in the range of i64. */
  predicate Representable(json: Json) {
    match json
    case Null => false
    case Number(Whole(n)) => IsI64(n)
    case List(items) => forall j :: j in items ==> Representable(j)
    case Object(members) => forall m :: m in members ==> Representable(m.value)
    case _ => true
  }

  /** Put-get on values: JSON survives the trip through TOML exactly when it is representable. */
  lemma {:induction false} JsonRoundTrip(json: Json)
    ensures ValueToJson(JsonToToml(json)) == json <==> Representable(json)
    decreases json, 1
  {
    match json
    case List(items) => JsonsRoundTrip(items);
    case Object(members) => MembersRoundTrip(members);
    case _ =>
  }

  lemma {:induction false} JsonsRoundTrip(items: seq<Json>)
    ensures ValuesToJson(JsonsToToml(items)) == items <==> forall j :: j in items ==> Representable(j)
    decreases items, 0
  {
    if items != [] {
      var n := |items| - 1;
      var front, last := items[..n], items[n];
      JsonsRoundTrip(front);
      JsonRoundTrip(last);
      assert items == front + [last];
      assert JsonsToToml(items)[..n] == JsonsToToml(front);
      SnocEqual(ValuesToJson(JsonsToToml(front)), ValueToJson(JsonToToml(last)), front, last);
    }
  }

  lemma {:induction false} MembersRoundTrip(members: seq<Member>)
    ensures FieldsToJson(MembersToToml(members)) == members <==> forall m :: m in members ==> Representable(m.value)
    decreases members, 0
  {
    if members != [] {
      var n := |members| - 1;
      var front, last := members[..n], members[n];
      MembersRoundTrip(front);
      JsonRoundTrip(last.value);
      assert members == front + [last];
      assert MembersToToml(members)[..n] == MembersToToml(front);
      var back := FieldsToJson(MembersToToml(front));
      assert FieldsToJson(MembersToToml(members)) == back + [Member(last.name, ValueToJson(JsonToToml(last.value)))];
      SnocEqual(back, Member(last.name, ValueToJson(JsonToToml(last.value))), front, last);
    }
  }

  lemma {:induction false} SnocEqual<T>(a: seq<T>, x: T, b: seq<T>, y: T)
    ensures a + [x] == b + [y] <==> a == b && x == y
  {
    if a + [x] == b + [y] {
      assert (a + [x])[..|a|] == a && (b + [y])[..|b|] == b;
      assert (a + [x])[|a|] == x && (b + [y])[|b|] == y;
    }
  }

  // ---- Formatting is not data ----

  lemma {:induction false} DecorIsNotData(value: Value, decor: Decor)
    ensures ValueToJson(value.(decor := decor)) == ValueToJson(value)
  {
  }

  /** Carrying formatting over never changes what the replacement says. */
  lemma {:induction false} PreserveDecorKeepsData(existing: Item, replacement: Item)
    ensures ItemToJson(PreserveDecor(existing, replacement)) == ItemToJson(replacement)
    ensures PreserveDecor(existing, replacement).NoItem? <==> replacement.NoItem?
    decreases existing, 1
  {
    match (existing, replacement)
    case (TableItem(e), TableItem(r)) => PreserveEntriesKeepsData(e.entries, r.entries);
    case (ValueItem(e), ValueItem(r)) => DecorIsNotData(r, e.decor);
    case _ =>
  }

  lemma {:induction false} PreserveEntriesKeepsData(existing: Pairs<Item>, replacement: Pairs<Item>)
    ensures EntriesToJson(PreserveEntries(existing, replacement)) == EntriesToJson(replacement)
    decreases existing, 0
  {
    if existing != [] {
      var last := existing[|existing| - 1];
      PreserveEntriesKeepsData(existing[..|existing| - 1], replacement);
      PreserveEntryKeepsData(last, PreserveEntries(existing[..|existing| - 1], replacement));
    }
  }

  lemma {:induction false} PreserveEntryKeepsData(last: Pair<Item>, entries: Pairs<Item>)
    ensures EntriesToJson(PreserveEntry(last, entries)) == EntriesToJson(entries)
    decreases last, 2
  {
    var i := Find(entries, last.key.name);
    if !last.value.NoItem? && i < |entries| {
      PreserveDecorKeepsData(last.value, entries[i].value);
      SameDataAt(entries, i, PreserveEntry(last, entries)[i]);
    }
  }

  /** Replacing an entry by one of the same name and data leaves the projection alone. */
  lemma {:induction false} SameDataAt(entries: Pairs<Item>, i: nat, p: Pair<Item>)
    requires i < |entries| && p.key.name == entries[i].key.name
    requires p.value.NoItem? <==> entries[i].value.NoItem?
    requires ItemToJson(p.value) == ItemToJson(entries[i].value)
    ensures EntriesToJson(entries[i := p]) == EntriesToJson(entries)
  {
    var n := |entries| - 1;
    if i == n {
      assert entries[i := p][..n] == entries[..n];
    } else {
      assert entries[i := p][..n] == entries[..n][i := p];
      SameDataAt(entries[..n], i, p);
    }
  }
}
