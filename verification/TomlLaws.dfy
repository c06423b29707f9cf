/**
 What the table primitives and the JSON projection of a TOML document keep: which formatting is carried
 over to a replacement, what a rebuilt inline table holds, and which JSON stands for an item.
 */
module TomlLaws {
  import opened Wrappers
  import opened OrderedPairs
  import opened Toml

  // ---- Carrying formatting over ----

  /** No key twice, at any depth. */
  ghost predicate DeepUnique(item: Item) {
    item.TableItem? ==>
      && UniqueNames(item.table.entries)
      && forall i :: 0 <= i < |item.table.entries| ==> DeepUnique(item.table.entries[i].value)
  }

  /** The result is the replacement with the formatting of what was there, wherever both have a node. */
  ghost predicate Carried(existing: Item, replacement: Item, result: Item)
    decreases existing, 1
  {
    match (existing, replacement, result)
    case (TableItem(e), TableItem(r), TableItem(c)) =>
      && c.decor == e.decor && c.(decor := r.decor, entries := r.entries) == r
      && |c.entries| == |r.entries|
      && forall i :: 0 <= i < |r.entries| ==> CarriedPair(e.entries, r.entries[i], c.entries[i])
    case (ValueItem(e), ValueItem(r), ValueItem(c)) => c == r.(decor := e.decor)
    case _ => result == replacement
  }

  ghost predicate CarriedPair(existing: Pairs<Item>, p: Pair<Item>, c: Pair<Item>)
    decreases existing, 0
  {
    var i := Find(existing, p.key.name);
    if i < |existing| && !existing[i].value.NoItem? then CarriedOver(existing[i], p, c) else c == p
  }

  ghost predicate CarriedOver(existing: Pair<Item>, p: Pair<Item>, c: Pair<Item>)
    decreases existing, 2
  {
    && c.key == p.key.(leaf := existing.key.leaf, dotted := existing.key.dotted)
    && Carried(existing.value, p.value, c.value)
  }

  /** The formatting of every node that stays is carried over, at any depth, and nothing else changes. */
  lemma {:induction false} DecorCarried(existing: Item, replacement: Item)
    requires DeepUnique(existing) && DeepUnique(replacement)
    ensures Carried(existing, replacement, PreserveDecor(existing, replacement))
    decreases existing, 1
  {
    match (existing, replacement)
    case (TableItem(e), TableItem(r)) =>
      EntriesCarried(e.entries, r.entries);
    case _ =>
  }

  lemma {:induction false} EntriesCarried(existing: Pairs<Item>, replacement: Pairs<Item>)
    requires UniqueNames(existing) && UniqueNames(replacement)
    requires forall i :: 0 <= i < |existing| ==> DeepUnique(existing[i].value)
    requires forall i :: 0 <= i < |replacement| ==> DeepUnique(replacement[i].value)
    ensures CarriedSoFar(existing, replacement, PreserveEntries(existing, replacement))
    decreases existing, 0
  {
    if existing != [] {
      var front, last := existing[..|existing| - 1], existing[|existing| - 1];
      EntriesCarried(front, replacement);
      UniqueFront(existing);
      EntryCarried(front, last, replacement, PreserveEntries(front, replacement));
      assert existing == front + [last];
    }
  }

  lemma {:induction false} EntryCarried(front: Pairs<Item>, last: Pair<Item>, replacement: Pairs<Item>, before: Pairs<Item>)
    requires CarriedSoFar(front, replacement, before) && !Has(front, last.key.name) && DeepUnique(last.value)
    requires forall i :: 0 <= i < |replacement| ==> DeepUnique(replacement[i].value)
    ensures CarriedSoFar(front + [last], replacement, PreserveEntry(last, before))
    decreases last, 2
  {
    forall i | 0 <= i < |replacement|
      ensures CarriedPair(front + [last], replacement[i], PreserveEntry(last, before)[i])
    {
      if replacement[i].key.name == last.key.name {
        DecorCarried(last.value, replacement[i].value);
        LastCarried(front, last, replacement, before, i);
      } else {
        OthersCarried(front, last, replacement, before, i);
      }
    }
  }

  /** Where the loop stands after the entries of `front`. */
  ghost predicate CarriedSoFar(front: Pairs<Item>, replacement: Pairs<Item>, before: Pairs<Item>) {
    && UniqueNames(replacement) && |before| == |replacement|
    && (forall i :: 0 <= i < |replacement| ==> before[i].key.name == replacement[i].key.name)
    && (forall i :: 0 <= i < |replacement| ==> CarriedPair(front, replacement[i], before[i]))
  }

  lemma {:induction false} FoundLast(front: Pairs<Item>, last: Pair<Item>, name: string)
    requires !Has(front, last.key.name)
    ensures Find(front + [last], name) == if name == last.key.name then |front| else if Has(front, name) then Find(front, name) else |front| + 1
  {
    FindAppend(front, [last], name);
  }

  lemma {:induction false} OthersCarried(front: Pairs<Item>, last: Pair<Item>, replacement: Pairs<Item>, before: Pairs<Item>, i: nat)
    requires CarriedSoFar(front, replacement, before) && !Has(front, last.key.name)
    requires i < |replacement| && replacement[i].key.name != last.key.name
    ensures CarriedPair(front + [last], replacement[i], PreserveEntry(last, before)[i])
  {
    FoundLast(front, last, replacement[i].key.name);
    assert PreserveEntry(last, before)[i] == before[i];
  }

  lemma {:induction false} LastCarried(front: Pairs<Item>, last: Pair<Item>, replacement: Pairs<Item>, before: Pairs<Item>, i: nat)
    requires CarriedSoFar(front, replacement, before) && !Has(front, last.key.name)
    requires i < |replacement| && replacement[i].key.name == last.key.name
    requires Carried(last.value, replacement[i].value, PreserveDecor(last.value, replacement[i].value))
    ensures CarriedPair(front + [last], replacement[i], PreserveEntry(last, before)[i])
  {
    FoundLast(front, last, last.key.name);
    assert before[i] == replacement[i];
    FindAt(before, i);
  }

  // ---- Migration of inline tables ----

  /** A rebuilt entry has a plain key and its old value, with nothing after it. */
  lemma {:induction false} RebuiltEntry(fields: Pairs<Value>, i: nat)
    requires i < |fields|
    ensures var e := TableFromInline(fields).entries;
            && |e| == |fields| && e[i].key == NewKey(fields[i].key.name) && e[i].value.ValueItem?
            && e[i].value.value.(decor := fields[i].value.decor) == fields[i].value
            && e[i].value.value.decor == Decor(fields[i].value.decor.prefix, Some(""))
    ensures TableFromInline(fields).(entries := []) == Table([], true, false, None, PLAIN)
  {
  }

  // ---- JSON ----

  /** What JSON becomes on its way through TOML: null an empty string, a wide integer a float. */
  function Projected(json: Json): Json {
    match json
    case Null => Text("")
    case Number(Whole(n)) =>
      if -9223372036854775808 <= n <= 9223372036854775807 then json else Number(Fraction(n as real))
    case List(items) => List(seq(|items|, i requires 0 <= i < |items| => Projected(items[i])))
    case Object(members) =>
      Object(seq(|members|, i requires 0 <= i < |members| => Member(members[i].name, Projected(members[i].value))))
    case _ => json
  }

  lemma {:induction false} ValuesAt(values: seq<Value>, i: nat)
    requires i < |values|
    ensures |ValuesToJson(values)| == |values| && ValuesToJson(values)[i] == ValueToJson(values[i])
  {
    var n := |values| - 1;
    if n > 0 {
      ValuesAt(values[..n], if i < n then i else 0);
    } else {
      assert ValuesToJson(values[..0]) == [];
    }
  }

  lemma {:induction false} FieldsAt(fields: Pairs<Value>, i: nat)
    requires i < |fields|
    ensures |FieldsToJson(fields)| == |fields|
    ensures FieldsToJson(fields)[i] == Member(fields[i].key.name, ValueToJson(fields[i].value))
  {
    var n := |fields| - 1;
    if n > 0 {
      FieldsAt(fields[..n], if i < n then i else 0);
    } else {
      assert FieldsToJson(fields[..0]) == [];
    }
  }

  lemma {:induction false} ItemsAt(items: seq<Json>, i: nat)
    requires i < |items|
    ensures JsonsToToml(items)[i] == JsonToToml(items[i])
  {
    var n := |items| - 1;
    if i < n {
      ItemsAt(items[..n], i);
    }
  }

  /** All JSON, representable or not: what is written into TOML reads back as its projection. */
  lemma {:induction false} JsonProjected(json: Json)
    ensures ValueToJson(JsonToToml(json)) == Projected(json)
    decreases json, 1
  {
    match json
    case List(items) => ItemsProjected(items);
    case Object(members) => MembersProjected(members);
    case _ =>
  }

  lemma {:induction false} ItemsProjected(items: seq<Json>)
    ensures ValuesToJson(JsonsToToml(items)) == seq(|items|, i requires 0 <= i < |items| => Projected(items[i]))
    decreases items, 0
  {
    var values := JsonsToToml(items);
    forall i: nat | i < |items| ensures |ValuesToJson(values)| == |items| && ValuesToJson(values)[i] == Projected(items[i]) {
      ItemsAt(items, i);
      ValuesAt(values, i);
      JsonProjected(items[i]);
    }
  }

  lemma {:induction false} MembersProjected(members: seq<Member>)
    ensures FieldsToJson(MembersToToml(members))
            == seq(|members|, i requires 0 <= i < |members| => Member(members[i].name, Projected(members[i].value)))
    decreases members, 0
  {
    var fields := MembersToToml(members);
    forall i: nat | i < |members|
      ensures |FieldsToJson(fields)| == |members|
      ensures FieldsToJson(fields)[i] == Member(members[i].name, Projected(members[i].value))
    {
      FieldsAt(fields, i);
      MemberProjected(members[i]);
    }
  }

  lemma {:induction false} MemberProjected(member: Member)
    ensures ValueToJson(JsonToToml(member.value)) == Projected(member.value)
    decreases member, 2
  {
    JsonProjected(member.value);
  }

  /** A string keeps a spelling of its own, on one line; everything else is written in the library's way. */
  lemma {:induction false} OnlyTextsSpelled(json: Json)
    ensures var v := JsonToToml(json);
            && (json.Text? <==> v.ScalarValue? && v.spelling.Some?)
            && (v.Array? || v.Inline? ==> v.layout == None)
  {
  }

  /** The members of a table: one for each entry that is no placeholder, in order. */
  ghost predicate MembersOf(entries: Pairs<Item>, members: seq<Member>) {
    if entries == [] then members == []
    else if entries[0].value.NoItem? then MembersOf(entries[1..], members)
    else members != [] && members[0] == Member(entries[0].key.name, ItemToJson(entries[0].value)) && MembersOf(entries[1..], members[1..])
  }

  lemma {:induction false} FirstEntry(entries: Pairs<Item>)
    requires entries != []
    ensures EntriesToJson(entries) == EntryToJson(entries[0]) + EntriesToJson(entries[1..])
  {
    var n := |entries| - 1;
    if n == 0 {
      assert entries[..0] == [] && entries[1..] == [];
    } else {
      var front, last := entries[..n], entries[n];
      FirstEntry(front);
      assert entries[1..] == front[1..] + [last];
      assert entries[1..][..n - 1] == front[1..];
      assert EntryToJson(entries[0]) + (EntriesToJson(front[1..]) + EntryToJson(last))
          == EntryToJson(entries[0]) + EntriesToJson(front[1..]) + EntryToJson(last);
    }
  }

  /** The JSON of a table and of an array of tables. */
  lemma {:induction false} EntriesExact(entries: Pairs<Item>)
    ensures MembersOf(entries, EntriesToJson(entries))
  {
    if entries != [] {
      EntriesExact(entries[1..]);
      FirstEntry(entries);
      var head, rest := EntryToJson(entries[0]), EntriesToJson(entries[1..]);
      if head == [] {
        assert head + rest == rest;
      } else {
        assert (head + rest)[1..] == rest;
      }
    }
  }

  lemma {:induction false} TablesExact(tables: seq<Table>, i: nat)
    requires i < |tables|
    ensures |TablesToJson(tables)| == |tables| && TablesToJson(tables)[i] == ItemToJson(TableItem(tables[i]))
  {
    var n := |tables| - 1;
    if n > 0 {
      TablesExact(tables[..n], if i < n then i else 0);
    } else {
      assert TablesToJson(tables[..0]) == [];
    }
  }
}
