/** What the upsert of mcp_edit.rs guarantees, over every document shape. */
module McpLaws {
  import opened Wrappers
  import opened OrderedPairs
  import opened Toml
  import opened McpEdit

  /** Fresh unique keys with unformatted values, as JSON members are converted. */
  ghost predicate Managed(desired: Desired) {
    WantedList(desired, PlainValue)
  }

  predicate PlainValue(v: Value) {
    v.decor == PLAIN
  }

  predicate PlainItem(item: Item) {
    item.ValueItem? && PlainValue(item.value)
  }

  ghost predicate UniqueMembers(members: seq<Member>) {
    forall i, j :: 0 <= i < j < |members| ==> members[i].name != members[j].name
  }

  lemma {:induction false} JsonMembersManaged(members: seq<Member>)
    requires UniqueMembers(members)
    ensures Managed(MembersToToml(members))
  {
  }

  lemma {:induction false} ItemsManaged(desired: Desired)
    requires Managed(desired)
    ensures WantedList(AsItems(desired), PlainItem)
    ensures Names(AsItems(desired)) == Names(desired)
  {
  }

  lemma {:induction false} InlineManaged(desired: Desired)
    requires Managed(desired)
    ensures DesiredInline(desired) == desired
  {
    var r := DesiredInline(desired);
    forall i | 0 <= i < |r| ensures r[i] == desired[i] {
      assert PlainValue(desired[i].value);
    }
  }

  lemma {:induction false} MergeItemAbsorbs()
    ensures Absorbing(MergeItem, PlainItem)
  {
  }

  lemma {:induction false} MergeValueAbsorbs()
    ensures Absorbing(MergeValue, PlainValue)
  {
  }

  // ---- Which keys the entry already has ----

  /** The keys of an entry that an edit starts from. */
  predicate ItemHas(item: Item, key: string) {
    match item
    case TableItem(t) => Has(t.entries, key)
    case ValueItem(Inline(fields, _, _)) => Has(fields, key)
    case _ => false
  }

  /** The entry as the document holds it; NoItem when there is none. */
  function EntryOf(root: Table, name: string): Item {
    if !Contains(root, SERVERS) then NoItem
    else match Get(root.entries, SERVERS)
      case TableItem(servers) => if Has(servers.entries, name) then Get(servers.entries, name) else NoItem
      case ValueItem(Inline(servers, _, _)) =>
        if Has(servers, name) then ValueItem(Get(servers, name)) else NoItem
      case _ => NoItem
  }

  /** The names of w that are not yet keys of the entry, in order. */
  function AddedTo(item: Item, w: Desired): seq<string> {
    if w == [] then []
    else AddedTo(item, w[..|w| - 1])
         + if ItemHas(item, w[|w| - 1].key.name) then [] else [w[|w| - 1].key.name]
  }

  lemma {:induction false} NamesFront<V>(w: Pairs<V>)
    requires w != []
    ensures Names(w)[..|w| - 1] == Names(w[..|w| - 1]) && Names(w)[|w| - 1] == w[|w| - 1].key.name
  {
  }

  lemma {:induction false} MissingIsAdded<V>(ps: Pairs<V>, w: Pairs<V>, item: Item, desired: Desired)
    requires Names(w) == Names(desired)
    requires forall key :: Has(ps, key) <==> ItemHas(item, key)
    ensures Names(Missing(ps, w)) == AddedTo(item, desired)
  {
    assert |w| == |Names(w)| == |desired|;
    if w != [] {
      var n := |w| - 1;
      NamesFront(w);
      NamesFront(desired);
      MissingIsAdded(ps, w[..n], item, desired[..n]);
    }
  }

  /** A library invariant: no key twice in the entry. */
  ghost predicate UniqueEntry(item: Item) {
    match item
    case TableItem(t) => UniqueNames(t.entries)
    case ValueItem(Inline(fields, _, _)) => UniqueNames(fields)
    case _ => true
  }

  /** Writing d2 and then d1 comes to writing d1, given the entry. */
  ghost predicate SameAdditions(item: Item, d2: Desired, d1: Desired) {
    item.TableArray? || AddedTo(item, d2) == AddedTo(item, d1)
  }

  // ---- Last write wins, entry by entry ----

  lemma {:induction false} EnsuredKeys(item: Item, entry: Table)
    requires EnsureTable(item) == Some(entry) && UniqueEntry(item)
    ensures UniqueNames(entry.entries)
    ensures forall key :: Has(entry.entries, key) <==> ItemHas(item, key)
  {
    if item.ValueItem? && item.value.Inline? {
      forall key ensures Has(entry.entries, key) <==> Has(item.value.fields, key) {
        FindSameNames(entry.entries, item.value.fields, key);
      }
    }
  }

  lemma {:induction false} FindSameNames<V, W>(a: Pairs<V>, b: Pairs<W>, name: string)
    requires |a| == |b| && forall i :: 0 <= i < |a| ==> a[i].key.name == b[i].key.name
    ensures Find(a, name) == Find(b, name)
  {
    if a != [] {
      FindSameNames(a[1..], b[1..], name);
    }
  }

  lemma {:induction false} EntryLastWins(item: Item, entry: Table, d2: Desired, d1: Desired)
    requires Managed(d2) && Managed(d1) && SameNames(d2, d1)
    requires EnsureTable(item) == Some(entry) && UniqueEntry(item)
    ensures UpdatedEntry(UpdatedEntry(entry, d2), d1) == UpdatedEntry(entry, d1)
            <==> AddedTo(item, d2) == AddedTo(item, d1)
  {
    EnsuredKeys(item, entry);
    ItemsManaged(d2);
    ItemsManaged(d1);
    SameItemNames(d2, d1);
    MergeItemAbsorbs();
    LastWriteWins(entry.entries, AsItems(d2), AsItems(d1), MergeItem, PlainItem);
    MissingIsAdded(entry.entries, AsItems(d2), item, d2);
    MissingIsAdded(entry.entries, AsItems(d1), item, d1);
  }

  lemma {:induction false} SameItemNames(d2: Desired, d1: Desired)
    requires SameNames(d2, d1)
    ensures SameNames(AsItems(d2), AsItems(d1))
  {
    forall name ensures Has(AsItems(d2), name) <==> Has(AsItems(d1), name) {
      FindSameNames(AsItems(d2), d2, name);
      FindSameNames(AsItems(d1), d1, name);
      assert Has(d2, name) <==> Has(d1, name);
    }
  }

  /** A fresh table is what reconciling an empty one gives. */
  lemma {:induction false} FreshIsReconciled(desired: Desired)
    requires Managed(desired)
    ensures UpdatedEntry(IMPLICIT_TABLE, desired) == DesiredTable(desired)
    ensures Reconcile([], desired, MergeValue) == desired
  {
    ItemsManaged(desired);
    ReconcileClosed([], AsItems(desired), MergeItem);
    AllMissing([], AsItems(desired));
    ReconcileClosed([], desired, MergeValue);
    AllMissing([], desired);
  }

  lemma {:induction false} AllMissing<V>(ps: Pairs<V>, w: Pairs<V>)
    requires ps == []
    ensures Missing(ps, w) == w
  {
    if w != [] {
      AllMissing(ps, w[..|w| - 1]);
      assert w == w[..|w| - 1] + [w[|w| - 1]];
    }
  }

  /** No entry yet: the first write inserts it whole. */
  lemma {:induction false} FreshLastWins(servers: Table, name: string, d2: Desired, d1: Desired)
    requires Managed(d2) && Managed(d1) && SameNames(d2, d1) && !Contains(servers, name)
    ensures UpsertIntoTable(UpsertIntoTable(servers, name, d2), name, d1) == UpsertIntoTable(servers, name, d1)
            <==> AddedTo(NoItem, d2) == AddedTo(NoItem, d1)
  {
    FreshIsReconciled(d2);
    FreshIsReconciled(d1);
    EntryLastWins(NoItem, IMPLICIT_TABLE, d2, d1);
    var first := TableItem(DesiredTable(d2));
    var again := TableItem(UpdatedEntry(DesiredTable(d2), d1));
    FreshThenAgain(servers, name, d2, d1);
    InsertThenPut(servers.entries, name, first, again, TableItem(DesiredTable(d1)));
  }

  lemma {:induction false} FreshThenAgain(servers: Table, name: string, d2: Desired, d1: Desired)
    requires !Contains(servers, name)
    ensures var entries := Insert(servers.entries, name, TableItem(DesiredTable(d2)));
            && Find(servers.entries, name) < |entries|
            && UpsertIntoTable(UpsertIntoTable(servers, name, d2), name, d1) ==
               servers.(entries := entries[Find(servers.entries, name) :=
                 Pair(NewKey(name), TableItem(UpdatedEntry(DesiredTable(d2), d1)))])
  {
    FindInserted(servers.entries, name, TableItem(DesiredTable(d2)));
  }

  lemma {:induction false} InsertThenPut<V>(ps: Pairs<V>, name: string, x: V, y: V, z: V)
    ensures Has(Insert(ps, name, x), name)
    ensures Insert(ps, name, x)[Find(ps, name) := Pair(NewKey(name), y)] == Insert(ps, name, z) <==> y == z
  {
    var i, key := Find(ps, name), NewKey(name);
    FindInserted(ps, name, x);
    if i < |ps| {
      UpdateTwice(ps, i, Pair(key, x), Pair(key, y), Pair(key, z));
    } else {
      AppendThenUpdate(ps, Pair(key, x), Pair(key, y), Pair(key, z));
    }
  }

  lemma {:induction false} PresentLastWins(servers: Table, name: string, entry: Table, d2: Desired, d1: Desired)
    requires Managed(d2) && Managed(d1) && SameNames(d2, d1) && Contains(servers, name)
    requires UniqueEntry(Get(servers.entries, name)) && EnsureTable(Get(servers.entries, name)) == Some(entry)
    ensures UpsertIntoTable(UpsertIntoTable(servers, name, d2), name, d1) == UpsertIntoTable(servers, name, d1)
            <==> AddedTo(Get(servers.entries, name), d2) == AddedTo(Get(servers.entries, name), d1)
  {
    var i := Find(servers.entries, name);
    var Pair(key, item) := servers.entries[i];
    var key' := if item.TableItem? then key else WithoutKeySuffix(key);
    EntryLastWins(item, entry, d2, d1);
    FindUpdate(servers.entries, name, key', TableItem(UpdatedEntry(entry, d2)));
    UpdateTwice(servers.entries, i, Pair(key', TableItem(UpdatedEntry(entry, d2))),
                Pair(key', TableItem(UpdatedEntry(UpdatedEntry(entry, d2), d1))),
                Pair(key', TableItem(UpdatedEntry(entry, d1))));
  }

  /** In a table of servers. */
  lemma {:induction false} TableLastWins(servers: Table, name: string, d2: Desired, d1: Desired)
    requires Managed(d2) && Managed(d1) && SameNames(d2, d1)
    requires Has(servers.entries, name) ==> UniqueEntry(Get(servers.entries, name))
    ensures UpsertIntoTable(UpsertIntoTable(servers, name, d2), name, d1) == UpsertIntoTable(servers, name, d1)
            <==> SameAdditions(if Has(servers.entries, name) then Get(servers.entries, name) else NoItem, d2, d1)
  {
    if !Contains(servers, name) {
      FreshLastWins(servers, name, d2, d1);
    } else {
      match EnsureTable(Get(servers.entries, name))
      case None =>
      case Some(entry) => PresentLastWins(servers, name, entry, d2, d1);
    }
  }

  lemma {:induction false} UpdateTwice<T>(s: seq<T>, i: nat, x: T, y: T, z: T)
    requires i < |s|
    ensures s[i := x][i := y] == s[i := z] <==> y == z
  {
    assert s[i := x][i := y] == s[i := y];
    assert s[i := y][i] == y && s[i := z][i] == z;
  }

  lemma {:induction false} AppendThenUpdate<T>(s: seq<T>, x: T, y: T, z: T)
    ensures (s + [x])[|s| := y] == s + [z] <==> y == z
  {
    assert (s + [x])[|s| := y] == s + [y];
    assert (s + [y])[|s|] == y && (s + [z])[|s|] == z;
  }

  lemma {:induction false} PutTwice<V>(ps: Pairs<V>, name: string, x: V, y: V, z: V)
    ensures Put(Put(ps, name, x), name, y) == Put(ps, name, z) <==> y == z
  {
    var i := Find(ps, name);
    FindInserted(ps, name, x);
    if i < |ps| {
      UpdateTwice(ps, i, Pair(ps[i].key, x), Pair(ps[i].key, y), Pair(ps[i].key, z));
    } else {
      AppendThenUpdate(ps, Pair(NewKey(name), x), Pair(NewKey(name), y), Pair(NewKey(name), z));
    }
  }

  /** In an inline table of servers. */
  lemma {:induction false} InlineLastWins(servers: Pairs<Value>, name: string, d2: Desired, d1: Desired)
    requires Managed(d2) && Managed(d1) && SameNames(d2, d1)
    requires Has(servers, name) ==> UniqueEntry(ValueItem(Get(servers, name)))
    ensures UpsertIntoInline(UpsertIntoInline(servers, name, d2), name, d1) == UpsertIntoInline(servers, name, d1)
            <==> SameAdditions(if Has(servers, name) then ValueItem(Get(servers, name)) else NoItem, d2, d1)
  {
    InlineManaged(d2);
    InlineManaged(d1);
    MergeValueAbsorbs();
    if Has(servers, name) && Get(servers, name).Inline? {
      var entry := Get(servers, name);
      var item := ValueItem(entry);
      LastWriteWins(entry.fields, d2, d1, MergeValue, PlainValue);
      MissingIsAdded(entry.fields, d2, item, d2);
      MissingIsAdded(entry.fields, d1, item, d1);
      var f2, f1 := Reconcile(entry.fields, d2, MergeValue), Reconcile(entry.fields, d1, MergeValue);
      FindInserted(servers, name, entry.(fields := f2));
      PutTwice(servers, name, entry.(fields := f2),
               entry.(fields := Reconcile(f2, d1, MergeValue)), entry.(fields := f1));
    } else {
      InlineFresh(servers, name, d2, d1);
    }
  }

  /** No inline entry yet: the first write inserts it whole. */
  lemma {:induction false} InlineFresh(servers: Pairs<Value>, name: string, d2: Desired, d1: Desired)
    requires Managed(d2) && Managed(d1) && SameNames(d2, d1)
    requires !Has(servers, name) || !Get(servers, name).Inline?
    ensures UpsertIntoInline(UpsertIntoInline(servers, name, d2), name, d1) == UpsertIntoInline(servers, name, d1)
            <==> SameAdditions(if Has(servers, name) then ValueItem(Get(servers, name)) else NoItem, d2, d1)
  {
    var item := if Has(servers, name) then ValueItem(Get(servers, name)) else NoItem;
    InlineManaged(d2);
    InlineManaged(d1);
    MergeValueAbsorbs();
    FreshIsReconciled(d2);
    FreshIsReconciled(d1);
    LastWriteWins([], d2, d1, MergeValue, PlainValue);
    MissingIsAdded([], d2, item, d2);
    MissingIsAdded([], d1, item, d1);
    var first := Inline(d2, None, PLAIN);
    FindInserted(servers, name, first);
    var again := Inline(Reconcile(d2, d1, MergeValue), None, PLAIN);
    InsertThenPut(servers, name, first, again, Inline(d1, None, PLAIN));
  }

  // ---- The whole document ----

  /**
   Two writes with the same keys: the second alone would have done, exactly when both writes add the
   keys the entry lacks in the same order (or the entry cannot be written at all).
   */
  lemma {:induction false} UpsertLastWins(root: Table, name: string, d2: Desired, d1: Desired)
    requires Managed(d2) && Managed(d1) && SameNames(d2, d1) && UniqueEntry(EntryOf(root, name))
    ensures Upserted(root, name, d2).Ok? <==> Upserted(root, name, d1).Ok?
    ensures Upserted(root, name, d2).Ok? ==>
              (Upserted(Upserted(root, name, d2).value, name, d1) == Upserted(root, name, d1)
               <==> SameAdditions(EntryOf(root, name), d2, d1))
  {
    ServersOf(root);
    if InlineServers(root) {
      InlineDocLastWins(root, name, d2, d1);
    } else if EnsureTable(Get(WithServers(root).entries, SERVERS)).Some? {
      TableDocLastWins(root, name, d2, d1);
    }
  }

  /** Two writes of the same keys in two orders: the entry keeps the order of the first write. */
  lemma {:induction false} OrderOfFirstWriteStays(name: string, a: Pair<Value>, b: Pair<Value>)
    requires Managed([a, b]) && a.key.name != b.key.name
    ensures var root := Table([], false, false, None, PLAIN);
            && Upserted(root, name, [a, b]).Ok?
            && Upserted(Upserted(root, name, [a, b]).value, name, [b, a]) != Upserted(root, name, [b, a])
  {
    var root := Table([], false, false, None, PLAIN);
    ManagedSwapped(a, b);
    ServersOf(root);
    assert EntryOf(root, name) == NoItem;
    AddedPair(a, b);
    AddedPair(b, a);
    UpsertLastWins(root, name, [a, b], [b, a]);
  }

  lemma {:induction false} ManagedSwapped(a: Pair<Value>, b: Pair<Value>)
    requires Managed([a, b])
    ensures Managed([b, a]) && SameNames([a, b], [b, a])
  {
    assert [a, b][0] == a && [a, b][1] == b;
    forall name ensures Has([a, b], name) <==> Has([b, a], name) {
      PairHas(a, b, name);
      PairHas(b, a, name);
    }
  }

  lemma {:induction false} PairHas<V>(a: Pair<V>, b: Pair<V>, name: string)
    ensures Has([a, b], name) <==> a.key.name == name || b.key.name == name
  {
    HeadFirst(a, [b], name);
    HeadFirst(b, [], name);
    assert [a, b] == [a] + [b] && [b] == [b] + [];
  }

  lemma {:induction false} AddedPair(a: Pair<Value>, b: Pair<Value>)
    ensures AddedTo(NoItem, [a, b]) == [a.key.name, b.key.name]
  {
    assert [a, b][..1] == [a] && [a][..0] == [];
    assert AddedTo(NoItem, [a]) == AddedTo(NoItem, [a][..0]) + [a.key.name] == [a.key.name];
  }

  lemma {:induction false} InlineDocLastWins(root: Table, name: string, d2: Desired, d1: Desired)
    requires Managed(d2) && Managed(d1) && SameNames(d2, d1) && UniqueEntry(EntryOf(root, name)) && InlineServers(root)
    ensures Upserted(Upserted(root, name, d2).value, name, d1) == Upserted(root, name, d1)
            <==> SameAdditions(EntryOf(root, name), d2, d1)
  {
    var item := Get(root.entries, SERVERS);
    var s := item.value.fields;
    var s2, s1 := UpsertIntoInline(s, name, d2), UpsertIntoInline(s, name, d1);
    InlineLastWins(s, name, d2, d1);
    FindInserted(root.entries, SERVERS, ValueItem(item.value.(fields := s2)));
    PutTwice(root.entries, SERVERS, ValueItem(item.value.(fields := s2)),
             ValueItem(item.value.(fields := UpsertIntoInline(s2, name, d1))), ValueItem(item.value.(fields := s1)));
  }

  lemma {:induction false} TableDocLastWins(root: Table, name: string, d2: Desired, d1: Desired)
    requires Managed(d2) && Managed(d1) && SameNames(d2, d1) && UniqueEntry(EntryOf(root, name))
    requires !InlineServers(root) && EnsureTable(Get(WithServers(root).entries, SERVERS)).Some?
    ensures Upserted(Upserted(root, name, d2).value, name, d1) == Upserted(root, name, d1)
            <==> SameAdditions(EntryOf(root, name), d2, d1)
  {
    ServersOf(root);
    var base := WithServers(root);
    var s := EnsureTable(Get(base.entries, SERVERS)).value;
    var s2, s1 := UpsertIntoTable(s, name, d2), UpsertIntoTable(s, name, d1);
    TableLastWins(s, name, d2, d1);
    UpsertedTable(root, name, d2);
    UpsertedTable(root, name, d1);
    UpsertedServers(base, s2, name, d1);
    PutTwice(base.entries, SERVERS, TableItem(s2), TableItem(UpsertIntoTable(s2, name, d1)), TableItem(s1));
  }

  lemma {:induction false} UpsertedTable(root: Table, name: string, d: Desired)
    requires !InlineServers(root) && EnsureTable(Get(WithServers(root).entries, SERVERS)).Some?
    ensures var base := WithServers(root);
            var s := EnsureTable(Get(base.entries, SERVERS)).value;
            Upserted(root, name, d) ==
            Ok(base.(entries := Put(base.entries, SERVERS, TableItem(UpsertIntoTable(s, name, d)))))
  {
    ServersOf(root);
  }

  lemma {:induction false} UpsertedServers(base: Table, servers: Table, name: string, d: Desired)
    ensures var next := base.(entries := Put(base.entries, SERVERS, TableItem(servers)));
            Upserted(next, name, d) ==
            Ok(next.(entries := Put(next.entries, SERVERS, TableItem(UpsertIntoTable(servers, name, d)))))
  {
    FindInserted(base.entries, SERVERS, TableItem(servers));
  }

  /** A missing servers item is edited as an empty table. */
  lemma {:induction false} ServersOf(root: Table)
    ensures Contains(root, SERVERS) ==> WithServers(root) == root
    ensures !Contains(root, SERVERS) ==> Get(WithServers(root).entries, SERVERS) == TableItem(IMPLICIT_TABLE)
  {
    FindInserted(root.entries, SERVERS, TableItem(IMPLICIT_TABLE));
  }

  /** Idempotence on every shape: absent, table, inline, scalar, array of tables, whole-inline parent. */
  lemma {:induction false} UpsertIdempotent(root: Table, name: string, desired: Desired)
    requires Managed(desired) && UniqueEntry(EntryOf(root, name)) && Upserted(root, name, desired).Ok?
    ensures Upserted(Upserted(root, name, desired).value, name, desired) == Upserted(root, name, desired)
  {
    UpsertLastWins(root, name, desired, desired);
  }

  // ---- The entry after an edit ----

  predicate InlineServers(root: Table) {
    Contains(root, SERVERS) && Get(root.entries, SERVERS).ValueItem? && Get(root.entries, SERVERS).value.Inline?
  }

  /** The entry an edit leaves behind, from the entry it found. */
  function EntryAfter(inline: bool, item: Item, desired: Desired): Item {
    if inline then
      if item.ValueItem? && item.value.Inline?
      then ValueItem(item.value.(fields := Reconcile(item.value.fields, DesiredInline(desired), MergeValue)))
      else ValueItem(Inline(DesiredInline(desired), None, PLAIN))
    else if item.NoItem? then TableItem(DesiredTable(desired))
    else match EnsureTable(item)
      case None => item
      case Some(entry) => TableItem(UpdatedEntry(entry, desired))
  }

  lemma {:induction false} TableEntryAfter(servers: Table, name: string, desired: Desired)
    ensures var r := UpsertIntoTable(servers, name, desired);
            && Contains(r, name)
            && Get(r.entries, name)
               == EntryAfter(false, if Has(servers.entries, name) then Get(servers.entries, name) else NoItem, desired)
  {
    FindInserted(servers.entries, name, TableItem(DesiredTable(desired)));
    if Contains(servers, name) {
      var Pair(key, item) := servers.entries[Find(servers.entries, name)];
      if EnsureTable(item).Some? {
        var entry := TableItem(UpdatedEntry(EnsureTable(item).value, desired));
        FindUpdate(servers.entries, name, key, entry);
        FindUpdate(servers.entries, name, WithoutKeySuffix(key), entry);
      }
    }
  }

  lemma {:induction false} InlineEntryAfter(servers: Pairs<Value>, name: string, desired: Desired)
    ensures var r := UpsertIntoInline(servers, name, desired);
            && Has(r, name)
            && ValueItem(Get(r, name))
               == EntryAfter(true, if Has(servers, name) then ValueItem(Get(servers, name)) else NoItem, desired)
  {
    var wanted := DesiredInline(desired);
    FindInserted(servers, name, Inline(wanted, None, PLAIN));
    if Has(servers, name) && Get(servers, name).Inline? {
      var entry := Get(servers, name);
      FindInserted(servers, name, entry.(fields := Reconcile(entry.fields, wanted, MergeValue)));
    }
  }

  /** Every successful edit leaves exactly this entry, in the servers' own form. */
  lemma {:induction false} EntryAfterUpsert(root: Table, name: string, desired: Desired)
    requires Upserted(root, name, desired).Ok?
    ensures var next := Upserted(root, name, desired).value;
            && Existed(next, name)
            && EntryOf(next, name) == EntryAfter(InlineServers(root), EntryOf(root, name), desired)
            && InlineServers(next) == InlineServers(root)
  {
    var base := WithServers(root);
    ServersOf(root);
    var item := Get(base.entries, SERVERS);
    if item.ValueItem? && item.value.Inline? {
      var s := item.value.fields;
      InlineEntryAfter(s, name, desired);
      FindInserted(base.entries, SERVERS, ValueItem(item.value.(fields := UpsertIntoInline(s, name, desired))));
    } else {
      var s := EnsureTable(item).value;
      TableEntryAfter(s, name, desired);
      FindInserted(base.entries, SERVERS, TableItem(UpsertIntoTable(s, name, desired)));
    }
  }

  /** The same key, but for the spacing after it, which is gone. */
  predicate MigratedKey(before: Key, after: Key) {
    && after.name == before.name && after.spelling == before.spelling
    && after.leaf.prefix == before.leaf.prefix && after.dotted.prefix == before.dotted.prefix
    && after.leaf.suffix == Some("") && after.dotted.suffix == Some("")
  }

  /** In a table of servers a new entry has a plain key; a value that becomes a table loses the spacing of its key. */
  lemma {:induction false} EntryKeyInTable(servers: Table, name: string, desired: Desired)
    ensures var r := UpsertIntoTable(servers, name, desired);
            var i := Find(servers.entries, name);
            && i < |r.entries|
            && if !Contains(servers, name) then r.entries[i].key == NewKey(name)
               else if servers.entries[i].value.ValueItem? then MigratedKey(servers.entries[i].key, r.entries[i].key)
               else r.entries[i].key == servers.entries[i].key
  {
  }

  /** In an inline table of servers a value that becomes an entry has a plain key; an entry keeps its own. */
  lemma {:induction false} EntryKeyInInline(servers: Pairs<Value>, name: string, desired: Desired)
    ensures var r := UpsertIntoInline(servers, name, desired);
            var i := Find(servers, name);
            && i < |r|
            && if i < |servers| && servers[i].value.Inline? then r[i].key == servers[i].key && r[i].value.layout == servers[i].value.layout
               else r[i].key == NewKey(name) && r[i].value.layout == None
  {
  }

  // ---- Put-get ----

  function ItemGet(item: Item, key: string): Item
    requires ItemHas(item, key)
  {
    match item
    case TableItem(t) => Get(t.entries, key)
    case ValueItem(inline) => ValueItem(Get(inline.fields, key))
  }

  /** The entry holds the key, with a value that projects to json. */
  predicate Reads(e: Item, key: string, json: Json) {
    ItemHas(e, key) && ItemToJson(ItemGet(e, key)) == json
  }

  lemma {:induction false} InlineReadBack(item: Item, members: seq<Member>, i: nat)
    requires UniqueMembers(members) && i < |members| && UniqueEntry(item)
    ensures Reads(
              EntryAfter(true, item, MembersToToml(members)), members[i].name, ValueToJson(JsonToToml(members[i].value)))
  {
    var desired, key := MembersToToml(members), members[i].name;
    JsonMembersManaged(members);
    InlineManaged(desired);
    FindAt(desired, i);
    if item.ValueItem? && item.value.Inline? {
      var fields := item.value.fields;
      ReconcileGet(fields, desired, MergeValue, key);
      if Has(fields, key) {
        DecorIsNotData(desired[i].value, Get(fields, key).decor);
      }
    }
  }

  lemma {:induction false} TableReadBack(item: Item, entry: Table, members: seq<Member>, i: nat)
    requires UniqueMembers(members) && i < |members| && UniqueEntry(item) && EnsureTable(item) == Some(entry)
    ensures Reads(
              TableItem(UpdatedEntry(entry, MembersToToml(members))), members[i].name,
              ValueToJson(JsonToToml(members[i].value)))
  {
    var desired, key := MembersToToml(members), members[i].name;
    JsonMembersManaged(members);
    ItemsManaged(desired);
    FindAt(AsItems(desired), i);
    EnsuredKeys(item, entry);
    ReconcileGet(entry.entries, AsItems(desired), MergeItem, key);
    var wanted := AsItems(desired)[i].value;
    assert Get(AsItems(desired), key) == wanted;
    if Has(entry.entries, key) {
      MergeItemKeepsData(Get(entry.entries, key), wanted);
    }
  }

  lemma {:induction false} MergeItemKeepsData(existing: Item, wanted: Item)
    ensures ItemToJson(MergeItem(existing, wanted)) == ItemToJson(wanted)
  {
    PreserveDecorKeepsData(existing, wanted);
  }

  /**
   After a successful upsert every managed key reads back, as JSON, what was asked for, exactly when
   the asked value has no null and no integer beyond i64; an array of tables is never written.
   */
  lemma {:induction false} PutGet(root: Table, name: string, members: seq<Member>, i: nat)
    requires UniqueMembers(members) && i < |members| && UniqueEntry(EntryOf(root, name))
    requires Upserted(root, name, MembersToToml(members)).Ok? && !EntryOf(root, name).TableArray?
    ensures ItemHas(EntryOf(Upserted(root, name, MembersToToml(members)).value, name), members[i].name)
    ensures Reads(EntryOf(Upserted(root, name, MembersToToml(members)).value, name), members[i].name, members[i].value)
            <==> Representable(members[i].value)
  {
    var item := EntryOf(root, name);
    EntryAfterUpsert(root, name, MembersToToml(members));
    JsonRoundTrip(members[i].value);
    if InlineServers(root) {
      InlineReadBack(item, members, i);
    } else {
      TableReadBack(item, EnsureTable(item).value, members, i);
      JsonMembersManaged(members);
      FreshIsReconciled(MembersToToml(members));
    }
  }

  // ---- Frame ----

  /** b is a with the pair called name changed or appended, everything else in place. */
  ghost predicate OthersKept<V>(a: Pairs<V>, b: Pairs<V>, name: string) {
    && |a| <= |b| <= |a| + 1
    && (forall i :: 0 <= i < |a| ==> b[i].key.name == a[i].key.name && (b[i] == a[i] || a[i].key.name == name))
    && (|b| == |a| + 1 ==> b[|a|].key.name == name && !Has(a, name))
  }

  lemma {:induction false} KeptByPut<V>(ps: Pairs<V>, name: string, value: V)
    ensures OthersKept(ps, Put(ps, name, value), name) && OthersKept(ps, Insert(ps, name, value), name)
    ensures |Put(ps, name, value)| == |ps| <==> Has(ps, name)
  {
  }

  lemma {:induction false} KeptByTwo<V>(ps: Pairs<V>, name: string, first: V, value: V)
    requires !Has(ps, name)
    ensures OthersKept(ps, Put(Insert(ps, name, first), name, value), name)
  {
    FindInserted(ps, name, first);
  }

  /** Putting one item under the servers key, which is added when it is missing. */
  lemma {:induction false} KeptByServers(root: Table, item: Item)
    ensures var next := Put(WithServers(root).entries, SERVERS, item);
            && OthersKept(root.entries, next, SERVERS)
            && (Contains(root, SERVERS) ==>
                  next[Find(root.entries, SERVERS)].key == root.entries[Find(root.entries, SERVERS)].key)
  {
    if Has(root.entries, SERVERS) {
      if Contains(root, SERVERS) {
        KeptByPut(root.entries, SERVERS, item);
      } else {
        KeptByPut(root.entries, SERVERS, TableItem(IMPLICIT_TABLE));
      }
    } else {
      KeptByTwo(root.entries, SERVERS, TableItem(IMPLICIT_TABLE), item);
    }
  }

  /** The root keeps every other item, its order and all formatting, and the servers key. */
  lemma {:induction false} RootFrame(root: Table, name: string, desired: Desired)
    requires Upserted(root, name, desired).Ok?
    ensures var next := Upserted(root, name, desired).value;
            && next.(entries := root.entries) == root
            && OthersKept(root.entries, next.entries, SERVERS)
            && (Contains(root, SERVERS) ==>
                  next.entries[Find(root.entries, SERVERS)].key == root.entries[Find(root.entries, SERVERS)].key)
  {
    var base := WithServers(root);
    var item := Get(base.entries, SERVERS);
    if item.ValueItem? && item.value.Inline? {
      KeptByServers(root, ValueItem(item.value.(fields := UpsertIntoInline(item.value.fields, name, desired))));
    } else {
      KeptByServers(root, TableItem(UpsertIntoTable(EnsureTable(item).value, name, desired)));
    }
  }

  /** The sibling servers, in whichever form the servers are. */
  ghost predicate SiblingsKept(before: Item, after: Item, name: string) {
    match (before, after)
    case (TableItem(s), TableItem(s')) => s'.(entries := s.entries) == s && OthersKept(s.entries, s'.entries, name)
    case (ValueItem(Inline(s, layout, decor)), ValueItem(Inline(s', layout', decor'))) =>
      layout == layout' && decor == decor' && OthersKept(s, s', name)
    case _ => false
  }

  lemma {:induction false} TableSiblings(servers: Table, name: string, desired: Desired)
    ensures SiblingsKept(TableItem(servers), TableItem(UpsertIntoTable(servers, name, desired)), name)
  {
    KeptByPut(servers.entries, name, TableItem(DesiredTable(desired)));
  }

  lemma {:induction false} InlineSiblings(servers: Value, name: string, desired: Desired)
    requires servers.Inline?
    ensures SiblingsKept(
              ValueItem(servers), ValueItem(servers.(fields := UpsertIntoInline(servers.fields, name, desired))), name)
  {
    var s := servers.fields;
    KeptByPut(s, name, Inline(DesiredInline(desired), None, PLAIN));
    if Has(s, name) && Get(s, name).Inline? {
      KeptByPut(s, name, Get(s, name).(fields := Reconcile(Get(s, name).fields, DesiredInline(desired), MergeValue)));
    }
  }

  /** Every other server keeps its key, value, formatting and order. */
  lemma {:induction false} SiblingFrame(root: Table, name: string, desired: Desired)
    requires Upserted(root, name, desired).Ok? && Contains(root, SERVERS)
    requires Get(root.entries, SERVERS).TableItem? || InlineServers(root)
    ensures var next := Upserted(root, name, desired).value;
            && Contains(next, SERVERS)
            && SiblingsKept(Get(root.entries, SERVERS), Get(next.entries, SERVERS), name)
  {
    var item := Get(root.entries, SERVERS);
    if item.TableItem? {
      TableSiblings(item.table, name, desired);
      FindInserted(root.entries, SERVERS, TableItem(UpsertIntoTable(item.table, name, desired)));
    } else {
      InlineSiblings(item.value, name, desired);
      FindInserted(root.entries, SERVERS, ValueItem(item.value.(fields := UpsertIntoInline(item.value.fields, name, desired))));
    }
  }

  /** The keys of an edited entry come first, in their order; the ones not asked for are untouched. */
  ghost predicate UnmanagedKept<V>(a: Pairs<V>, b: Pairs<V>, desired: Desired) {
    && |a| <= |b|
    && (forall i :: 0 <= i < |a| ==> b[i].key == a[i].key && (b[i] == a[i] || Has(desired, a[i].key.name)))
  }

  /**
   Hand-added keys of the user's own entry survive. An entry in a form of its own is edited in that form;
   an inline entry in a table of servers becomes a table, where each value loses its trailing spacing and
   each key its own formatting.
   */
  lemma {:induction false} HandAddedKept(root: Table, name: string, desired: Desired)
    requires Managed(desired) && Upserted(root, name, desired).Ok? && UniqueEntry(EntryOf(root, name))
    ensures var before, after := EntryOf(root, name), EntryOf(Upserted(root, name, desired).value, name);
            match before
            case TableItem(t) => !InlineServers(root) && after.TableItem? && UnmanagedKept(t.entries, after.table.entries, desired)
            case ValueItem(Inline(fields, _, _)) =>
              if InlineServers(root)
              then after.ValueItem? && after.value.Inline? && UnmanagedKept(fields, after.value.fields, desired)
              else after.TableItem? && UnmanagedKept(TableFromInline(fields).entries, after.table.entries, desired)
            case TableArray(_) => after == before
            case _ => true
  {
    EntryAfterUpsert(root, name, desired);
    ItemsManaged(desired);
    InlineManaged(desired);
    var before := EntryOf(root, name);
    match before
    case TableItem(t) =>
      ReconcileClosed(t.entries, AsItems(desired), MergeItem);
      SameManagedNames(desired);
    case ValueItem(Inline(fields, _, _)) =>
      if InlineServers(root) {
        ReconcileClosed(fields, desired, MergeValue);
      } else {
        EnsuredKeys(before, TableFromInline(fields));
        ReconcileClosed(TableFromInline(fields).entries, AsItems(desired), MergeItem);
        SameManagedNames(desired);
      }
    case _ =>
  }

  lemma {:induction false} SameManagedNames(desired: Desired)
    ensures forall name :: Has(AsItems(desired), name) <==> Has(desired, name)
  {
    forall name {
      FindSameNames(AsItems(desired), desired, name);
    }
  }

  // ---- Removal ----

  lemma {:induction false} NameRemoved<V>(ps: Pairs<V>, name: string)
    requires UniqueNames(ps)
    ensures !Has(Remove(ps, name), name)
  {
    if ps != [] {
      if ps[0].key.name == name {
        FindNone(ps[1..], name);
      } else {
        NameRemoved(ps[1..], name);
        FindAppend([ps[0]], Remove(ps[1..], name), name);
      }
    }
  }

  lemma {:induction false} OtherRemoved<V>(ps: Pairs<V>, name: string, other: string)
    requires other != name
    ensures Has(Remove(ps, name), other) <==> Has(ps, other)
    ensures Has(ps, other) ==> Get(Remove(ps, name), other) == Get(ps, other)
  {
    if ps != [] && ps[0].key.name != name {
      OtherRemoved(ps[1..], name, other);
      HeadFirst(ps[0], Remove(ps[1..], name), other);
      HeadFirst(ps[0], ps[1..], other);
      assert ps == [ps[0]] + ps[1..];
    }
  }

  lemma {:induction false} HeadFirst<V>(head: Pair<V>, ps: Pairs<V>, name: string)
    ensures Has([head] + ps, name) <==> head.key.name == name || Has(ps, name)
    ensures Has([head] + ps, name) ==> Get([head] + ps, name) == if head.key.name == name then head.value else Get(ps, name)
  {
    FindAppend([head], ps, name);
  }

  /** The servers' own list has unique names. */
  ghost predicate UniqueServers(root: Table) {
    Contains(root, SERVERS) ==>
      match Get(root.entries, SERVERS)
      case TableItem(servers) => UniqueNames(servers.entries)
      case ValueItem(Inline(servers, _, _)) => UniqueNames(servers)
      case _ => true
  }

  /** The pairs under other names, in order. */
  function Others<V>(ps: Pairs<V>, name: string): Pairs<V> {
    if ps == [] then []
    else (if ps[0].key.name == name then [] else [ps[0]]) + Others(ps[1..], name)
  }

  lemma {:induction false} RemovedOthers<V>(ps: Pairs<V>, name: string)
    requires UniqueNames(ps)
    ensures Remove(ps, name) == Others(ps, name)
  {
    if ps != [] {
      if ps[0].key.name == name {
        FindNone(ps[1..], name);
        NoneToDrop(ps[1..], name);
      } else {
        RemovedOthers(ps[1..], name);
      }
    }
  }

  lemma {:induction false} NoneToDrop<V>(ps: Pairs<V>, name: string)
    requires forall i :: 0 <= i < |ps| ==> ps[i].key.name != name
    ensures Others(ps, name) == ps
  {
    if ps != [] {
      NoneToDrop(ps[1..], name);
    }
  }

  /** The servers are as before, formatting and order included, but for the one entry. */
  ghost predicate OnlyRemoved(before: Item, after: Item, name: string) {
    match before
    case TableItem(servers) => after == TableItem(servers.(entries := Others(servers.entries, name)))
    case ValueItem(Inline(servers, layout, decor)) => after == ValueItem(Inline(Others(servers, name), layout, decor))
    case _ => false
  }

  lemma {:induction false} TableEntryRemoved(root: Table, name: string, other: string)
    requires UniqueServers(root) && Existed(root, name) && Get(root.entries, SERVERS).TableItem?
    ensures !Existed(Removed(root, name), name) && Contains(Removed(root, name), SERVERS)
    ensures OnlyRemoved(Get(root.entries, SERVERS), Get(Removed(root, name).entries, SERVERS), name)
    ensures other != name ==> EntryOf(Removed(root, name), other) == EntryOf(root, other)
  {
    var servers := Get(root.entries, SERVERS).table;
    FindInserted(root.entries, SERVERS, TableItem(servers.(entries := Remove(servers.entries, name))));
    NameRemoved(servers.entries, name);
    RemovedOthers(servers.entries, name);
    if other != name {
      OtherRemoved(servers.entries, name, other);
    }
  }

  lemma {:induction false} InlineEntryRemoved(root: Table, name: string, other: string)
    requires UniqueServers(root) && Existed(root, name) && InlineServers(root)
    ensures !Existed(Removed(root, name), name) && Contains(Removed(root, name), SERVERS)
    ensures OnlyRemoved(Get(root.entries, SERVERS), Get(Removed(root, name).entries, SERVERS), name)
    ensures other != name ==> EntryOf(Removed(root, name), other) == EntryOf(root, other)
  {
    var servers := Get(root.entries, SERVERS).value;
    FindInserted(root.entries, SERVERS, ValueItem(servers.(fields := Remove(servers.fields, name))));
    NameRemoved(servers.fields, name);
    RemovedOthers(servers.fields, name);
    if other != name {
      OtherRemoved(servers.fields, name, other);
    }
  }

  /** Removal takes away that entry and leaves every other one, with its formatting and in its place. */
  lemma {:induction false} RemoveOnlyEntry(root: Table, name: string, other: string)
    requires UniqueServers(root)
    ensures !Existed(Removed(root, name), name)
    ensures other != name ==> EntryOf(Removed(root, name), other) == EntryOf(root, other)
    ensures Existed(root, name) ==>
              && Contains(Removed(root, name), SERVERS)
              && OnlyRemoved(Get(root.entries, SERVERS), Get(Removed(root, name).entries, SERVERS), name)
  {
    if Existed(root, name) {
      if InlineServers(root) {
        InlineEntryRemoved(root, name, other);
      } else {
        TableEntryRemoved(root, name, other);
      }
    }
  }

  /** Removal leaves every other root item; removing an absent entry is the identity. */
  lemma {:induction false} RemoveFrame(root: Table, name: string)
    ensures var next := Removed(root, name);
            && next.(entries := root.entries) == root
            && |next.entries| == |root.entries|
            && OthersKept(root.entries, next.entries, SERVERS)
    ensures !Existed(root, name) ==> Removed(root, name) == root
  {
  }

  /** Table-like servers without the key, not even as a placeholder. */
  predicate NoSuchKey(servers: Item, name: string) {
    match servers
    case TableItem(t) => !Has(t.entries, name)
    case ValueItem(Inline(fields, _, _)) => !Has(fields, name)
    case _ => false
  }

  lemma {:induction false} TableInsertUndone(root: Table, name: string, desired: Desired)
    requires Contains(root, SERVERS) && Get(root.entries, SERVERS).TableItem?
    requires !Has(Get(root.entries, SERVERS).table.entries, name)
    ensures Upserted(root, name, desired).Ok? && Removed(Upserted(root, name, desired).value, name) == root
  {
    var s := Get(root.entries, SERVERS).table;
    var p := Pair(NewKey(name), TableItem(DesiredTable(desired)));
    FindAppend(s.entries, [p], name);
    RemoveAppended(s.entries, p);
    PutBack(root, TableItem(s.(entries := s.entries + [p])));
  }

  lemma {:induction false} InlineInsertUndone(root: Table, name: string, desired: Desired)
    requires InlineServers(root) && !Has(Get(root.entries, SERVERS).value.fields, name)
    ensures Upserted(root, name, desired).Ok? && Removed(Upserted(root, name, desired).value, name) == root
  {
    var s := Get(root.entries, SERVERS).value;
    var p := Pair(NewKey(name), Inline(DesiredInline(desired), None, PLAIN));
    FindAppend(s.fields, [p], name);
    RemoveAppended(s.fields, p);
    PutBack(root, ValueItem(s.(fields := s.fields + [p])));
  }

  /** Removing the entry a fresh upsert added gives the document back. */
  lemma {:induction false} RemoveUndoesInsert(root: Table, name: string, desired: Desired)
    requires Contains(root, SERVERS) && NoSuchKey(Get(root.entries, SERVERS), name)
    ensures Upserted(root, name, desired).Ok? && Removed(Upserted(root, name, desired).value, name) == root
  {
    if InlineServers(root) {
      InlineInsertUndone(root, name, desired);
    } else {
      TableInsertUndone(root, name, desired);
    }
  }

  lemma {:induction false} PutBack(root: Table, servers: Item)
    requires Contains(root, SERVERS)
    ensures var next := root.(entries := Put(root.entries, SERVERS, servers));
            && Has(next.entries, SERVERS) && Get(next.entries, SERVERS) == servers
            && next.(entries := Put(next.entries, SERVERS, Get(root.entries, SERVERS))) == root
  {
    FindInserted(root.entries, SERVERS, servers);
    var i := Find(root.entries, SERVERS);
    assert root.entries[i := Pair(root.entries[i].key, servers)][i := root.entries[i]] == root.entries;
  }

  lemma {:induction false} RemoveAppended<V>(ps: Pairs<V>, p: Pair<V>)
    requires !Has(ps, p.key.name)
    ensures Remove(ps + [p], p.key.name) == ps
  {
    if ps != [] {
      RemoveAppended(ps[1..], p);
      assert (ps + [p])[1..] == ps[1..] + [p];
    }
  }
}
