/**
 The insertion-ordered key-value lists behind TOML tables and inline tables, with the formatting
 of every key, and the key-by-key reconciliation of one list with another.
 */
module OrderedPairs {
  import opened Wrappers

  /** White space and comments around a node; never looked into. */
  datatype Decor = Decor(prefix: Option<string>, suffix: Option<string>)

  const PLAIN: Decor := Decor(None, None)

  /** A key with its spelling in the file (if parsed) and its formatting. */
  datatype Key = Key(name: string, spelling: Option<string>, leaf: Decor, dotted: Decor)

  function NewKey(name: string): Key {
    Key(name, None, PLAIN, PLAIN)
  }

  datatype Pair<+V> = Pair(key: Key, value: V)

  type Pairs<V> = seq<Pair<V>>

  /** The position of a name, or the length when it is absent. */
  function Find<V>(ps: Pairs<V>, name: string): (i: nat)
    ensures i <= |ps|
    ensures i < |ps| ==> ps[i].key.name == name
    ensures forall j :: 0 <= j < i ==> ps[j].key.name != name
  {
    if ps == [] || ps[0].key.name == name then 0 else 1 + Find(ps[1..], name)
  }

  predicate Has<V>(ps: Pairs<V>, name: string) {
    Find(ps, name) < |ps|
  }

  function Get<V>(ps: Pairs<V>, name: string): V
    requires Has(ps, name)
  {
    ps[Find(ps, name)].value
  }

  /** Assign through the key: an existing key keeps its place and formatting. */
  function Put<V>(ps: Pairs<V>, name: string, value: V): Pairs<V> {
    var i := Find(ps, name);
    if i < |ps| then ps[i := Pair(ps[i].key, value)] else ps + [Pair(NewKey(name), value)]
  }

  /** The library's insert: like Put, but an existing key loses its formatting. */
  function Insert<V>(ps: Pairs<V>, name: string, value: V): Pairs<V> {
    var i := Find(ps, name);
    if i < |ps| then ps[i := Pair(NewKey(name), value)] else ps + [Pair(NewKey(name), value)]
  }

  function Remove<V>(ps: Pairs<V>, name: string): Pairs<V> {
    if ps == [] then []
    else if ps[0].key.name == name then ps[1..]
    else [ps[0]] + Remove(ps[1..], name)
  }

  /** What the library's hash map guarantees of every list. */
  ghost predicate UniqueNames<V>(ps: Pairs<V>) {
    forall i, j :: 0 <= i < j < |ps| ==> ps[i].key.name != ps[j].key.name
  }

  lemma {:induction false} FindAt<V>(ps: Pairs<V>, i: nat)
    requires UniqueNames(ps) && i < |ps|
    ensures Find(ps, ps[i].key.name) == i
  {
  }

  lemma {:induction false} FindNone<V>(ps: Pairs<V>, name: string)
    requires forall i :: 0 <= i < |ps| ==> ps[i].key.name != name
    ensures Find(ps, name) == |ps|
  {
  }

  // ---- Reconciliation ----

  /** What reconciling one more pair does. */
  function Step<V>(ps: Pairs<V>, last: Pair<V>, merge: (V, V) -> V): Pairs<V> {
    var name := last.key.name;
    Put(ps, name, if Has(ps, name) then merge(Get(ps, name), last.value) else last.value)
  }

  /** Assign the wanted pairs one after the other, merging into the values already there. */
  function Reconcile<V>(ps: Pairs<V>, wanted: Pairs<V>, merge: (V, V) -> V): Pairs<V> {
    if wanted == [] then ps
    else Step(Reconcile(ps, wanted[..|wanted| - 1], merge), wanted[|wanted| - 1], merge)
  }

  function Merged<V>(p: Pair<V>, wanted: Pairs<V>, merge: (V, V) -> V): Pair<V> {
    if Has(wanted, p.key.name) then Pair(p.key, merge(p.value, Get(wanted, p.key.name))) else p
  }

  /** The pairs already there, each merged with the pair of its name. */
  function Updated<V>(ps: Pairs<V>, wanted: Pairs<V>, merge: (V, V) -> V): (r: Pairs<V>)
    ensures |r| == |ps|
    ensures forall i :: 0 <= i < |ps| ==> r[i] == Merged(ps[i], wanted, merge)
  {
    seq(|ps|, i requires 0 <= i < |ps| => Merged(ps[i], wanted, merge))
  }

  /** The wanted pairs that are not there yet, in order. */
  function Missing<V>(ps: Pairs<V>, wanted: Pairs<V>): (r: Pairs<V>)
    ensures forall i :: 0 <= i < |r| ==> !Has(ps, r[i].key.name) && r[i] in wanted
    ensures forall p :: p in wanted && !Has(ps, p.key.name) ==> p in r
  {
    if wanted == [] then []
    else
      var n := |wanted| - 1;
      assert wanted == wanted[..n] + [wanted[n]];
      if Has(ps, wanted[n].key.name) then Missing(ps, wanted[..n]) else Missing(ps, wanted[..n]) + [wanted[n]]
  }

  ghost predicate NewKeys<V>(ps: Pairs<V>) {
    forall i :: 0 <= i < |ps| ==> ps[i].key == NewKey(ps[i].key.name)
  }

  lemma {:induction false} UniqueFront<V>(ps: Pairs<V>)
    requires UniqueNames(ps) && ps != []
    ensures UniqueNames(ps[..|ps| - 1])
    ensures !Has(ps[..|ps| - 1], ps[|ps| - 1].key.name)
  {
    var front, last := ps[..|ps| - 1], ps[|ps| - 1];
    forall i | 0 <= i < |front| ensures front[i].key.name != last.key.name {
      assert front[i] == ps[i];
    }
    FindNone(front, last.key.name);
  }

  lemma {:induction false} FindAppend<V>(a: Pairs<V>, b: Pairs<V>, name: string)
    ensures Find(a + b, name) == if Has(a, name) then Find(a, name) else |a| + Find(b, name)
  {
    if a == [] {
      assert a + b == b;
    } else if a[0].key.name != name {
      FindAppend(a[1..], b, name);
      assert (a + b)[1..] == a[1..] + b;
    }
  }

  lemma {:induction false} FindUpdated<V>(ps: Pairs<V>, wanted: Pairs<V>, merge: (V, V) -> V, name: string)
    ensures Find(Updated(ps, wanted, merge), name) == Find(ps, name)
  {
    var r := Updated(ps, wanted, merge);
    if ps != [] {
      assert r[1..] == Updated(ps[1..], wanted, merge);
      FindUpdated(ps[1..], wanted, merge, name);
    }
  }

  lemma {:induction false} MissingOnly<V>(ps: Pairs<V>, wanted: Pairs<V>, name: string)
    requires !Has(wanted, name) || Has(ps, name)
    ensures !Has(Missing(ps, wanted), name)
  {
    var m := Missing(ps, wanted);
    forall i | 0 <= i < |m| ensures m[i].key.name != name {
      PresentHas(wanted, m[i]);
    }
    FindNone(m, name);
  }

  lemma {:induction false} PresentHas<V>(ps: Pairs<V>, p: Pair<V>)
    requires p in ps
    ensures Has(ps, p.key.name)
  {
    var i :| 0 <= i < |ps| && ps[i] == p;
  }

  /** One more wanted pair changes only the pair of its name. */
  lemma {:induction false} UpdatedStep<V>(ps: Pairs<V>, wanted: Pairs<V>, last: Pair<V>, merge: (V, V) -> V)
    requires UniqueNames(ps) && !Has(wanted, last.key.name)
    ensures var i := Find(ps, last.key.name);
            Updated(ps, wanted + [last], merge)
            == if i < |ps| then Updated(ps, wanted, merge)[i := Pair(ps[i].key, merge(ps[i].value, last.value))]
               else Updated(ps, wanted, merge)
  {
    var k := Find(ps, last.key.name);
    forall i | 0 <= i < |ps|
      ensures i != k ==> Merged(ps[i], wanted + [last], merge) == Merged(ps[i], wanted, merge)
      ensures i == k ==> Merged(ps[i], wanted + [last], merge) == Pair(ps[i].key, merge(ps[i].value, last.value))
    {
      FindAppend(wanted, [last], ps[i].key.name);
    }
  }

  lemma {:induction false} StepPresent<V>(ps: Pairs<V>, updated: Pairs<V>, missing: Pairs<V>, last: Pair<V>, merge: (V, V) -> V)
    requires Find(updated, last.key.name) == Find(ps, last.key.name) < |ps| == |updated|
    requires updated[Find(ps, last.key.name)] == ps[Find(ps, last.key.name)]
    ensures var i := Find(ps, last.key.name);
            Step(updated + missing, last, merge)
            == updated[i := Pair(ps[i].key, merge(ps[i].value, last.value))] + missing
  {
    FindAppend(updated, missing, last.key.name);
  }

  lemma {:induction false} StepAbsent<V>(updated: Pairs<V>, missing: Pairs<V>, last: Pair<V>, merge: (V, V) -> V)
    requires !Has(updated, last.key.name) && !Has(missing, last.key.name) && last.key == NewKey(last.key.name)
    ensures Step(updated + missing, last, merge) == updated + (missing + [last])
  {
    FindAppend(updated, missing, last.key.name);
  }

  /** Reconciliation in closed form: update what is there, then append what is missing. */
  lemma {:induction false} ReconcileClosed<V>(ps: Pairs<V>, wanted: Pairs<V>, merge: (V, V) -> V)
    requires UniqueNames(ps) && UniqueNames(wanted) && NewKeys(wanted)
    ensures Reconcile(ps, wanted, merge) == Updated(ps, wanted, merge) + Missing(ps, wanted)
  {
    if wanted == [] {
      assert Updated(ps, wanted, merge) == ps;
    } else {
      var front, last := wanted[..|wanted| - 1], wanted[|wanted| - 1];
      UniqueFront(wanted);
      ReconcileClosed(ps, front, merge);
      assert wanted == front + [last];
      UpdatedStep(ps, front, last, merge);
      FindUpdated(ps, front, merge, last.key.name);
      MissingOnly(ps, front, last.key.name);
      if Has(ps, last.key.name) {
        StepPresent(ps, Updated(ps, front, merge), Missing(ps, front), last, merge);
      } else {
        StepAbsent(Updated(ps, front, merge), Missing(ps, front), last, merge);
      }
    }
  }

  lemma {:induction false} MissingShape<V>(ps: Pairs<V>, wanted: Pairs<V>)
    requires UniqueNames(wanted) && NewKeys(wanted)
    ensures UniqueNames(Missing(ps, wanted)) && NewKeys(Missing(ps, wanted))
  {
    if wanted != [] {
      var front, last := wanted[..|wanted| - 1], wanted[|wanted| - 1];
      UniqueFront(wanted);
      MissingShape(ps, front);
      var m := Missing(ps, front);
      forall i | 0 <= i < |m| ensures m[i].key.name != last.key.name {
        PresentHas(front, m[i]);
      }
    }
  }

  /** Reconciliation keeps the names unique. */
  lemma {:induction false} ReconcileUnique<V>(ps: Pairs<V>, wanted: Pairs<V>, merge: (V, V) -> V)
    requires UniqueNames(ps) && UniqueNames(wanted) && NewKeys(wanted)
    ensures UniqueNames(Reconcile(ps, wanted, merge))
  {
    ReconcileClosed(ps, wanted, merge);
    MissingShape(ps, wanted);
    var u, m := Updated(ps, wanted, merge), Missing(ps, wanted);
    forall i, j | 0 <= i < |u| && 0 <= j < |m| ensures u[i].key.name != m[j].key.name {
      assert u[i].key == ps[i].key;
      PresentHas(ps, ps[i]);
    }
  }

  /** Every wanted name ends up with its merged value. */
  lemma {:induction false} ReconcileGet<V>(ps: Pairs<V>, wanted: Pairs<V>, merge: (V, V) -> V, name: string)
    requires UniqueNames(ps) && UniqueNames(wanted) && NewKeys(wanted)
    ensures var r := Reconcile(ps, wanted, merge);
            && (Has(r, name) <==> Has(ps, name) || Has(wanted, name))
            && (Has(ps, name) && Has(wanted, name) ==> Get(r, name) == merge(Get(ps, name), Get(wanted, name)))
            && (!Has(ps, name) && Has(wanted, name) ==> Get(r, name) == Get(wanted, name))
            && (Has(ps, name) && !Has(wanted, name) ==> Get(r, name) == Get(ps, name))
  {
    ReconcileClosed(ps, wanted, merge);
    var u, m := Updated(ps, wanted, merge), Missing(ps, wanted);
    FindUpdated(ps, wanted, merge, name);
    FindAppend(u, m, name);
    if !Has(ps, name) {
      if Has(wanted, name) {
        PresentHas(m, wanted[Find(wanted, name)]);
        var p := m[Find(m, name)];
        assert p in wanted;
      } else {
        MissingOnly(ps, wanted, name);
      }
    }
  }

  // ---- Absorption ----

  /** Merging twice is merging the last value; merging into a wanted value gives the new one. */
  ghost predicate Absorbing<V(!new)>(merge: (V, V) -> V, wanted: V -> bool) {
    && (forall v, w :: wanted(v) && wanted(w) ==> merge(v, w) == w)
    && (forall e, v, w {:trigger merge(merge(e, v), w)} ::
          wanted(v) && wanted(w) ==> merge(merge(e, v), w) == merge(e, w))
  }

  ghost predicate AllWanted<V>(ps: Pairs<V>, wanted: V -> bool) {
    forall i :: 0 <= i < |ps| ==> wanted(ps[i].value)
  }

  function Names<V>(ps: Pairs<V>): seq<string> {
    seq(|ps|, i requires 0 <= i < |ps| => ps[i].key.name)
  }

  ghost predicate SameNames<V>(a: Pairs<V>, b: Pairs<V>) {
    forall name :: Has(a, name) <==> Has(b, name)
  }

  /** The wanted list of a reconciliation: unique fresh keys, values the merge absorbs. */
  ghost predicate WantedList<V>(wanted: Pairs<V>, ok: V -> bool) {
    UniqueNames(wanted) && NewKeys(wanted) && AllWanted(wanted, ok)
  }

  lemma {:induction false} UpdatedAppend<V>(a: Pairs<V>, b: Pairs<V>, wanted: Pairs<V>, merge: (V, V) -> V)
    ensures Updated(a + b, wanted, merge) == Updated(a, wanted, merge) + Updated(b, wanted, merge)
  {
  }

  lemma {:induction false} UpdatedTwice<V(!new)>(ps: Pairs<V>, w2: Pairs<V>, w1: Pairs<V>, merge: (V, V) -> V, ok: V -> bool)
    requires Absorbing(merge, ok) && WantedList(w2, ok) && WantedList(w1, ok) && SameNames(w2, w1)
    ensures Updated(Updated(ps, w2, merge), w1, merge) == Updated(ps, w1, merge)
  {
    var u := Updated(ps, w2, merge);
    forall i | 0 <= i < |ps| ensures Merged(u[i], w1, merge) == Merged(ps[i], w1, merge) {
      var name := ps[i].key.name;
      if Has(w1, name) {
        assert ok(Get(w2, name)) && ok(Get(w1, name));
      }
    }
  }

  /** What the first run appended, the second overwrites in place. */
  lemma {:induction false} UpdatedMissing<V(!new)>(ps: Pairs<V>, w2: Pairs<V>, w1: Pairs<V>, merge: (V, V) -> V, ok: V -> bool)
    requires Absorbing(merge, ok) && WantedList(w2, ok) && WantedList(w1, ok) && SameNames(w2, w1)
    ensures Updated(Missing(ps, w2), w1, merge) == Missing(ps, w1)
            <==> Names(Missing(ps, w2)) == Names(Missing(ps, w1))
  {
    var m2, m1 := Missing(ps, w2), Missing(ps, w1);
    var u := Updated(m2, w1, merge);
    forall i | 0 <= i < |m2| ensures u[i] == Pair(m2[i].key, Get(w1, m2[i].key.name)) {
      PresentHas(w2, m2[i]);
      assert ok(Get(w2, m2[i].key.name)) && ok(Get(w1, m2[i].key.name));
    }
    forall i | 0 <= i < |m1| ensures m1[i] == Pair(NewKey(m1[i].key.name), Get(w1, m1[i].key.name)) {
      MissingShape(ps, w1);
    }
    MissingShape(ps, w2);
    assert Names(u) == Names(m2);
    if Names(m2) == Names(m1) {
      assert |m1| == |Names(m1)| == |m2|;
      forall i | 0 <= i < |m2| ensures u[i] == m1[i] {
        assert Names(m2)[i] == Names(m1)[i];
      }
    }
  }

  /**
   Last write wins: reconciling with w2 and then w1 is reconciling with w1 alone, exactly when both
   would append the names that are missing in the same order.
   */
  lemma {:induction false} LastWriteWins<V(!new)>(ps: Pairs<V>, w2: Pairs<V>, w1: Pairs<V>, merge: (V, V) -> V, ok: V -> bool)
    requires UniqueNames(ps) && Absorbing(merge, ok)
    requires WantedList(w2, ok) && WantedList(w1, ok) && SameNames(w2, w1)
    ensures Reconcile(Reconcile(ps, w2, merge), w1, merge) == Reconcile(ps, w1, merge)
            <==> Names(Missing(ps, w2)) == Names(Missing(ps, w1))
  {
    var r2 := Reconcile(ps, w2, merge);
    var u2, m2 := Updated(ps, w2, merge), Missing(ps, w2);
    ReconcileClosed(ps, w2, merge);
    ReconcileClosed(ps, w1, merge);
    ReconcileUnique(ps, w2, merge);
    ReconcileClosed(r2, w1, merge);
    assert Missing(r2, w1) == [] by {
      forall name | Has(w1, name) ensures Has(r2, name) {
        ReconcileGet(ps, w2, merge, name);
      }
      NothingMissing(r2, w1);
    }
    UpdatedAppend(u2, m2, w1, merge);
    UpdatedTwice(ps, w2, w1, merge, ok);
    UpdatedMissing(ps, w2, w1, merge, ok);
    SamePrefix(Updated(ps, w1, merge), Updated(m2, w1, merge), Missing(ps, w1));
  }

  lemma {:induction false} NothingMissing<V>(ps: Pairs<V>, wanted: Pairs<V>)
    requires forall name :: Has(wanted, name) ==> Has(ps, name)
    ensures Missing(ps, wanted) == []
  {
    var m := Missing(ps, wanted);
    if m != [] {
      assert m[0] in wanted && !Has(ps, m[0].key.name);
      PresentHas(wanted, m[0]);
      assert false;
    }
  }

  lemma {:induction false} SamePrefix<T>(u: seq<T>, a: seq<T>, b: seq<T>)
    ensures u + a + [] == u + b <==> a == b
  {
    if u + a + [] == u + b {
      assert (u + a + [])[|u|..] == a && (u + b)[|u|..] == b;
    }
  }

  /** Reconciling twice with the same list changes nothing more. */
  lemma {:induction false} ReconcileIdempotent<V(!new)>(ps: Pairs<V>, wanted: Pairs<V>, merge: (V, V) -> V, ok: V -> bool)
    requires UniqueNames(ps) && Absorbing(merge, ok) && WantedList(wanted, ok)
    ensures Reconcile(Reconcile(ps, wanted, merge), wanted, merge) == Reconcile(ps, wanted, merge)
  {
    LastWriteWins(ps, wanted, wanted, merge, ok);
  }
}
