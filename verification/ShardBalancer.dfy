/**
 Longest-processing-time-first assignment of weighted test files to shards
 (packages/server/scripts/server-test-manifest.ts).

 Loads are exact reals and the name order is a parameter. ShardBounds says how good the
 assignment is.
 */
module ShardBalancer {
  import opened Wrappers
  import opened Sorting

  datatype Category = Unit | Database | Filesystem | Git | Process | Contract

  /** What a timing file may hold under a name. */
  datatype Timing = Finite(value: real) | NonFinite | NotANumber

  type Timings = map<string, Timing>

  function DefaultWeight(category: Category): (w: real)
    ensures w > 0.0
  {
    match category
    case Unit => 1000.0
    case Database => 3000.0
    case Filesystem => 4000.0
    case Git => 8000.0
    case Process => 12000.0
    case Contract => 2000.0
  }

  predicate Usable(timings: Timings, name: string) {
    name in timings && timings[name].Finite? && timings[name].value > 0.0
  }

  /** The file's own timing, else the one under its path in the repository, else the category's default. */
  function TimingFor(file: string, category: Category, timings: Timings): (w: real)
    ensures w > 0.0
    ensures Usable(timings, file) ==> w == timings[file].value
    ensures !Usable(timings, file) && Usable(timings, "packages/server/" + file) ==> w == timings["packages/server/" + file].value
    ensures !Usable(timings, file) && !Usable(timings, "packages/server/" + file) ==> w == DefaultWeight(category)
  {
    if Usable(timings, file) then timings[file].value
    else if Usable(timings, "packages/server/" + file) then timings["packages/server/" + file].value
    else DefaultWeight(category)
  }

  type Weight = string -> real

  ghost predicate Positive(w: Weight) {
    forall f :: w(f) > 0.0
  }

  function WeightOf(category: Category, timings: Timings): (w: Weight)
    ensures Positive(w)
  {
    file => TimingFor(file, category, timings)
  }

  type NameOrder = (string, string) -> bool

  /** The comparator: heavier first, equal weights by name. */
  function HeavierFirst(w: Weight, nameLeq: NameOrder): NameOrder {
    (a, b) => w(a) > w(b) || (w(a) == w(b) && nameLeq(a, b))
  }

  datatype Shard = Shard(files: seq<string>, load: real)

  function EmptyShards(m: nat): (r: seq<Shard>)
  {
    seq(m, _ => Shard([], 0.0))
  }

  /** The lowest-indexed of the least loaded shards. */
  ghost predicate IsTarget(shards: seq<Shard>, k: nat) {
    && k < |shards|
    && (forall j :: 0 <= j < |shards| ==> shards[k].load <= shards[j].load)
    && (forall j :: 0 <= j < k ==> shards[k].load < shards[j].load)
  }

  function Target(shards: seq<Shard>): (k: nat)
    requires shards != []
    ensures IsTarget(shards, k)
  {
    if |shards| == 1 then 0
    else
      var k := Target(shards[..|shards| - 1]);
      if shards[|shards| - 1].load < shards[k].load then |shards| - 1 else k
  }

  function Place(w: Weight, shards: seq<Shard>, file: string): (r: seq<Shard>)
    requires shards != []
    ensures |r| == |shards|
  {
    var k := Target(shards);
    shards[k := Shard(shards[k].files + [file], shards[k].load + w(file))]
  }

  function PlaceAll(w: Weight, m: nat, order: seq<string>): (r: seq<Shard>)
    requires m > 0
    ensures |r| == m
  {
    if order == [] then EmptyShards(m)
    else Place(w, PlaceAll(w, m, order[..|order| - 1]), order[|order| - 1])
  }

  /** The order in which the files are placed. */
  function Schedule(w: Weight, nameLeq: NameOrder, files: seq<string>): seq<string> {
    SortBy(HeavierFirst(w, nameLeq), Dedup(files))
  }

  function Names(codeUnitLeq: NameOrder, shards: seq<Shard>): (r: seq<seq<string>>)
    ensures |r| == |shards|
  {
    seq(|shards|, j requires 0 <= j < |shards| => SortBy(codeUnitLeq, shards[j].files))
  }

  datatype ShardError = InvalidShardCount(count: int)

  /** What createBalancedShards returns, as a function of its arguments. */
  function BalancedShards(
    files: seq<string>, shardCount: int, category: Category, timings: Timings, nameLeq: NameOrder, codeUnitLeq: NameOrder)
    : (r: Result<seq<seq<string>>, ShardError>)
    ensures r.Ok? <==> shardCount >= 1
  {
    if shardCount < 1 then Err(InvalidShardCount(shardCount))
    else
      var w := WeightOf(category, timings);
      Ok(Names(codeUnitLeq, PlaceAll(w, shardCount, Schedule(w, nameLeq, files))))
  }

  /** The loop over an array of shards, each updated in place. */
  method CreateBalancedShards(
    files: seq<string>, shardCount: int, category: Category, timings: Timings, nameLeq: NameOrder, codeUnitLeq: NameOrder)
    returns (r: Result<seq<seq<string>>, ShardError>)
    ensures r == BalancedShards(files, shardCount, category, timings, nameLeq, codeUnitLeq)
  {
    if shardCount < 1 {
      return Err(InvalidShardCount(shardCount));
    }
    var w := WeightOf(category, timings);
    var ordered := Schedule(w, nameLeq, files);
    if |files| == 0 {
      r := Ok(seq(shardCount, _ => []));
      NoFilesNoNames(codeUnitLeq, shardCount);
      return;
    }
    var shards := new Shard[shardCount](_ => Shard([], 0.0));
    assert shards[..] == EmptyShards(shardCount);
    PlaceInTurn(w, shards, ordered);
    r := Ok(Names(codeUnitLeq, shards[..]));
  }

  /** The assignment loop: each file goes to the least loaded shard of the array, in place. */
  method PlaceInTurn(w: Weight, shards: array<Shard>, ordered: seq<string>)
    requires shards.Length > 0 && shards[..] == EmptyShards(shards.Length)
    modifies shards
    ensures shards[..] == PlaceAll(w, shards.Length, ordered)
  {
    for i := 0 to |ordered|
      invariant shards[..] == PlaceAll(w, shards.Length, ordered[..i])
    {
      PlaceAllStep(w, shards.Length, ordered, i);
      var best := LeastLoaded(shards);
      TargetUnique(shards[..], best, Target(shards[..]));
      shards[best] := Shard(shards[best].files + [ordered[i]], shards[best].load + w(ordered[i]));
    }
    assert ordered[..|ordered|] == ordered;
  }

  lemma {:induction false} NoFilesNoNames(codeUnitLeq: NameOrder, m: nat)
    ensures Names(codeUnitLeq, EmptyShards(m)) == seq(m, _ => [])
  {
    assert SortBy(codeUnitLeq, []) == [];
  }

  /** The reduce over the shards: smaller load wins, ties go to the smaller index. */
  method LeastLoaded(shards: array<Shard>) returns (best: nat)
    requires shards.Length > 0
    ensures IsTarget(shards[..], best)
  {
    best := 0;
    for index := 0 to shards.Length
      invariant best < shards.Length
      invariant forall j :: 0 <= j < index ==> shards[best].load <= shards[j].load
      invariant forall j :: 0 <= j < best ==> shards[best].load < shards[j].load
    {
      if shards[index].load < shards[best].load
         || (shards[index].load == shards[best].load && index < best) {
        best := index;
      }
    }
  }

  lemma {:induction false} PlaceAllStep(w: Weight, m: nat, order: seq<string>, i: nat)
    requires m > 0 && i < |order|
    ensures PlaceAll(w, m, order[..i + 1]) == Place(w, PlaceAll(w, m, order[..i]), order[i])
  {
    assert order[..i + 1][..i] == order[..i];
  }

  lemma {:induction false} TargetUnique(shards: seq<Shard>, j: nat, k: nat)
    requires IsTarget(shards, j) && IsTarget(shards, k)
    ensures j == k
  {
    assert shards[j].load <= shards[k].load && shards[k].load <= shards[j].load;
  }

  // ---- Conservation ----

  function Sum(u: Weight, s: seq<string>): real {
    if s == [] then 0.0 else Sum(u, s[..|s| - 1]) + u(s[|s| - 1])
  }

  lemma {:induction false} SumAppend(u: Weight, a: seq<string>, b: seq<string>)
    ensures Sum(u, a + b) == Sum(u, a) + Sum(u, b)
  {
    if b == [] {
      assert a + b == a;
    } else {
      assert (a + b)[..|a + b| - 1] == a + b[..|b| - 1];
      SumAppend(u, a, b[..|b| - 1]);
    }
  }

  /** The sum of u over all files of all shards. */
  function Total(u: Weight, shards: seq<Shard>): real {
    if shards == [] then 0.0 else Total(u, shards[..|shards| - 1]) + Sum(u, shards[|shards| - 1].files)
  }

  lemma {:induction false} TotalUpdate(u: Weight, shards: seq<Shard>, k: nat, s: Shard)
    requires k < |shards|
    ensures Total(u, shards[k := s]) == Total(u, shards) - Sum(u, shards[k].files) + Sum(u, s.files)
  {
    var n := |shards| - 1;
    if k == n {
      assert shards[k := s][..n] == shards[..n];
    } else {
      assert shards[k := s][..n] == shards[..n][k := s];
      TotalUpdate(u, shards[..n], k, s);
    }
  }

  lemma {:induction false} TotalEmpty(u: Weight, m: nat)
    ensures Total(u, EmptyShards(m)) == 0.0
  {
    if m > 0 {
      assert EmptyShards(m)[..m - 1] == EmptyShards(m - 1);
      TotalEmpty(u, m - 1);
    }
  }

  lemma {:induction false} PlaceAddsOne(w: Weight, shards: seq<Shard>, file: string, u: Weight)
    requires shards != []
    ensures Total(u, Place(w, shards, file)) == Total(u, shards) + u(file)
  {
    var k := Target(shards);
    TotalUpdate(u, shards, k, Shard(shards[k].files + [file], shards[k].load + w(file)));
  }

  /** Whatever is summed over the files, the shards together hold exactly the schedule. */
  lemma {:induction false} Conservation(w: Weight, m: nat, order: seq<string>, u: Weight)
    requires m > 0
    ensures Total(u, PlaceAll(w, m, order)) == Sum(u, order)
  {
    if order == [] {
      TotalEmpty(u, m);
    } else {
      var front, last := order[..|order| - 1], order[|order| - 1];
      Conservation(w, m, front, u);
      PlaceAddsOne(w, PlaceAll(w, m, front), last, u);
    }
  }

  /** Every shard's recorded load is the weight of its files. */
  lemma {:induction false} LoadsAreSums(w: Weight, m: nat, order: seq<string>, j: nat)
    requires m > 0 && j < m
    ensures PlaceAll(w, m, order)[j].load == Sum(w, PlaceAll(w, m, order)[j].files)
  {
    if order != [] {
      var n := |order| - 1;
      var shards := PlaceAll(w, m, order[..n]);
      LoadsAreSums(w, m, order[..n], j);
      var k := Target(shards);
      assert PlaceAll(w, m, order) == Place(w, shards, order[n]);
      if j == k {
        SumAppend(w, shards[j].files, [order[n]]);
        assert Sum(w, [order[n]]) == w(order[n]);
      }
    }
  }

  lemma {:induction false} SumPermutation(u: Weight, a: seq<string>, b: seq<string>)
    requires multiset(a) == multiset(b)
    ensures Sum(u, a) == Sum(u, b)
  {
    assert |a| == |multiset(a)| == |multiset(b)| == |b|;
    if a != [] {
      var n := |a| - 1;
      assert a == a[..n] + [a[n]];
      assert a[n] in multiset(b);
      var i :| 0 <= i < |b| && b[i] == a[n];
      SumWithout(u, b, i);
      Without(b, i);
      assert multiset(a[..n]) == multiset(a) - multiset{a[n]};
      SumPermutation(u, a[..n], b[..i] + b[i + 1..]);
    }
  }

  lemma {:induction false} SumWithout(u: Weight, s: seq<string>, i: nat)
    requires i < |s|
    ensures Sum(u, s) == Sum(u, s[..i] + s[i + 1..]) + u(s[i])
  {
    assert s == s[..i] + [s[i]] + s[i + 1..];
    SumAppend(u, s[..i] + [s[i]], s[i + 1..]);
    SumAppend(u, s[..i], s[i + 1..]);
  }

  lemma {:induction false} Without(s: seq<string>, i: nat)
    requires i < |s|
    ensures multiset(s[..i] + s[i + 1..]) == multiset(s) - multiset{s[i]}
  {
    assert s == s[..i] + [s[i]] + s[i + 1..];
  }

  // ---- Every file exactly once ----

  function Flatten(lists: seq<seq<string>>): seq<string> {
    if lists == [] then [] else Flatten(lists[..|lists| - 1]) + lists[|lists| - 1]
  }

  function Occurrence(f: string): Weight {
    g => if g == f then 1.0 else 0.0
  }

  lemma {:induction false} SumCounts(f: string, s: seq<string>)
    ensures Sum(Occurrence(f), s) == multiset(s)[f] as real
  {
    if s != [] {
      SumCounts(f, s[..|s| - 1]);
      assert s == s[..|s| - 1] + [s[|s| - 1]];
    }
  }

  lemma {:induction false} FlattenTotal(u: Weight, shards: seq<Shard>, codeUnitLeq: NameOrder)
    ensures Sum(u, Flatten(Names(codeUnitLeq, shards))) == Total(u, shards)
  {
    if shards != [] {
      var n := |shards| - 1;
      FlattenTotal(u, shards[..n], codeUnitLeq);
      var names := Names(codeUnitLeq, shards);
      assert names[..n] == Names(codeUnitLeq, shards[..n]);
      SumAppend(u, Flatten(names[..n]), names[n]);
      SumPermutation(u, names[n], shards[n].files);
    }
  }

  /** The returned shards together are a permutation of the distinct input files. */
  lemma {:induction false} ShardsPartitionFiles(
    files: seq<string>, m: nat, category: Category, timings: Timings, nameLeq: NameOrder, codeUnitLeq: NameOrder)
    requires m > 0
    ensures multiset(Flatten(BalancedShards(files, m, category, timings, nameLeq, codeUnitLeq).value))
            == multiset(Dedup(files))
  {
    var w := WeightOf(category, timings);
    var order := Schedule(w, nameLeq, files);
    var flat := Flatten(Names(codeUnitLeq, PlaceAll(w, m, order)));
    forall f ensures multiset(flat)[f] == multiset(order)[f] {
      SumCounts(f, flat);
      SumCounts(f, order);
      FlattenTotal(Occurrence(f), PlaceAll(w, m, order), codeUnitLeq);
      Conservation(w, m, order, Occurrence(f));
    }
  }

  lemma {:induction false} HeavierFirstOrders(w: Weight, nameLeq: NameOrder)
    ensures TotalPreorder(nameLeq) ==> TotalPreorder(HeavierFirst(w, nameLeq))
    ensures TotalOrder(nameLeq) ==> TotalOrder(HeavierFirst(w, nameLeq))
  {
  }

  /** Input order and repetitions do not matter: the shards are a function of the set of files. */
  lemma {:induction false} ShardsDependOnSet(
    a: seq<string>, b: seq<string>, shardCount: int, category: Category, timings: Timings,
    nameLeq: NameOrder, codeUnitLeq: NameOrder)
    requires TotalOrder(nameLeq)
    requires forall f :: f in a <==> f in b
    ensures BalancedShards(a, shardCount, category, timings, nameLeq, codeUnitLeq)
            == BalancedShards(b, shardCount, category, timings, nameLeq, codeUnitLeq)
  {
    var w := WeightOf(category, timings);
    var leq := HeavierFirst(w, nameLeq);
    HeavierFirstOrders(w, nameLeq);
    DistinctPermutation(Dedup(a), Dedup(b));
    SortBySorted(leq, Dedup(a));
    SortBySorted(leq, Dedup(b));
    SortedUnique(leq, Schedule(w, nameLeq, a), Schedule(w, nameLeq, b));
  }

  // ---- The order of scheduling and of the answer ----

  /** Heavier files come first, files of equal weight by name. */
  lemma {:induction false} ScheduleOrder(w: Weight, nameLeq: NameOrder, files: seq<string>, i: nat, j: nat)
    requires TotalPreorder(nameLeq) && i < j < |Schedule(w, nameLeq, files)|
    ensures var s := Schedule(w, nameLeq, files);
            w(s[i]) > w(s[j]) || (w(s[i]) == w(s[j]) && nameLeq(s[i], s[j]))
  {
    HeavierFirstOrders(w, nameLeq);
    SortBySorted(HeavierFirst(w, nameLeq), Dedup(files));
  }

  lemma {:induction false} NamesSorted(codeUnitLeq: NameOrder, shards: seq<Shard>, j: nat)
    requires TotalPreorder(codeUnitLeq) && j < |shards|
    ensures Sorted(codeUnitLeq, Names(codeUnitLeq, shards)[j])
    ensures multiset(Names(codeUnitLeq, shards)[j]) == multiset(shards[j].files)
  {
    SortBySorted(codeUnitLeq, shards[j].files);
  }

  /** Every returned shard holds the files placed there, sorted. */
  lemma {:induction false} ShardsSorted(
    files: seq<string>, m: nat, category: Category, timings: Timings, nameLeq: NameOrder, codeUnitLeq: NameOrder, j: nat)
    requires TotalPreorder(codeUnitLeq) && j < m
    ensures var w := WeightOf(category, timings);
            var placed := PlaceAll(w, m, Schedule(w, nameLeq, files));
            var r := BalancedShards(files, m, category, timings, nameLeq, codeUnitLeq);
            && r.Ok? && |r.value| == m
            && Sorted(codeUnitLeq, r.value[j]) && multiset(r.value[j]) == multiset(placed[j].files)
  {
    var w := WeightOf(category, timings);
    NamesSorted(codeUnitLeq, PlaceAll(w, m, Schedule(w, nameLeq, files)), j);
  }
}
