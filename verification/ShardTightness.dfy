/**
 Graham's bound cannot be improved: for every number of shards there are files whose schedule meets
 it with equality. The weights are 2m-1, 2m-1, 2m-2, 2m-2, ..., m+1, m+1, m, m, m.
 */
module ShardTightness {
  import opened Sorting
  import opened ShardBalancer
  import opened ShardBounds

  /** The weight of the k-th file. */
  function Weigh(m: nat, k: nat): nat {
    if k < 2 * m - 2 then 2 * m - 1 - k / 2 else m
  }

  // ---- The schedule ----

  /** The file that joins file i on its shard. */
  function Partner(m: nat, i: nat): nat
    requires i < m
  {
    if i % 2 == 1 then 2 * m - i
    else if i == m - 1 then m
    else 2 * m - 2 - i
  }

  lemma {:induction false} PartnerHalf(m: nat, i: nat)
    requires i < m
    ensures m <= Partner(m, i) < 2 * m && Partner(m, i) / 2 + i / 2 == m - 1
  {
  }

  /** The load of shard i after k files. */
  function LoadAfter(m: nat, k: nat, i: nat): nat
    requires i < m
  {
    if k <= i then 0 else if k <= Partner(m, i) then Weigh(m, i) else 3 * m - 1
  }

  /** The shard that takes file k. */
  function Taker(m: nat, k: nat): nat
    requires 0 < m && k < 2 * m
  {
    if k < m then k
    else if k % 2 == 0 then 2 * (m - 1 - k / 2)
    else if k == m then m - 1
    else 2 * (m - 1 - k / 2) + 1
  }

  lemma {:induction false} TakerIsPartner(m: nat, k: nat)
    requires 0 < m && m <= k < 2 * m
    ensures Taker(m, k) < m && Partner(m, Taker(m, k)) == k
  {
  }

  lemma {:induction false} PartnerUnique(m: nat, i: nat, j: nat)
    requires i < m && j < m && Partner(m, i) == Partner(m, j)
    ensures i == j
  {
    PartnerHalf(m, i);
    PartnerHalf(m, j);
  }

  /** Nothing is lighter than the taker, and nothing before it as light. */
  lemma {:induction false} TakerIsLeast(m: nat, k: nat, j: nat)
    requires 0 < m && k < 2 * m && j < m && Taker(m, k) < m
    ensures LoadAfter(m, k, Taker(m, k)) <= LoadAfter(m, k, j)
    ensures j < Taker(m, k) ==> LoadAfter(m, k, Taker(m, k)) < LoadAfter(m, k, j)
  {
    if m <= k {
      TakerIsPartner(m, k);
      PartnerHalf(m, Taker(m, k));
      PartnerHalf(m, j);
    }
  }

  lemma {:induction false} LoadNext(m: nat, k: nat, j: nat)
    requires 0 < m && k < 2 * m && j < m && Taker(m, k) < m
    ensures LoadAfter(m, k + 1, j) == LoadAfter(m, k, j) + if j == Taker(m, k) then Weigh(m, k) else 0
  {
    PartnerHalf(m, j);
    if m <= k {
      TakerIsPartner(m, k);
      if Partner(m, j) == k {
        PartnerUnique(m, j, Taker(m, k));
      }
    }
  }

  /** The order holds the weights of the instance, heaviest first. */
  ghost predicate IsInstance(w: Weight, m: nat, order: seq<string>) {
    |order| == 2 * m + 1 && forall k :: 0 <= k < |order| ==> w(order[k]) == Weigh(m, k) as real
  }

  ghost predicate HasLoads(shards: seq<Shard>, m: nat, k: nat) {
    |shards| == m && forall i :: 0 <= i < m ==> shards[i].load == LoadAfter(m, k, i) as real
  }

  lemma {:induction false} TakerIsTarget(shards: seq<Shard>, m: nat, k: nat)
    requires 0 < m && k < 2 * m && HasLoads(shards, m, k) && Taker(m, k) < m
    ensures Target(shards) == Taker(m, k)
  {
    forall j | 0 <= j < m
      ensures shards[Taker(m, k)].load <= shards[j].load && (j < Taker(m, k) ==> shards[Taker(m, k)].load < shards[j].load)
    {
      TakerIsLeast(m, k, j);
    }
    TargetUnique(shards, Target(shards), Taker(m, k));
  }

  lemma {:induction false} PlaceOne(w: Weight, shards: seq<Shard>, file: string, m: nat, k: nat)
    requires 0 < m && k < 2 * m && HasLoads(shards, m, k) && w(file) == Weigh(m, k) as real
    ensures HasLoads(Place(w, shards, file), m, k + 1)
  {
    if m <= k {
      TakerIsPartner(m, k);
    }
    TakerIsTarget(shards, m, k);
    forall i | 0 <= i < m ensures Place(w, shards, file)[i].load == LoadAfter(m, k + 1, i) as real {
      LoadNext(m, k, i);
    }
  }

  lemma {:induction false} LoadsAfter(w: Weight, m: nat, order: seq<string>, k: nat)
    requires 0 < m && IsInstance(w, m, order) && k <= 2 * m
    ensures HasLoads(PlaceAll(w, m, order[..k]), m, k)
  {
    if k > 0 {
      LoadsAfter(w, m, order, k - 1);
      PlaceAllStep(w, m, order, k - 1);
      PlaceOne(w, PlaceAll(w, m, order[..k - 1]), order[k - 1], m, k - 1);
    } else {
      assert order[..0] == [];
    }
  }

  /** All shards are level when the last file comes, so it makes the first one stand out. */
  lemma {:induction false} FullestShard(w: Weight, m: nat, order: seq<string>)
    requires 0 < m && IsInstance(w, m, order)
    ensures PlaceAll(w, m, order)[0].load == (4 * m - 1) as real
  {
    var shards := PlaceAll(w, m, order[..2 * m]);
    LoadsAfter(w, m, order, 2 * m);
    PlaceAllStep(w, m, order, 2 * m);
    assert order[..2 * m + 1] == order;
    forall i | 0 <= i < m ensures shards[i].load == (3 * m - 1) as real {
      PartnerHalf(m, i);
    }
    TargetUnique(shards, Target(shards), 0);
  }

  // ---- A better assignment ----

  /** Weights that add up to 3m share a shard, and so do the last three files. */
  function Machine(m: nat, k: nat): nat
    requires 0 < m
  {
    if k >= 2 * m - 2 then m - 1 else if k <= m - 2 then k else 2 * m - 3 - k
  }

  /** What the first n files put on shard j. */
  function Assigned(m: nat, n: nat, j: nat): nat
    requires j < m
  {
    if j == m - 1 then if n <= 2 * m - 2 then 0 else if n == 2 * m - 1 then m else if n == 2 * m then 2 * m else 3 * m
    else (if j < n then Weigh(m, j) else 0) + (if 2 * m - 3 - j < n then Weigh(m, 2 * m - 3 - j) else 0)
  }

  lemma {:induction false} AssignedNext(m: nat, n: nat, j: nat)
    requires j < m && n <= 2 * m
    ensures Assigned(m, n + 1, j) == Assigned(m, n, j) + if Machine(m, n) == j then Weigh(m, n) else 0
  {
  }

  lemma {:induction false} AssignedAll(m: nat, j: nat)
    requires j < m
    ensures Assigned(m, 2 * m + 1, j) == 3 * m
  {
    if j < m - 1 {
      assert j / 2 + (2 * m - 3 - j) / 2 == m - 2;
    }
  }

  // ---- The instance ----

  /** The name of file k is k letters long. */
  function Name(k: nat): (f: string)
    ensures |f| == k
  {
    seq(k, _ => 'a')
  }

  function Files(m: nat): (r: seq<string>)
    ensures |r| == 2 * m + 1 && forall k :: 0 <= k < |r| ==> r[k] == Name(k)
  {
    seq(2 * m + 1, k requires 0 <= k => Name(k))
  }

  function Recorded(m: nat): Timings {
    map f | f in Files(m) :: Finite(Weigh(m, |f|) as real)
  }

  function Assign(m: nat): Assignment
    requires 0 < m
  {
    (f: string) => Machine(m, |f|)
  }

  lemma {:induction false} InstanceWeights(m: nat, category: Category)
    requires 0 < m
    ensures IsInstance(WeightOf(category, Recorded(m)), m, Files(m))
  {
    forall k | 0 <= k < 2 * m + 1 ensures WeightOf(category, Recorded(m))(Files(m)[k]) == Weigh(m, k) as real {
      assert Files(m)[k] in Recorded(m) && Weigh(m, k) > 0;
    }
  }

  lemma {:induction false} DistinctFiles(m: nat)
    ensures Distinct(Files(m)) && Dedup(Files(m)) == Files(m)
  {
    DedupDistinct(Files(m));
  }

  lemma {:induction false} DedupDistinct(s: seq<string>)
    requires Distinct(s)
    ensures Dedup(s) == s
  {
    if s != [] {
      DedupDistinct(s[..|s| - 1]);
      assert s == s[..|s| - 1] + [s[|s| - 1]];
    }
  }

  lemma {:induction false} LoadUnderNext(u: Weight, assign: Assignment, s: seq<string>, n: nat, j: nat)
    requires n < |s|
    ensures LoadUnder(u, assign, s[..n + 1], j) == LoadUnder(u, assign, s[..n], j) + if assign(s[n]) == j then u(s[n]) else 0.0
  {
    assert s[..n + 1][..n] == s[..n];
  }

  lemma {:induction false} LoadsAssigned(w: Weight, m: nat, n: nat, j: nat)
    requires j < m && n <= 2 * m + 1 && IsInstance(w, m, Files(m))
    ensures LoadUnder(w, Assign(m), Files(m)[..n], j) == Assigned(m, n, j) as real
  {
    if n > 0 {
      LoadsAssigned(w, m, n - 1, j);
      AssignedNext(m, n - 1, j);
      LoadUnderNext(w, Assign(m), Files(m), n - 1, j);
    } else {
      assert Files(m)[..0] == [];
    }
  }

  lemma {:induction false} LevelAssignment(w: Weight, m: nat)
    requires 0 < m && IsInstance(w, m, Files(m))
    ensures Makespan(w, Assign(m), Files(m), m) == (3 * m) as real
  {
    forall j | 0 <= j < m ensures LoadUnder(w, Assign(m), Files(m), j) == (3 * m) as real {
      LoadsAssigned(w, m, 2 * m + 1, j);
      AssignedAll(m, j);
      assert Files(m)[..2 * m + 1] == Files(m);
    }
  }

  // ---- The order of the schedule ----

  function Weights(w: Weight, s: seq<string>): (r: seq<real>)
    ensures |r| == |s| && forall i :: 0 <= i < |r| ==> r[i] == w(s[i])
  {
    seq(|s|, i requires 0 <= i < |s| => w(s[i]))
  }

  function Heavier(): (real, real) -> bool {
    (a: real, b: real) => a >= b
  }

  function Weighing(w: Weight, x: real): Weight {
    f => if w(f) == x then 1.0 else 0.0
  }

  lemma {:induction false} WeightsCounted(w: Weight, s: seq<string>, x: real)
    ensures Sum(Weighing(w, x), s) == multiset(Weights(w, s))[x] as real
  {
    if s != [] {
      var n := |s| - 1;
      WeightsCounted(w, s[..n], x);
      assert Weights(w, s) == Weights(w, s[..n]) + [w(s[n])];
    }
  }

  /** Rearrangements that are both heaviest first have the same weight in every place. */
  lemma {:induction false} SameWeights(w: Weight, a: seq<string>, b: seq<string>)
    requires multiset(a) == multiset(b) && NonIncreasing(w, a) && NonIncreasing(w, b)
    ensures Weights(w, a) == Weights(w, b)
  {
    forall x ensures multiset(Weights(w, a))[x] == multiset(Weights(w, b))[x] {
      WeightsCounted(w, a, x);
      WeightsCounted(w, b, x);
      SumPermutation(Weighing(w, x), a, b);
    }
    SortedUnique(Heavier(), Weights(w, a), Weights(w, b));
  }

  lemma {:induction false} InstanceNonIncreasing(w: Weight, m: nat, order: seq<string>)
    requires IsInstance(w, m, order)
    ensures NonIncreasing(w, order)
  {
  }

  /** However the names are ordered, the schedule has the weights of the instance in order. */
  lemma {:induction false} ScheduleIsInstance(w: Weight, m: nat, nameLeq: NameOrder)
    requires IsInstance(w, m, Files(m)) && TotalPreorder(nameLeq)
    ensures IsInstance(w, m, Schedule(w, nameLeq, Files(m)))
  {
    var order := Schedule(w, nameLeq, Files(m));
    DistinctFiles(m);
    ScheduleNonIncreasing(w, nameLeq, Files(m));
    InstanceNonIncreasing(w, m, Files(m));
    SameWeights(w, order, Files(m));
    forall k | 0 <= k < |order| ensures w(order[k]) == Weigh(m, k) as real {
      assert Weights(w, order)[k] == Weights(w, Files(m))[k];
    }
  }

  lemma {:induction false} FirstReturned(w: Weight, m: nat, nameLeq: NameOrder, codeUnitLeq: NameOrder)
    requires 0 < m && TotalPreorder(nameLeq) && IsInstance(w, m, Files(m))
    ensures Sum(w, Names(codeUnitLeq, PlaceAll(w, m, Schedule(w, nameLeq, Files(m))))[0]) == (4 * m - 1) as real
  {
    var order := Schedule(w, nameLeq, Files(m));
    ScheduleIsInstance(w, m, nameLeq);
    FullestShard(w, m, order);
    NamesKeepLoads(w, m, order, codeUnitLeq, 0);
  }

  lemma {:induction false} AssignFits(m: nat)
    requires 0 < m
    ensures Fits(Assign(m), m, Files(m))
  {
  }

  /** For every m: the fullest returned shard is exactly (4m-1)/(3m) times the makespan of another assignment. */
  lemma {:induction false} FourThirdsIsTight(m: nat, category: Category, nameLeq: NameOrder, codeUnitLeq: NameOrder)
    requires 0 < m && TotalPreorder(nameLeq)
    ensures Sum(
              WeightOf(category, Recorded(m)),
              BalancedShards(Files(m), m, category, Recorded(m), nameLeq, codeUnitLeq).value[0]) == (4 * m - 1) as real
    ensures Fits(Assign(m), m, Files(m))
    ensures Makespan(WeightOf(category, Recorded(m)), Assign(m), Dedup(Files(m)), m) == (3 * m) as real
  {
    InstanceWeights(m, category);
    FirstReturned(WeightOf(category, Recorded(m)), m, nameLeq, codeUnitLeq);
    AssignFits(m);
    DistinctFiles(m);
    LevelAssignment(WeightOf(category, Recorded(m)), m);
  }
}
