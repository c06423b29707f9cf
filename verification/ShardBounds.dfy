/**
 How good the schedule is: Graham's bound for longest-first scheduling against every other
 assignment, its tightness, and what holds after every placement in any order.
 */
module ShardBounds {
  import opened Sorting
  import opened ShardBalancer

  // ---- Competing assignments ----

  /** Any other way of giving each file a shard number. */
  type Assignment = string -> nat

  ghost predicate Fits(assign: Assignment, m: nat, s: seq<string>) {
    forall f :: f in s ==> assign(f) < m
  }

  function LoadUnder(u: Weight, assign: Assignment, s: seq<string>, j: nat): real {
    if s == [] then 0.0
    else LoadUnder(u, assign, s[..|s| - 1], j) + if assign(s[|s| - 1]) == j then u(s[|s| - 1]) else 0.0
  }

  function TotalUnder(u: Weight, assign: Assignment, s: seq<string>, m: nat): real {
    if m == 0 then 0.0 else TotalUnder(u, assign, s, m - 1) + LoadUnder(u, assign, s, m - 1)
  }

  lemma {:induction false} TotalUnderStep(u: Weight, assign: Assignment, s: seq<string>, m: nat)
    requires s != []
    ensures var n := |s| - 1;
            TotalUnder(u, assign, s, m)
            == TotalUnder(u, assign, s[..n], m) + if assign(s[n]) < m then u(s[n]) else 0.0
  {
    if m > 0 {
      TotalUnderStep(u, assign, s, m - 1);
    }
  }

  lemma {:induction false} ConservationUnder(u: Weight, assign: Assignment, s: seq<string>, m: nat)
    requires Fits(assign, m, s)
    ensures TotalUnder(u, assign, s, m) == Sum(u, s)
  {
    if s == [] {
      TotalUnderEmpty(u, assign, m);
    } else {
      TotalUnderStep(u, assign, s, m);
      ConservationUnder(u, assign, s[..|s| - 1], m);
    }
  }

  lemma {:induction false} TotalUnderEmpty(u: Weight, assign: Assignment, m: nat)
    ensures TotalUnder(u, assign, [], m) == 0.0
  {
    if m > 0 {
      TotalUnderEmpty(u, assign, m - 1);
    }
  }

  /** m * x, by repeated addition. */
  function Times(m: nat, x: real): real {
    if m == 0 then 0.0 else Times(m - 1, x) + x
  }

  lemma {:induction false} TimesIsProduct(m: nat, x: real)
    ensures Times(m, x) == m as real * x
  {
    if m > 0 {
      TimesIsProduct(m - 1, x);
      assert (m - 1) as real * x + x == m as real * x;
    }
  }

  lemma {:induction false} TotalUnderAtMost(u: Weight, assign: Assignment, s: seq<string>, m: nat, bound: real)
    requires forall j :: 0 <= j < m ==> LoadUnder(u, assign, s, j) <= bound
    ensures TotalUnder(u, assign, s, m) <= Times(m, bound)
  {
    if m > 0 {
      TotalUnderAtMost(u, assign, s, m - 1, bound);
    }
  }

  lemma {:induction false} TotalAtLeast(u: Weight, shards: seq<Shard>, bound: real)
    requires forall j :: 0 <= j < |shards| ==> Sum(u, shards[j].files) >= bound
    ensures Total(u, shards) >= Times(|shards|, bound)
  {
    if shards != [] {
      TotalAtLeast(u, shards[..|shards| - 1], bound);
    }
  }

  /** The fullest shard's load under an assignment. */
  function Makespan(w: Weight, assign: Assignment, s: seq<string>, m: nat): (r: real)
    requires m > 0
    ensures forall j :: 0 <= j < m ==> LoadUnder(w, assign, s, j) <= r
    ensures exists j :: 0 <= j < m && LoadUnder(w, assign, s, j) == r
  {
    if m == 1 then LoadUnder(w, assign, s, 0)
    else
      var r := Makespan(w, assign, s, m - 1);
      if LoadUnder(w, assign, s, m - 1) > r then LoadUnder(w, assign, s, m - 1) else r
  }

  // ---- Graham's bound ----

  /**
   The value of a file relative to the last one: 2 when the two do not fit below opt together,
   otherwise 1. Counting values on both sides replaces any reasoning about pairings.
   */
  function Value(w: Weight, last: string, opt: real): Weight {
    f => if w(f) + w(last) > opt then 2.0 else 1.0
  }

  /** Below opt there is room for value 2 at most, when three files never fit. */
  lemma {:induction false} OptimalValueAtMostTwo(
    w: Weight, assign: Assignment, s: seq<string>, j: nat, last: string, opt: real)
    requires forall f :: f in s ==> w(f) >= w(last)
    requires w(last) > 0.0 && 3.0 * w(last) > opt
    ensures LoadUnder(Value(w, last, opt), assign, s, j) >= 0.0 && LoadUnder(w, assign, s, j) >= 0.0
    ensures var v := LoadUnder(Value(w, last, opt), assign, s, j);
            var load := LoadUnder(w, assign, s, j);
            && (v >= 1.0 ==> load >= w(last))
            && (v >= 2.0 ==> load > opt - w(last))
            && (v > 2.0 ==> load > opt)
            && (v > 0.0 ==> v >= 1.0) && (v > 1.0 ==> v >= 2.0)
  {
    if s != [] {
      OptimalValueAtMostTwo(w, assign, s[..|s| - 1], j, last, opt);
    }
  }

  /** A shard the last file overfills already has value 2. */
  lemma {:induction false} OverfullValueAtLeastTwo(w: Weight, files: seq<string>, last: string, opt: real)
    requires 0.0 <= w(last) <= opt
    requires Sum(w, files) + w(last) > opt
    ensures Sum(Value(w, last, opt), files) >= 2.0
  {
    var v := Value(w, last, opt);
    ValueNonNegative(v, files);
    if |files| == 1 {
      assert Sum(w, files) == Sum(w, files[..0]) + w(files[0]) == w(files[0]);
      assert Sum(v, files) == Sum(v, files[..0]) + v(files[0]);
    } else if |files| > 1 {
      var n := |files| - 1;
      ValueNonNegative(v, files[..n]);
      ValueNonNegative(v, files[..n][..n - 1]);
    }
  }

  lemma {:induction false} ValueNonNegative(v: Weight, files: seq<string>)
    requires forall f :: v(f) >= 1.0
    ensures Sum(v, files) >= |files| as real
  {
    if files != [] {
      ValueNonNegative(v, files[..|files| - 1]);
    }
  }

  /** When three files never fit below opt, the last one placed stays below it. */
  lemma {:induction false} BigLastFileFits(
    w: Weight, m: nat, front: seq<string>, last: string, assign: Assignment, opt: real)
    requires m > 0 && Fits(assign, m, front + [last])
    requires forall f :: f in front ==> w(f) >= w(last)
    requires 3.0 * w(last) > opt && 0.0 < w(last) <= opt
    requires forall j :: 0 <= j < m ==> LoadUnder(w, assign, front + [last], j) <= opt
    ensures var shards := PlaceAll(w, m, front);
            shards[Target(shards)].load + w(last) <= opt
  {
    var shards := PlaceAll(w, m, front);
    var k := Target(shards);
    if shards[k].load + w(last) > opt {
      var v := Value(w, last, opt);
      forall j | 0 <= j < m ensures LoadUnder(v, assign, front + [last], j) <= 2.0 {
        OptimalValueAtMostTwo(w, assign, front + [last], j, last, opt);
      }
      TotalUnderAtMost(v, assign, front + [last], m, 2.0);
      ConservationUnder(v, assign, front + [last], m);
      forall j | 0 <= j < |shards| ensures Sum(v, shards[j].files) >= 2.0 {
        LoadsAreSums(w, m, front, j);
        assert shards[k].load <= shards[j].load;
        OverfullValueAtLeastTwo(w, shards[j].files, last, opt);
      }
      TotalAtLeast(v, shards, 2.0);
      Conservation(w, m, front, v);
      assert false;
    }
  }

  /** The averaging step: the least loaded shard is below the mean of the other files. */
  lemma {:induction false} LastFileAveraged(
    w: Weight, m: nat, front: seq<string>, last: string, assign: Assignment, opt: real, shards: seq<Shard>, load: real)
    requires m > 0 && Fits(assign, m, front + [last])
    requires forall j :: 0 <= j < m ==> LoadUnder(w, assign, front + [last], j) <= opt
    requires shards == PlaceAll(w, m, front) && load == shards[Target(shards)].load
    ensures Times(m, load) <= Times(m, opt) - w(last)
  {
    forall j | 0 <= j < |shards| ensures Sum(w, shards[j].files) >= load {
      LoadsAreSums(w, m, front, j);
    }
    TotalAtLeast(w, shards, load);
    Conservation(w, m, front, w);
    TotalUnderAtMost(w, assign, front + [last], m, opt);
    ConservationUnder(w, assign, front + [last], m);
  }

  lemma {:induction false} SmallLastFile(
    w: Weight, m: nat, front: seq<string>, last: string, assign: Assignment, opt: real, shards: seq<Shard>, load: real)
    requires m > 0 && Fits(assign, m, front + [last]) && 3.0 * w(last) <= opt
    requires forall j :: 0 <= j < m ==> LoadUnder(w, assign, front + [last], j) <= opt
    requires shards == PlaceAll(w, m, front) && load == shards[Target(shards)].load
    ensures AtMostFourThirds(m as real, load + w(last), opt)
  {
    LastFileAveraged(w, m, front, last, assign, opt, shards, load);
    AverageWithinFourThirds(m, load, w(last), opt);
  }

  lemma {:induction false} BigLastFile(
    w: Weight, m: nat, front: seq<string>, last: string, assign: Assignment, opt: real, shards: seq<Shard>, load: real)
    requires m > 0 && Positive(w) && Fits(assign, m, front + [last]) && 3.0 * w(last) > opt
    requires forall f :: f in front ==> w(f) >= w(last)
    requires forall j :: 0 <= j < m ==> LoadUnder(w, assign, front + [last], j) <= opt
    requires shards == PlaceAll(w, m, front) && load == shards[Target(shards)].load
    ensures AtMostFourThirds(m as real, load + w(last), opt)
  {
    OwnShardHolds(w, assign, front, last);
    BigLastFileFits(w, m, front, last, assign, opt);
    FitsWithinFourThirds(m as real, load + w(last), opt);
  }

  lemma {:induction false} OwnShardHolds(w: Weight, assign: Assignment, front: seq<string>, last: string)
    requires Positive(w)
    ensures LoadUnder(w, assign, front + [last], assign(last)) >= w(last)
    ensures last in front + [last]
  {
    assert (front + [last])[..|front|] == front;
    LoadNonNegative(w, assign, front, assign(last));
  }

  /** load <= (4/3 - 1/(3m)) * opt, without the divisions. */
  ghost predicate AtMostFourThirds(m: real, load: real, opt: real) {
    3.0 * m * load <= (4.0 * m - 1.0) * opt
  }

  lemma {:induction false} FitsWithinFourThirds(m: real, load: real, opt: real)
    requires m >= 1.0 && opt >= 0.0 && load <= opt
    ensures AtMostFourThirds(m, load, opt)
  {
    assert m * (opt - load) == m * opt - m * load;
    assert (m - 1.0) * opt == m * opt - opt;
    assert 3.0 * m * load == 3.0 * (m * load);
    assert (4.0 * m - 1.0) * opt == 4.0 * (m * opt) - opt;
  }

  lemma {:induction false} AverageWithinFourThirds(m: nat, load: real, last: real, opt: real)
    requires m > 0 && Times(m, load) <= Times(m, opt) - last && 3.0 * last <= opt
    ensures AtMostFourThirds(m as real, load + last, opt)
  {
    TimesIsProduct(m, load);
    TimesIsProduct(m, opt);
    AverageStep(m as real, load, last, opt);
  }

  lemma {:induction false} AverageStep(n: real, load: real, last: real, opt: real)
    requires n >= 1.0 && n * load <= n * opt - last && 3.0 * last <= opt
    ensures AtMostFourThirds(n, load + last, opt)
  {
    assert (n - 1.0) * (opt - 3.0 * last) == n * opt - 3.0 * (n * last) - opt + 3.0 * last;
    assert 3.0 * n * (load + last) == 3.0 * (n * load) + 3.0 * (n * last);
    assert (4.0 * n - 1.0) * opt == 4.0 * (n * opt) - opt;
  }

  lemma {:induction false} LoadNonNegative(w: Weight, assign: Assignment, s: seq<string>, j: nat)
    requires Positive(w)
    ensures LoadUnder(w, assign, s, j) >= 0.0
  {
    if s != [] {
      LoadNonNegative(w, assign, s[..|s| - 1], j);
    }
  }

  ghost predicate NonIncreasing(w: Weight, order: seq<string>) {
    forall i, j :: 0 <= i < j < |order| ==> w(order[i]) >= w(order[j])
  }

  /** Every shard, after every placement, against every assignment that stays below opt. */
  lemma {:induction false} GreedyBound(
    w: Weight, m: nat, order: seq<string>, assign: Assignment, opt: real, j: nat)
    requires m > 0 && j < m && Positive(w) && NonIncreasing(w, order) && Fits(assign, m, order)
    requires forall i :: 0 <= i < m ==> LoadUnder(w, assign, order, i) <= opt
    ensures AtMostFourThirds(m as real, PlaceAll(w, m, order)[j].load, opt)
  {
    if order == [] {
      assert LoadUnder(w, assign, order, 0) <= opt;
      FitsWithinFourThirds(m as real, 0.0, opt);
    } else {
      var n := |order| - 1;
      var front, last := order[..n], order[n];
      var shards := PlaceAll(w, m, front);
      assert order == front + [last];
      assert PlaceAll(w, m, order) == Place(w, shards, last);
      if j == Target(shards) {
        if 3.0 * w(last) > opt {
          BigLastFile(w, m, front, last, assign, opt, shards, shards[j].load);
        } else {
          SmallLastFile(w, m, front, last, assign, opt, shards, shards[j].load);
        }
      } else {
        forall i | 0 <= i < m ensures LoadUnder(w, assign, front, i) <= opt {
          assert LoadUnder(w, assign, order, i) <= opt;
        }
        GreedyBound(w, m, front, assign, opt, j);
      }
    }
  }

  // ---- The bound for the whole operation ----

  /** The weight a file contributes to shard j. */
  function Share(u: Weight, assign: Assignment, j: nat): Weight {
    f => if assign(f) == j then u(f) else 0.0
  }

  lemma {:induction false} LoadIsShareSum(u: Weight, assign: Assignment, s: seq<string>, j: nat)
    ensures LoadUnder(u, assign, s, j) == Sum(Share(u, assign, j), s)
  {
    if s != [] {
      LoadIsShareSum(u, assign, s[..|s| - 1], j);
    }
  }

  lemma {:induction false} ScheduleNonIncreasing(w: Weight, nameLeq: NameOrder, files: seq<string>)
    requires TotalPreorder(nameLeq)
    ensures NonIncreasing(w, Schedule(w, nameLeq, files))
    ensures multiset(Schedule(w, nameLeq, files)) == multiset(Dedup(files))
    ensures forall f :: f in Schedule(w, nameLeq, files) <==> f in files
  {
    var leq := HeavierFirst(w, nameLeq);
    var order := Schedule(w, nameLeq, files);
    HeavierFirstOrders(w, nameLeq);
    SortBySorted(leq, Dedup(files));
    forall i, j | 0 <= i < j < |order| ensures w(order[i]) >= w(order[j]) {
      assert leq(order[i], order[j]);
    }
    forall f ensures f in order <==> f in files {
      assert f in order <==> f in multiset(order);
    }
  }

  /** The load of a returned list of names. */
  lemma {:induction false} NamesKeepLoads(w: Weight, m: nat, order: seq<string>, codeUnitLeq: NameOrder, k: nat)
    requires m > 0 && k < m
    ensures Sum(w, Names(codeUnitLeq, PlaceAll(w, m, order))[k]) == PlaceAll(w, m, order)[k].load
  {
    var shards := PlaceAll(w, m, order);
    LoadsAreSums(w, m, order, k);
    SumPermutation(w, SortBy(codeUnitLeq, shards[k].files), shards[k].files);
  }

  /**
   Graham's bound: against every assignment of the same files to the same number of shards,
   3m * (fullest returned shard) <= (4m - 1) * (fullest shard of that assignment).
   */
  lemma {:induction false} LptWithinFourThirds(
    files: seq<string>, m: nat, category: Category, timings: Timings, nameLeq: NameOrder, codeUnitLeq: NameOrder,
    assign: Assignment, k: nat)
    requires m > 0 && k < m && TotalPreorder(nameLeq) && Fits(assign, m, files)
    ensures var w := WeightOf(category, timings);
            AtMostFourThirds(
              m as real,
              Sum(w, BalancedShards(files, m, category, timings, nameLeq, codeUnitLeq).value[k]),
              Makespan(w, assign, Dedup(files), m))
  {
    var w := WeightOf(category, timings);
    var order := Schedule(w, nameLeq, files);
    var opt := Makespan(w, assign, Dedup(files), m);
    ScheduleNonIncreasing(w, nameLeq, files);
    forall j | 0 <= j < m ensures LoadUnder(w, assign, order, j) <= opt {
      LoadIsShareSum(w, assign, order, j);
      LoadIsShareSum(w, assign, Dedup(files), j);
      SumPermutation(Share(w, assign, j), order, Dedup(files));
      assert LoadUnder(w, assign, Dedup(files), j) <= opt;
    }
    GreedyBound(w, m, order, assign, opt, k);
    NamesKeepLoads(w, m, order, codeUnitLeq, k);
  }

  // ---- List scheduling ----

  /** Without its last file no shard is above any other. */
  ghost predicate Balanced(w: Weight, shards: seq<Shard>) {
    forall i, j :: 0 <= i < |shards| && 0 <= j < |shards| ==>
      shards[j].load <= shards[i].load + LastWeight(w, shards[j])
  }

  function LastWeight(w: Weight, shard: Shard): real {
    if shard.files == [] then 0.0 else w(shard.files[|shard.files| - 1])
  }

  /** The invariant holds after every placement, whatever order the files come in. */
  lemma {:induction false} AlwaysBalanced(w: Weight, m: nat, order: seq<string>)
    requires m > 0 && Positive(w)
    ensures Balanced(w, PlaceAll(w, m, order))
  {
    if order != [] {
      var n := |order| - 1;
      var shards := PlaceAll(w, m, order[..n]);
      AlwaysBalanced(w, m, order[..n]);
      var k := Target(shards);
      var next := Place(w, shards, order[n]);
      forall i, j | 0 <= i < m && 0 <= j < m
        ensures next[j].load <= next[i].load + LastWeight(w, next[j])
      {
        assert shards[k].load <= shards[i].load <= next[i].load;
        assert shards[j].load <= shards[i].load + LastWeight(w, shards[j]);
      }
    }
  }

  /** m times any shard's load is at most the total plus m - 1 times that shard's last file. */
  lemma {:induction false} LoadAgainstTotal(w: Weight, m: nat, order: seq<string>, j: nat)
    requires m > 0 && j < m && Positive(w)
    ensures var shard := PlaceAll(w, m, order)[j];
            Times(m, shard.load) <= Sum(w, order) + Times(m - 1, LastWeight(w, shard))
  {
    var shards := PlaceAll(w, m, order);
    var load, last := shards[j].load, LastWeight(w, shards[j]);
    AlwaysBalanced(w, m, order);
    Conservation(w, m, order, w);
    forall i | 0 <= i < m
      ensures Sum(w, shards[i].files) == shards[i].load && load <= shards[i].load + last
    {
      LoadsAreSums(w, m, order, i);
    }
    RestAtLeast(w, shards, j, load - last);
    TimesMinus(m, load, last);
  }

  /** When every shard is at least bound even without shard j's last file, so is the average of the rest. */
  lemma {:induction false} RestAtLeast(w: Weight, shards: seq<Shard>, j: nat, bound: real)
    requires j < |shards|
    requires forall i :: 0 <= i < |shards| ==> Sum(w, shards[i].files) >= bound
    requires Sum(w, shards[j].files) - LastWeight(w, shards[j]) >= bound
    ensures Total(w, shards) - LastWeight(w, shards[j]) >= Times(|shards|, bound)
  {
    var f := shards[j].files;
    var others := if f == [] then shards else shards[j := Shard(f[..|f| - 1], 0.0)];
    if f != [] {
      TotalUpdate(w, shards, j, Shard(f[..|f| - 1], 0.0));
    }
    TotalAtLeast(w, others, bound);
  }

  lemma {:induction false} TimesMinus(m: nat, x: real, y: real)
    ensures Times(m, x - y) == Times(m, x) - Times(m, y)
  {
    if m > 0 {
      TimesMinus(m - 1, x, y);
    }
  }

  /** No two shards differ by more than the heaviest file. */
  lemma {:induction false} SpreadAtMostHeaviest(w: Weight, m: nat, order: seq<string>, heaviest: real, i: nat, j: nat)
    requires m > 0 && i < m && j < m && Positive(w) && heaviest >= 0.0
    requires forall f :: f in order ==> w(f) <= heaviest
    ensures PlaceAll(w, m, order)[j].load - PlaceAll(w, m, order)[i].load <= heaviest
  {
    AlwaysBalanced(w, m, order);
    FilesComeFromOrder(w, m, order, j);
    var shard := PlaceAll(w, m, order)[j];
    if shard.files != [] {
      assert shard.files[|shard.files| - 1] in order;
    }
  }

  lemma {:induction false} FilesComeFromOrder(w: Weight, m: nat, order: seq<string>, j: nat)
    requires m > 0 && j < m
    ensures forall f :: f in PlaceAll(w, m, order)[j].files ==> f in order
  {
    if order != [] {
      var n := |order| - 1;
      FilesComeFromOrder(w, m, order[..n], j);
      assert order == order[..n] + [order[n]];
    }
  }
}
