/**
 The sharded test runner (packages/server/scripts/run-server-test-task.ts). The spawned test command
 is a parameter; what is proved is that the shards together execute every discovered file exactly once.
 */
module TestRunner {
  import opened Wrappers
  import opened Sorting
  import opened Text
  import opened ShardBalancer
  import opened TestManifest

  datatype ShardSpec = ShardSpec(index: nat, count: nat)

  datatype Failure = BadShardSyntax(value: string) | BadShard(value: string)

  /** `--shard=INDEX/COUNT`; absent or empty means an unsharded run. */
  function ParseShard(value: Option<string>): (r: Result<Option<ShardSpec>, Failure>)
    ensures r.Ok? && r.value.Some? ==> 1 <= r.value.value.index <= r.value.value.count
  {
    if value == None || value.value == "" then Ok(None)
    else
      var s := value.value;
      var k := DigitRun(s);
      if k == 0 || k == |s| || s[k] != '/' then Err(BadShardSyntax(s))
      else
        var rest := s[k + 1..];
        var n := DigitRun(rest);
        if n == 0 || n != |rest| then Err(BadShardSyntax(s))
        else
          assert rest[..n] == rest;
          var index, count := DigitsValue(s[..k]), DigitsValue(rest);
          if index < 1 || count < 1 || index > count then Err(BadShard(s))
          else Ok(Some(ShardSpec(index, count)))
  }

  /** Any two numerals are accepted, leading zeros included, exactly when they name a shard that exists. */
  lemma {:induction false} ParseShardNumerals(a: string, b: string)
    requires a != [] && b != [] && AllDigits(a) && AllDigits(b)
    ensures var index, count := DigitsValue(a), DigitsValue(b);
            ParseShard(Some(a + ("/" + b))) ==
            if 1 <= index <= count then Ok(Some(ShardSpec(index, count))) else Err(BadShard(a + ("/" + b)))
  {
    var s := a + ("/" + b);
    DigitRunOf(a, "/" + b);
    assert s[|a| + 1..] == b && s[|a|] == '/';
    DigitRunOf(b, []);
    assert b + [] == b;
  }

  /** No text asks for the whole category, and only no text does. */
  lemma {:induction false} ParseShardAbsent(value: Option<string>)
    ensures ParseShard(value) == Ok(None) <==> value == None || value == Some("")
  {
  }

  /** Every other nonempty text is a syntax error. */
  lemma {:induction false} ParseShardSyntax(s: string)
    requires s != ""
    ensures ParseShard(Some(s)) == Err(BadShardSyntax(s)) <==> !exists a, b :: ShardText(s, a, b)
  {
    if a, b :| ShardText(s, a, b) {
      ParseShardNumerals(a, b);
    }
    if ParseShard(Some(s)) != Err(BadShardSyntax(s)) {
      var a, b := ShardTextOf(s);
    }
  }

  lemma {:induction false} ShardTextOf(s: string) returns (a: string, b: string)
    requires s != "" && ParseShard(Some(s)) != Err(BadShardSyntax(s))
    ensures ShardText(s, a, b)
  {
    var k := DigitRun(s);
    a, b := s[..k], s[k + 1..];
    assert s == a + ("/" + b);
    assert b[..DigitRun(b)] == b;
  }

  ghost predicate ShardText(s: string, a: string, b: string) {
    a != [] && b != [] && AllDigits(a) && AllDigits(b) && s == a + ("/" + b)
  }

  /** Every shard of a valid count can be asked for. */
  lemma {:induction false} ParseShardPrinted(index: nat, count: nat)
    requires 1 <= index <= count
    ensures ParseShard(Some(Digits(index) + ("/" + Digits(count)))) == Ok(Some(ShardSpec(index, count)))
  {
    ParseShardNumerals(Digits(index), Digits(count));
    DigitsRoundTrip(index);
    DigitsRoundTrip(count);
  }

  /** Some way to balance the files of a category over a number of shards. */
  type Balance = (seq<string>, nat, Category) -> seq<seq<string>>

  /** Every shard count is honoured, and the shards share the distinct files out. */
  ghost predicate Partitions(balance: Balance) {
    forall files, count, c :: count > 0 ==>
      && |balance(files, count, c)| == count
      && multiset(Flatten(balance(files, count, c))) == multiset(Dedup(files))
  }

  /** The scheduler the runner uses. */
  function Scheduler(timings: Timings, nameLeq: NameOrder, codeUnitLeq: NameOrder): Balance {
    (files, count, c) =>
      if count > 0 then BalancedShards(files, count, c, timings, nameLeq, codeUnitLeq).value else []
  }

  lemma {:induction false} SchedulerPartitions(timings: Timings, nameLeq: NameOrder, codeUnitLeq: NameOrder)
    ensures Partitions(Scheduler(timings, nameLeq, codeUnitLeq))
  {
    forall files, count: nat, c | count > 0
      ensures |BalancedShards(files, count, c, timings, nameLeq, codeUnitLeq).value| == count
      ensures multiset(Flatten(BalancedShards(files, count, c, timings, nameLeq, codeUnitLeq).value)) == multiset(Dedup(files))
    {
      ShardsPartitionFiles(files, count, c, timings, nameLeq, codeUnitLeq);
    }
  }

  /** The files of one category that one invocation selects; none for an index without a shard. */
  function Selected(manifest: Manifest, c: Category, shard: Option<ShardSpec>, balance: Balance): seq<string> {
    match shard
    case None => FilesOf(manifest, c)
    case Some(spec) => Pick(balance(FilesOf(manifest, c), spec.count, c), spec.index)
  }

  function Pick(lists: seq<seq<string>>, index: nat): seq<string> {
    if 1 <= index <= |lists| then lists[index - 1] else []
  }

  function SelectedIn(manifest: Manifest, cs: seq<Category>, shard: Option<ShardSpec>, balance: Balance): seq<string> {
    if cs == [] then []
    else SelectedIn(manifest, cs[..|cs| - 1], shard, balance) + Selected(manifest, cs[|cs| - 1], shard, balance)
  }

  /** The exit status of one category; one without files runs nothing and succeeds. */
  function StatusOf(files: seq<string>, c: Category, command: Command): int {
    if files == [] then 0 else command(c, files)
  }

  ghost predicate Succeeded(
    manifest: Manifest, categories: seq<Category>, shard: Option<ShardSpec>, balance: Balance, command: Command, n: nat)
    requires n <= |categories|
  {
    forall i :: 0 <= i < n ==> StatusOf(Selected(manifest, categories[i], shard, balance), categories[i], command) == 0
  }

  type Command = (Category, seq<string>) -> int

  /** What one invocation executed, and its exit status. */
  datatype Run = Run(executed: seq<string>, status: int)

  /** Category n is the first to fail, and the last to be executed. */
  ghost predicate StoppedAt(
    manifest: Manifest, categories: seq<Category>, shard: Option<ShardSpec>, balance: Balance, command: Command, run: Run, n: nat)
  {
    && n < |categories|
    && Succeeded(manifest, categories, shard, balance, command, n)
    && StatusOf(Selected(manifest, categories[n], shard, balance), categories[n], command) == run.status
    && run.executed == SelectedIn(manifest, categories[..n + 1], shard, balance)
  }

  /** The category loop executes every category, or stops after the first that fails, with its status. */
  ghost predicate IsRun(
    manifest: Manifest, categories: seq<Category>, shard: Option<ShardSpec>, balance: Balance, command: Command, run: Run)
  {
    if run.status == 0 then
      && run.executed == SelectedIn(manifest, categories, shard, balance)
      && Succeeded(manifest, categories, shard, balance, command, |categories|)
    else exists n: nat :: StoppedAt(manifest, categories, shard, balance, command, run, n)
  }

  method RunCategories(
    manifest: Manifest, categories: seq<Category>, shard: Option<ShardSpec>, balance: Balance, command: Command)
    returns (run: Run)
    ensures IsRun(manifest, categories, shard, balance, command, run)
  {
    var executed := [];
    for i := 0 to |categories|
      invariant executed == SelectedIn(manifest, categories[..i], shard, balance)
      invariant Succeeded(manifest, categories, shard, balance, command, i)
    {
      var files := Selected(manifest, categories[i], shard, balance);
      assert categories[..i + 1][..i] == categories[..i];
      executed := executed + files;
      var status := StatusOf(files, categories[i], command);
      if status != 0 {
        run := Run(executed, status);
        assert StoppedAt(manifest, categories, shard, balance, command, run, i);
        return;
      }
    }
    assert categories[..|categories|] == categories;
    run := Run(executed, 0);
  }

  /** The command fails on the files selected from the category; with none it is not run. */
  predicate FailsOn(manifest: Manifest, c: Category, shard: Option<ShardSpec>, balance: Balance, command: Command) {
    var files := Selected(manifest, c, shard, balance);
    files != [] && command(c, files) != 0
  }

  lemma {:induction false} StatusExact(
    manifest: Manifest, c: Category, shard: Option<ShardSpec>, balance: Balance, command: Command)
    ensures StatusOf(Selected(manifest, c, shard, balance), c, command) != 0 <==> FailsOn(manifest, c, shard, balance, command)
  {
  }

  /** Category n is the first on which the command fails; the run ends there, with its files and status. */
  ghost predicate EndsAt(
    manifest: Manifest, categories: seq<Category>, shard: Option<ShardSpec>, balance: Balance, command: Command, run: Run, n: nat)
  {
    && n < |categories| && FailsOn(manifest, categories[n], shard, balance, command)
    && (forall i :: 0 <= i < n ==> !FailsOn(manifest, categories[i], shard, balance, command))
    && run.status == command(categories[n], Selected(manifest, categories[n], shard, balance))
    && run.executed == SelectedIn(manifest, categories[..n], shard, balance) + Selected(manifest, categories[n], shard, balance)
  }

  lemma {:induction false} StopIsEnd(
    manifest: Manifest, categories: seq<Category>, shard: Option<ShardSpec>, balance: Balance, command: Command, run: Run, n: nat)
    requires StoppedAt(manifest, categories, shard, balance, command, run, n) && run.status != 0
    ensures EndsAt(manifest, categories, shard, balance, command, run, n)
  {
    assert categories[..n + 1][..n] == categories[..n];
    forall i | 0 <= i <= n {
      StatusExact(manifest, categories[i], shard, balance, command);
    }
  }

  /** A run succeeds exactly when no category fails; else it ends at the first that does. */
  lemma {:induction false} RunStatus(
    manifest: Manifest, categories: seq<Category>, shard: Option<ShardSpec>, balance: Balance, command: Command, run: Run)
    requires IsRun(manifest, categories, shard, balance, command, run)
    ensures run.status == 0 <==> forall c :: c in categories ==> !FailsOn(manifest, c, shard, balance, command)
    ensures run.status != 0 ==> exists n: nat :: EndsAt(manifest, categories, shard, balance, command, run, n)
  {
    if run.status != 0 {
      var n: nat :| StoppedAt(manifest, categories, shard, balance, command, run, n);
      StopIsEnd(manifest, categories, shard, balance, command, run, n);
    } else {
      forall c | c in categories ensures !FailsOn(manifest, c, shard, balance, command) {
        var i :| 0 <= i < |categories| && categories[i] == c;
        StatusExact(manifest, c, shard, balance, command);
      }
    }
  }

  /** The files invocation i selects from category c. */
  type Selection = (Category, nat) -> seq<string>

  /** The selection of the k invocations `--shard=1/k` to `--shard=k/k`. */
  function Sharded(manifest: Manifest, k: nat, balance: Balance): Selection {
    (c: Category, i: nat) => Selected(manifest, c, Some(ShardSpec(i, k)), balance)
  }

  function InOneRun(select: Selection, cs: seq<Category>, i: nat): seq<string> {
    if cs == [] then [] else InOneRun(select, cs[..|cs| - 1], i) + select(cs[|cs| - 1], i)
  }

  /** What invocations 1 to n execute together. */
  function ExecutedBy(select: Selection, cs: seq<Category>, n: nat): seq<string> {
    if n == 0 then [] else ExecutedBy(select, cs, n - 1) + InOneRun(select, cs, n)
  }

  /** One successful sharded invocation of the category loop executes its share. */
  lemma {:induction false} RunIsShare(manifest: Manifest, cs: seq<Category>, i: nat, k: nat, balance: Balance)
    requires 1 <= i <= k
    ensures SelectedIn(manifest, cs, Some(ShardSpec(i, k)), balance) == InOneRun(Sharded(manifest, k, balance), cs, i)
  {
    if cs != [] {
      RunIsShare(manifest, cs[..|cs| - 1], i, k, balance);
    }
  }

  /** The same for a single category. */
  function ExecutedOf(select: Selection, c: Category, n: nat): seq<string> {
    if n == 0 then [] else ExecutedOf(select, c, n - 1) + select(c, n)
  }

  lemma {:induction false} ExecutedSplits(select: Selection, cs: seq<Category>, c: Category, n: nat)
    ensures multiset(ExecutedBy(select, cs + [c], n))
            == multiset(ExecutedBy(select, cs, n)) + multiset(ExecutedOf(select, c, n))
  {
    if n > 0 {
      ExecutedSplits(select, cs, c, n - 1);
      assert (cs + [c])[..|cs|] == cs;
      Regroup(
        ExecutedBy(select, cs + [c], n - 1), InOneRun(select, cs, n), select(c, n),
        ExecutedBy(select, cs, n - 1), ExecutedOf(select, c, n - 1));
    }
  }

  lemma {:induction false} Regroup(all: seq<string>, head: seq<string>, tail: seq<string>, heads: seq<string>, tails: seq<string>)
    requires multiset(all) == multiset(heads) + multiset(tails)
    ensures multiset(all + (head + tail)) == multiset(heads + head) + multiset(tails + tail)
  {
  }

  lemma {:induction false} ExecutedOfFlattens(select: Selection, c: Category, lists: seq<seq<string>>, n: nat)
    requires n <= |lists| && forall i: nat :: select(c, i) == Pick(lists, i)
    ensures ExecutedOf(select, c, n) == Flatten(lists[..n])
  {
    if n > 0 {
      ExecutedOfFlattens(select, c, lists, n - 1);
      FlattenStep(lists, n);
    }
  }

  lemma {:induction false} FlattenStep(lists: seq<seq<string>>, n: nat)
    requires 0 < n <= |lists|
    ensures Flatten(lists[..n]) == Flatten(lists[..n - 1]) + lists[n - 1]
  {
    assert lists[..n][..n - 1] == lists[..n - 1];
  }

  /** Over all shards, each category's files are executed as often as they are listed. */
  lemma {:induction false} ShardedRunCovers(manifest: Manifest, cs: seq<Category>, k: nat, balance: Balance)
    requires 0 < k && Partitions(balance)
    requires forall c :: c in cs ==> Distinct(FilesOf(manifest, c))
    ensures multiset(ExecutedBy(Sharded(manifest, k, balance), cs, k)) == multiset(FilesIn(manifest, cs))
  {
    var select := Sharded(manifest, k, balance);
    if cs == [] {
      NothingExecuted(select, k);
    } else {
      var front, c := cs[..|cs| - 1], cs[|cs| - 1];
      assert cs == front + [c];
      ShardedRunCovers(manifest, front, k, balance);
      ExecutedSplits(select, front, c, k);
      CategoryCovered(manifest, c, k, balance);
      FilesInAppend(manifest, front, [c]);
      assert FilesIn(manifest, [c]) == FilesOf(manifest, c);
    }
  }

  lemma {:induction false} CategoryCovered(manifest: Manifest, c: Category, k: nat, balance: Balance)
    requires 0 < k && Partitions(balance) && Distinct(FilesOf(manifest, c))
    ensures multiset(ExecutedOf(Sharded(manifest, k, balance), c, k)) == multiset(FilesOf(manifest, c))
  {
    var files := FilesOf(manifest, c);
    var lists := balance(files, k, c);
    ExecutedOfFlattens(Sharded(manifest, k, balance), c, lists, k);
    assert lists[..k] == lists;
    DistinctPermutation(files, Dedup(files));
  }

  lemma {:induction false} NothingExecuted(select: Selection, n: nat)
    ensures ExecutedBy(select, [], n) == []
  {
    if n > 0 {
      NothingExecuted(select, n - 1);
    }
  }

  /** Run i + 1 of k is the invocation `--shard=(i+1)/k` of the category loop, and it succeeded. */
  ghost predicate AllShardsSucceeded(manifest: Manifest, k: nat, balance: Balance, commands: nat -> Command, runs: seq<Run>) {
    && |runs| == k
    && forall i :: 0 <= i < k ==>
         runs[i].status == 0 && IsRun(manifest, CATEGORIES, Some(ShardSpec(i + 1, k)), balance, commands(i), runs[i])
  }

  function Executed(runs: seq<Run>): (r: seq<seq<string>>)
    ensures |r| == |runs|
    ensures forall i :: 0 <= i < |r| ==> r[i] == runs[i].executed
  {
    seq(|runs|, i requires 0 <= i < |runs| => runs[i].executed)
  }

  lemma {:induction false} RunsAreShares(
    manifest: Manifest, k: nat, balance: Balance, commands: nat -> Command, runs: seq<Run>, n: nat)
    requires AllShardsSucceeded(manifest, k, balance, commands, runs) && n <= k
    ensures Flatten(Executed(runs)[..n]) == ExecutedBy(Sharded(manifest, k, balance), CATEGORIES, n)
  {
    if n > 0 {
      RunsAreShares(manifest, k, balance, commands, runs, n - 1);
      FlattenStep(Executed(runs), n);
      RunIsShare(manifest, CATEGORIES, n, k, balance);
    }
  }

  /**
   For an accepted manifest and any shard count k, k sharded runs of the category loop that succeed
   execute every discovered file exactly once between them, and nothing else.
   */
  lemma {:induction false} EveryFileExactlyOnce(
    manifest: Manifest, discovered: seq<string>, k: nat, timings: Timings, nameLeq: NameOrder, codeUnitLeq: NameOrder,
    commands: nat -> Command, runs: seq<Run>)
    requires ValidateManifest(manifest, discovered).Ok? && 0 < k
    requires AllShardsSucceeded(manifest, k, Scheduler(timings, nameLeq, codeUnitLeq), commands, runs)
    ensures forall f :: multiset(Flatten(Executed(runs)))[f] == if f in discovered then 1 else 0
  {
    var balance := Scheduler(timings, nameLeq, codeUnitLeq);
    SchedulerPartitions(timings, nameLeq, codeUnitLeq);
    RunsExactlyOnce(manifest, discovered, k, balance, commands, runs);
  }

  lemma {:induction false} RunsExactlyOnce(
    manifest: Manifest, discovered: seq<string>, k: nat, balance: Balance, commands: nat -> Command, runs: seq<Run>)
    requires ValidateManifest(manifest, discovered).Ok? && 0 < k && Partitions(balance)
    requires AllShardsSucceeded(manifest, k, balance, commands, runs)
    ensures forall f :: multiset(Flatten(Executed(runs)))[f] == if f in discovered then 1 else 0
  {
    RunsAreShares(manifest, k, balance, commands, runs, k);
    assert Executed(runs)[..k] == Executed(runs);
    ExactlyOnce(manifest, discovered, k, balance);
  }

  lemma {:induction false} ExactlyOnce(manifest: Manifest, discovered: seq<string>, k: nat, balance: Balance)
    requires ValidateManifest(manifest, discovered).Ok? && 0 < k && Partitions(balance)
    ensures var executed := ExecutedBy(Sharded(manifest, k, balance), CATEGORIES, k);
            forall f :: multiset(executed)[f] == if f in discovered then 1 else 0
  {
    ValidationIsExact(manifest, discovered);
    forall c | c in CATEGORIES ensures Distinct(FilesOf(manifest, c)) {
      PartsDistinct(manifest, CATEGORIES, c);
    }
    ShardedRunCovers(manifest, CATEGORIES, k, balance);
    forall f {
      DistinctCount(FilesIn(manifest, CATEGORIES), f);
    }
  }
}
