/**
 Which package gates a change needs (scripts/test-feedback/affected.ts). The workspace, the two
 families of file patterns, the domains of a file list and the order of strings are parameters.
 */
module Affected {
  import opened Wrappers
  import opened Sorting

  datatype Package = Package(directory: string, key: string, name: string, dependencies: seq<string>)

  const SUPPORTED_PACKAGE_KEYS: seq<string> := ["app", "server", "core", "cli", "desktop"]

  predicate Supported(key: string) {
    key in SUPPORTED_PACKAGE_KEYS
  }

  // ---- The dependency graph over package keys ----

  /** The key registered under each package name; a later package replaces an earlier one. */
  function ByName(packages: seq<Package>): map<string, string> {
    if packages == [] then map[]
    else
      var last := packages[|packages| - 1];
      ByName(packages[..|packages| - 1])[last.name := last.key]
  }

  /** Some package with key `dependent` lists a dependency registered under `key`. */
  ghost predicate Edge(packages: seq<Package>, byName: map<string, string>, key: string, dependent: string) {
    exists p, d :: p in packages && d in p.dependencies && Listed(byName, d, key) && p.key == dependent
  }

  predicate Listed(byName: map<string, string>, dependency: string, key: string) {
    dependency in byName && byName[dependency] == key && key != ""
  }

  ghost predicate IsPath(packages: seq<Package>, path: seq<string>) {
    && path != []
    && forall i :: 0 < i < |path| ==> Edge(packages, ByName(packages), path[i - 1], path[i])
  }

  ghost predicate PathFrom(packages: seq<Package>, seeds: seq<string>, key: string, path: seq<string>) {
    IsPath(packages, path) && path[0] in seeds && path[|path| - 1] == key
  }

  /** key is a seed or depends on one, directly or through other packages. */
  ghost predicate Reaches(packages: seq<Package>, seeds: seq<string>, key: string) {
    exists path :: PathFrom(packages, seeds, key, path)
  }

  /** q is a direct dependency of p. */
  predicate DependsOn(p: Package, q: Package) {
    q.name in p.dependencies
  }

  ghost predicate DistinctNames(packages: seq<Package>) {
    forall i, j :: 0 <= i < j < |packages| ==> packages[i].name != packages[j].name
  }

  ghost predicate KeysNonempty(packages: seq<Package>) {
    forall p :: p in packages ==> p.key != ""
  }

  lemma {:induction false} ByNameExact(packages: seq<Package>, q: Package)
    requires DistinctNames(packages) && q in packages
    ensures q.name in ByName(packages) && ByName(packages)[q.name] == q.key
  {
    var front, last := packages[..|packages| - 1], packages[|packages| - 1];
    assert packages == front + [last];
    if q in front {
      ByNameExact(front, q);
    }
  }

  lemma {:induction false} ByNameSource(packages: seq<Package>, name: string) returns (q: Package)
    requires name in ByName(packages)
    ensures q in packages && q.name == name && ByName(packages)[name] == q.key
  {
    var front, last := packages[..|packages| - 1], packages[|packages| - 1];
    if last.name == name {
      q := last;
    } else {
      q := ByNameSource(front, name);
    }
  }

  /** The edges are the declared dependencies between packages. */
  lemma {:induction false} EdgeIsDependency(packages: seq<Package>, key: string, dependent: string)
    requires DistinctNames(packages) && KeysNonempty(packages)
    ensures Edge(packages, ByName(packages), key, dependent) <==>
            exists p, q :: p in packages && q in packages && DependsOn(p, q) && p.key == dependent && q.key == key
  {
    var byName := ByName(packages);
    if Edge(packages, byName, key, dependent) {
      var p, d :| p in packages && d in p.dependencies && Listed(byName, d, key) && p.key == dependent;
      var q := ByNameSource(packages, d);
      assert DependsOn(p, q);
    }
    if p, q :| p in packages && q in packages && DependsOn(p, q) && p.key == dependent && q.key == key {
      ByNameExact(packages, q);
      assert Listed(byName, q.name, key);
    }
  }

  /** One step further along an edge. */
  lemma {:induction false} ReachesStep(packages: seq<Package>, seeds: seq<string>, key: string, dependent: string)
    requires Reaches(packages, seeds, key) && Edge(packages, ByName(packages), key, dependent)
    ensures Reaches(packages, seeds, dependent)
  {
    var path :| PathFrom(packages, seeds, key, path);
    assert PathFrom(packages, seeds, dependent, path + [dependent]);
  }

  lemma {:induction false} SeedReaches(packages: seq<Package>, seeds: seq<string>, key: string)
    requires key in seeds
    ensures Reaches(packages, seeds, key)
  {
    assert PathFrom(packages, seeds, key, [key]);
  }

  /** A set of keys that holds the seeds and is closed under edges holds every key reached. */
  lemma {:induction false} ClosedHoldsPath(packages: seq<Package>, keys: seq<string>, path: seq<string>)
    requires IsPath(packages, path) && path[0] in keys
    requires forall key, dependent :: key in keys && Edge(packages, ByName(packages), key, dependent) ==> dependent in keys
    ensures path[|path| - 1] in keys
  {
    if |path| > 1 {
      var front := path[..|path| - 1];
      assert IsPath(packages, front);
      ClosedHoldsPath(packages, keys, front);
      assert Edge(packages, ByName(packages), path[|path| - 2], path[|path| - 1]);
    }
  }

  // ---- The closure ----

  function DependentsAt(dependents: map<string, seq<string>>, key: string): seq<string> {
    if key in dependents then dependents[key] else []
  }

  ghost predicate Indexes(dependents: map<string, seq<string>>, packages: seq<Package>, byName: map<string, string>) {
    forall key, dependent :: dependent in DependentsAt(dependents, key) <==> Edge(packages, byName, key, dependent)
  }

  /** A package whose first n dependencies have been entered. */
  function Cut(p: Package, n: nat): Package
    requires n <= |p.dependencies|
  {
    p.(dependencies := p.dependencies[..n])
  }

  method IndexDependents(packages: seq<Package>) returns (dependents: map<string, seq<string>>)
    ensures Indexes(dependents, packages, ByName(packages))
  {
    var byName := ByName(packages);
    dependents := map[];
    for i := 0 to |packages|
      invariant Indexes(dependents, packages[..i], byName)
    {
      var p := packages[i];
      for n := 0 to |p.dependencies|
        invariant Indexes(dependents, packages[..i] + [Cut(p, n)], byName)
      {
        if p.dependencies[n] !in byName || byName[p.dependencies[n]] == "" {
          continue;
        }
        var key := byName[p.dependencies[n]];
        EnterDependency(dependents, packages[..i], byName, p, n, key);
        dependents := dependents[key := DependentsAt(dependents, key) + [p.key]];
      }
      assert Cut(p, |p.dependencies|) == p;
      assert packages[..i + 1] == packages[..i] + [p];
    }
    assert packages[..|packages|] == packages;
  }

  lemma {:induction false} EnterDependency(
    dependents: map<string, seq<string>>, done: seq<Package>, byName: map<string, string>, p: Package, n: nat, key: string)
    requires n < |p.dependencies| && Indexes(dependents, done + [Cut(p, n)], byName)
    requires Listed(byName, p.dependencies[n], key)
    ensures Indexes(dependents[key := DependentsAt(dependents, key) + [p.key]], done + [Cut(p, n + 1)], byName)
  {
    var next := dependents[key := DependentsAt(dependents, key) + [p.key]];
    forall k, dependent
      ensures dependent in DependentsAt(next, k) <==> Edge(done + [Cut(p, n + 1)], byName, k, dependent)
    {
      assert dependent in DependentsAt(dependents, k) <==> Edge(done + [Cut(p, n)], byName, k, dependent);
    }
  }

  /** Every edge out of a key that is no longer queued leads to an affected key. */
  ghost predicate Expanded(dependents: map<string, seq<string>>, affected: seq<string>, queue: seq<string>) {
    forall key :: key in affected && key !in queue ==> forall d :: d in DependentsAt(dependents, key) ==> d in affected
  }

  ghost predicate AllReached(packages: seq<Package>, seeds: seq<string>, keys: seq<string>) {
    forall key :: key in keys ==> Reaches(packages, seeds, key)
  }

  /** The package keys not yet affected. */
  ghost predicate Unseen(unseen: set<string>, packages: seq<Package>, affected: seq<string>) {
    forall p :: p in packages ==> p.key in affected || p.key in unseen
  }

  /**
   Breadth-first search against the dependency edges. It stops because every push takes a key
   out of the unseen ones, and every other round shortens the queue.
   */
  method ReverseDependencyClosure(packageKeys: seq<string>, packages: seq<Package>) returns (affected: seq<string>)
    ensures Distinct(affected)
    ensures forall key :: key in affected <==> Reaches(packages, packageKeys, key)
  {
    var dependents := IndexDependents(packages);
    affected := Dedup(packageKeys);
    var queue := packageKeys;
    ghost var unseen := set p | p in packages :: p.key;
    SeedsReached(packages, packageKeys, affected);
    while queue != []
      invariant Distinct(affected) && AllReached(packages, packageKeys, affected)
      invariant forall key :: key in packageKeys || key in queue ==> key in affected
      invariant Expanded(dependents, affected, queue)
      invariant Unseen(unseen, packages, affected)
      decreases |unseen|, |queue|
    {
      var packageKey := queue[0];
      assert queue == [packageKey] + queue[1..];
      queue := queue[1..];
      if packageKey == "" {
        NoEdgeFromEmpty(packages, dependents);
        continue;
      }
      affected, queue, unseen := PushDependents(packageKeys, packages, dependents, packageKey, affected, queue, unseen);
    }
    ClosedIsClosure(packages, packageKeys, dependents, affected);
  }

  method PushDependents(
    ghost seeds: seq<string>, ghost packages: seq<Package>, dependents: map<string, seq<string>>, packageKey: string,
    affected0: seq<string>, queue0: seq<string>, ghost unseen0: set<string>)
    returns (affected: seq<string>, queue: seq<string>, ghost unseen: set<string>)
    requires Indexes(dependents, packages, ByName(packages)) && packageKey in affected0
    requires Distinct(affected0) && AllReached(packages, seeds, affected0)
    requires Expanded(dependents, affected0, [packageKey] + queue0)
    requires Unseen(unseen0, packages, affected0)
    requires forall key :: key in queue0 ==> key in affected0
    ensures Distinct(affected) && AllReached(packages, seeds, affected)
    ensures affected0 <= affected && forall key :: key in queue ==> key in affected
    ensures Expanded(dependents, affected, queue)
    ensures Unseen(unseen, packages, affected)
    ensures |unseen| < |unseen0| || (unseen == unseen0 && queue == queue0)
  {
    affected, queue, unseen := affected0, queue0, unseen0;
    var found := DependentsAt(dependents, packageKey);
    for i := 0 to |found|
      invariant Distinct(affected) && AllReached(packages, seeds, affected)
      invariant affected0 <= affected && forall key :: key in queue ==> key in affected
      invariant Expanded(dependents, affected, [packageKey] + queue)
      invariant Unseen(unseen, packages, affected)
      invariant |unseen| < |unseen0| || (unseen == unseen0 && queue == queue0)
      invariant forall j :: 0 <= j < i ==> found[j] in affected
    {
      var dependent := found[i];
      if dependent in affected {
        continue;
      }
      assert Edge(packages, ByName(packages), packageKey, dependent);
      ReachesStep(packages, seeds, packageKey, dependent);
      assert [packageKey] + (queue + [dependent]) == [packageKey] + queue + [dependent];
      assert dependent in unseen;
      affected := affected + [dependent];
      queue := queue + [dependent];
      unseen := unseen - {dependent};
    }
  }

  lemma {:induction false} NoEdgeFromEmpty(packages: seq<Package>, dependents: map<string, seq<string>>)
    requires Indexes(dependents, packages, ByName(packages))
    ensures DependentsAt(dependents, "") == []
  {
    var found := DependentsAt(dependents, "");
    assert found == [] || (found[0] in found && Edge(packages, ByName(packages), "", found[0]));
  }

  lemma {:induction false} SeedsReached(packages: seq<Package>, seeds: seq<string>, affected: seq<string>)
    requires forall key :: key in affected <==> key in seeds
    ensures AllReached(packages, seeds, affected)
  {
    forall key | key in affected ensures Reaches(packages, seeds, key) {
      SeedReaches(packages, seeds, key);
    }
  }

  lemma {:induction false} ClosedIsClosure(packages: seq<Package>, seeds: seq<string>, dependents: map<string, seq<string>>, affected: seq<string>)
    requires Indexes(dependents, packages, ByName(packages)) && Expanded(dependents, affected, [])
    requires AllReached(packages, seeds, affected) && forall key :: key in seeds ==> key in affected
    ensures forall key :: key in affected <==> Reaches(packages, seeds, key)
  {
    forall key | Reaches(packages, seeds, key) ensures key in affected {
      var path :| PathFrom(packages, seeds, key, path);
      ClosedHoldsPath(packages, affected, path);
    }
  }

  // ---- Files and their owners ----

  function ForwardSlashes(path: string): string {
    if path == "" then ""
    else [if path[0] == '\\' then '/' else path[0]] + ForwardSlashes(path[1..])
  }

  function NormalizePath(path: string): string {
    var p := ForwardSlashes(path);
    if "./" <= p then p[2..] else p
  }

  function NormalizedPaths(files: seq<string>): (r: seq<string>)
    ensures |r| == |files|
    ensures forall i :: 0 <= i < |r| ==> r[i] == NormalizePath(files[i])
  {
    seq(|files|, i requires 0 <= i < |files| => NormalizePath(files[i]))
  }

  /** The project's conventions: what calls for the repository gate, what is documentation. */
  datatype Rules = Rules(
    rootGate: string -> bool, isDoc: string -> bool,
    domainsFor: seq<string> -> seq<string>, leq: (string, string) -> bool)

  function ChangedFiles(rules: Rules, changed: seq<string>): seq<string> {
    SortBy(rules.leq, Dedup(Filter((f: string) => f != "", NormalizedPaths(changed))))
  }

  /** Each path once, sorted, in its normal form; an empty path is no change. */
  lemma {:induction false} ChangedFilesExact(rules: Rules, changed: seq<string>)
    requires TotalOrder(rules.leq)
    ensures Sorted(rules.leq, ChangedFiles(rules, changed)) && Distinct(ChangedFiles(rules, changed))
    ensures forall f :: f in ChangedFiles(rules, changed) <==>
              f != "" && exists i :: 0 <= i < |changed| && f == NormalizePath(changed[i])
  {
    var kept := Filter((f: string) => f != "", NormalizedPaths(changed));
    SortByDistinct(rules.leq, Dedup(kept));
    SortBySorted(rules.leq, Dedup(kept));
  }

  /** The order and repetition of the reported changes do not matter. */
  lemma {:induction false} ChangedFilesOfSet(rules: Rules, a: seq<string>, b: seq<string>)
    requires TotalOrder(rules.leq) && forall f :: f in a <==> f in b
    ensures ChangedFiles(rules, a) == ChangedFiles(rules, b)
  {
    ChangedFilesExact(rules, a);
    ChangedFilesExact(rules, b);
    SameChanges(rules, a, b);
    SameChanges(rules, b, a);
    DistinctPermutation(ChangedFiles(rules, a), ChangedFiles(rules, b));
    SortedUnique(rules.leq, ChangedFiles(rules, a), ChangedFiles(rules, b));
  }

  lemma {:induction false} SameChanges(rules: Rules, a: seq<string>, b: seq<string>)
    requires TotalOrder(rules.leq) && forall f :: f in a ==> f in b
    ensures forall f :: f in ChangedFiles(rules, a) ==> f in ChangedFiles(rules, b)
  {
    ChangedFilesExact(rules, a);
    ChangedFilesExact(rules, b);
    forall f | f in ChangedFiles(rules, a) ensures f in ChangedFiles(rules, b) {
      var i :| 0 <= i < |a| && f == NormalizePath(a[i]);
      assert a[i] in b;
    }
  }

  predicate Owns(p: Package, file: string) {
    file == p.directory || p.directory + "/" <= file
  }

  /** The first package that owns the file. */
  function PackageForFile(file: string, packages: seq<Package>): Option<Package> {
    if packages == [] then None
    else if Owns(packages[0], file) then Some(packages[0])
    else PackageForFile(file, packages[1..])
  }

  function OwnersOf(files: seq<string>, packages: seq<Package>): seq<string> {
    if files == [] then []
    else (match PackageForFile(files[0], packages) case Some(p) => [p.key] case None => [])
         + OwnersOf(files[1..], packages)
  }

  function OwnerKeys(files: seq<string>, packages: seq<Package>): seq<string> {
    Dedup(OwnersOf(files, packages))
  }

  ghost predicate OwnerOf(files: seq<string>, packages: seq<Package>, file: string, p: Package) {
    file in files && PackageForFile(file, packages) == Some(p)
  }

  lemma {:induction false} OwnerKeyExact(files: seq<string>, packages: seq<Package>, key: string)
    ensures key in OwnerKeys(files, packages) <==> exists f, p :: OwnerOf(files, packages, f, p) && p.key == key
    ensures Distinct(OwnerKeys(files, packages))
  {
    OwnersExact(files, packages, key);
  }

  lemma {:induction false} OwnersExact(files: seq<string>, packages: seq<Package>, key: string)
    ensures key in OwnersOf(files, packages) <==> exists f, p :: OwnerOf(files, packages, f, p) && p.key == key
  {
    if files != [] {
      OwnersExact(files[1..], packages, key);
      assert files == [files[0]] + files[1..];
      if f, p :| OwnerOf(files, packages, f, p) && p.key == key {
        assert f == files[0] || OwnerOf(files[1..], packages, f, p);
      }
      if f, p :| OwnerOf(files[1..], packages, f, p) && p.key == key {
        assert OwnerOf(files, packages, f, p);
      }
      if PackageForFile(files[0], packages).Some? {
        assert OwnerOf(files, packages, files[0], PackageForFile(files[0], packages).value);
      }
    }
  }

  lemma {:induction false} OwnerListed(file: string, packages: seq<Package>)
    ensures PackageForFile(file, packages).Some? ==>
              PackageForFile(file, packages).value in packages && Owns(PackageForFile(file, packages).value, file)
    ensures PackageForFile(file, packages) == None ==> forall p :: p in packages ==> !Owns(p, file)
  {
    if packages != [] {
      OwnerListed(file, packages[1..]);
    }
  }

  // ---- The plan ----

  datatype Reason =
    | NoChangedFiles
    | RootFileChanged
    | UnsupportedPackage(key: string)
    | DocsOnlyChanged
    | UnknownFile
    | NoSupportedPackage
    | RunClosure(packages: seq<string>)

  datatype Plan = Plan(
    changedFiles: seq<string>, docsOnly: bool, domains: seq<string>, packages: seq<string>,
    reasons: seq<Reason>, repository: bool)

  predicate RootChanged(rules: Rules, files: seq<string>) {
    exists f :: f in files && rules.rootGate(f)
  }

  predicate DocsOnly(rules: Rules, files: seq<string>) {
    forall f :: f in files ==> rules.isDoc(f)
  }

  predicate HasUnknownFile(rules: Rules, files: seq<string>, packages: seq<Package>) {
    exists f :: f in files && PackageForFile(f, packages) == None && !rules.isDoc(f)
  }

  function FirstUnsupported(keys: seq<string>): (r: Option<string>)
    ensures r.Some? ==> r.value in keys && !Supported(r.value)
    ensures r == None <==> forall key :: key in keys ==> Supported(key)
  {
    if keys == [] then None
    else if !Supported(keys[0]) then Some(keys[0])
    else
      assert forall key :: key in keys <==> key == keys[0] || key in keys[1..];
      FirstUnsupported(keys[1..])
  }

  function UnsupportedOwner(rules: Rules, files: seq<string>, packages: seq<Package>): Option<string> {
    if DocsOnly(rules, files) then None else FirstUnsupported(OwnerKeys(files, packages))
  }

  /** JavaScript truthiness of an optional string. */
  predicate Truthy(s: Option<string>) {
    s.Some? && s.value != ""
  }

  predicate NeedsRepositoryGate(rules: Rules, files: seq<string>, packages: seq<Package>) {
    || RootChanged(rules, files)
    || Truthy(UnsupportedOwner(rules, files, packages))
    || HasUnknownFile(rules, files, packages)
  }

  function ReasonsFor(root: bool, owner: Option<string>, docs: bool, unknown: bool): seq<Reason> {
    (if root then [RootFileChanged] else [])
    + (if Truthy(owner) then [UnsupportedPackage(owner.value)] else [])
    + (if docs then [DocsOnlyChanged] else [])
    + (if unknown then [UnknownFile] else [])
  }

  function FirstReasons(rules: Rules, files: seq<string>, packages: seq<Package>): seq<Reason> {
    ReasonsFor(
      RootChanged(rules, files), UnsupportedOwner(rules, files, packages),
      DocsOnly(rules, files), HasUnknownFile(rules, files, packages))
  }

  /** The supported keys reached from the owners of the files, sorted. */
  ghost predicate IsAffectedList(rules: Rules, files: seq<string>, packages: seq<Package>, list: seq<string>) {
    && Sorted(rules.leq, list) && Distinct(list)
    && forall key :: key in list <==> Supported(key) && Reaches(packages, OwnerKeys(files, packages), key)
  }

  /** What the plan has to be for these files. */
  ghost predicate IsPlan(rules: Rules, files: seq<string>, packages: seq<Package>, plan: Plan) {
    var reasons := FirstReasons(rules, files, packages);
    if files == [] then plan == Plan([], false, [], [], [NoChangedFiles], false)
    else if NeedsRepositoryGate(rules, files, packages) then plan == Plan(files, false, [], [], reasons, true)
    else if DocsOnly(rules, files) then plan == Plan(files, true, [], [], reasons, false)
    else if IsAffectedList(rules, files, packages, []) then
      plan == Plan(files, false, [], [], reasons + [NoSupportedPackage], true)
    else
      && IsAffectedList(rules, files, packages, plan.packages)
      && plan == Plan(files, false, rules.domainsFor(files), plan.packages, reasons + [RunClosure(plan.packages)], false)
  }

  method ComputeAffectedPlan(rules: Rules, changed: seq<string>, packages: seq<Package>) returns (plan: Plan)
    requires TotalOrder(rules.leq)
    ensures IsPlan(rules, ChangedFiles(rules, changed), packages, plan)
  {
    var files := ChangedFiles(rules, changed);
    if files == [] {
      return Plan([], false, [], [], [NoChangedFiles], false);
    }
    var reasons := CollectReasons(rules, files, packages);
    if NeedsRepositoryGate(rules, files, packages) {
      return Plan(files, false, [], [], reasons, true);
    }
    if DocsOnly(rules, files) {
      return Plan(files, true, [], [], reasons, false);
    }
    var list := AffectedList(rules, files, packages);
    if list == [] {
      reasons := reasons + [NoSupportedPackage];
      return Plan(files, false, [], [], reasons, true);
    }
    assert list[0] in list;
    reasons := reasons + [RunClosure(list)];
    return Plan(files, false, rules.domainsFor(files), list, reasons, false);
  }

  method CollectReasons(rules: Rules, files: seq<string>, packages: seq<Package>) returns (reasons: seq<Reason>)
    ensures reasons == FirstReasons(rules, files, packages)
  {
    reasons := [];
    if RootChanged(rules, files) {
      reasons := reasons + [RootFileChanged];
    }
    var owner := UnsupportedOwner(rules, files, packages);
    if Truthy(owner) {
      reasons := reasons + [UnsupportedPackage(owner.value)];
    }
    if DocsOnly(rules, files) {
      reasons := reasons + [DocsOnlyChanged];
    }
    if HasUnknownFile(rules, files, packages) {
      reasons := reasons + [UnknownFile];
    }
  }

  method AffectedList(rules: Rules, files: seq<string>, packages: seq<Package>) returns (list: seq<string>)
    requires TotalOrder(rules.leq)
    ensures IsAffectedList(rules, files, packages, list)
  {
    var keys := ReverseDependencyClosure(OwnerKeys(files, packages), packages);
    var supported := Filter(Supported, keys);
    FilterDistinct(Supported, keys);
    SortByDistinct(rules.leq, supported);
    SortBySorted(rules.leq, supported);
    list := SortBy(rules.leq, supported);
  }

  // ---- What a plan guarantees ----

  /** The keys the workspace discovery gives: the directory below packages/, or the directory. */
  function KeyOf(directory: string): string {
    if "packages/" <= directory then directory[|"packages/"|..] else directory
  }

  /** A directory under packages/, or docs. */
  ghost predicate WorkspaceDirectory(directory: string) {
    || directory == "docs"
    || exists name :: name != "" && '/' !in name && directory == "packages/" + name
  }

  ghost predicate Discovered(packages: seq<Package>) {
    && (forall p :: p in packages ==> WorkspaceDirectory(p.directory) && p.key == KeyOf(p.directory))
    && forall i, j :: 0 <= i < j < |packages| ==> packages[i].directory != packages[j].directory
  }

  lemma {:induction false} DiscoveredKeys(packages: seq<Package>)
    requires Discovered(packages)
    ensures KeysNonempty(packages)
  {
  }

  /** No changed file is left without a gate. */
  ghost predicate Covered(rules: Rules, packages: seq<Package>, plan: Plan, file: string) {
    || rules.isDoc(file)
    || exists p :: PackageForFile(file, packages) == Some(p) && p.key in plan.packages
  }

  /** The branch for changes without any supported package is dead unless the owner of a changed file has an empty key. */
  lemma {:induction false} NoSupportedNeedsEmptyKey(rules: Rules, files: seq<string>, packages: seq<Package>, plan: Plan)
    requires IsPlan(rules, files, packages, plan) && NoSupportedPackage in plan.reasons
    ensures exists f, p :: OwnerOf(files, packages, f, p) && p.key == ""
  {
    var keys := OwnerKeys(files, packages);
    NoSupportedFirst(rules, files, packages, plan);
    OwnerKeyExact(files, packages, "");
  }

  /**
   Exactly when that branch is taken: nothing calls for the repository gate, the first owner without a
   narrow gate has an empty key, and no supported package is reached from the owners.
   */
  lemma {:induction false} NoSupportedExact(rules: Rules, files: seq<string>, packages: seq<Package>, plan: Plan)
    requires IsPlan(rules, files, packages, plan)
    ensures NoSupportedPackage in plan.reasons <==>
            && !RootChanged(rules, files) && !HasUnknownFile(rules, files, packages) && !DocsOnly(rules, files)
            && FirstUnsupported(OwnerKeys(files, packages)) == Some("")
            && forall key :: Supported(key) ==> !Reaches(packages, OwnerKeys(files, packages), key)
  {
    if NoSupportedPackage in plan.reasons {
      NoSupportedFirst(rules, files, packages, plan);
    }
  }

  lemma {:induction false} NoSupportedFirst(rules: Rules, files: seq<string>, packages: seq<Package>, plan: Plan)
    requires IsPlan(rules, files, packages, plan) && NoSupportedPackage in plan.reasons
    ensures !DocsOnly(rules, files) && !NeedsRepositoryGate(rules, files, packages)
    ensures IsAffectedList(rules, files, packages, [])
    ensures FirstUnsupported(OwnerKeys(files, packages)) == Some("")
  {
    var f :| f in files && !rules.isDoc(f);
    UnsupportedOwners(files, packages, f);
  }

  /** When no supported package is reached, the owners have unsupported keys. */
  lemma {:induction false} UnsupportedOwners(files: seq<string>, packages: seq<Package>, f: string)
    requires f in files && PackageForFile(f, packages).Some?
    requires forall key :: !(Supported(key) && Reaches(packages, OwnerKeys(files, packages), key))
    ensures FirstUnsupported(OwnerKeys(files, packages)) != None
  {
    var keys, p := OwnerKeys(files, packages), PackageForFile(f, packages).value;
    assert OwnerOf(files, packages, f, p);
    OwnerKeyExact(files, packages, p.key);
    SeedReaches(packages, keys, p.key);
  }

  /** And with an empty key it is alive: the guard takes an empty key for no key. */
  lemma {:induction false} EmptyKeyEscapesGate(rules: Rules, p: Package)
    requires p.key == "" && p.directory != "" && !rules.isDoc(p.directory) && !rules.rootGate(p.directory)
    ensures IsPlan(rules, [p.directory], [p], Plan([p.directory], false, [], [], [NoSupportedPackage], true))
  {
    var files, packages := [p.directory], [p];
    assert PackageForFile(p.directory, packages) == Some(p);
    assert OwnersOf(files, packages) == [""] + OwnersOf(files[1..], packages) == [""];
    var keys := OwnerKeys(files, packages);
    assert p.directory in files && !DocsOnly(rules, files);
    assert "" in keys && FirstUnsupported(keys) == Some("") by {
      assert forall key :: key in keys <==> key == "";
    }
    assert FirstReasons(rules, files, packages) == [];
    assert forall key, dependent :: !Edge(packages, ByName(packages), key, dependent) by {
      assert ByName(packages) == ByName(packages[..0])[p.name := ""];
    }
    forall key | Supported(key) ensures !Reaches(packages, keys, key) {
      OnlySeedsReached(packages, keys, key);
    }
  }

  lemma {:induction false} OnlySeedsReached(packages: seq<Package>, seeds: seq<string>, key: string)
    requires forall k, dependent :: !Edge(packages, ByName(packages), k, dependent)
    ensures Reaches(packages, seeds, key) ==> key in seeds
  {
    if Reaches(packages, seeds, key) {
      var path :| PathFrom(packages, seeds, key, path);
      ClosedHoldsPath(packages, seeds, path);
    }
  }

  /**
   For a workspace as discovered and any change at all, the plan is the repository gate, or
   documentation only, or the packages to test, one of the three; the gate is never chosen for
   want of a supported package.
   */
  lemma {:induction false} PlanIsOneOfThree(rules: Rules, files: seq<string>, packages: seq<Package>, plan: Plan)
    requires IsPlan(rules, files, packages, plan) && files != [] && KeysNonempty(packages)
    ensures plan.changedFiles == files && NoSupportedPackage !in plan.reasons
    ensures plan.repository <==> NeedsRepositoryGate(rules, files, packages)
    ensures plan.docsOnly <==> !plan.repository && DocsOnly(rules, files)
    ensures plan.packages != [] <==> !plan.repository && !plan.docsOnly
  {
    if NoSupportedPackage in plan.reasons {
      NoSupportedNeedsEmptyKey(rules, files, packages, plan);
      var f, p :| OwnerOf(files, packages, f, p) && p.key == "";
      OwnerListed(f, packages);
    }
  }

  /**
   Outside the gate a plan omits nothing: every changed file is documentation or belongs to a
   planned package, and with an owner every supported package that depends on it, directly or
   through others, is planned; and nothing else is.
   */
  lemma {:induction false} PlanSound(rules: Rules, files: seq<string>, packages: seq<Package>, plan: Plan)
    requires IsPlan(rules, files, packages, plan) && files != [] && KeysNonempty(packages)
    requires !plan.repository && !plan.docsOnly
    ensures forall f :: f in files ==> Covered(rules, packages, plan, f)
    ensures forall key :: key in plan.packages <==>
              Supported(key) && exists f, p :: OwnerOf(files, packages, f, p) && Reaches(packages, [p.key], key)
  {
    PlanIsOneOfThree(rules, files, packages, plan);
    forall f | f in files ensures Covered(rules, packages, plan, f) {
      if !rules.isDoc(f) {
        FilePlanned(rules, files, packages, plan, f);
      }
    }
    forall key ensures key in plan.packages <==>
        Supported(key) && exists f, p :: OwnerOf(files, packages, f, p) && Reaches(packages, [p.key], key)
    {
      ReachedFromOneOwner(files, packages, key);
    }
  }

  lemma {:induction false} FilePlanned(rules: Rules, files: seq<string>, packages: seq<Package>, plan: Plan, f: string)
    requires files != [] && KeysNonempty(packages) && f in files && !rules.isDoc(f)
    requires IsAffectedList(rules, files, packages, plan.packages) && !NeedsRepositoryGate(rules, files, packages)
    ensures Covered(rules, packages, plan, f)
  {
    assert PackageForFile(f, packages).Some?;
    var p := PackageForFile(f, packages).value;
    var keys := OwnerKeys(files, packages);
    OwnerListed(f, packages);
    assert OwnerOf(files, packages, f, p);
    OwnerKeyExact(files, packages, p.key);
    SeedReaches(packages, keys, p.key);
    var u := FirstUnsupported(keys);
    if u.Some? {
      OwnerKeyExact(files, packages, u.value);
      var f', p' :| OwnerOf(files, packages, f', p') && p'.key == u.value;
      OwnerListed(f', packages);
    }
  }

  lemma {:induction false} ReachedFromOneOwner(files: seq<string>, packages: seq<Package>, key: string)
    ensures Reaches(packages, OwnerKeys(files, packages), key) <==>
            exists f, p :: OwnerOf(files, packages, f, p) && Reaches(packages, [p.key], key)
  {
    var keys := OwnerKeys(files, packages);
    if Reaches(packages, keys, key) {
      var path :| PathFrom(packages, keys, key, path);
      OwnerKeyExact(files, packages, path[0]);
      var f, p :| OwnerOf(files, packages, f, p) && p.key == path[0];
      assert PathFrom(packages, [p.key], key, path);
    }
    if f, p :| OwnerOf(files, packages, f, p) && Reaches(packages, [p.key], key) {
      OwnerKeyExact(files, packages, p.key);
      var path :| PathFrom(packages, [p.key], key, path);
      assert PathFrom(packages, keys, key, path);
    }
  }

  /** At most one discovered package owns a file, so the order of the workspace does not matter. */
  lemma {:induction false} OwnerUnique(packages: seq<Package>, file: string, p: Package)
    requires Discovered(packages) && p in packages && Owns(p, file)
    ensures PackageForFile(file, packages) == Some(p)
  {
    OwnerListed(file, packages);
    var q := PackageForFile(file, packages).value;
    SameDirectory(p.directory, q.directory, file);
    var i :| 0 <= i < |packages| && packages[i] == p;
    var j :| 0 <= j < |packages| && packages[j] == q;
    assert i == j;
  }

  lemma {:induction false} SameDirectory(a: string, b: string, file: string)
    requires WorkspaceDirectory(a) && WorkspaceDirectory(b)
    requires file == a || a + "/" <= file
    requires file == b || b + "/" <= file
    ensures a == b
  {
    NotBelow(a, b);
    NotBelow(b, a);
    assert a <= file && b <= file;
    assert |a| < |b| ==> a + "/" <= b;
    assert |b| < |a| ==> b + "/" <= a;
  }

  /** No discovered directory lies inside another. */
  lemma {:induction false} NotBelow(a: string, b: string)
    requires WorkspaceDirectory(a) && WorkspaceDirectory(b)
    ensures !(a + "/" <= b)
  {
    if a + "/" <= b {
      SlashBelow(a, b);
    }
  }

  lemma {:induction false} SlashBelow(a: string, b: string)
    requires a != "" && a + "/" <= b
    ensures |a| < |b| && b[|a|] == '/' && b[0] == a[0]
  {
    assert (a + "/")[|a|] == '/' && (a + "/")[0] == a[0];
  }
}
