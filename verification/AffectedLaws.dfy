/**
 The plan of affected.ts in terms of the changed files: when it is the repository gate, when it is
 documentation only, and which reasons it gives.
 */
module AffectedLaws {
  import opened Wrappers
  import opened Sorting
  import opened Affected

  function Slashed(c: char): char {
    if c == '\\' then '/' else c
  }

  lemma {:induction false} SlashesAt(path: string, i: nat)
    requires i < |path|
    ensures |ForwardSlashes(path)| == |path| && ForwardSlashes(path)[i] == Slashed(path[i])
  {
    if |path| > 1 {
      SlashesAt(path[1..], if i > 0 then i - 1 else 0);
    } else {
      assert ForwardSlashes(path[1..]) == [];
    }
  }

  /** A path in its normal form: forward slashes only, and one leading `./` (or `.\`) taken off. */
  lemma {:induction false} NormalForm(path: string, i: nat)
    ensures var skip := if |path| >= 2 && path[0] == '.' && Slashed(path[1]) == '/' then 2 else 0;
            && |NormalizePath(path)| == |path| - skip
            && (i < |path| - skip ==> NormalizePath(path)[i] == Slashed(path[i + skip]))
  {
    forall k: nat | k < |path| ensures |ForwardSlashes(path)| == |path| && ForwardSlashes(path)[k] == Slashed(path[k]) {
      SlashesAt(path, k);
    }
    var p := ForwardSlashes(path);
    if |path| == 0 {
      assert p == "";
    } else {
      assert |p| == |path| && p[0] == Slashed(path[0]);
      if |path| >= 2 {
        assert p[1] == Slashed(path[1]);
        assert "./" <= p <==> p[0] == '.' && p[1] == '/';
      }
    }
  }

  /** The k-th package is the first whose directory the file is or lies below. */
  ghost predicate FirstOwner(packages: seq<Package>, file: string, k: nat) {
    && k < |packages| && Inside(packages[k].directory, file)
    && forall j :: 0 <= j < k ==> !Inside(packages[j].directory, file)
  }

  ghost predicate Inside(directory: string, file: string) {
    file == directory || exists rest :: file == directory + "/" + rest
  }

  lemma {:induction false} OwnsExact(p: Package, file: string)
    ensures Owns(p, file) <==> Inside(p.directory, file)
  {
    var prefix := p.directory + "/";
    if prefix <= file {
      assert file == prefix + file[|prefix|..];
    }
  }

  /** A file belongs to the first package that contains it. */
  lemma {:induction false} OwnerExact(packages: seq<Package>, file: string, p: Package)
    ensures PackageForFile(file, packages) == Some(p) <==> exists k: nat :: FirstOwner(packages, file, k) && packages[k] == p
  {
    if packages != [] {
      OwnsExact(packages[0], file);
      var rest := packages[1..];
      OwnerExact(rest, file, p);
      if Owns(packages[0], file) {
        assert FirstOwner(packages, file, 0);
      } else {
        if k: nat :| FirstOwner(rest, file, k) && rest[k] == p {
          assert FirstOwner(packages, file, k + 1);
        }
        if k: nat :| FirstOwner(packages, file, k) && packages[k] == p {
          assert FirstOwner(rest, file, k - 1);
        }
      }
    }
  }

  // ---- The first owner without a narrow gate ----

  predicate OwnerHas(files: seq<string>, packages: seq<Package>, i: nat, key: string)
    requires i < |files|
  {
    PackageForFile(files[i], packages).Some? && PackageForFile(files[i], packages).value.key == key
  }

  /** The owner of the i-th file has an unsupported key, and no earlier file an owner with one. */
  ghost predicate FirstUnsupportedAt(files: seq<string>, packages: seq<Package>, i: nat, key: string) {
    && i < |files| && OwnerHas(files, packages, i, key) && !Supported(key)
    && forall j: nat, k :: j < i && OwnerHas(files, packages, j, k) ==> Supported(k)
  }

  lemma {:induction false} FirstOfAppend(a: seq<string>, b: seq<string>)
    ensures FirstUnsupported(a + b) == if FirstUnsupported(a).Some? then FirstUnsupported(a) else FirstUnsupported(b)
  {
    if a == [] {
      assert a + b == b;
    } else {
      assert (a + b)[1..] == a[1..] + b;
      FirstOfAppend(a[1..], b);
    }
  }

  /** Repetitions do not change which key comes first. */
  lemma {:induction false} FirstOfDedup(keys: seq<string>)
    ensures FirstUnsupported(Dedup(keys)) == FirstUnsupported(keys)
  {
    if keys != [] {
      var front, last := keys[..|keys| - 1], keys[|keys| - 1];
      assert keys == front + [last];
      FirstOfDedup(front);
      FirstOfAppend(front, [last]);
      FirstOfAppend(Dedup(front), [last]);
    }
  }

  lemma {:induction false} FirstOfOwners(files: seq<string>, packages: seq<Package>, key: string)
    ensures FirstUnsupported(OwnersOf(files, packages)) == Some(key)
            <==> exists i: nat :: FirstUnsupportedAt(files, packages, i, key)
  {
    if files != [] {
      FirstOfOwners(files[1..], packages, key);
      var owner := PackageForFile(files[0], packages);
      var here := if owner.Some? then [owner.value.key] else [];
      FirstOfAppend(here, OwnersOf(files[1..], packages));
      assert owner.Some? ==> here[1..] == [];
      FirstMoves(files, packages, key);
    }
  }

  lemma {:induction false} FirstMoves(files: seq<string>, packages: seq<Package>, key: string)
    requires files != []
    ensures var owner := PackageForFile(files[0], packages);
            (exists i: nat :: FirstUnsupportedAt(files, packages, i, key)) <==>
              if owner.Some? && !Supported(owner.value.key) then owner.value.key == key
              else exists i: nat :: FirstUnsupportedAt(files[1..], packages, i, key)
  {
    var owner := PackageForFile(files[0], packages);
    if owner.Some? && !Supported(owner.value.key) {
      assert FirstUnsupportedAt(files, packages, 0, owner.value.key);
      assert OwnerHas(files, packages, 0, owner.value.key);
    } else {
      if i: nat :| FirstUnsupportedAt(files, packages, i, key) {
        FirstLater(files, packages, i, key);
      }
      if i: nat :| FirstUnsupportedAt(files[1..], packages, i, key) {
        FirstEarlier(files, packages, i, key);
      }
    }
  }

  lemma {:induction false} FirstLater(files: seq<string>, packages: seq<Package>, i: nat, key: string)
    requires files != [] && FirstUnsupportedAt(files, packages, i, key) && i > 0
    ensures FirstUnsupportedAt(files[1..], packages, i - 1, key)
  {
    forall j: nat, k | j < i - 1 && OwnerHas(files[1..], packages, j, k) ensures Supported(k) {
      assert OwnerHas(files, packages, j + 1, k);
    }
  }

  lemma {:induction false} FirstEarlier(files: seq<string>, packages: seq<Package>, i: nat, key: string)
    requires files != [] && FirstUnsupportedAt(files[1..], packages, i, key)
    requires forall k :: OwnerHas(files, packages, 0, k) ==> Supported(k)
    ensures FirstUnsupportedAt(files, packages, i + 1, key)
  {
    forall j: nat, k | j < i + 1 && OwnerHas(files, packages, j, k) ensures Supported(k) {
      assert j > 0 ==> OwnerHas(files[1..], packages, j - 1, k);
    }
  }

  // ---- The plan ----

  ghost predicate SomeRootFile(rules: Rules, files: seq<string>) {
    exists f :: f in files && rules.rootGate(f)
  }

  ghost predicate AllDocs(rules: Rules, files: seq<string>) {
    forall f :: f in files ==> rules.isDoc(f)
  }

  /** A file outside every package that is not documentation. */
  ghost predicate SomeStray(rules: Rules, files: seq<string>, packages: seq<Package>) {
    exists f :: f in files && !rules.isDoc(f) && forall p :: p in packages ==> !Inside(p.directory, f)
  }

  /** The first owner without a narrow gate has this key; documentation alone does not count. */
  ghost predicate Ungated(rules: Rules, files: seq<string>, packages: seq<Package>, key: string) {
    !AllDocs(rules, files) && exists i: nat :: FirstUnsupportedAt(files, packages, i, key)
  }

  ghost predicate NothingReached(files: seq<string>, packages: seq<Package>) {
    forall key :: Supported(key) ==> !Reaches(packages, OwnerKeys(files, packages), key)
  }

  lemma {:induction false} UngatedExact(rules: Rules, files: seq<string>, packages: seq<Package>, key: string)
    ensures UnsupportedOwner(rules, files, packages) == Some(key) <==> Ungated(rules, files, packages, key)
  {
    FirstOfDedup(OwnersOf(files, packages));
    FirstOfOwners(files, packages, key);
  }

  lemma {:induction false} StrayExact(rules: Rules, files: seq<string>, packages: seq<Package>)
    ensures HasUnknownFile(rules, files, packages) <==> SomeStray(rules, files, packages)
  {
    forall f ensures PackageForFile(f, packages) == None <==> forall p :: p in packages ==> !Inside(p.directory, f) {
      OwnerListed(f, packages);
      forall p | p in packages ensures Owns(p, f) <==> Inside(p.directory, f) {
        OwnsExact(p, f);
      }
    }
  }

  lemma {:induction false} GateExact(rules: Rules, files: seq<string>, packages: seq<Package>)
    ensures NeedsRepositoryGate(rules, files, packages) <==>
              || SomeRootFile(rules, files) || SomeStray(rules, files, packages)
              || exists key :: key != "" && Ungated(rules, files, packages, key)
  {
    StrayExact(rules, files, packages);
    forall key ensures UnsupportedOwner(rules, files, packages) == Some(key) <==> Ungated(rules, files, packages, key) {
      UngatedExact(rules, files, packages, key);
    }
  }

  /**
   The plan is the repository gate exactly when a file calls for it, or one outside every package is not
   documentation, or not everything is documentation and the first owner without a narrow gate has a
   nonempty key, or nothing supported depends on an owner. It is documentation exactly when all files are
   and none calls for the gate.
   */
  lemma {:induction false} RepositoryExact(rules: Rules, files: seq<string>, packages: seq<Package>, plan: Plan)
    requires IsPlan(rules, files, packages, plan)
    ensures plan.repository <==>
              || SomeRootFile(rules, files) || SomeStray(rules, files, packages)
              || (exists key :: key != "" && Ungated(rules, files, packages, key))
              || (!AllDocs(rules, files) && NothingReached(files, packages))
    ensures plan.docsOnly <==> files != [] && AllDocs(rules, files) && !SomeRootFile(rules, files)
    ensures plan.changedFiles == files
    ensures plan.domains == if files == [] || plan.repository || plan.docsOnly then [] else rules.domainsFor(files)
  {
    GateExact(rules, files, packages);
    if !AllDocs(rules, files) && !NeedsRepositoryGate(rules, files, packages) {
      PackagesOrNothing(rules, files, packages, plan);
    }
  }

  lemma {:induction false} PackagesOrNothing(rules: Rules, files: seq<string>, packages: seq<Package>, plan: Plan)
    requires IsPlan(rules, files, packages, plan)
    requires !AllDocs(rules, files) && !NeedsRepositoryGate(rules, files, packages)
    ensures plan.repository <==> NothingReached(files, packages)
    ensures !plan.docsOnly && plan.changedFiles == files
    ensures plan.domains == if plan.repository then [] else rules.domainsFor(files)
  {
    assert NothingReached(files, packages) <==> IsAffectedList(rules, files, packages, []);
  }

  /** The planned packages are sorted, each once: the supported ones that depend on an owner. */
  lemma {:induction false} PackagesExact(rules: Rules, files: seq<string>, packages: seq<Package>, plan: Plan, key: string)
    requires IsPlan(rules, files, packages, plan)
    ensures Sorted(rules.leq, plan.packages) && Distinct(plan.packages)
    ensures key in plan.packages <==>
              && files != [] && !plan.repository && !plan.docsOnly
              && Supported(key) && exists f, p :: OwnerOf(files, packages, f, p) && Reaches(packages, [p.key], key)
  {
    if files != [] && !plan.repository && !plan.docsOnly {
      ReachedFromOneOwner(files, packages, key);
    }
  }

  // ---- Its reasons ----

  function Rank(reason: Reason): nat {
    match reason
    case NoChangedFiles => 0
    case RootFileChanged => 1
    case UnsupportedPackage(_) => 2
    case DocsOnlyChanged => 3
    case UnknownFile => 4
    case NoSupportedPackage => 5
    case RunClosure(_) => 6
  }

  ghost predicate InOrder(reasons: seq<Reason>) {
    forall i, j :: 0 <= i < j < |reasons| ==> Rank(reasons[i]) < Rank(reasons[j])
  }

  /** At most one more reason, of a higher rank than those before. */
  lemma {:induction false} OneMore(a: seq<Reason>, b: seq<Reason>, rank: nat)
    requires InOrder(a) && (forall x :: x in a ==> Rank(x) < rank)
    requires |b| <= 1 && forall x :: x in b ==> Rank(x) == rank
    ensures InOrder(a + b) && forall x :: x in a + b ==> Rank(x) < rank + 1
  {
    forall i, j | 0 <= i < j < |a + b| ensures Rank((a + b)[i]) < Rank((a + b)[j]) {
      assert (a + b)[i] == a[i];
      if j < |a| {
        assert (a + b)[j] == a[j];
      } else {
        assert (a + b)[j] in b;
      }
    }
  }

  lemma {:induction false} TwoInOrder(a: seq<Reason>, b: seq<Reason>, rank: nat)
    requires |a| <= 1 && |b| <= 1
    requires (forall x :: x in a ==> Rank(x) == rank) && (forall x :: x in b ==> Rank(x) == rank + 1)
    ensures InOrder(a + b) && forall x :: x in a + b ==> rank <= Rank(x) < rank + 2
  {
    OneMore([], a, rank);
    assert [] + a == a;
    OneMore(a, b, rank + 1);
  }

  lemma {:induction false} FourInOrder(a: seq<Reason>, b: seq<Reason>)
    requires InOrder(a) && InOrder(b)
    requires (forall x :: x in a ==> 0 < Rank(x) < 3) && (forall x :: x in b ==> 3 <= Rank(x) < 5)
    ensures InOrder(a + b) && forall x :: x in a + b ==> 0 < Rank(x) < 5
  {
    forall i, j | 0 <= i < j < |a + b| ensures Rank((a + b)[i]) < Rank((a + b)[j]) {
      if j < |a| {
        assert (a + b)[i] == a[i] && (a + b)[j] == a[j];
      } else if i < |a| {
        assert (a + b)[i] in a && (a + b)[j] in b;
      } else {
        assert (a + b)[i] == b[i - |a|] && (a + b)[j] == b[j - |a|];
      }
    }
  }

  lemma {:induction false} CollectedOrder(root: bool, owner: Option<string>, docs: bool, unknown: bool)
    ensures InOrder(ReasonsFor(root, owner, docs, unknown))
    ensures forall x :: x in ReasonsFor(root, owner, docs, unknown) ==> 0 < Rank(x) < 5
  {
    var a := if root then [RootFileChanged] else [];
    var b := if Truthy(owner) then [UnsupportedPackage(owner.value)] else [];
    var c := if docs then [DocsOnlyChanged] else [];
    var d := if unknown then [UnknownFile] else [];
    TwoInOrder(a, b, 1);
    TwoInOrder(c, d, 3);
    FourInOrder(a + b, c + d);
    assert a + b + c + d == (a + b) + (c + d);
  }

  lemma {:induction false} CollectedReasons(root: bool, owner: Option<string>, docs: bool, unknown: bool)
    ensures var r := ReasonsFor(root, owner, docs, unknown);
            && (RootFileChanged in r <==> root) && (DocsOnlyChanged in r <==> docs) && (UnknownFile in r <==> unknown)
            && (forall key :: UnsupportedPackage(key) in r <==> owner == Some(key) && key != "")
  {
  }

  /** What the branches have in common. */
  ghost predicate FirstExact(rules: Rules, files: seq<string>, packages: seq<Package>, first: seq<Reason>) {
    && (RootFileChanged in first <==> SomeRootFile(rules, files))
    && (DocsOnlyChanged in first <==> AllDocs(rules, files))
    && (UnknownFile in first <==> SomeStray(rules, files, packages))
    && (forall key :: UnsupportedPackage(key) in first <==> key != "" && Ungated(rules, files, packages, key))
  }

  lemma {:induction false} FirstReasonsExact(rules: Rules, files: seq<string>, packages: seq<Package>)
    ensures FirstExact(rules, files, packages, FirstReasons(rules, files, packages))
  {
    var owner := UnsupportedOwner(rules, files, packages);
    StrayExact(rules, files, packages);
    CollectedReasons(
      RootChanged(rules, files), owner, DocsOnly(rules, files), HasUnknownFile(rules, files, packages));
    forall key ensures owner == Some(key) <==> Ungated(rules, files, packages, key) {
      UngatedExact(rules, files, packages, key);
    }
  }

  /** Each reason is given exactly when it holds, in a fixed order. */
  lemma {:induction false} ReasonsExact(rules: Rules, files: seq<string>, packages: seq<Package>, plan: Plan)
    requires IsPlan(rules, files, packages, plan)
    ensures InOrder(plan.reasons)
    ensures if files == [] then plan.reasons == [NoChangedFiles]
            else NoChangedFiles !in plan.reasons && FirstExact(rules, files, packages, plan.reasons)
    ensures forall list :: RunClosure(list) in plan.reasons <==>
              files != [] && !plan.repository && !plan.docsOnly && list == plan.packages
  {
    if files != [] {
      var first := FirstReasons(rules, files, packages);
      FirstReasonsExact(rules, files, packages);
      CollectedOrder(
        RootChanged(rules, files), UnsupportedOwner(rules, files, packages), DocsOnly(rules, files),
        HasUnknownFile(rules, files, packages));
      var tail := LastReason(rules, files, packages, plan, first);
      Joined(first, tail, plan);
    }
  }

  lemma {:induction false} Joined(first: seq<Reason>, tail: seq<Reason>, plan: Plan)
    requires plan.reasons == first + tail && InOrder(first) && forall x :: x in first ==> 0 < Rank(x) < 5
    requires tail == if !plan.repository && !plan.docsOnly then [RunClosure(plan.packages)]
                     else if |tail| == 1 then [NoSupportedPackage] else []
    ensures InOrder(plan.reasons) && forall x :: Rank(x) < 5 ==> (x in plan.reasons <==> x in first)
    ensures NoChangedFiles !in plan.reasons
    ensures forall list :: RunClosure(list) in plan.reasons <==> !plan.repository && !plan.docsOnly && list == plan.packages
  {
    OneMore(first, tail, if tail == [NoSupportedPackage] then 5 else 6);
  }

  lemma {:induction false} LastReason(rules: Rules, files: seq<string>, packages: seq<Package>, plan: Plan, first: seq<Reason>)
    returns (tail: seq<Reason>)
    requires IsPlan(rules, files, packages, plan) && files != [] && first == FirstReasons(rules, files, packages)
    ensures plan.reasons == first + tail
    ensures tail == if !plan.repository && !plan.docsOnly then [RunClosure(plan.packages)]
                    else if |tail| == 1 then [NoSupportedPackage] else []
  {
    if NeedsRepositoryGate(rules, files, packages) || DocsOnly(rules, files) {
      tail := [];
    } else if plan.repository {
      tail := [NoSupportedPackage];
    } else {
      tail := [RunClosure(plan.packages)];
    }
  }
}
