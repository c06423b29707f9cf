/**
 The server test manifest (packages/server/scripts/server-test-manifest.ts): every discovered file
 under the category the classifier gives it, and its validation. Discovery and the classifier are
 parameters.
 */
module TestManifest {
  import opened Wrappers
  import opened Sorting
  import opened ShardBalancer

  const CATEGORIES: seq<Category> := [Unit, Database, Filesystem, Git, Process, Contract]

  type Manifest = map<Category, seq<string>>

  function FilesOf(manifest: Manifest, c: Category): seq<string> {
    if c in manifest then manifest[c] else []
  }

  function InCategory(classify: string -> Category, c: Category): string -> bool {
    f => classify(f) == c
  }

  ghost predicate ManifestOf(manifest: Manifest, files: seq<string>, classify: string -> Category) {
    forall c: Category :: c in manifest && manifest[c] == Filter(InCategory(classify, c), files)
  }

  /** Push each discovered file onto the list of its category. */
  method BuildManifest(discovered: seq<string>, classify: string -> Category) returns (manifest: Manifest)
    ensures ManifestOf(manifest, discovered, classify)
  {
    manifest := map[Unit := [], Database := [], Filesystem := [], Git := [], Process := [], Contract := []];
    NothingPushed(manifest, classify);
    assert discovered[..0] == [];
    for i := 0 to |discovered|
      invariant ManifestOf(manifest, discovered[..i], classify)
    {
      var category := classify(discovered[i]);
      OnePushed(manifest, discovered[..i], classify, discovered[i]);
      assert discovered[..i + 1] == discovered[..i] + [discovered[i]];
      manifest := manifest[category := manifest[category] + [discovered[i]]];
    }
    assert discovered[..|discovered|] == discovered;
  }

  lemma {:induction false} NothingPushed(manifest: Manifest, classify: string -> Category)
    requires manifest == map[Unit := [], Database := [], Filesystem := [], Git := [], Process := [], Contract := []]
    ensures ManifestOf(manifest, [], classify)
  {
    forall c: Category ensures c in manifest && manifest[c] == [] {
      match c
      case Unit | Database | Filesystem | Git | Process | Contract =>
    }
  }

  lemma {:induction false} OnePushed(manifest: Manifest, files: seq<string>, classify: string -> Category, file: string)
    requires ManifestOf(manifest, files, classify)
    ensures ManifestOf(
              manifest[classify(file) := manifest[classify(file)] + [file]], files + [file], classify)
  {
    var next := manifest[classify(file) := manifest[classify(file)] + [file]];
    forall c: Category ensures c in next && next[c] == Filter(InCategory(classify, c), files + [file]) {
      FilterPush(InCategory(classify, c), files, file);
      assert manifest[c] == Filter(InCategory(classify, c), files);
    }
  }

  datatype ManifestError =
    | DuplicateFiles(duplicates: seq<string>)
    | CoverageMismatch(missing: seq<string>, unexpected: seq<string>)
    | EmptyCategory(category: Category)

  /** All files of the listed categories, in order. */
  function FilesIn(manifest: Manifest, cs: seq<Category>): seq<string> {
    if cs == [] then [] else FilesOf(manifest, cs[0]) + FilesIn(manifest, cs[1..])
  }

  function Repeats(s: seq<string>): seq<string> {
    if s == [] then []
    else Repeats(s[..|s| - 1]) + if s[|s| - 1] in s[..|s| - 1] then [s[|s| - 1]] else []
  }

  function FirstEmpty(manifest: Manifest, cs: seq<Category>): (r: Option<Category>)
    ensures r == None <==> forall c :: c in cs ==> FilesOf(manifest, c) != []
  {
    if cs == [] then None
    else if FilesOf(manifest, cs[0]) == [] then Some(cs[0])
    else FirstEmpty(manifest, cs[1..])
  }

  function ValidateManifest(manifest: Manifest, discovered: seq<string>): Result<(), ManifestError> {
    var listed := FilesIn(manifest, CATEGORIES);
    var missing := Filter(f => f !in listed, discovered);
    var unexpected := Filter(f => f !in discovered, listed);
    if |listed| != |set f | f in listed| then Err(DuplicateFiles(Dedup(Repeats(listed))))
    else if |missing| > 0 || |unexpected| > 0 then Err(CoverageMismatch(missing, unexpected))
    else match FirstEmpty(manifest, CATEGORIES)
      case Some(c) => Err(EmptyCategory(c))
      case None => Ok(())
  }

  lemma {:induction false} DistinctBySetSize(s: seq<string>)
    ensures |set f | f in s| <= |s|
    ensures |set f | f in s| == |s| <==> Distinct(s)
  {
    if s != [] {
      var front, last := s[..|s| - 1], s[|s| - 1];
      DistinctBySetSize(front);
      var all, before := set f | f in s, set f | f in front;
      assert s == front + [last];
      assert all == before + {last};
      if last in front {
        assert all == before;
      } else {
        assert |all| == |before| + 1;
      }
    }
  }

  /** A manifest is accepted exactly when it is a partition of the discovered files with no empty category. */
  lemma {:induction false} ValidationIsExact(manifest: Manifest, discovered: seq<string>)
    ensures ValidateManifest(manifest, discovered).Ok? <==>
            && Distinct(FilesIn(manifest, CATEGORIES))
            && (forall f :: f in FilesIn(manifest, CATEGORIES) <==> f in discovered)
            && (forall c: Category :: FilesOf(manifest, c) != [])
  {
    var listed := FilesIn(manifest, CATEGORIES);
    var missing := Filter(f => f !in listed, discovered);
    var unexpected := Filter(f => f !in discovered, listed);
    DistinctBySetSize(listed);
    if |missing| > 0 {
      assert missing[0] in missing;
    }
    if |unexpected| > 0 {
      assert unexpected[0] in unexpected;
    }
    forall f | f in listed && f !in discovered ensures f in unexpected {}
    forall f | f in discovered && f !in listed ensures f in missing {}
    forall c: Category {
      Listed(c);
    }
  }

  /** The file is listed at two places. */
  ghost predicate ListedTwice(s: seq<string>, f: string) {
    exists i, j :: 0 <= i < j < |s| && s[i] == f && s[j] == f
  }

  lemma {:induction false} TwiceAppend(front: seq<string>, last: string, f: string)
    ensures ListedTwice(front + [last], f) <==> ListedTwice(front, f) || (last == f && f in front)
  {
    var s, n := front + [last], |front|;
    if i, j :| 0 <= i < j < |s| && s[i] == f && s[j] == f {
      assert s[i] == front[i];
      assert j < n ==> s[j] == front[j];
    }
    if i, j :| 0 <= i < j < n && front[i] == f && front[j] == f {
      assert s[i] == f && s[j] == f;
    }
    if last == f && f in front {
      var i :| 0 <= i < n && front[i] == f;
      assert s[i] == f && s[n] == f;
    }
  }

  lemma {:induction false} RepeatsExact(s: seq<string>, f: string)
    ensures f in Repeats(s) <==> ListedTwice(s, f)
  {
    if s != [] {
      var front, last := s[..|s| - 1], s[|s| - 1];
      RepeatsExact(front, f);
      TwiceAppend(front, last, f);
      assert s == front + [last];
    }
  }

  /**
   What a refusal says: the files listed twice, each once; else the discovered files that are missing and
   the listed ones that were not discovered; else the first category without files.
   */
  lemma {:induction false} RefusalExact(manifest: Manifest, discovered: seq<string>, f: string)
    ensures var listed, r := FilesIn(manifest, CATEGORIES), ValidateManifest(manifest, discovered);
            r.Err? ==>
              match r.error
              case DuplicateFiles(duplicates) =>
                Distinct(duplicates) && duplicates != [] && (f in duplicates <==> ListedTwice(listed, f))
              case CoverageMismatch(missing, unexpected) =>
                && Distinct(listed) && (missing != [] || unexpected != [])
                && (f in missing <==> f in discovered && f !in listed)
                && (f in unexpected <==> f in listed && f !in discovered)
              case EmptyCategory(c) =>
                && Distinct(listed) && (forall g :: g in listed <==> g in discovered)
                && FirstWithout(manifest, CATEGORIES, c)
  {
    var listed, r := FilesIn(manifest, CATEGORIES), ValidateManifest(manifest, discovered);
    DistinctBySetSize(listed);
    if r.Err? {
      match r.error
      case DuplicateFiles(duplicates) =>
        DuplicatesExact(listed, f);
      case CoverageMismatch(_, _) =>
      case EmptyCategory(c) =>
        CoverageExact(listed, discovered);
        FirstEmptyExact(manifest, CATEGORIES);
    }
  }

  lemma {:induction false} DuplicatesExact(listed: seq<string>, f: string)
    requires !Distinct(listed)
    ensures Distinct(Dedup(Repeats(listed))) && Dedup(Repeats(listed)) != []
    ensures f in Dedup(Repeats(listed)) <==> ListedTwice(listed, f)
  {
    RepeatsExact(listed, f);
    var i, j :| 0 <= i < j < |listed| && listed[i] == listed[j];
    RepeatsExact(listed, listed[i]);
    assert listed[i] in Dedup(Repeats(listed));
  }

  lemma {:induction false} CoverageExact(listed: seq<string>, discovered: seq<string>)
    requires Filter(f => f !in listed, discovered) == [] && Filter(f => f !in discovered, listed) == []
    ensures forall f :: f in listed <==> f in discovered
  {
    forall f ensures f in listed <==> f in discovered {
      assert f in Filter(g => g !in listed, discovered) <==> f in discovered && f !in listed;
      assert f in Filter(g => g !in discovered, listed) <==> f in listed && f !in discovered;
    }
  }

  /** The category has no files, and all those before it have some. */
  ghost predicate FirstWithout(manifest: Manifest, cs: seq<Category>, c: Category) {
    exists k: nat :: k < |cs| && cs[k] == c && FilesOf(manifest, c) == []
                     && forall j :: 0 <= j < k ==> FilesOf(manifest, cs[j]) != []
  }

  lemma {:induction false} FirstEmptyExact(manifest: Manifest, cs: seq<Category>)
    ensures FirstEmpty(manifest, cs).Some? ==> FirstWithout(manifest, cs, FirstEmpty(manifest, cs).value)
  {
    if cs != [] && FilesOf(manifest, cs[0]) != [] {
      var rest := cs[1..];
      FirstEmptyExact(manifest, rest);
      if FirstEmpty(manifest, cs).Some? {
        var c := FirstEmpty(manifest, cs).value;
        var k: nat :| k < |rest| && rest[k] == c && FilesOf(manifest, c) == []
                      && forall j :: 0 <= j < k ==> FilesOf(manifest, rest[j]) != [];
        assert cs[k + 1] == c;
        assert forall j :: 0 < j < k + 1 ==> cs[j] == rest[j - 1];
      }
    }
  }

  lemma {:induction false} Listed(c: Category)
    ensures c in CATEGORIES
  {
    match c
    case Unit => assert CATEGORIES[0] == c;
    case Database => assert CATEGORIES[1] == c;
    case Filesystem => assert CATEGORIES[2] == c;
    case Git => assert CATEGORIES[3] == c;
    case Process => assert CATEGORIES[4] == c;
    case Contract => assert CATEGORIES[5] == c;
  }

  lemma {:induction false} FilesInAppend(manifest: Manifest, a: seq<Category>, b: seq<Category>)
    ensures FilesIn(manifest, a + b) == FilesIn(manifest, a) + FilesIn(manifest, b)
  {
    if a == [] {
      assert a + b == b;
    } else {
      FilesInAppend(manifest, a[1..], b);
      assert (a + b)[1..] == a[1..] + b;
    }
  }

  lemma {:induction false} PartsDistinct(manifest: Manifest, cs: seq<Category>, c: Category)
    requires Distinct(FilesIn(manifest, cs)) && c in cs
    ensures Distinct(FilesOf(manifest, c))
  {
    var head, tail := FilesOf(manifest, cs[0]), FilesIn(manifest, cs[1..]);
    var all := FilesIn(manifest, cs);
    if cs[0] == c {
      forall i, j | 0 <= i < j < |head| ensures head[i] != head[j] {
        assert all[i] == head[i] && all[j] == head[j];
      }
    } else {
      forall i, j | 0 <= i < j < |tail| ensures tail[i] != tail[j] {
        assert all[|head| + i] == tail[i] && all[|head| + j] == tail[j];
      }
      PartsDistinct(manifest, cs[1..], c);
    }
  }

  ghost predicate Occurs(discovered: seq<string>, classify: string -> Category, c: Category) {
    exists f :: f in discovered && classify(f) == c
  }

  lemma {:induction false} BuiltIsPartition(manifest: Manifest, discovered: seq<string>, classify: string -> Category)
    requires ManifestOf(manifest, discovered, classify) && Distinct(discovered)
    ensures Distinct(FilesIn(manifest, CATEGORIES))
    ensures forall f :: f in FilesIn(manifest, CATEGORIES) <==> f in discovered
  {
    var all := FilesIn(manifest, CATEGORIES);
    forall f ensures multiset(all)[f] == (if f in discovered then 1 else 0) && (f in all <==> f in discovered) {
      CountIn(manifest, discovered, classify, CATEGORIES, f);
      Listed(classify(f));
      assert f in all <==> multiset(all)[f] > 0;
    }
    CountsDistinct(all);
  }

  lemma {:induction false} BuiltCategory(manifest: Manifest, discovered: seq<string>, classify: string -> Category, c: Category)
    requires ManifestOf(manifest, discovered, classify)
    ensures FilesOf(manifest, c) != [] <==> Occurs(discovered, classify, c)
  {
    var files := Filter(InCategory(classify, c), discovered);
    if files != [] {
      assert files[0] in files;
    }
  }

  /** The manifest the classifier builds passes, unless some category is empty. */
  lemma {:induction false} BuiltManifestValid(manifest: Manifest, discovered: seq<string>, classify: string -> Category)
    requires ManifestOf(manifest, discovered, classify) && Distinct(discovered)
    ensures ValidateManifest(manifest, discovered).Ok? <==> forall c: Category :: Occurs(discovered, classify, c)
  {
    BuiltIsPartition(manifest, discovered, classify);
    ValidationIsExact(manifest, discovered);
    forall c: Category {
      BuiltCategory(manifest, discovered, classify, c);
    }
  }

  lemma {:induction false} CountIn(
    manifest: Manifest, discovered: seq<string>, classify: string -> Category, cs: seq<Category>, f: string)
    requires ManifestOf(manifest, discovered, classify) && Distinct(discovered)
    requires forall i, j :: 0 <= i < j < |cs| ==> cs[i] != cs[j]
    ensures multiset(FilesIn(manifest, cs))[f] == if f in discovered && classify(f) in cs then 1 else 0
  {
    if cs != [] {
      var p := InCategory(classify, cs[0]);
      CountIn(manifest, discovered, classify, cs[1..], f);
      FilterDistinct(p, discovered);
      DistinctCount(Filter(p, discovered), f);
      assert cs == [cs[0]] + cs[1..];
    }
  }
}
