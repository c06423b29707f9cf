/**
 Which files enter a cache key, and the text that is hashed (scripts/test-feedback/cache-key.ts).
 The hash itself is a parameter; path order is the order the entries are sorted by.
 */
module CacheKey {
  import opened Sequences
  import opened Sorting
  import opened Glob
  import opened GlobLanguage

  /** turboGlobMatches as a predicate. */
  ghost predicate GlobMatches(path: string, pattern: string) {
    Accepts(Tokens(Normalize(pattern)), Normalize(path))
  }

  predicate Negated(input: string) {
    input != [] && input[0] == '!'
  }

  /** Some positive input matches and no negated one does. */
  ghost predicate InputMatches(path: string, inputs: seq<string>) {
    && (exists i :: 0 <= i < |inputs| && !Negated(inputs[i]) && GlobMatches(path, inputs[i]))
    && !(exists i :: 0 <= i < |inputs| && Negated(inputs[i]) && GlobMatches(path, inputs[i][1..]))
  }

  method TurboInputMatches(path: string, inputs: seq<string>) returns (b: bool)
    ensures b <==> InputMatches(path, inputs)
  {
    b := false;
    for i := 0 to |inputs|
      invariant b <==> exists k :: 0 <= k < i && !Negated(inputs[k]) && GlobMatches(path, inputs[k])
    {
      if !Negated(inputs[i]) {
        var m := TurboGlobMatches(path, inputs[i]);
        b := b || m;
      }
    }
    if !b {
      return;
    }
    for i := 0 to |inputs|
      invariant forall k :: 0 <= k < i && Negated(inputs[k]) ==> !GlobMatches(path, inputs[k][1..])
    {
      if Negated(inputs[i]) {
        var m := TurboGlobMatches(path, inputs[i][1..]);
        if m {
          return false;
        }
      }
    }
  }

  /** Some negated input excludes the path. */
  ghost predicate Excluded(path: string, inputs: seq<string>) {
    exists g :: ['!'] + g in inputs && GlobMatches(path, g)
  }

  /** Inputs one by one: a pattern lets in what nothing excludes, and `!` before a pattern takes away what it matches. */
  lemma {:induction false} OneMoreInput(path: string, inputs: seq<string>, g: string)
    ensures !InputMatches(path, [])
    ensures g == [] || g[0] != '!' ==>
              (InputMatches(path, inputs + [g]) <==> InputMatches(path, inputs) || (GlobMatches(path, g) && !Excluded(path, inputs)))
    ensures InputMatches(path, inputs + [['!'] + g]) <==> InputMatches(path, inputs) && !GlobMatches(path, g)
  {
    ExcludedExact(path, inputs);
    MoreInputs(path, inputs, g);
    MoreInputs(path, inputs, ['!'] + g);
    assert (['!'] + g)[1..] == g;
  }

  ghost predicate LetIn(path: string, inputs: seq<string>) {
    exists i :: 0 <= i < |inputs| && !Negated(inputs[i]) && GlobMatches(path, inputs[i])
  }

  ghost predicate ShutOut(path: string, inputs: seq<string>) {
    exists i :: 0 <= i < |inputs| && Negated(inputs[i]) && GlobMatches(path, inputs[i][1..])
  }

  lemma {:induction false} MoreInputs(path: string, inputs: seq<string>, p: string)
    ensures LetIn(path, inputs + [p]) <==> LetIn(path, inputs) || (!Negated(p) && GlobMatches(path, p))
    ensures ShutOut(path, inputs + [p]) <==> ShutOut(path, inputs) || (Negated(p) && GlobMatches(path, p[1..]))
  {
    var all := inputs + [p];
    assert all[|inputs|] == p;
    assert forall i :: 0 <= i < |inputs| ==> all[i] == inputs[i];
  }

  lemma {:induction false} ExcludedExact(path: string, inputs: seq<string>)
    ensures Excluded(path, inputs) <==> ShutOut(path, inputs)
  {
    if i :| 0 <= i < |inputs| && Negated(inputs[i]) && GlobMatches(path, inputs[i][1..]) {
      assert inputs[i] == ['!'] + inputs[i][1..];
    }
    if g :| ['!'] + g in inputs && GlobMatches(path, g) {
      var i :| 0 <= i < |inputs| && inputs[i] == ['!'] + g;
      assert inputs[i][1..] == g;
    }
  }

  datatype Entry = Entry(path: string, contents: string)

  type PathOrder = (string, string) -> bool

  function ByPath(leq: PathOrder): (Entry, Entry) -> bool {
    (a: Entry, b: Entry) => leq(a.path, b.path)
  }

  /** The entries of a map, in some insertion order. */
  ghost predicate EntriesOf(entries: seq<Entry>, files: map<string, string>) {
    && Distinct(entries)
    && (forall e: Entry :: e in entries <==> e.path in files && files[e.path] == e.contents)
  }

  ghost function Matching(inputs: seq<string>): Entry -> bool {
    (e: Entry) => InputMatches(e.path, inputs)
  }

  /** The part of a file map the inputs select. */
  ghost function Selected(files: map<string, string>, inputs: seq<string>): map<string, string> {
    map p | p in files && InputMatches(p, inputs) :: files[p]
  }

  function Framed(e: Entry): string {
    e.path + ['\0'] + e.contents + ['\0']
  }

  /** The hashed text: every path and every contents closed by a NUL. */
  function Frame(entries: seq<Entry>): string {
    if entries == [] then []
    else Framed(entries[0]) + Frame(entries[1..])
  }

  ghost function Hashed(entries: seq<Entry>, inputs: seq<string>, leq: PathOrder): string {
    Frame(Filter(Matching(inputs), SortBy(ByPath(leq), entries)))
  }

  lemma {:induction false} FrameAppend(a: seq<Entry>, b: seq<Entry>)
    ensures Frame(a + b) == Frame(a) + Frame(b)
  {
    if a == [] {
      assert a + b == b;
    } else {
      FrameAppend(a[1..], b);
      assert (a + b)[1..] == a[1..] + b;
      Assoc(Framed(a[0]), Frame(a[1..]), Frame(b));
    }
  }

  lemma {:induction false} FramePush(sorted: seq<Entry>, i: nat, inputs: seq<string>)
    requires i < |sorted|
    ensures var p := Matching(inputs);
            var e := sorted[i];
            Frame(Filter(p, sorted[..i + 1]))
            == Frame(Filter(p, sorted[..i])) + if p(e) then Framed(e) else []
  {
    var p, e := Matching(inputs), sorted[i];
    assert sorted[..i + 1] == sorted[..i] + [e];
    FilterPush(p, sorted[..i], e);
    FrameAppend(Filter(p, sorted[..i]), [e]);
    assert [e][1..] == [] && Frame([e]) == Framed(e) + Frame([e][1..]) == Framed(e);
  }

  /** The update loop over the sorted entries. */
  method TurboCacheKey(entries: seq<Entry>, inputs: seq<string>, leq: PathOrder, hash: string -> string)
    returns (key: string)
    ensures key == hash(Hashed(entries, inputs, leq))
  {
    var sorted := SortBy(ByPath(leq), entries);
    var stream := "";
    for i := 0 to |sorted|
      invariant stream == Frame(Filter(Matching(inputs), sorted[..i]))
    {
      FramePush(sorted, i, inputs);
      var m := TurboInputMatches(sorted[i].path, inputs);
      if m {
        var framed := sorted[i].path + ['\0'] + sorted[i].contents + ['\0'];
        stream := stream + framed;
      }
    }
    assert sorted[..|sorted|] == sorted;
    key := hash(stream);
  }

  // ---- What is hashed ----

  /** The hashed entries are the selected ones, sorted. */
  lemma {:induction false} HashedEntries(
    entries: seq<Entry>, files: map<string, string>, inputs: seq<string>, leq: PathOrder) returns (es: seq<Entry>)
    requires TotalPreorder(leq) && EntriesOf(entries, files)
    ensures es == Filter(Matching(inputs), SortBy(ByPath(leq), entries))
    ensures Sorted(ByPath(leq), es) && Distinct(es) && TotalPreorder(ByPath(leq))
    ensures var sel := Selected(files, inputs);
            forall e: Entry :: e in es <==> e.path in sel && sel[e.path] == e.contents
  {
    var sorted := SortBy(ByPath(leq), entries);
    es := Filter(Matching(inputs), sorted);
    SortBySorted(ByPath(leq), entries);
    FilterSorted(ByPath(leq), Matching(inputs), sorted);
    SortByDistinct(ByPath(leq), entries);
    FilterDistinct(Matching(inputs), sorted);
  }

  /** Insertion order and unselected files never reach the hash. */
  lemma {:induction false} HashDependsOnSelection(
    a: seq<Entry>, fa: map<string, string>, b: seq<Entry>, fb: map<string, string>, inputs: seq<string>, leq: PathOrder)
    requires TotalOrder(leq) && EntriesOf(a, fa) && EntriesOf(b, fb)
    requires Selected(fa, inputs) == Selected(fb, inputs)
    ensures Hashed(a, inputs, leq) == Hashed(b, inputs, leq)
  {
    var es := HashedEntries(a, fa, inputs, leq);
    var fs := HashedEntries(b, fb, inputs, leq);
    DistinctPermutation(es, fs);
    forall x, y | x in es && y in es && ByPath(leq)(x, y) && ByPath(leq)(y, x) ensures x == y {
      assert x.path == y.path;
    }
    SortedUnique(ByPath(leq), es, fs);
  }
}
