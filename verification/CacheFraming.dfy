/**
 Exactly when the text hashed for a cache key (scripts/test-feedback/cache-key.ts) can be read back:
 every path and every contents is closed by a NUL, and a NUL inside one is not told apart from those.
 */
module CacheFraming {
  import opened Sorting
  import opened Glob
  import opened GlobSegments
  import opened GlobTerminators
  import opened CacheKey

  ghost predicate NulFree(e: Entry) {
    '\0' !in e.path && '\0' !in e.contents
  }

  /** A NUL-closed field is read back uniquely. */
  lemma {:induction false} FieldUnique(a: string, rest: string, b: string, rest': string)
    requires '\0' !in a && '\0' !in b
    requires a + ['\0'] + rest == b + ['\0'] + rest'
    ensures a == b && rest == rest'
  {
    var s := a + ['\0'] + rest;
    assert s[|a|] == '\0' && s[|b|] == '\0';
    assert forall i :: 0 <= i < |a| ==> s[i] == a[i];
    assert forall i :: 0 <= i < |b| ==> s[i] == b[i];
    assert |a| == |b|;
    assert s[..|a|] == a && s[..|b|] == b;
    assert s[|a| + 1..] == rest && s[|b| + 1..] == rest';
  }

  lemma {:induction false} FramedUnique(a: Entry, rest: string, b: Entry, rest': string)
    requires NulFree(a) && NulFree(b) && Framed(a) + rest == Framed(b) + rest'
    ensures a == b && rest == rest'
  {
    assert Framed(a) + rest == a.path + ['\0'] + (a.contents + ['\0'] + rest);
    assert Framed(b) + rest' == b.path + ['\0'] + (b.contents + ['\0'] + rest');
    FieldUnique(a.path, a.contents + ['\0'] + rest, b.path, b.contents + ['\0'] + rest');
    FieldUnique(a.contents, rest, b.contents, rest');
  }

  lemma {:induction false} FrameInjective(a: seq<Entry>, b: seq<Entry>)
    requires forall e :: e in a || e in b ==> NulFree(e)
    requires Frame(a) == Frame(b)
    ensures a == b
  {
    if a != [] && b != [] {
      assert NulFree(a[0]) && NulFree(b[0]);
      FramedUnique(a[0], Frame(a[1..]), b[0], Frame(b[1..]));
      FrameInjective(a[1..], b[1..]);
      assert a == [a[0]] + a[1..] && b == [b[0]] + b[1..];
    }
  }

  // ---- Which entry lists are framed injectively ----

  function Nuls(s: string): nat {
    if s == [] then 0 else (if s[0] == '\0' then 1 else 0) + Nuls(s[1..])
  }

  lemma {:induction false} NulsAppend(a: string, b: string)
    ensures Nuls(a + b) == Nuls(a) + Nuls(b)
  {
    if a == [] {
      assert a + b == b;
    } else {
      NulsAppend(a[1..], b);
      assert (a + b)[1..] == a[1..] + b;
    }
  }

  lemma {:induction false} NoNuls(s: string)
    ensures Nuls(s) == 0 <==> '\0' !in s
  {
    if s != [] {
      NoNuls(s[1..]);
      assert s == [s[0]] + s[1..];
    }
  }

  lemma {:induction false} FramedNuls(e: Entry)
    ensures Nuls(Framed(e)) >= 2
    ensures Nuls(Framed(e)) == 2 <==> NulFree(e)
  {
    var nul := ['\0'];
    assert nul[1..] == [] && Nuls(nul) == 1;
    NulsAppend(e.path + nul + e.contents, nul);
    NulsAppend(e.path + nul, e.contents);
    NulsAppend(e.path, nul);
    NoNuls(e.path);
    NoNuls(e.contents);
  }

  ghost predicate AllNulFree(es: seq<Entry>) {
    forall e :: e in es ==> NulFree(e)
  }

  /** The number of NULs tells whether any stands inside a field. */
  lemma {:induction false} FrameNuls(es: seq<Entry>)
    ensures Nuls(Frame(es)) >= 2 * |es|
    ensures Nuls(Frame(es)) == 2 * |es| <==> AllNulFree(es)
  {
    if es != [] {
      FrameNuls(es[1..]);
      FramedNuls(es[0]);
      NulsAppend(Framed(es[0]), Frame(es[1..]));
      assert es == [es[0]] + es[1..];
    }
  }

  /** Another entry with the same framed text: the boundary moved to the first NUL of a field. */
  function Shifted(e: Entry): Entry {
    if '\0' in e.path then
      var k := FirstNul(e.path);
      Entry(e.path[..k], e.path[k + 1..] + ['\0'] + e.contents)
    else if '\0' in e.contents then
      var k := FirstNul(e.contents);
      Entry(e.path + ['\0'] + e.contents[..k], e.contents[k + 1..])
    else e
  }

  function FirstNul(s: string): (k: nat)
    requires '\0' in s
    ensures k < |s| && s[k] == '\0'
  {
    if s[0] == '\0' then 0 else 1 + FirstNul(s[1..])
  }

  lemma {:induction false} ShiftedFrame(e: Entry)
    requires !NulFree(e)
    ensures Framed(Shifted(e)) == Framed(e) && Shifted(e) != e
  {
    if '\0' in e.path {
      var k := FirstNul(e.path);
      BoundaryBack(e.path[..k], e.path[k + 1..], e.contents);
      assert e.path == e.path[..k] + ['\0'] + e.path[k + 1..];
      assert |Shifted(e).path| < |e.path|;
    } else {
      var k := FirstNul(e.contents);
      BoundaryBack(e.path, e.contents[..k], e.contents[k + 1..]);
      assert e.contents == e.contents[..k] + ['\0'] + e.contents[k + 1..];
      assert |Shifted(e).path| > |e.path|;
    }
  }

  lemma {:induction false} BoundaryBack(a: string, b: string, c: string)
    ensures Framed(Entry(a, b + ['\0'] + c)) == Framed(Entry(a + ['\0'] + b, c))
  {
    assert a + ['\0'] + (b + ['\0'] + c) == (a + ['\0'] + b) + ['\0'] + c;
  }

  lemma {:induction false} FrameUpdate(es: seq<Entry>, i: nat, e: Entry)
    requires i < |es| && Framed(e) == Framed(es[i])
    ensures Frame(es[i := e]) == Frame(es)
  {
    if i > 0 {
      FrameUpdate(es[1..], i - 1, e);
      assert es[i := e][1..] == es[1..][i - 1 := e];
    }
  }

  /** No other list of as many entries has the same text. */
  ghost predicate Unambiguous(es: seq<Entry>) {
    forall fs :: |fs| == |es| && Frame(fs) == Frame(es) ==> fs == es
  }

  /** A list can be read back, its length known, exactly when no NUL stands in any path or contents. */
  lemma {:induction false} FrameExact(es: seq<Entry>)
    ensures Unambiguous(es) <==> AllNulFree(es)
  {
    if AllNulFree(es) {
      forall fs | |fs| == |es| && Frame(fs) == Frame(es) ensures fs == es {
        SameLengthUnique(es, fs);
      }
    } else {
      var i :| 0 <= i < |es| && !NulFree(es[i]);
      ShiftedFrame(es[i]);
      FrameUpdate(es, i, Shifted(es[i]));
      assert es[i := Shifted(es[i])][i] != es[i];
    }
  }

  lemma {:induction false} SameLengthUnique(es: seq<Entry>, fs: seq<Entry>)
    requires AllNulFree(es) && |fs| == |es| && Frame(fs) == Frame(es)
    ensures fs == es
  {
    FrameNuls(es);
    FrameNuls(fs);
    FrameInjective(es, fs);
  }

  /** Two neighbouring entries have the text of a single one with NULs in its contents. */
  lemma {:induction false} NeighboursMerge(a: Entry, b: Entry, rest: seq<Entry>)
    ensures var merged := Entry(a.path, a.contents + ['\0'] + b.path + ['\0'] + b.contents);
            Frame([merged] + rest) == Frame([a, b] + rest)
  {
    var merged := Entry(a.path, a.contents + ['\0'] + b.path + ['\0'] + b.contents);
    assert Framed(merged) == Framed(a) + Framed(b);
    assert ([merged] + rest)[1..] == rest;
    assert ([a, b] + rest)[1..] == [b] + rest && ([b] + rest)[1..] == rest;
  }

  /** The text has no other reading, whatever the number of files. */
  ghost predicate Readable(es: seq<Entry>) {
    forall fs :: Frame(fs) == Frame(es) ==> fs == es
  }

  /** Among lists of any length, only those of at most one file without NULs can be read back. */
  lemma {:induction false} ReadableExact(es: seq<Entry>)
    ensures Readable(es) <==> AllNulFree(es) && |es| <= 1
  {
    FrameExact(es);
    if AllNulFree(es) && |es| <= 1 {
      forall fs | Frame(fs) == Frame(es) ensures fs == es {
        FrameNuls(es);
        FrameNuls(fs);
      }
    } else if |es| >= 2 {
      assert es == [es[0], es[1]] + es[2..];
      NeighboursMerge(es[0], es[1], es[2..]);
    }
  }

  // ---- Which file maps are told apart ----

  ghost predicate NulFreeMap(m: map<string, string>) {
    forall p :: p in m ==> NulFree(Entry(p, m[p]))
  }

  /** Entry lists that enumerate two maps tell the maps apart. */
  lemma {:induction false} EnumerationDecides(es: seq<Entry>, sa: map<string, string>, sb: map<string, string>)
    requires Lists(es, sa)
    requires Lists(es, sb)
    ensures sa == sb
  {
    forall p ensures p in sa ==> p in sb && sb[p] == sa[p]
             ensures p in sb ==> p in sa && sa[p] == sb[p] {
      if p in sa {
        assert Entry(p, sa[p]) in es;
      }
      if p in sb {
        assert Entry(p, sb[p]) in es;
      }
    }
  }

  ghost predicate Lists(es: seq<Entry>, sel: map<string, string>) {
    forall e: Entry :: e in es <==> e.path in sel && sel[e.path] == e.contents
  }

  lemma {:induction false} PathListed(es: seq<Entry>, sel: map<string, string>, path: string)
    requires Lists(es, sel) && path in sel
    ensures exists e :: e in es && e.path == path
  {
    assert Entry(path, sel[path]) in es;
  }

  lemma {:induction false} EntriesCount(es: seq<Entry>, sel: map<string, string>)
    requires Distinct(es) && Lists(es, sel)
    ensures |es| == |sel|
  {
    if es == [] {
      forall p ensures p !in sel {
        if p in sel {
          PathListed(es, sel, p);
        }
      }
      assert sel == map[];
    } else {
      var less := Without(es, sel);
      EntriesCount(es[1..], less);
      assert sel == less[es[0].path := es[0].contents];
    }
  }

  lemma {:induction false} Without(es: seq<Entry>, sel: map<string, string>) returns (less: map<string, string>)
    requires Distinct(es) && Lists(es, sel) && es != []
    ensures Lists(es[1..], less) && es[0].path !in less && sel == less[es[0].path := es[0].contents]
  {
    less := map p | p in sel && p != es[0].path :: sel[p];
    assert es[0] in es && es[0] !in es[1..] && es == [es[0]] + es[1..];
    forall e: Entry ensures e in es[1..] <==> e.path in less && less[e.path] == e.contents {
      assert e in es <==> e == es[0] || e in es[1..];
    }
  }

  /**
   A selection without NULs is told apart from every other one without NULs, and from every other
   one of as many files.
   */
  lemma {:induction false} FramingExact(
    a: seq<Entry>, fa: map<string, string>, b: seq<Entry>, fb: map<string, string>, inputs: seq<string>, leq: PathOrder)
    requires TotalOrder(leq) && EntriesOf(a, fa) && EntriesOf(b, fb)
    requires NulFreeMap(Selected(fa, inputs))
    requires NulFreeMap(Selected(fb, inputs)) || |Selected(fa, inputs)| == |Selected(fb, inputs)|
    ensures Hashed(a, inputs, leq) == Hashed(b, inputs, leq) <==> Selected(fa, inputs) == Selected(fb, inputs)
  {
    var sa, sb := Selected(fa, inputs), Selected(fb, inputs);
    if Hashed(a, inputs, leq) == Hashed(b, inputs, leq) {
      var es := HashedEntries(a, fa, inputs, leq);
      var fs := HashedEntries(b, fb, inputs, leq);
      EntriesCount(es, sa);
      EntriesCount(fs, sb);
      SameFrameSame(es, sa, fs, sb);
    } else if sa == sb {
      HashDependsOnSelection(a, fa, b, fb, inputs, leq);
    }
  }

  lemma {:induction false} SameFrameSame(es: seq<Entry>, sa: map<string, string>, fs: seq<Entry>, sb: map<string, string>)
    requires Lists(es, sa)
    requires Lists(fs, sb)
    requires Frame(es) == Frame(fs) && NulFreeMap(sa) && (NulFreeMap(sb) || |es| == |fs|)
    ensures sa == sb
  {
    assert AllNulFree(es);
    if NulFreeMap(sb) {
      assert AllNulFree(fs);
      FrameInjective(es, fs);
    } else {
      SameLengthUnique(es, fs);
    }
    EnumerationDecides(es, sa, sb);
  }

  /** Any two or more selected files are hashed like fewer, of which one has NULs in its contents. */
  lemma {:induction false} SeveralCollide(a: seq<Entry>, fa: map<string, string>, inputs: seq<string>, leq: PathOrder)
    returns (b: seq<Entry>, fb: map<string, string>)
    requires TotalPreorder(leq) && EntriesOf(a, fa) && |Selected(fa, inputs)| >= 2
    ensures EntriesOf(b, fb) && |Selected(fb, inputs)| < |Selected(fa, inputs)|
    ensures Hashed(b, inputs, leq) == Hashed(a, inputs, leq)
  {
    var es := HashedEntries(a, fa, inputs, leq);
    EntriesCount(es, Selected(fa, inputs));
    b, fb := Merging(es, Selected(fa, inputs));
    forall i | 0 <= i < |b| ensures InputMatches(b[i].path, inputs) {
      SelectedMatch(fa, inputs, b[i].path);
    }
    PathsSorted(leq, es, b);
    HashedAll(b, inputs, leq);
    AllSelected(b, fb, inputs);
    EntriesCount(b, fb);
  }

  lemma {:induction false} SelectedMatch(files: map<string, string>, inputs: seq<string>, path: string)
    requires path in Selected(files, inputs)
    ensures InputMatches(path, inputs)
  {
  }

  lemma {:induction false} PathsSorted(leq: PathOrder, es: seq<Entry>, b: seq<Entry>)
    requires Sorted(ByPath(leq), es) && |es| >= 2 && |b| == |es| - 1
    requires b[0].path == es[0].path && b[1..] == es[2..]
    ensures Sorted(ByPath(leq), b)
  {
    forall i | 0 < i < |b| ensures b[i] == es[i + 1] {
      assert b[1..][i - 1] == es[2..][i - 1];
    }
  }

  /** The first two entries made one. */
  lemma {:induction false} Merging(es: seq<Entry>, sel: map<string, string>) returns (b: seq<Entry>, fb: map<string, string>)
    requires Distinct(es) && Lists(es, sel) && |es| >= 2
    ensures Frame(b) == Frame(es) && EntriesOf(b, fb) && |b| == |es| - 1
    ensures b[0].path == es[0].path && b[1..] == es[2..]
    ensures forall i :: 0 <= i < |b| ==> b[i].path in sel
  {
    var merged := Entry(es[0].path, es[0].contents + ['\0'] + es[1].path + ['\0'] + es[1].contents);
    b := [merged] + es[2..];
    assert es == [es[0], es[1]] + es[2..];
    NeighboursMerge(es[0], es[1], es[2..]);
    fb := MergedFiles(es, sel, merged, b);
    assert es[0] in es && forall e :: e in es[2..] ==> e in es;
  }

  lemma {:induction false} AllSelected(es: seq<Entry>, files: map<string, string>, inputs: seq<string>)
    requires Lists(es, files) && forall i :: 0 <= i < |es| ==> InputMatches(es[i].path, inputs)
    ensures Selected(files, inputs) == files
  {
    forall p | p in files ensures InputMatches(p, inputs) {
      PathListed(es, files, p);
    }
  }

  lemma {:induction false} MergedFiles(es: seq<Entry>, sel: map<string, string>, merged: Entry, b: seq<Entry>)
    returns (fb: map<string, string>)
    requires Distinct(es) && Lists(es, sel) && |es| >= 2
    requires merged.path == es[0].path && b == [merged] + es[2..]
    ensures EntriesOf(b, fb)
  {
    var less := Without(es, sel);
    var rest := Without(es[1..], less);
    assert es[1..][1..] == es[2..];
    fb := rest[merged.path := merged.contents];
    forall e | e in es[2..] ensures e.path != merged.path {
      assert e.path in rest && e.path in less;
    }
    assert Distinct(es[2..]);
    forall e: Entry ensures e in b <==> e.path in fb && fb[e.path] == e.contents {
      assert e in b <==> e == merged || e in es[2..];
    }
  }

  /** With a NUL in the contents one selected file passes for two, whose names are in order. */
  lemma {:induction false} NulBreaksFraming(one: Entry, first: Entry, second: Entry, stars: string, leq: PathOrder)
    requires one == Entry("a", "x\0b\0y") && first == Entry("a", "x") && second == Entry("b", "y") && stars == "**"
    requires TotalPreorder(leq) && leq(first.path, second.path)
    ensures EntriesOf([one], OneFile(one)) && EntriesOf([first, second], TwoFiles(first, second))
    ensures Selected(OneFile(one), [stars]) != Selected(TwoFiles(first, second), [stars])
    ensures Hashed([one], [stars], leq) == Hashed([first, second], [stars], leq)
  {
    StarsSelect(one.path, stars);
    StarsSelect(second.path, stars);
    ListsFiles(one, first, second);
    HashedAll([one], [stars], leq);
    HashedAll([first, second], [stars], leq);
    PassesForTwo(one, first, second);
    SelectsMore(OneFile(one), TwoFiles(first, second), [stars], second.path);
  }

  function OneFile(e: Entry): map<string, string> {
    map[e.path := e.contents]
  }

  function TwoFiles(a: Entry, b: Entry): map<string, string> {
    map[a.path := a.contents, b.path := b.contents]
  }

  lemma {:induction false} ListsFiles(one: Entry, first: Entry, second: Entry)
    requires first.path != second.path
    ensures EntriesOf([one], OneFile(one)) && EntriesOf([first, second], TwoFiles(first, second))
  {
  }

  lemma {:induction false} PassesForTwo(one: Entry, first: Entry, second: Entry)
    requires one == Entry("a", "x\0b\0y") && first == Entry("a", "x") && second == Entry("b", "y")
    ensures Frame([one]) == Frame([first, second])
  {
    assert [one][1..] == [] && [first, second][1..] == [second] && [second][1..] == [];
    assert Framed(one) == Framed(first) + Framed(second);
  }

  lemma {:induction false} SelectsMore(a: map<string, string>, b: map<string, string>, inputs: seq<string>, path: string)
    requires path !in a && path in b && InputMatches(path, inputs)
    ensures Selected(a, inputs) != Selected(b, inputs)
  {
    assert path in Selected(b, inputs) && path !in Selected(a, inputs);
  }

  /** Files in order that are all selected are hashed as they stand. */
  lemma {:induction false} HashedAll(es: seq<Entry>, inputs: seq<string>, leq: PathOrder)
    requires TotalPreorder(leq) && Sorted(ByPath(leq), es)
    requires forall i :: 0 <= i < |es| ==> InputMatches(es[i].path, inputs)
    ensures Hashed(es, inputs, leq) == Frame(es)
  {
    ByPathPreorder(leq);
    SortedFixed(ByPath(leq), es);
    FilterAll(Matching(inputs), es);
  }

  lemma {:induction false} ByPathPreorder(leq: PathOrder)
    requires TotalPreorder(leq)
    ensures TotalPreorder(ByPath(leq))
  {
    var above := ByPath(leq);
    forall a, b ensures above(a, b) || above(b, a) {
      assert leq(a.path, b.path) || leq(b.path, a.path);
    }
    forall a, b, c | above(a, b) && above(b, c) ensures above(a, c) {
      assert leq(a.path, b.path) && leq(b.path, c.path);
    }
  }

  lemma {:induction false} StarsSelect(path: string, stars: string)
    requires stars == "**" && NoTerminators(Normalize(path))
    ensures InputMatches(path, [stars])
  {
    StarsNotPlain(stars);
    DeepAcceptsExactly(Normalize(path));
    assert GlobMatches(path, [stars][0]);
  }
}
