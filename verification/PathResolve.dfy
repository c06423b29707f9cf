/**
 Write-through resolution of symbolic links (packages/native-config/src/path_resolve.rs) over a file
 system with finitely many links. Path joining and the parent of a path are parameters.
 */
module PathResolve {
  import opened Wrappers

  type Path = string

  datatype Status = Missing | Present | Unreadable

  datatype Target = Absolute(path: Path) | Relative(name: string)

  /** The links and what they hold (None: the link cannot be read), and the status of every other path. */
  datatype FileSystem = FileSystem(
    links: map<Path, Option<Target>>, status: Path -> Status,
    parent: Path -> Option<Path>, join: (Path, string) -> Path)

  datatype WritePaths = WritePaths(readPath: Option<Path>, writePath: Path)

  function BrokenChain(root: Path): WritePaths {
    WritePaths(None, root)
  }

  // ---- The chain of a path ----

  /** The path a link leads to; None when an error ends the chain. */
  function Next(fs: FileSystem, link: Path): Option<Path>
    requires link in fs.links
  {
    match fs.links[link]
    case None => None
    case Some(Absolute(path)) => Some(path)
    case Some(Relative(name)) =>
      match fs.parent(link)
      case Some(dir) => Some(fs.join(dir, name))
      case None => None
  }

  /** Not a link, and either there or free to be created. */
  predicate Ends(fs: FileSystem, path: Path) {
    path !in fs.links && fs.status(path) != Unreadable
  }

  predicate Fails(fs: FileSystem, path: Path) {
    if path in fs.links then Next(fs, path) == None else fs.status(path) == Unreadable
  }

  function Follow(fs: FileSystem, path: Option<Path>): Option<Path> {
    if path == None || path.value !in fs.links then None else Next(fs, path.value)
  }

  /** The n-th path of the chain that starts at root; None past its end. */
  function Nth(fs: FileSystem, root: Path, n: nat): Option<Path> {
    if n == 0 then Some(root) else Follow(fs, Nth(fs, root, n - 1))
  }

  ghost predicate EndsAt(fs: FileSystem, root: Path, n: nat) {
    Nth(fs, root, n).Some? && Ends(fs, Nth(fs, root, n).value)
  }

  ghost predicate FailsAt(fs: FileSystem, root: Path, n: nat) {
    Nth(fs, root, n).Some? && Fails(fs, Nth(fs, root, n).value)
  }

  ghost predicate RepeatsAt(fs: FileSystem, root: Path, i: nat, j: nat) {
    i < j && Nth(fs, root, i).Some? && Nth(fs, root, i) == Nth(fs, root, j)
  }

  ghost predicate Resolves(fs: FileSystem, root: Path) {
    exists n: nat :: EndsAt(fs, root, n)
  }

  /** The end of the chain for reading and writing, or else the root for writing only. */
  ghost predicate IsResolved(fs: FileSystem, root: Path, r: WritePaths) {
    if Resolves(fs, root) then
      exists n: nat :: EndsAt(fs, root, n) && r == WritePaths(Nth(fs, root, n), Nth(fs, root, n).value)
    else
      r == BrokenChain(root)
  }

  /** The first n paths of the chain. */
  ghost function Seen(fs: FileSystem, root: Path, n: nat): set<Path> {
    if n == 0 then {}
    else Seen(fs, root, n - 1) + (match Nth(fs, root, n - 1) case Some(p) => {p} case None => {})
  }

  lemma {:induction false} SeenAt(fs: FileSystem, root: Path, n: nat, p: Path) returns (i: nat)
    requires p in Seen(fs, root, n)
    ensures i < n && Nth(fs, root, i) == Some(p)
  {
    if Nth(fs, root, n - 1) == Some(p) {
      i := n - 1;
    } else {
      i := SeenAt(fs, root, n - 1, p);
    }
  }

  method ResolveSymlinkWritePaths(fs: FileSystem, root: Path) returns (r: WritePaths)
    ensures IsResolved(fs, root, r)
  {
    var current := root;
    var visited: set<Path> := {};
    ghost var n: nat := 0;
    while true
      invariant Nth(fs, root, n) == Some(current)
      invariant visited == Seen(fs, root, n) && visited <= fs.links.Keys
      decreases fs.links.Keys - visited
    {
      if current !in fs.links {
        if fs.status(current) == Unreadable {
          FailureIsBroken(fs, root, n);
          return BrokenChain(root);
        }
        assert EndsAt(fs, root, n);
        return WritePaths(Some(current), current);
      }
      if current in visited {
        ghost var i := SeenAt(fs, root, n, current);
        RepeatIsBroken(fs, root, i, n);
        return BrokenChain(root);
      }
      visited := visited + {current};
      var target := fs.links[current];
      if target == None {
        FailureIsBroken(fs, root, n);
        return BrokenChain(root);
      }
      if target.value.Absolute? {
        current := target.value.path;
      } else {
        var parent := fs.parent(current);
        if parent == None {
          FailureIsBroken(fs, root, n);
          return BrokenChain(root);
        }
        current := fs.join(parent.value, target.value.name);
      }
      n := n + 1;
    }
  }

  // ---- How a chain can go ----

  /** Past a path with no successor there is nothing. */
  lemma {:induction false} NothingAfter(fs: FileSystem, root: Path, n: nat, m: nat)
    requires n < m && Follow(fs, Nth(fs, root, n)) == None
    ensures Nth(fs, root, m) == None
  {
    if n + 1 < m {
      NothingAfter(fs, root, n, m - 1);
    }
  }

  lemma {:induction false} FailureIsBroken(fs: FileSystem, root: Path, n: nat)
    requires FailsAt(fs, root, n)
    ensures !Resolves(fs, root)
  {
    if m: nat :| EndsAt(fs, root, m) {
      if m < n {
        NothingAfter(fs, root, m, n);
      } else if n < m {
        NothingAfter(fs, root, n, m);
      }
    }
  }

  /** A chain that repeats a path never stops. */
  lemma {:induction false} RepeatGoesOn(fs: FileSystem, root: Path, i: nat, j: nat, m: nat)
    requires RepeatsAt(fs, root, i, j)
    ensures Nth(fs, root, m).Some? && Nth(fs, root, m).value in fs.links
    decreases m
  {
    if m >= j {
      RepeatGoesOn(fs, root, i, j, m - (j - i));
      SameFrom(fs, root, i, j, m - j);
    } else {
      if Follow(fs, Nth(fs, root, m)) == None {
        NothingAfter(fs, root, m, j);
      }
    }
  }

  lemma {:induction false} SameFrom(fs: FileSystem, root: Path, i: nat, j: nat, k: nat)
    requires Nth(fs, root, i) == Nth(fs, root, j)
    ensures Nth(fs, root, i + k) == Nth(fs, root, j + k)
  {
    if k > 0 {
      SameFrom(fs, root, i, j, k - 1);
    }
  }

  lemma {:induction false} RepeatIsBroken(fs: FileSystem, root: Path, i: nat, j: nat)
    requires RepeatsAt(fs, root, i, j)
    ensures !Resolves(fs, root) && forall n: nat :: !FailsAt(fs, root, n)
  {
    forall n: nat ensures !EndsAt(fs, root, n) && !FailsAt(fs, root, n) {
      RepeatGoesOn(fs, root, i, j, n);
      RepeatGoesOn(fs, root, i, j, n + 1);
    }
  }

  ghost predicate Distinct(fs: FileSystem, root: Path, n: nat) {
    forall i: nat, j: nat :: i < n && j < n ==> !RepeatsAt(fs, root, i, j)
  }

  lemma {:induction false} Apart(fs: FileSystem, root: Path, n: nat, i: nat, j: nat)
    requires Distinct(fs, root, n) && i < n && j < n
    ensures !RepeatsAt(fs, root, i, j)
  {
  }

  /** Distinct links along the chain are no more than the links there are. */
  lemma {:induction false} ChainIsShort(fs: FileSystem, root: Path, n: nat)
    requires Distinct(fs, root, n)
    requires forall i: nat :: i < n ==> Nth(fs, root, i).Some? && Nth(fs, root, i).value in fs.links
    ensures |Seen(fs, root, n)| == n && Seen(fs, root, n) <= fs.links.Keys
  {
    if n > 0 {
      ChainIsShort(fs, root, n - 1);
      var p := Nth(fs, root, n - 1).value;
      if p in Seen(fs, root, n - 1) {
        var i := SeenAt(fs, root, n - 1, p);
        Apart(fs, root, n, i, n - 1);
      }
    }
  }

  /**
   A chain repeats a path, or hits an error, or resolves: no read path is given exactly when one
   of the first two happens.
   */
  lemma {:induction false} BrokenExact(fs: FileSystem, root: Path)
    ensures !Resolves(fs, root) <==>
            || (exists n: nat :: FailsAt(fs, root, n))
            || (exists i: nat, j: nat :: RepeatsAt(fs, root, i, j))
  {
    if n: nat :| FailsAt(fs, root, n) {
      FailureIsBroken(fs, root, n);
    }
    if i: nat, j: nat :| RepeatsAt(fs, root, i, j) {
      RepeatIsBroken(fs, root, i, j);
    }
    if !Resolves(fs, root) && forall n: nat :: !FailsAt(fs, root, n) {
      var size := |fs.links.Keys|;
      AlwaysLinks(fs, root, size);
      if Distinct(fs, root, size + 1) {
        ChainIsShort(fs, root, size + 1);
        FewerThan(Seen(fs, root, size + 1), fs.links.Keys);
      }
    }
  }

  lemma {:induction false} FewerThan<T>(a: set<T>, b: set<T>)
    requires a <= b
    ensures |a| <= |b|
  {
    if a != {} {
      var x :| x in a;
      FewerThan(a - {x}, b - {x});
    }
  }

  lemma {:induction false} AlwaysLinks(fs: FileSystem, root: Path, n: nat)
    requires !Resolves(fs, root) && forall m: nat :: !FailsAt(fs, root, m)
    ensures forall i: nat :: i <= n ==> Nth(fs, root, i).Some? && Nth(fs, root, i).value in fs.links
  {
    if n > 0 {
      AlwaysLinks(fs, root, n - 1);
      assert !FailsAt(fs, root, n - 1);
    }
    assert !EndsAt(fs, root, n) && !FailsAt(fs, root, n);
  }

  lemma {:induction false} OneEnd(fs: FileSystem, root: Path, n: nat, m: nat)
    requires EndsAt(fs, root, n) && EndsAt(fs, root, m)
    ensures n == m
  {
    if n < m {
      NothingAfter(fs, root, n, m);
    } else if m < n {
      NothingAfter(fs, root, m, n);
    }
  }

  /** The outcome is determined by the file system and the path. */
  lemma {:induction false} ResolvedUnique(fs: FileSystem, root: Path, a: WritePaths, b: WritePaths)
    requires IsResolved(fs, root, a) && IsResolved(fs, root, b)
    ensures a == b
  {
    if Resolves(fs, root) {
      var n: nat :| EndsAt(fs, root, n) && a == WritePaths(Nth(fs, root, n), Nth(fs, root, n).value);
      var m: nat :| EndsAt(fs, root, m) && b == WritePaths(Nth(fs, root, m), Nth(fs, root, m).value);
      OneEnd(fs, root, n, m);
    }
  }

  /** One hop: an absolute target as it is, a relative one below the directory of the link. */
  ghost predicate LeadsTo(fs: FileSystem, link: Path, path: Path) {
    && link in fs.links && fs.links[link].Some?
    && match fs.links[link].value
       case Absolute(target) => path == target
       case Relative(name) => exists dir :: fs.parent(link) == Some(dir) && path == fs.join(dir, name)
  }

  /** Hops from root to end, which is no link and can be used. */
  ghost predicate HopsTo(fs: FileSystem, root: Path, hops: seq<Path>, end: Path) {
    && hops != [] && hops[0] == root && hops[|hops| - 1] == end
    && (forall i :: 0 < i < |hops| ==> LeadsTo(fs, hops[i - 1], hops[i]))
    && end !in fs.links && fs.status(end) != Unreadable
  }

  lemma {:induction false} FollowExact(fs: FileSystem, link: Path, path: Path)
    ensures Follow(fs, Some(link)) == Some(path) <==> LeadsTo(fs, link, path)
  {
  }

  lemma {:induction false} HopsOfChain(fs: FileSystem, root: Path, n: nat) returns (hops: seq<Path>)
    requires Nth(fs, root, n).Some?
    ensures |hops| == n + 1 && hops[0] == root && Some(hops[n]) == Nth(fs, root, n)
    ensures forall i :: 0 < i <= n ==> LeadsTo(fs, hops[i - 1], hops[i])
  {
    if n == 0 {
      hops := [root];
    } else {
      var front := HopsOfChain(fs, root, n - 1);
      FollowExact(fs, front[n - 1], Nth(fs, root, n).value);
      hops := front + [Nth(fs, root, n).value];
    }
  }

  lemma {:induction false} ChainOfHops(fs: FileSystem, root: Path, hops: seq<Path>, n: nat)
    requires n < |hops| && hops[0] == root && forall i :: 0 < i < |hops| ==> LeadsTo(fs, hops[i - 1], hops[i])
    ensures Nth(fs, root, n) == Some(hops[n])
  {
    if n > 0 {
      ChainOfHops(fs, root, hops, n - 1);
      FollowExact(fs, hops[n - 1], hops[n]);
    }
  }

  /** The path to read and write is the end that hops lead to; without one, the root is written only. */
  lemma {:induction false} ResolvedByHops(fs: FileSystem, root: Path, r: WritePaths, end: Path)
    requires IsResolved(fs, root, r)
    ensures r.readPath == Some(end) <==> exists hops :: HopsTo(fs, root, hops, end)
    ensures r.writePath == if r.readPath.Some? then r.readPath.value else root
  {
    if r.readPath == Some(end) {
      var n: nat :| EndsAt(fs, root, n) && r == WritePaths(Nth(fs, root, n), Nth(fs, root, n).value);
      var hops := HopsOfChain(fs, root, n);
      assert HopsTo(fs, root, hops, end);
    }
    if hops :| HopsTo(fs, root, hops, end) {
      var n := |hops| - 1;
      ChainOfHops(fs, root, hops, n);
      assert EndsAt(fs, root, n);
      ResolvedUnique(fs, root, r, WritePaths(Nth(fs, root, n), Nth(fs, root, n).value));
    }
  }

  // ---- Writing through ----

  /** The file system after a regular file has been put at the path, in place of any link there. */
  function Written(fs: FileSystem, path: Path): FileSystem {
    fs.(links := fs.links - {path}, status := (p: Path) => if p == path then Present else fs.status(p))
  }

  lemma {:induction false} SameChain(fs: FileSystem, root: Path, end: Path, n: nat, m: nat)
    requires EndsAt(fs, root, n) && Nth(fs, root, n) == Some(end) && m <= n
    ensures Nth(Written(fs, end), root, m) == Nth(fs, root, m)
  {
    if m > 0 {
      SameChain(fs, root, end, n, m - 1);
    }
  }

  /**
   After writing where the resolution says, it says the same place again, now to be read as well.
   A chain that resolves keeps all its links; a broken one loses the link at the root only.
   */
  lemma {:induction false} WriteThrough(fs: FileSystem, root: Path, r: WritePaths)
    requires IsResolved(fs, root, r)
    ensures IsResolved(Written(fs, r.writePath), root, WritePaths(Some(r.writePath), r.writePath))
    ensures r.readPath.Some? ==> Written(fs, r.writePath).links == fs.links
    ensures r.readPath == None ==> Written(fs, r.writePath).links == fs.links - {root}
    ensures forall p :: Written(fs, r.writePath).status(p) == if p == r.writePath then Present else fs.status(p)
  {
    var after := Written(fs, r.writePath);
    if Resolves(fs, root) {
      var n: nat :| EndsAt(fs, root, n) && r == WritePaths(Nth(fs, root, n), Nth(fs, root, n).value);
      SameChain(fs, root, r.writePath, n, n);
      assert EndsAt(after, root, n);
    } else {
      assert EndsAt(after, root, 0);
    }
  }
}
