/**
 What the theme-token resolver reads: which declaration a name has in which theme, what a reference
 stands for, and what counts as a reference that is left.
 */
module ThemeLaws {
  import opened Wrappers
  import opened Text
  import opened ThemeTokens

  // ---- References ----

  /** A text mentions a reference exactly when it contains `var(`. */
  lemma {:induction false} MentionsExact(s: string)
    ensures MentionsVar(s) <==> exists a, b :: s == a + "var(" + b
  {
    if MentionsVar(s) {
      var i :| 0 <= i < |s| && VarAt(s, i);
      assert s == s[..i] + "var(" + s[i + 4..];
    }
    if a, b :| s == a + "var(" + b {
      assert s[|a|..|a| + 4] == "var(";
      assert VarAt(s, |a|);
    }
  }

  /** A reference stands for the declared value, else for a fallback that is not blank. */
  ghost predicate StandsFor(name: string, fallback: Option<string>, lookup: Lookup, value: Value) {
    if lookup(name).Some? then lookup(name) == Some(value)
    else fallback.Some? && !AllSpace(fallback.value) && value == [Lit(fallback.value)]
  }

  lemma {:induction false} TargetExact(name: string, fallback: Option<string>, lookup: Lookup, value: Value)
    ensures Target(Ref(name, fallback), lookup) == Some(value) <==> StandsFor(name, fallback, lookup, value)
  {
    if fallback.Some? {
      TrimBlank(fallback.value);
    }
  }

  /** A single reference is replaced by what it stands for, resolved; it fails when it stands for nothing. */
  lemma {:induction false} SingleReference(name: string, fallback: Option<string>, lookup: Lookup, value: Value, depth: nat)
    requires depth <= MAX_DEPTH
    ensures StandsFor(name, fallback, lookup, value) ==>
              ReplacedPiece(Ref(name, fallback), lookup, depth) == ResolveVars(value, lookup, depth + 1)
    ensures (forall v :: !StandsFor(name, fallback, lookup, v)) ==>
              ReplacedPiece(Ref(name, fallback), lookup, depth) == Err(Unresolved(name))
  {
    TargetExact(name, fallback, lookup, value);
    var target := Target(Ref(name, fallback), lookup);
    if target.Some? {
      TargetExact(name, fallback, lookup, target.value);
    }
  }

  // ---- Declarations ----

  /** The j-th declaration of the k-th block declares the name, and no later one does. */
  ghost predicate LastOf(bodies: seq<seq<Declaration>>, k: nat, j: nat, name: string) {
    && k < |bodies| && j < |bodies[k]| && bodies[k][j].name == name
    && (forall i :: j < i < |bodies[k]| ==> bodies[k][i].name != name)
    && (forall m, i :: k < m < |bodies| && 0 <= i < |bodies[m]| ==> bodies[m][i].name != name)
  }

  lemma {:induction false} LastAppend(a: seq<Declaration>, b: seq<Declaration>, name: string)
    ensures LastDeclared(a + b, name) == if LastDeclared(b, name).Some? then LastDeclared(b, name) else LastDeclared(a, name)
  {
    if b == [] {
      assert a + b == a;
    } else {
      var n := |b| - 1;
      assert (a + b)[..|a + b| - 1] == a + b[..n];
      LastAppend(a, b[..n], name);
    }
  }

  lemma {:induction false} LastInBlock(ds: seq<Declaration>, name: string)
    ensures LastDeclared(ds, name) == None <==> forall i :: 0 <= i < |ds| ==> ds[i].name != name
    ensures LastDeclared(ds, name).Some? ==>
              exists j: nat :: j < |ds| && ds[j] == Declaration(name, LastDeclared(ds, name).value)
                               && forall i :: j < i < |ds| ==> ds[i].name != name
  {
    if ds != [] {
      var n := |ds| - 1;
      LastInBlock(ds[..n], name);
      if ds[n].name == name {
        assert ds[n] == Declaration(name, LastDeclared(ds, name).value);
      } else if LastDeclared(ds, name).Some? {
        var j: nat :| j < n && ds[..n][j] == Declaration(name, LastDeclared(ds, name).value)
                      && forall i :: j < i < n ==> ds[..n][i].name != name;
        assert ds[j] == Declaration(name, LastDeclared(ds, name).value);
      }
    }
  }

  /** The merged declarations hold, for each name, what its last declaration in the last block says. */
  lemma {:induction false} MergedExact(bodies: seq<seq<Declaration>>, merged: Decls, name: string)
    requires Merges(merged, Flattened(bodies))
    ensures name in merged <==> exists k: nat, j: nat :: LastOf(bodies, k, j, name)
    ensures forall k: nat, j: nat :: LastOf(bodies, k, j, name) ==> name in merged && merged[name] == bodies[k][j].value
  {
    assert Get(merged, name) == LastDeclared(Flattened(bodies), name);
    FlattenedLast(bodies, name);
    forall k: nat, j: nat | LastOf(bodies, k, j, name) ensures name in merged && merged[name] == bodies[k][j].value {
      FlattenedAt(bodies, k, j, name);
    }
  }

  lemma {:induction false} FlattenedLast(bodies: seq<seq<Declaration>>, name: string)
    ensures LastDeclared(Flattened(bodies), name).Some? ==> exists k: nat, j: nat :: LastOf(bodies, k, j, name)
  {
    if bodies != [] {
      var n := |bodies| - 1;
      FlattenedLast(bodies[..n], name);
      LastAppend(Flattened(bodies[..n]), bodies[n], name);
      LastInBlock(bodies[n], name);
      if LastDeclared(bodies[n], name).Some? {
        var j: nat :| j < |bodies[n]| && bodies[n][j] == Declaration(name, LastDeclared(bodies[n], name).value)
                      && forall i :: j < i < |bodies[n]| ==> bodies[n][i].name != name;
        assert LastOf(bodies, n, j, name);
      } else if LastDeclared(Flattened(bodies), name).Some? {
        var k: nat, j: nat :| LastOf(bodies[..n], k, j, name);
        assert LastOf(bodies, k, j, name);
      }
    }
  }

  lemma {:induction false} FlattenedAt(bodies: seq<seq<Declaration>>, k: nat, j: nat, name: string)
    requires LastOf(bodies, k, j, name)
    ensures LastDeclared(Flattened(bodies), name) == Some(bodies[k][j].value)
  {
    var n := |bodies| - 1;
    LastAppend(Flattened(bodies[..n]), bodies[n], name);
    LastInBlock(bodies[n], name);
    if k < n {
      assert LastOf(bodies[..n], k, j, name);
      FlattenedAt(bodies[..n], k, j, name);
    } else {
      assert bodies[n][j].name == name;
      var i: nat :| i < |bodies[n]| && bodies[n][i] == Declaration(name, LastDeclared(bodies[n], name).value)
                    && forall m :: i < m < |bodies[n]| ==> bodies[n][m].name != name;
      assert i == j;
    }
  }

  // ---- Themes ----

  /** The first scope that declares the name. */
  ghost predicate FirstDeclared(scopes: seq<Decls>, name: string, value: Value) {
    exists k :: 0 <= k < |scopes| && name in scopes[k] && scopes[k][name] == value
                && forall j :: 0 <= j < k ==> name !in scopes[j]
  }

  ghost predicate Scoped(lookup: Lookup, scopes: seq<Decls>) {
    forall name, value :: lookup(name) == Some(value) <==> FirstDeclared(scopes, name, value)
  }

  /** Light looks in :root, then in @theme; dark in .dark before both. */
  lemma {:induction false} ThemeScopes(root: Decls, dark: Decls, theme: Decls)
    ensures Scoped(Light(root, theme), [root, theme])
    ensures Scoped(Dark(root, dark, theme), [dark, root, theme])
  {
    forall name, value ensures Light(root, theme)(name) == Some(value) <==> FirstDeclared([root, theme], name, value) {
      var scopes := [root, theme];
      assert name in root ==> scopes[0] == root;
      assert name in theme ==> scopes[1] == theme;
    }
    forall name, value ensures Dark(root, dark, theme)(name) == Some(value) <==> FirstDeclared([dark, root, theme], name, value) {
      var scopes := [dark, root, theme];
      assert name in dark ==> scopes[0] == dark;
      assert name in root ==> scopes[1] == root;
      assert name in theme ==> scopes[2] == theme;
    }
  }

  /**
   A token is given exactly when :root declares its name, with the light value resolved in the light theme
   and the dark value, declared by .dark or else by :root, resolved in the dark one.
   */
  lemma {:induction false} TokenExact(name: string, root: Decls, dark: Decls, theme: Decls, token: Token, raw: Value)
    requires FirstDeclared([dark, root], name, raw)
    ensures ResolveToken(name, root, dark, theme) == Ok(token) <==>
              && name in root && token.name == name
              && ResolveVars(root[name], Light(root, theme), 0) == Ok(token.light)
              && ResolveVars(raw, Dark(root, dark, theme), 0) == Ok(token.dark)
  {
    var scopes := [dark, root];
    assert scopes[0] == dark && scopes[1] == root;
    assert raw == if name in dark then dark[name] else root[name];
  }

  /** The error of a name: undeclared, or else the light value's, or else the dark value's. */
  lemma {:induction false} TokenFails(name: string, root: Decls, dark: Decls, theme: Decls)
    ensures name !in root ==> ResolveToken(name, root, dark, theme) == Err(NotDeclared(name))
    ensures name in root && ResolveVars(root[name], Light(root, theme), 0).Err? ==>
              ResolveToken(name, root, dark, theme) == Err(ResolveVars(root[name], Light(root, theme), 0).error)
  {
  }

  /** A theme without declarations is an error of its own; otherwise the first name that fails decides. */
  lemma {:induction false} TokensFail(names: seq<string>, root: Decls, dark: Decls, theme: Decls) returns (i: nat)
    ensures var r := ResolvePreviewThemeTokens(names, root, dark, theme);
            if root == map[] then r == Err(NoBlock(":root"))
            else if dark == map[] then r == Err(NoBlock(".dark"))
            else r.Err? ==> FirstFailing(names, i, root, dark, theme)
                            && r == Err(ResolveToken(names[i], root, dark, theme).error)
  {
    i := FailsFirst(names, root, dark, theme);
  }

  ghost predicate FirstFailing(names: seq<string>, i: nat, root: Decls, dark: Decls, theme: Decls) {
    && i < |names| && ResolveToken(names[i], root, dark, theme).Err?
    && forall j :: 0 <= j < i ==> ResolveToken(names[j], root, dark, theme).Ok?
  }

  lemma {:induction false} FailsFirst(names: seq<string>, root: Decls, dark: Decls, theme: Decls) returns (i: nat)
    ensures var r := ResolveTokens(names, root, dark, theme);
            r.Err? ==> FirstFailing(names, i, root, dark, theme)
                       && r == Err(ResolveToken(names[i], root, dark, theme).error)
  {
    i := 0;
    if names != [] && ResolveToken(names[0], root, dark, theme).Ok? {
      var k := FailsFirst(names[1..], root, dark, theme);
      i := k + 1;
      if ResolveTokens(names, root, dark, theme).Err? {
        forall j | 0 <= j < i ensures ResolveToken(names[j], root, dark, theme).Ok? {
          assert j > 0 ==> names[j] == names[1..][j - 1];
        }
        assert names[1..][k] == names[i];
      }
    }
  }
}
