/**
 Flattening the var() references of the theme tokens (packages/core/scripts/preview-theme-token-resolver.ts).
 A declared value is given in pieces: literal text, and references with an optional fallback.
 */
module ThemeTokens {
  import opened Wrappers
  import opened Text

  datatype Piece = Lit(text: string) | Ref(name: string, fallback: Option<string>)

  type Value = seq<Piece>

  type Lookup = string -> Option<Value>

  datatype Error =
    | TooDeep
    | Unresolved(name: string)
    | NotFlat
    | NoBlock(selector: string)
    | NotDeclared(name: string)

  const MAX_DEPTH: nat := 16

  /** Some reference is left in the text. */
  predicate MentionsVar(s: string) {
    exists i :: 0 <= i < |s| && VarAt(s, i)
  }

  predicate VarAt(s: string, i: nat) {
    i + 4 <= |s| && s[i..i + 4] == "var("
  }

  /** The value a reference stands for: the declared one, else a fallback that is not blank. */
  function Target(piece: Piece, lookup: Lookup): Option<Value> {
    match piece
    case Lit(_) => None
    case Ref(name, fallback) =>
      if lookup(name).Some? then lookup(name)
      else if fallback.Some? && Trim(fallback.value) != "" then Some([Lit(fallback.value)])
      else None
  }

  /** A value without references is trimmed text in any case: nothing is replaced in it. */
  function ResolveVars(value: Value, lookup: Lookup, depth: nat): Result<string, Error>
    decreases if depth > MAX_DEPTH then 0 else 17 - depth, |value|, 2
  {
    if depth > MAX_DEPTH then Err(TooDeep)
    else match Replaced(value, lookup, depth)
      case Err(e) => Err(e)
      case Ok(s) => if MentionsVar(s) then Err(NotFlat) else Ok(Trim(s))
  }

  /** Left to right; the first error wins. */
  function Replaced(value: Value, lookup: Lookup, depth: nat): Result<string, Error>
    requires depth <= MAX_DEPTH
    decreases 17 - depth, |value|, 1
  {
    if value == [] then Ok("")
    else match ReplacedPiece(value[0], lookup, depth)
      case Err(e) => Err(e)
      case Ok(a) =>
        match Replaced(value[1..], lookup, depth)
        case Err(e) => Err(e)
        case Ok(b) => Ok(a + b)
  }

  function ReplacedPiece(piece: Piece, lookup: Lookup, depth: nat): Result<string, Error>
    requires depth <= MAX_DEPTH
    decreases 17 - depth, 0, 0
  {
    match piece
    case Lit(text) => Ok(text)
    case Ref(name, _) =>
      match Target(piece, lookup)
      case Some(target) => ResolveVars(target, lookup, depth + 1)
      case None => Err(Unresolved(name))
  }

  // ---- Depth does not change a result ----

  lemma {:induction false} BudgetIrrelevant(value: Value, lookup: Lookup, depth: nat, less: nat)
    requires less <= depth && ResolveVars(value, lookup, depth).Ok?
    ensures ResolveVars(value, lookup, less) == ResolveVars(value, lookup, depth)
    decreases 17 - depth, |value|, 2
  {
    ReplacedSame(value, lookup, depth, less);
  }

  lemma {:induction false} ReplacedSame(value: Value, lookup: Lookup, depth: nat, less: nat)
    requires less <= depth <= MAX_DEPTH && Replaced(value, lookup, depth).Ok?
    ensures Replaced(value, lookup, less) == Replaced(value, lookup, depth)
    decreases 17 - depth, |value|, 1
  {
    if value != [] {
      PieceSame(value[0], lookup, depth, less);
      ReplacedSame(value[1..], lookup, depth, less);
    }
  }

  lemma {:induction false} PieceSame(piece: Piece, lookup: Lookup, depth: nat, less: nat)
    requires less <= depth <= MAX_DEPTH && ReplacedPiece(piece, lookup, depth).Ok?
    ensures ReplacedPiece(piece, lookup, less) == ReplacedPiece(piece, lookup, depth)
    decreases 17 - depth, 0, 0
  {
    if piece.Ref? {
      BudgetIrrelevant(Target(piece, lookup).value, lookup, depth + 1, less + 1);
    }
  }

  // ---- Substitution without a bound ----

  /** A literal for some of the names. */
  type Env = string -> Option<string>

  function FillPiece(piece: Piece, lookup: Lookup, env: Env): Option<string> {
    match piece
    case Lit(text) => Some(text)
    case Ref(name, fallback) =>
      if lookup(name).Some? then env(name)
      else match Target(piece, lookup)
        case Some(_) => Some(Trim(fallback.value))
        case None => None
  }

  /** The value with every reference replaced by its literal; None when one is missing. */
  function Fill(value: Value, lookup: Lookup, env: Env): Option<string> {
    if value == [] then Some("")
    else match (FillPiece(value[0], lookup, env), Fill(value[1..], lookup, env))
      case (Some(a), Some(b)) => Some(a + b)
      case _ => None
  }

  ghost predicate SolvesAt(lookup: Lookup, env: Env, name: string) {
    env(name).Some? ==>
      lookup(name).Some? && Fill(lookup(name).value, lookup, env).Some?
      && env(name).value == Trim(Fill(lookup(name).value, lookup, env).value)
  }

  /** env substitutes the declarations into each other: every literal is its declaration, filled in. */
  ghost predicate IsSolution(lookup: Lookup, env: Env) {
    forall name :: SolvesAt(lookup, env, name)
  }

  /** Whatever is resolved is the substitution by any solution of the declarations. */
  lemma {:induction false} ResolvedIsSubstitution(value: Value, lookup: Lookup, depth: nat, env: Env)
    requires ResolveVars(value, lookup, depth).Ok? && IsSolution(lookup, env) && Fill(value, lookup, env).Some?
    ensures ResolveVars(value, lookup, depth) == Ok(Trim(Fill(value, lookup, env).value))
    decreases 17 - depth, |value|, 2
  {
    ReplacedIsFill(value, lookup, depth, env);
  }

  lemma {:induction false} ReplacedIsFill(value: Value, lookup: Lookup, depth: nat, env: Env)
    requires depth <= MAX_DEPTH && Replaced(value, lookup, depth).Ok?
    requires IsSolution(lookup, env) && Fill(value, lookup, env).Some?
    ensures Replaced(value, lookup, depth) == Ok(Fill(value, lookup, env).value)
    decreases 17 - depth, |value|, 1
  {
    if value != [] {
      PieceIsFill(value[0], lookup, depth, env);
      ReplacedIsFill(value[1..], lookup, depth, env);
    }
  }

  lemma {:induction false} PieceIsFill(piece: Piece, lookup: Lookup, depth: nat, env: Env)
    requires depth <= MAX_DEPTH && ReplacedPiece(piece, lookup, depth).Ok?
    requires IsSolution(lookup, env) && FillPiece(piece, lookup, env).Some?
    ensures ReplacedPiece(piece, lookup, depth) == Ok(FillPiece(piece, lookup, env).value)
    decreases 17 - depth, 0, 0
  {
    if piece.Ref? && lookup(piece.name).Some? {
      assert SolvesAt(lookup, env, piece.name);
      ResolvedIsSubstitution(lookup(piece.name).value, lookup, depth + 1, env);
    } else if piece.Ref? {
      ResolvedLiteral(piece.fallback.value, lookup, depth + 1);
    }
  }

  lemma {:induction false} ResolvedLiteral(text: string, lookup: Lookup, depth: nat)
    requires ResolveVars([Lit(text)], lookup, depth).Ok?
    ensures ResolveVars([Lit(text)], lookup, depth) == Ok(Trim(text))
  {
    var value: Value := [Lit(text)];
    assert value[1..] == [] && Replaced(value[1..], lookup, depth) == Ok("");
    assert ReplacedPiece(value[0], lookup, depth) == Ok(text) && text + "" == text;
  }

  /** The names that can be resolved, with what they resolve to. */
  function Resolution(lookup: Lookup): Env {
    (name: string) =>
      match lookup(name)
      case None => None
      case Some(value) =>
        match ResolveVars(value, lookup, 0)
        case Ok(s) => Some(s)
        case Err(_) => None
  }

  /** A solution exists, however many other names run in circles, and it covers every value that resolves. */
  lemma {:induction false} ResolutionSolves(lookup: Lookup)
    ensures IsSolution(lookup, Resolution(lookup))
  {
    var env := Resolution(lookup);
    forall name ensures SolvesAt(lookup, env, name) {
      if env(name).Some? {
        ResolutionCovers(lookup(name).value, lookup, 0);
      }
    }
  }

  lemma {:induction false} ResolutionCovers(value: Value, lookup: Lookup, depth: nat)
    requires ResolveVars(value, lookup, depth).Ok?
    ensures Fill(value, lookup, Resolution(lookup)).Some?
    ensures ResolveVars(value, lookup, depth) == Ok(Trim(Fill(value, lookup, Resolution(lookup)).value))
  {
    ReplacedCovers(value, lookup, depth);
  }

  lemma {:induction false} ReplacedCovers(value: Value, lookup: Lookup, depth: nat)
    requires depth <= MAX_DEPTH && Replaced(value, lookup, depth).Ok?
    ensures Fill(value, lookup, Resolution(lookup)) == Some(Replaced(value, lookup, depth).value)
    decreases |value|
  {
    if value != [] {
      PieceCovers(value[0], lookup, depth);
      ReplacedCovers(value[1..], lookup, depth);
    }
  }

  lemma {:induction false} PieceCovers(piece: Piece, lookup: Lookup, depth: nat)
    requires depth <= MAX_DEPTH && ReplacedPiece(piece, lookup, depth).Ok?
    ensures FillPiece(piece, lookup, Resolution(lookup)) == Some(ReplacedPiece(piece, lookup, depth).value)
  {
    if piece.Ref? && lookup(piece.name).Some? {
      BudgetIrrelevant(lookup(piece.name).value, lookup, depth + 1, 0);
    } else if piece.Ref? {
      ResolvedLiteral(piece.fallback.value, lookup, depth + 1);
    }
  }

  // ---- Chains of references ----

  /** value refers to next. */
  ghost predicate Step(lookup: Lookup, value: Value, next: Value) {
    exists p :: p in value && Target(p, lookup) == Some(next)
  }

  ghost predicate IsChain(lookup: Lookup, chain: seq<Value>) {
    chain != [] && forall i :: 0 < i < |chain| ==> Step(lookup, chain[i - 1], chain[i])
  }

  ghost predicate ChainFrom(lookup: Lookup, value: Value, chain: seq<Value>) {
    IsChain(lookup, chain) && chain[0] == value
  }

  /** No more than `most` indirections, wherever the references lead. */
  ghost predicate ChainsWithin(lookup: Lookup, value: Value, most: int) {
    forall chain :: ChainFrom(lookup, value, chain) ==> |chain| - 1 <= most
  }

  ghost predicate Reaches(lookup: Lookup, value: Value, other: Value) {
    exists chain :: ChainFrom(lookup, value, chain) && chain[|chain| - 1] == other
  }

  /** Every reference of the value is declared or has a fallback. */
  ghost predicate Resolvable(lookup: Lookup, value: Value) {
    forall p :: p in value && p.Ref? ==> Target(p, lookup).Some?
  }

  /** Filling the value in, by any solution of the declarations that covers it, leaves no text that reads like a reference. */
  ghost predicate Flat(lookup: Lookup, value: Value) {
    forall env: Env :: IsSolution(lookup, env) && Fill(value, lookup, env).Some? ==> !MentionsVar(Fill(value, lookup, env).value)
  }

  ghost predicate AllReached(lookup: Lookup, value: Value, good: Value -> bool) {
    forall w :: Reaches(lookup, value, w) ==> good(w)
  }

  ghost function Sound(lookup: Lookup): Value -> bool {
    (w: Value) => Resolvable(lookup, w) && Flat(lookup, w)
  }

  lemma {:induction false} ReachesItself(lookup: Lookup, value: Value)
    ensures Reaches(lookup, value, value)
  {
    assert ChainFrom(lookup, value, [value]);
  }

  lemma {:induction false} ChainPush(lookup: Lookup, value: Value, next: Value, chain: seq<Value>)
    requires Step(lookup, value, next) && ChainFrom(lookup, next, chain)
    ensures ChainFrom(lookup, value, [value] + chain)
  {
  }

  /** What holds of all values reached holds of those reached from where the value refers to. */
  lemma {:induction false} Onward(lookup: Lookup, value: Value, next: Value, good: Value -> bool)
    requires Step(lookup, value, next) && AllReached(lookup, value, good)
    ensures AllReached(lookup, next, good)
  {
    forall w | Reaches(lookup, next, w) ensures good(w) {
      var chain :| ChainFrom(lookup, next, chain) && chain[|chain| - 1] == w;
      ChainPush(lookup, value, next, chain);
      assert ([value] + chain)[|chain|] == w;
      assert Reaches(lookup, value, w);
    }
  }

  lemma {:induction false} OnwardWithin(lookup: Lookup, value: Value, next: Value, most: int)
    requires Step(lookup, value, next) && ChainsWithin(lookup, value, most)
    ensures ChainsWithin(lookup, next, most - 1)
  {
    forall chain | ChainFrom(lookup, next, chain) ensures |chain| - 1 <= most - 1 {
      ChainPush(lookup, value, next, chain);
    }
  }

  lemma {:induction false} ReplacedPieces(value: Value, lookup: Lookup, depth: nat)
    requires depth <= MAX_DEPTH
    ensures Replaced(value, lookup, depth).Ok? <==> forall p :: p in value ==> ReplacedPiece(p, lookup, depth).Ok?
    decreases |value|
  {
    if value != [] {
      ReplacedPieces(value[1..], lookup, depth);
      assert forall p :: p in value <==> p == value[0] || p in value[1..];
      assert value[0] in value;
      assert Replaced(value, lookup, depth).Ok? <==>
             ReplacedPiece(value[0], lookup, depth).Ok? && Replaced(value[1..], lookup, depth).Ok?;
    }
  }

  lemma {:induction false} OkStep(value: Value, lookup: Lookup, depth: nat, next: Value)
    requires ResolveVars(value, lookup, depth).Ok? && Step(lookup, value, next)
    ensures ResolveVars(next, lookup, depth + 1).Ok?
  {
    ReplacedPieces(value, lookup, depth);
    var p :| p in value && Target(p, lookup) == Some(next);
    assert ReplacedPiece(p, lookup, depth).Ok?;
  }

  lemma {:induction false} OkAlong(lookup: Lookup, depth: nat, chain: seq<Value>)
    requires IsChain(lookup, chain) && ResolveVars(chain[0], lookup, depth).Ok?
    ensures ResolveVars(chain[|chain| - 1], lookup, depth + |chain| - 1).Ok?
  {
    var n := |chain| - 1;
    assert chain[n] == chain[0] || n > 0;
    if n > 0 {
      OkAlong(lookup, depth, chain[..n]);
      assert chain[..n][n - 1] == chain[n - 1];
      OkStep(chain[n - 1], lookup, depth + n - 1, chain[n]);
    }
  }

  lemma {:induction false} OkIsSound(value: Value, lookup: Lookup, depth: nat)
    requires ResolveVars(value, lookup, depth).Ok?
    ensures Resolvable(lookup, value) && Flat(lookup, value)
  {
    ReplacedPieces(value, lookup, depth);
    forall p | p in value && p.Ref? ensures Target(p, lookup).Some? {
      assert ReplacedPiece(p, lookup, depth).Ok?;
    }
    forall env: Env | IsSolution(lookup, env) && Fill(value, lookup, env).Some?
      ensures !MentionsVar(Fill(value, lookup, env).value)
    {
      ReplacedIsFill(value, lookup, depth, env);
    }
  }

  /**
   A value resolves exactly when no chain of references from it has more than 16 indirections,
   the references of every value reached can be resolved, and none of those leaves a var() behind.
   */
  lemma {:induction false} ResolvesExactly(value: Value, lookup: Lookup, depth: nat)
    ensures ResolveVars(value, lookup, depth).Ok? <==>
            ChainsWithin(lookup, value, MAX_DEPTH - depth) && AllReached(lookup, value, Sound(lookup))
  {
    if ResolveVars(value, lookup, depth).Ok? {
      OkNecessary(value, lookup, depth);
    }
    if ChainsWithin(lookup, value, MAX_DEPTH - depth) && AllReached(lookup, value, Sound(lookup)) {
      OkSufficient(value, lookup, depth);
    }
  }

  lemma {:induction false} OkNecessary(value: Value, lookup: Lookup, depth: nat)
    requires ResolveVars(value, lookup, depth).Ok?
    ensures ChainsWithin(lookup, value, MAX_DEPTH - depth) && AllReached(lookup, value, Sound(lookup))
  {
    forall chain | ChainFrom(lookup, value, chain) ensures |chain| - 1 <= MAX_DEPTH - depth {
      OkAlong(lookup, depth, chain);
    }
    forall w | Reaches(lookup, value, w) ensures Sound(lookup)(w) {
      var chain :| ChainFrom(lookup, value, chain) && chain[|chain| - 1] == w;
      OkAlong(lookup, depth, chain);
      OkIsSound(w, lookup, depth + |chain| - 1);
    }
  }

  lemma {:induction false} OkSufficient(value: Value, lookup: Lookup, depth: nat)
    requires ChainsWithin(lookup, value, MAX_DEPTH - depth) && AllReached(lookup, value, Sound(lookup))
    ensures ResolveVars(value, lookup, depth).Ok?
    decreases if depth > MAX_DEPTH then 0 else 17 - depth
  {
    assert ChainFrom(lookup, value, [value]);
    ReachesItself(lookup, value);
    assert Sound(lookup)(value);
    forall p | p in value ensures ReplacedPiece(p, lookup, depth).Ok? {
      if p.Ref? {
        var next := Target(p, lookup).value;
        assert Step(lookup, value, next);
        OnwardWithin(lookup, value, next, MAX_DEPTH - depth);
        Onward(lookup, value, next, Sound(lookup));
        OkSufficient(next, lookup, depth + 1);
      }
    }
    ReplacedPieces(value, lookup, depth);
    ReplacedCovers(value, lookup, depth);
    ResolutionSolves(lookup);
  }

  /** A value from which the references run in a circle fails at every depth; it never loops. */
  lemma {:induction false} CycleFails(value: Value, lookup: Lookup, depth: nat, chain: seq<Value>, i: nat, j: nat)
    requires ChainFrom(lookup, value, chain) && i < j < |chain| && chain[i] == chain[j]
    ensures ResolveVars(value, lookup, depth).Err?
  {
    if ResolveVars(value, lookup, depth).Ok? {
      OkAlong(lookup, depth, chain[..i + 1]);
      LoopFails(lookup, depth + i, chain[i..j + 1]);
    }
  }

  lemma {:induction false} LoopFails(lookup: Lookup, depth: nat, chain: seq<Value>)
    requires IsChain(lookup, chain) && |chain| > 1 && chain[0] == chain[|chain| - 1]
    ensures ResolveVars(chain[0], lookup, depth).Err?
    decreases if depth > MAX_DEPTH then 0 else 17 - depth
  {
    if depth <= MAX_DEPTH && ResolveVars(chain[0], lookup, depth).Ok? {
      OkAlong(lookup, depth, chain);
      LoopFails(lookup, depth + |chain| - 1, chain);
    }
  }

  // ---- Ordinary literals are flat ----

  /** Every parenthesis follows a character other than r and white space, as in oklch( or calc(. */
  ghost predicate PlainText(s: string) {
    forall i :: 0 <= i < |s| && s[i] == '(' ==> i > 0 && s[i - 1] != 'r' && !IsSpace(s[i - 1])
  }

  ghost function PlainLiterals(): Value -> bool {
    (value: Value) => forall p :: p in value && p.Lit? ==> PlainText(p.text)
  }

  lemma {:induction false} PlainMentionsNoVar(s: string)
    requires PlainText(s)
    ensures !MentionsVar(s)
  {
    forall i | 0 <= i < |s| ensures !VarAt(s, i) {
      if i + 4 <= |s| {
        assert s[i..i + 4][2] == s[i + 2] && s[i..i + 4][3] == s[i + 3];
      }
    }
  }

  lemma {:induction false} PlainTrimStart(s: string)
    requires PlainText(s)
    ensures PlainText(TrimStart(s))
  {
    if s != [] && IsSpace(s[0]) {
      var rest := s[1..];
      forall i | 0 <= i < |rest| && rest[i] == '(' ensures i > 0 && rest[i - 1] != 'r' && !IsSpace(rest[i - 1]) {
        assert s[i + 1] == '(';
      }
      PlainTrimStart(rest);
    }
  }

  lemma {:induction false} PlainTrimEnd(s: string)
    requires PlainText(s)
    ensures PlainText(TrimEnd(s))
  {
    if s != [] && IsSpace(s[|s| - 1]) {
      PlainTrimEnd(s[..|s| - 1]);
    }
  }

  lemma {:induction false} PlainReplaced(value: Value, lookup: Lookup, depth: nat)
    requires depth <= MAX_DEPTH && Replaced(value, lookup, depth).Ok?
    requires forall p :: p in value ==> ReplacedPiece(p, lookup, depth).Ok? ==> PlainText(ReplacedPiece(p, lookup, depth).value)
    ensures PlainText(Replaced(value, lookup, depth).value)
    decreases |value|
  {
    if value != [] {
      PlainReplaced(value[1..], lookup, depth);
    }
  }

  /** From plain literals only plain text comes. */
  lemma {:induction false} PlainResolved(value: Value, lookup: Lookup, depth: nat)
    requires depth <= MAX_DEPTH && AllReached(lookup, value, PlainLiterals()) && Replaced(value, lookup, depth).Ok?
    ensures PlainText(Replaced(value, lookup, depth).value)
    decreases 17 - depth
  {
    ReachesItself(lookup, value);
    assert PlainLiterals()(value);
    ReplacedPieces(value, lookup, depth);
    forall p | p in value ensures PlainText(ReplacedPiece(p, lookup, depth).value) {
      assert ReplacedPiece(p, lookup, depth).Ok?;
      if p.Ref? {
        var next := Target(p, lookup).value;
        assert Step(lookup, value, next);
        Onward(lookup, value, next, PlainLiterals());
        PlainResolved(next, lookup, depth + 1);
        PlainTrimStart(Replaced(next, lookup, depth + 1).value);
        PlainTrimEnd(TrimStart(Replaced(next, lookup, depth + 1).value));
      }
    }
    PlainReplaced(value, lookup, depth);
  }

  ghost function AlwaysResolvable(lookup: Lookup): Value -> bool {
    (w: Value) => Resolvable(lookup, w)
  }

  /** For such literals a value resolves exactly when its references do, within 16 indirections. */
  lemma {:induction false} PlainResolvesExactly(value: Value, lookup: Lookup)
    requires AllReached(lookup, value, PlainLiterals())
    ensures ResolveVars(value, lookup, 0).Ok? <==>
            ChainsWithin(lookup, value, MAX_DEPTH) && AllReached(lookup, value, AlwaysResolvable(lookup))
  {
    if ResolveVars(value, lookup, 0).Ok? {
      OkNecessary(value, lookup, 0);
      forall w | Reaches(lookup, value, w) ensures AlwaysResolvable(lookup)(w) {
        assert Sound(lookup)(w);
      }
    }
    if ChainsWithin(lookup, value, MAX_DEPTH) && AllReached(lookup, value, AlwaysResolvable(lookup)) {
      PlainSufficient(value, lookup, 0);
    }
  }

  lemma {:induction false} PlainSufficient(value: Value, lookup: Lookup, depth: nat)
    requires AllReached(lookup, value, PlainLiterals())
    requires ChainsWithin(lookup, value, MAX_DEPTH - depth) && AllReached(lookup, value, AlwaysResolvable(lookup))
    ensures ResolveVars(value, lookup, depth).Ok?
    decreases if depth > MAX_DEPTH then 0 else 17 - depth
  {
    assert ChainFrom(lookup, value, [value]);
    ReachesItself(lookup, value);
    assert AlwaysResolvable(lookup)(value);
    forall p | p in value ensures ReplacedPiece(p, lookup, depth).Ok? {
      if p.Ref? {
        var next := Target(p, lookup).value;
        assert Step(lookup, value, next);
        OnwardWithin(lookup, value, next, MAX_DEPTH - depth);
        Onward(lookup, value, next, AlwaysResolvable(lookup));
        Onward(lookup, value, next, PlainLiterals());
        PlainSufficient(next, lookup, depth + 1);
      }
    }
    ReplacedPieces(value, lookup, depth);
    PlainResolved(value, lookup, depth);
    PlainMentionsNoVar(Replaced(value, lookup, depth).value);
  }

  // ---- Declarations and themes ----

  datatype Declaration = Declaration(name: string, value: Value)

  type Decls = map<string, Value>

  /** The last declaration of a name. */
  function LastDeclared(declarations: seq<Declaration>, name: string): Option<Value> {
    if declarations == [] then None
    else
      var last := declarations[|declarations| - 1];
      if last.name == name then Some(last.value)
      else LastDeclared(declarations[..|declarations| - 1], name)
  }

  function Get(decls: Decls, name: string): Option<Value> {
    if name in decls then Some(decls[name]) else None
  }

  function Flattened(bodies: seq<seq<Declaration>>): seq<Declaration> {
    if bodies == [] then [] else Flattened(bodies[..|bodies| - 1]) + bodies[|bodies| - 1]
  }

  ghost predicate Merges(merged: Decls, declarations: seq<Declaration>) {
    forall name :: Get(merged, name) == LastDeclared(declarations, name)
  }

  /** The last write wins, within a block and across blocks. */
  method MergeDecls(bodies: seq<seq<Declaration>>) returns (merged: Decls)
    ensures Merges(merged, Flattened(bodies))
  {
    merged := map[];
    for i := 0 to |bodies|
      invariant Merges(merged, Flattened(bodies[..i]))
    {
      var before := Flattened(bodies[..i]);
      assert before + bodies[i][..0] == before;
      for j := 0 to |bodies[i]|
        invariant Merges(merged, before + bodies[i][..j])
      {
        var next := before + bodies[i][..j + 1];
        assert next[..|next| - 1] == before + bodies[i][..j];
        merged := merged[bodies[i][j].name := bodies[i][j].value];
      }
      assert bodies[i][..|bodies[i]|] == bodies[i];
      assert bodies[..i + 1][..i] == bodies[..i];
    }
    assert bodies[..|bodies|] == bodies;
  }

  function Light(root: Decls, theme: Decls): Lookup {
    (name: string) => if name in root then Some(root[name]) else Get(theme, name)
  }

  function Dark(root: Decls, dark: Decls, theme: Decls): Lookup {
    (name: string) => if name in dark then Some(dark[name]) else Light(root, theme)(name)
  }

  datatype Token = Token(name: string, light: string, dark: string)

  function ResolveToken(name: string, root: Decls, dark: Decls, theme: Decls): Result<Token, Error> {
    if name !in root then Err(NotDeclared(name))
    else
      var rawDark := if name in dark then dark[name] else root[name];
      match ResolveVars(root[name], Light(root, theme), 0)
      case Err(e) => Err(e)
      case Ok(l) =>
        match ResolveVars(rawDark, Dark(root, dark, theme), 0)
        case Err(e) => Err(e)
        case Ok(d) => Ok(Token(name, l, d))
  }

  function ResolveTokens(names: seq<string>, root: Decls, dark: Decls, theme: Decls): Result<seq<Token>, Error> {
    if names == [] then Ok([])
    else match ResolveToken(names[0], root, dark, theme)
      case Err(e) => Err(e)
      case Ok(token) =>
        match ResolveTokens(names[1..], root, dark, theme)
        case Err(e) => Err(e)
        case Ok(rest) => Ok([token] + rest)
  }

  function ResolvePreviewThemeTokens(names: seq<string>, root: Decls, dark: Decls, theme: Decls): Result<seq<Token>, Error> {
    if root == map[] then Err(NoBlock(":root"))
    else if dark == map[] then Err(NoBlock(".dark"))
    else ResolveTokens(names, root, dark, theme)
  }

  /** Tokens are given exactly when both themes are declared and every name resolves in both; then in order. */
  lemma {:induction false} TokensExact(names: seq<string>, root: Decls, dark: Decls, theme: Decls)
    ensures var r := ResolvePreviewThemeTokens(names, root, dark, theme);
            && (r.Ok? <==> root != map[] && dark != map[]
                           && forall i :: 0 <= i < |names| ==> ResolveToken(names[i], root, dark, theme).Ok?)
            && (r.Ok? ==> |r.value| == |names|
                          && forall i :: 0 <= i < |names| ==> Ok(r.value[i]) == ResolveToken(names[i], root, dark, theme))
  {
    AllTokens(names, root, dark, theme);
  }

  lemma {:induction false} AllTokens(names: seq<string>, root: Decls, dark: Decls, theme: Decls)
    ensures var r := ResolveTokens(names, root, dark, theme);
            && (r.Ok? <==> forall i :: 0 <= i < |names| ==> ResolveToken(names[i], root, dark, theme).Ok?)
            && (r.Ok? ==> |r.value| == |names|
                          && forall i :: 0 <= i < |names| ==> Ok(r.value[i]) == ResolveToken(names[i], root, dark, theme))
  {
    if names != [] {
      AllTokens(names[1..], root, dark, theme);
      var first, rest := ResolveToken(names[0], root, dark, theme), ResolveTokens(names[1..], root, dark, theme);
      assert ResolveTokens(names, root, dark, theme).Ok? <==> first.Ok? && rest.Ok?;
      forall i | 0 <= i < |names|
        ensures ResolveToken(names[i], root, dark, theme) == if i == 0 then first else ResolveToken(names[1..][i - 1], root, dark, theme)
      {
      }
    }
  }

  /** No name the value refers to is declared again for the dark theme. */
  ghost function NotOverridden(dark: Decls): Value -> bool {
    (w: Value) => forall p :: p in w && p.Ref? ==> p.name !in dark
  }

  /** A token whose references the dark theme leaves alone looks the same in both themes. */
  lemma {:induction false} DarkFollowsLight(name: string, root: Decls, dark: Decls, theme: Decls)
    requires ResolveToken(name, root, dark, theme).Ok? && name !in dark
    requires AllReached(Light(root, theme), root[name], NotOverridden(dark))
    ensures ResolveToken(name, root, dark, theme).value.dark == ResolveToken(name, root, dark, theme).value.light
  {
    SameResolved(root[name], root, dark, theme, 0);
  }

  lemma {:induction false} SameResolved(value: Value, root: Decls, dark: Decls, theme: Decls, depth: nat)
    requires AllReached(Light(root, theme), value, NotOverridden(dark))
    ensures ResolveVars(value, Dark(root, dark, theme), depth) == ResolveVars(value, Light(root, theme), depth)
    decreases if depth > MAX_DEPTH then 0 else 17 - depth
  {
    var light := Light(root, theme);
    if depth <= MAX_DEPTH {
      ReachesItself(light, value);
      assert NotOverridden(dark)(value);
      forall p | p in value
        ensures ReplacedPiece(p, Dark(root, dark, theme), depth) == ReplacedPiece(p, light, depth)
      {
        if p.Ref? && Target(p, light).Some? {
          var next := Target(p, light).value;
          assert Step(light, value, next);
          Onward(light, value, next, NotOverridden(dark));
          SameResolved(next, root, dark, theme, depth + 1);
        }
      }
      SamePieces(value, Dark(root, dark, theme), light, depth);
    }
  }

  lemma {:induction false} SamePieces(value: Value, a: Lookup, b: Lookup, depth: nat)
    requires depth <= MAX_DEPTH && forall p :: p in value ==> ReplacedPiece(p, a, depth) == ReplacedPiece(p, b, depth)
    ensures Replaced(value, a, depth) == Replaced(value, b, depth)
    decreases |value|
  {
    if value != [] {
      SamePieces(value[1..], a, b, depth);
    }
  }
}
