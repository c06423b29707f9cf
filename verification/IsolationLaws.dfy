/**
 What an isolated call guarantees, whatever its callback and cleanups do: nothing tracked stays live,
 silence means no leak, and which error is reported.
 */
module IsolationLaws {
  import opened Wrappers
  import opened Text
  import opened Isolation

  // ---- Resources ----

  ghost predicate HasNumber(id: string, n: nat) {
    exists prefix :: id == prefix + (":" + Digits(n))
  }

  /** The number at the end of an identifier is determined by it. */
  lemma {:induction false} NumberUnique(id: string, n: nat, m: nat)
    requires HasNumber(id, n) && HasNumber(id, m)
    ensures n == m
  {
    NumberAtEnd(id, n);
    NumberAtEnd(id, m);
    DigitsRoundTrip(n);
    DigitsRoundTrip(m);
  }

  /** A colon, the numeral, and nothing else. */
  lemma {:induction false} NumberAtEnd(id: string, n: nat)
    requires HasNumber(id, n)
    ensures var at := |id| - |Digits(n)|; at > 0 && id[at - 1] == ':' && id[at..] == Digits(n) && AllDigitsFrom(id, at)
  {
    var d := Digits(n);
    var prefix :| id == prefix + (":" + d);
    var at := |id| - |d|;
    assert id[at - 1] == (":" + d)[0];
    assert id[at..] == d;
    forall k | at <= k < |id| ensures IsDigit(id[k]) {
      assert id[k] == d[k - at];
    }
  }

  ghost predicate AllDigitsFrom(id: string, at: nat) {
    forall k :: at <= k < |id| ==> IsDigit(id[k])
  }

  /** Issued before the sequence number reached n. */
  ghost predicate IssuedBefore(id: string, n: nat) {
    exists m: nat :: m < n && HasNumber(id, m)
  }

  ghost predicate AllIssued(w: World) {
    forall id :: id in w.live ==> IssuedBefore(id, w.sequence)
  }

  lemma {:induction false} NextIsNew(w: World, kind: string, name: string)
    ensures HasNumber(ResourceId(kind, name, w.sequence), w.sequence)
    ensures !IssuedBefore(ResourceId(kind, name, w.sequence), w.sequence)
    ensures IssuedBefore(ResourceId(kind, name, w.sequence), w.sequence + 1)
  {
    var id := ResourceId(kind, name, w.sequence);
    assert HasNumber(id, w.sequence);
    if m: nat :| m < w.sequence && HasNumber(id, m) {
      NumberUnique(id, m, w.sequence);
    }
  }

  /** Issued, and not live any more: from then on it stays so. */
  ghost predicate Gone(w: World, id: string) {
    IssuedBefore(id, w.sequence) && id !in w.live
  }

  lemma {:induction false} GoneStep(w: World, a: Action, id: string)
    requires Gone(w, id)
    ensures Gone(Done(w, a), id)
  {
    if a.TrackResource? || a.TrackOutside? {
      NextIsNew(w, a.kind, a.name);
    }
  }

  lemma {:induction false} GoneRan(w: World, script: seq<Action>, id: string)
    requires Gone(w, id)
    ensures Gone(Ran(w, script).world, id)
    decreases |script|
  {
    if script != [] && !script[0].Throw? {
      GoneStep(w, script[0], id);
      GoneRan(Done(w, script[0]), script[1..], id);
    }
  }

  lemma {:induction false} GoneInvoked(w: World, c: Cleanup, id: string)
    requires Gone(w, id)
    ensures Gone(Invoked(w, c).world, id)
  {
    if c.Callback? {
      GoneRan(w, c.script, id);
    }
  }

  lemma {:induction false} IssuedRan(w: World, script: seq<Action>, id: string)
    requires IssuedBefore(id, w.sequence)
    ensures IssuedBefore(id, Ran(w, script).world.sequence)
    decreases |script|
  {
    if script != [] && !script[0].Throw? {
      IssuedRan(Done(w, script[0]), script[1..], id);
    }
  }

  /** A release among the cleanups ends the resource for good, whatever the others do. */
  lemma {:induction false} ReleasedInvoked(w: World, cleanups: seq<Cleanup>, first: Option<Thrown>, id: string)
    requires IssuedBefore(id, w.sequence)
    requires ReleaseOf(id) in cleanups || Gone(w, id)
    ensures Gone(AllInvoked(w, cleanups, first).world, id)
    decreases |cleanups|
  {
    if cleanups != [] {
      var o := Invoked(w, cleanups[0]);
      if cleanups[0] == ReleaseOf(id) {
        assert Gone(o.world, id);
      } else if Gone(w, id) {
        GoneInvoked(w, cleanups[0], id);
      } else if cleanups[0].Callback? {
        IssuedRan(w, cleanups[0].script, id);
      }
      assert cleanups == [cleanups[0]] + cleanups[1..];
      ReleasedInvoked(o.world, cleanups[1..], Recorded(first, o.thrown), id);
    }
  }

  lemma {:induction false} InReversed<T>(s: seq<T>, x: T)
    ensures x in Reversed(s) <==> x in s
  {
    if s != [] {
      InReversed(s[..|s| - 1], x);
      assert s == s[..|s| - 1] + [s[|s| - 1]];
    }
  }

  /** The identifiers a script tracks through the isolation. */
  function TrackedBy(w: World, script: seq<Action>): set<string>
    decreases |script|
  {
    if script == [] || script[0].Throw? then {}
    else
      (if script[0].TrackResource? then {ResourceId(script[0].kind, script[0].name, w.sequence)} else {})
      + TrackedBy(Done(w, script[0]), script[1..])
  }

  ghost predicate Held(w: World, id: string) {
    IssuedBefore(id, w.sequence) && ReleaseOf(id) in w.cleanups
  }

  lemma {:induction false} HeldRan(w: World, script: seq<Action>, id: string)
    requires Held(w, id)
    ensures Held(Ran(w, script).world, id)
    decreases |script|
  {
    if script != [] && !script[0].Throw? {
      HeldRan(Done(w, script[0]), script[1..], id);
    }
  }

  lemma {:induction false} TrackedHeld(w: World, script: seq<Action>, id: string)
    requires id in TrackedBy(w, script)
    ensures Held(Ran(w, script).world, id)
    decreases |script|
  {
    var next := Done(w, script[0]);
    if script[0].TrackResource? && id == ResourceId(script[0].kind, script[0].name, w.sequence) {
      NextIsNew(w, script[0].kind, script[0].name);
      HeldRan(next, script[1..], id);
    } else {
      TrackedHeld(next, script[1..], id);
    }
  }

  /** What the callback and the cleanups leave, before the environment is restored. */
  function AfterCleanups(w: World, callback: seq<Action>): World {
    var after := Ran(w.(cleanups := []), callback).world;
    AllInvoked(after, Reversed(after.cleanups), None).world
  }

  /**
   Whatever callback and cleanups do, on exit no resource that the callback tracked through the isolation
   is live, and every variable is as it was, but for those set under an inherited name: the environment
   is the snapshot exactly when there are none.
   */
  lemma {:induction false} NothingTrackedStays(w: World, inherited: set<string>, allowed: set<string>, callback: seq<Action>)
    ensures var end, env := Isolated(w, inherited, allowed, callback).world, AfterCleanups(w, callback).env;
            && (forall key :: key in w.env || key !in inherited ==> Get(end.env, key) == Get(w.env, key))
            && (end.env == w.env <==> Leftovers(env, w.env, inherited) == {})
    ensures forall id :: id in TrackedBy(w.(cleanups := []), callback) ==> id !in Isolated(w, inherited, allowed, callback).world.live
  {
    RestoredExact(AfterCleanups(w, callback).env, w.env, inherited);
    var start := w.(cleanups := []);
    forall id | id in TrackedBy(start, callback) ensures id !in Isolated(w, inherited, allowed, callback).world.live {
      TrackedHeld(start, callback, id);
      var after := Ran(start, callback).world;
      InReversed(after.cleanups, ReleaseOf(id));
      ReleasedInvoked(after, Reversed(after.cleanups), None, id);
    }
  }

  /** Such a variable set by the callback stays. */
  lemma {:induction false} InheritedNameStays(w: World, inherited: set<string>, allowed: set<string>, key: string, value: string)
    requires key in inherited && key !in w.env
    ensures Isolated(w, inherited, allowed, [SetEnv(key, value)]).world.env == w.env[key := value]
  {
    var start, script := w.(cleanups := []), [SetEnv(key, value)];
    assert script[1..] == [];
    assert Ran(start, script) == Ran(Done(start, script[0]), []);
    assert AfterCleanups(w, script).env == w.env[key := value];
  }

  lemma {:induction false} RestoredExact(env: map<string, string>, snapshot: map<string, string>, inherited: set<string>)
    ensures var end := EnvironmentAfter(env, snapshot, inherited);
            && (end == snapshot <==> Leftovers(env, snapshot, inherited) == {})
            && (forall key :: key in snapshot || key !in inherited ==> Get(end, key) == Get(snapshot, key))
  {
    var end := EnvironmentAfter(env, snapshot, inherited);
    assert end.Keys == snapshot.Keys + Leftovers(env, snapshot, inherited);
    if end == snapshot {
      assert forall key :: key in Leftovers(env, snapshot, inherited) ==> key in end && key !in snapshot;
    }
  }

  // ---- Identifiers and cleanups ----

  /** An identifier tells its kind, its label and its number, as long as kinds hold no colon. */
  lemma {:induction false} ResourceIdInjective(kind: string, name: string, n: nat, kind': string, name': string, n': nat)
    requires ':' !in kind && ':' !in kind' && ResourceId(kind, name, n) == ResourceId(kind', name', n')
    ensures kind == kind' && name == name' && n == n'
  {
    var id := ResourceId(kind, name, n);
    assert HasNumber(id, n) && HasNumber(id, n');
    NumberUnique(id, n, n');
    var end := ":" + Digits(n);
    var a, b := kind + ":" + name, kind' + ":" + name';
    assert a == id[..|id| - |end|] == b;
    assert a[|kind|] == ':' && b[|kind'|] == ':';
    assert forall i :: 0 <= i < |kind| ==> a[i] == kind[i];
    assert forall i :: 0 <= i < |kind'| ==> b[i] == kind'[i];
    assert kind == a[..|kind|] == b[..|kind'|] == kind';
    assert name == a[|kind| + 1..] == name';
  }

  /** A tracked resource is live under its identifier until it is released, and the next one has another. */
  lemma {:induction false} TrackedIsLive(w: World, kind: string, name: string)
    requires AllIssued(w)
    ensures var id, next := ResourceId(kind, name, w.sequence), Done(w, TrackOutside(kind, name));
            && id !in w.live && next.live == w.live[id := kind] && next.sequence == w.sequence + 1
            && Done(w, TrackResource(kind, name)) == next.(cleanups := w.cleanups + [ReleaseOf(id)])
            && id !in Done(next, Release(id)).live && id !in Invoked(next, ReleaseOf(id)).world.live
  {
    NextIsNew(w, kind, name);
  }

  /** What the effects of a script that are not tracking do, and that they do nothing else. */
  lemma {:induction false} EffectsExact(w: World, key: string, value: string, kind: string, n: nat)
    ensures var w' := Done(w, SetEnv(key, value)); Get(w'.env, key) == Some(value) && w'.(env := w.env) == w
    ensures var w' := Done(w, DeleteEnv(key)); Get(w'.env, key) == None && w'.(env := w.env) == w
    ensures forall other :: other != key ==>
              && Get(Done(w, SetEnv(key, value)).env, other) == Get(w.env, other)
              && Get(Done(w, DeleteEnv(key)).env, other) == Get(w.env, other)
    ensures var w' := Done(w, SetHandles(kind, n)); HandlesOf(w', kind) == n && w'.(handles := w.handles) == w
    ensures forall other :: other != kind ==> HandlesOf(Done(w, SetHandles(kind, n)), other) == HandlesOf(w, other)
    ensures Done(w, SetRequests(n)).requests == n && Done(w, SetRequests(n)).(requests := w.requests) == w
  {
  }

  /** Cleanups are invoked last to first. */
  lemma {:induction false} ReversedAt<T>(s: seq<T>, i: nat)
    requires i < |s|
    ensures |Reversed(s)| == |s| && Reversed(s)[i] == s[|s| - 1 - i]
  {
    if |s| > 1 {
      ReversedAt(s[..|s| - 1], if i > 0 then i - 1 else 0);
    } else {
      assert Reversed(s[..0]) == [];
    }
  }

  // ---- Leaks ----

  /** What is live is what was live before, or carries a later number. */
  ghost predicate SinceBefore(before: World, w: World) {
    before.sequence <= w.sequence && forall id :: id in w.live ==> KnownOrLater(before, id, w.live[id])
  }

  ghost predicate KnownOrLater(before: World, id: string, kind: string) {
    || (id in before.live && before.live[id] == kind)
    || exists n :: before.sequence <= n && HasNumber(id, n)
  }

  lemma {:induction false} SinceStep(before: World, w: World, a: Action)
    requires SinceBefore(before, w)
    ensures SinceBefore(before, Done(w, a))
  {
    if a.TrackResource? || a.TrackOutside? {
      NextIsNew(w, a.kind, a.name);
      assert KnownOrLater(before, ResourceId(a.kind, a.name, w.sequence), a.kind);
    }
  }

  lemma {:induction false} SinceRan(before: World, w: World, script: seq<Action>)
    requires SinceBefore(before, w)
    ensures SinceBefore(before, Ran(w, script).world)
    decreases |script|
  {
    if script != [] && !script[0].Throw? {
      SinceStep(before, w, script[0]);
      SinceRan(before, Done(w, script[0]), script[1..]);
    }
  }

  lemma {:induction false} SinceInvoked(before: World, w: World, cleanups: seq<Cleanup>, first: Option<Thrown>)
    requires SinceBefore(before, w)
    ensures SinceBefore(before, AllInvoked(w, cleanups, first).world)
    decreases |cleanups|
  {
    if cleanups != [] {
      if cleanups[0].Callback? {
        SinceRan(before, w, cleanups[0].script);
      }
      var o := Invoked(w, cleanups[0]);
      SinceInvoked(before, o.world, cleanups[1..], Recorded(first, o.thrown));
    }
  }

  lemma {:induction false} NameHasNumber(id: string, kind: string, n: nat)
    requires HasNumber(id, n)
    ensures HasNumber(ResourceName(id, kind), n)
  {
    var prefix :| id == prefix + (":" + Digits(n));
    assert ResourceName(id, kind) == (kind + ":" + prefix) + (":" + Digits(n));
  }

  /** A resource with a later number is not among the names listed before. */
  lemma {:induction false} LaterIsUnlisted(before: World, id: string, kind: string, n: nat)
    requires AllIssued(before) && before.sequence <= n && HasNumber(id, n)
    ensures id !in before.live && !NameListed(before, ResourceName(id, kind))
  {
    if id in before.live {
      var m: nat :| m < before.sequence && HasNumber(id, m);
      NumberUnique(id, n, m);
    }
    if other :| other in before.live && ResourceName(other, before.live[other]) == ResourceName(id, kind) {
      var m: nat :| m < before.sequence && HasNumber(other, m);
      NameHasNumber(id, kind, n);
      NameHasNumber(other, before.live[other], m);
      NumberUnique(ResourceName(id, kind), n, m);
    }
  }

  /** Comparing the printed names finds exactly the resources that were not live before. */
  lemma {:induction false} ResourceCheckExact(before: World, after: World)
    requires AllIssued(before) && SinceBefore(before, after)
    ensures ResourcesClean(before, after) <==> after.live.Keys <= before.live.Keys
  {
    forall id | id in after.live
      ensures NameListed(before, ResourceName(id, after.live[id])) <==> id in before.live
    {
      assert KnownOrLater(before, id, after.live[id]);
      if n :| before.sequence <= n && HasNumber(id, n) {
        LaterIsUnlisted(before, id, after.live[id], n);
      }
    }
  }

  function HandlesOf(w: World, kind: string): nat {
    if kind in w.handles then w.handles[kind] else 0
  }

  /** A variable that may not change has, or there is a new resource, or more handles of a kind, or more requests. */
  ghost predicate Leaks(before: World, after: World, allowed: set<string>) {
    || (exists key :: key !in allowed && Get(before.env, key) != Get(after.env, key))
    || (exists id :: id in after.live && id !in before.live)
    || (exists kind :: HandlesOf(after, kind) > HandlesOf(before, kind))
    || after.requests > before.requests
  }

  /** The check finds exactly the leaks: allowed variables may change, and counts may go down. */
  lemma {:induction false} CleanExact(before: World, after: World, allowed: set<string>)
    requires AllIssued(before) && SinceBefore(before, after)
    ensures Clean(before, after, allowed) <==> !Leaks(before, after, allowed)
  {
    ResourceCheckExact(before, after);
    HandlesExact(before, after);
    EnvironmentExact(before, after, allowed);
    assert after.live.Keys <= before.live.Keys <==> !exists id :: id in after.live && id !in before.live;
  }

  lemma {:induction false} EnvironmentExact(before: World, after: World, allowed: set<string>)
    ensures EnvironmentClean(before, after, allowed) <==>
              forall key :: key !in allowed ==> Get(before.env, key) == Get(after.env, key)
  {
  }

  lemma {:induction false} HandlesExact(before: World, after: World)
    ensures HandlesClean(before, after) <==>
              (forall kind :: HandlesOf(after, kind) <= HandlesOf(before, kind)) && after.requests <= before.requests
  {
    if HandlesClean(before, after) {
      forall kind ensures HandlesOf(after, kind) <= HandlesOf(before, kind) {
      }
    }
    if forall kind :: HandlesOf(after, kind) <= HandlesOf(before, kind) {
      forall kind | kind in after.handles
        ensures after.handles[kind] <= if kind in before.handles then before.handles[kind] else 0
      {
        assert HandlesOf(after, kind) <= HandlesOf(before, kind);
      }
    }
  }

  /**
   A call that reports nothing has leaked nothing: no resource, handle or request more than before, and
   the environment is as it was, unless a variable may change that has an inherited name.
   */
  lemma {:induction false} SilenceMeansClean(w: World, inherited: set<string>, allowed: set<string>, callback: seq<Action>)
    requires AllIssued(w) && Isolated(w, inherited, allowed, callback).thrown == None
    ensures var end := Isolated(w, inherited, allowed, callback).world;
            && end.live.Keys <= w.live.Keys && HandlesClean(w, end)
            && (inherited !! allowed ==> end.env == w.env)
  {
    var start := w.(cleanups := []);
    assert AllIssued(start);
    SinceRan(start, start, callback);
    var o := Ran(start, callback);
    SinceInvoked(start, o.world, Reversed(o.world.cleanups), None);
    var after := AfterCleanups(w, callback);
    ResourceCheckExact(start, after);
    assert Clean(start, after, allowed);
    RestoredExact(after.env, w.env, inherited);
    LeftoversAllowed(start, after, inherited, allowed);
  }

  lemma {:induction false} LeftoversAllowed(before: World, after: World, inherited: set<string>, allowed: set<string>)
    requires EnvironmentClean(before, after, allowed)
    ensures Leftovers(after.env, before.env, inherited) <= inherited * allowed
  {
    forall key | key in Leftovers(after.env, before.env, inherited) ensures key in allowed {
      assert Get(before.env, key) != Get(after.env, key);
    }
  }

  // ---- Which error is reported ----

  /** What the cleanups throw, in the order of their invocation. */
  function Errors(w: World, cleanups: seq<Cleanup>): seq<Thrown>
    decreases |cleanups|
  {
    if cleanups == [] then []
    else
      var o := Invoked(w, cleanups[0]);
      (if o.thrown.Some? then [o.thrown.value] else []) + Errors(o.world, cleanups[1..])
  }

  /** The first value thrown that is neither null nor undefined. */
  function FirstSolid(errors: seq<Thrown>): Option<Thrown> {
    if errors == [] then None
    else if errors[0] != Nullish then Some(errors[0])
    else FirstSolid(errors[1..])
  }

  ghost predicate Solid(t: Option<Thrown>) {
    t.Some? && t.value != Nullish
  }

  lemma {:induction false} RecordedExact(w: World, cleanups: seq<Cleanup>, first: Option<Thrown>)
    ensures var recorded := AllInvoked(w, cleanups, first).thrown;
            if Solid(first) then recorded == first
            else if FirstSolid(Errors(w, cleanups)).Some? then recorded == FirstSolid(Errors(w, cleanups))
            else !Solid(recorded)
    decreases |cleanups|
  {
    if cleanups != [] {
      var o := Invoked(w, cleanups[0]);
      RecordedExact(o.world, cleanups[1..], Recorded(first, o.thrown));
      var rest := Errors(o.world, cleanups[1..]);
      assert Errors(w, cleanups) == if o.thrown.Some? then [o.thrown.value] + rest else rest;
      assert o.thrown.Some? ==> ([o.thrown.value] + rest)[1..] == rest;
    }
  }

  /**
   The error of an isolated call: the callback's own if it threw; else a leak; else the first solid
   value thrown by a cleanup, unless that one is falsy, in which case no error is reported at all.
   */
  lemma {:induction false} ErrorExact(w: World, inherited: set<string>, allowed: set<string>, callback: seq<Action>)
    ensures var start := w.(cleanups := []);
            var o := Ran(start, callback);
            var cleanups := Reversed(o.world.cleanups);
            var thrown := Isolated(w, inherited, allowed, callback).thrown;
            if o.thrown.Some? then thrown == o.thrown
            else if !Clean(start, AllInvoked(o.world, cleanups, None).world, allowed) then thrown == Some(LEAK)
            else thrown == if IsTruthy(FirstSolid(Errors(o.world, cleanups))) then FirstSolid(Errors(o.world, cleanups)) else None
  {
    var o := Ran(w.(cleanups := []), callback);
    RecordedExact(o.world, Reversed(o.world.cleanups), None);
  }

  /** After a callback without an error, a leak is reported; without a leak only the cleanups' errors are. */
  lemma {:induction false} LeakReported(w: World, inherited: set<string>, allowed: set<string>, callback: seq<Action>)
    requires AllIssued(w) && Ran(w.(cleanups := []), callback).thrown == None
    ensures var thrown, after := Isolated(w, inherited, allowed, callback).thrown, Ran(w.(cleanups := []), callback).world;
            if Leaks(w, AfterCleanups(w, callback), allowed) then thrown == Some(LEAK)
            else thrown == None || (IsTruthy(thrown) && thrown.value in Errors(after, Reversed(after.cleanups)))
  {
    var start := w.(cleanups := []);
    var o := Ran(start, callback);
    SinceRan(start, start, callback);
    SinceInvoked(start, o.world, Reversed(o.world.cleanups), None);
    CleanExact(start, AfterCleanups(w, callback), allowed);
    SameLeaks(w, start, AfterCleanups(w, callback), allowed);
    ErrorExact(w, inherited, allowed, callback);
    FirstSolidListed(Errors(o.world, Reversed(o.world.cleanups)));
  }

  lemma {:induction false} SameLeaks(w: World, start: World, after: World, allowed: set<string>)
    requires start == w.(cleanups := [])
    ensures Leaks(w, after, allowed) <==> Leaks(start, after, allowed)
  {
    forall kind ensures HandlesOf(w, kind) == HandlesOf(start, kind) {
    }
  }

  lemma {:induction false} FirstSolidListed(errors: seq<Thrown>)
    ensures FirstSolid(errors).Some? ==> FirstSolid(errors).value in errors
  {
    if errors != [] {
      FirstSolidListed(errors[1..]);
    }
  }

  /** A cleanup that throws a falsy value hides the truthy error of one registered before it. */
  lemma {:induction false} FalsyErrorHides(w: World, inherited: set<string>, allowed: set<string>, error: Cleanup, zero: Cleanup)
    requires error == Callback([Throw(Truthy("cleanup failed"))]) && zero == Callback([Throw(Falsy("0"))])
    ensures var callback := [RegisterCleanup(error), RegisterCleanup(zero)];
            && Isolated(w, inherited, allowed, callback).thrown == None
            && Errors(Ran(w.(cleanups := []), callback).world, [zero, error]) == [Falsy("0"), Truthy("cleanup failed")]
  {
    var start := w.(cleanups := []);
    var callback := [RegisterCleanup(error), RegisterCleanup(zero)];
    BothRegistered(start, error, zero);
    var after := start.(cleanups := [error, zero]);
    Thrower(after, "cleanup failed", error, zero);
    ReversedTwo(error, zero);
    UnchangedIsClean(start, after, allowed);
    ErrorExact(w, inherited, allowed, callback);
  }

  lemma {:induction false} BothRegistered(start: World, a: Cleanup, b: Cleanup)
    requires start.cleanups == []
    ensures Ran(start, [RegisterCleanup(a), RegisterCleanup(b)]) == Outcome(start.(cleanups := [a, b]), None)
  {
    var script := [RegisterCleanup(a), RegisterCleanup(b)];
    var next := Done(start, script[0]);
    assert script[1..] == [RegisterCleanup(b)] && script[1..][1..] == [];
    assert next.cleanups == [a];
    assert Ran(next, script[1..]) == Ran(Done(next, script[1..][0]), []);
    assert [a] + [b] == [a, b];
  }

  lemma {:induction false} Thrower(w: World, what: string, error: Cleanup, zero: Cleanup)
    requires error == Callback([Throw(Truthy(what))]) && zero == Callback([Throw(Falsy("0"))])
    ensures Errors(w, [zero, error]) == [Falsy("0"), Truthy(what)]
    ensures AllInvoked(w, [zero, error], None).world == w
  {
    assert [zero, error][1..] == [error] && [error][1..] == [];
    assert zero.script[0] == Throw(Falsy("0")) && error.script[0] == Throw(Truthy(what));
    assert Invoked(w, zero) == Outcome(w, Some(Falsy("0"))) && Invoked(w, error) == Outcome(w, Some(Truthy(what)));
    assert Errors(w, [error]) == [Truthy(what)] + Errors(w, [error][1..]);
    var first := Some(Falsy("0"));
    assert AllInvoked(w, [zero, error], None) == AllInvoked(w, [error], first);
    assert AllInvoked(w, [error], first) == AllInvoked(w, [], Recorded(first, Some(Truthy(what))));
  }

  lemma {:induction false} ReversedTwo<T>(a: T, b: T)
    ensures Reversed([a, b]) == [b, a]
  {
    assert [a, b][..1] == [a] && [a][..0] == [];
    assert Reversed([a]) == [a] + Reversed([]);
  }

  lemma {:induction false} UnchangedIsClean(before: World, after: World, allowed: set<string>)
    requires after == before.(cleanups := after.cleanups)
    ensures Clean(before, after, allowed)
  {
  }
}
