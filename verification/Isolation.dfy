/**
 Test isolation (scripts/test-feedback/isolation.ts) over the runtime state that the leak detector
 watches (scripts/test-feedback/leak-detector.ts). Callbacks and cleanups are scripts: any finite
 sequence of effects, which may end in a throw and may register further cleanups.
 */
module Isolation {
  import opened Wrappers
  import opened Text

  /** A thrown value, as far as `??=` and a truth test tell values apart. */
  datatype Thrown = Nullish | Falsy(what: string) | Truthy(what: string)

  const LEAK: Thrown := Truthy("leaked runtime state")

  datatype Action =
    | SetEnv(key: string, value: string)
    | DeleteEnv(key: string)
    | TrackResource(kind: string, name: string)
    | TrackOutside(kind: string, name: string)
    | Release(id: string)
    | SetHandles(kind: string, count: nat)
    | SetRequests(count: nat)
    | RegisterCleanup(cleanup: Cleanup)
    | Throw(error: Thrown)

  datatype Cleanup = ReleaseOf(id: string) | Callback(script: seq<Action>)

  /** The runtime state, with the cleanups of the isolation. */
  datatype World = World(
    env: map<string, string>, live: map<string, string>, sequence: nat,
    handles: map<string, nat>, requests: nat, cleanups: seq<Cleanup>)

  function ResourceId(kind: string, name: string, n: nat): string {
    (kind + ":" + name) + (":" + Digits(n))
  }

  // ---- What each step does ----

  function Tracked(w: World, kind: string, name: string): World {
    w.(live := w.live[ResourceId(kind, name, w.sequence) := kind], sequence := w.sequence + 1)
  }

  function Done(w: World, a: Action): World {
    match a
    case SetEnv(key, value) => w.(env := w.env[key := value])
    case DeleteEnv(key) => w.(env := w.env - {key})
    case TrackResource(kind, name) =>
      Tracked(w, kind, name).(cleanups := w.cleanups + [ReleaseOf(ResourceId(kind, name, w.sequence))])
    case TrackOutside(kind, name) => Tracked(w, kind, name)
    case Release(id) => w.(live := w.live - {id})
    case SetHandles(kind, count) => w.(handles := w.handles[kind := count])
    case SetRequests(count) => w.(requests := count)
    case RegisterCleanup(cleanup) => w.(cleanups := w.cleanups + [cleanup])
    case Throw(_) => w
  }

  datatype Outcome = Outcome(world: World, thrown: Option<Thrown>)

  function Ran(w: World, script: seq<Action>): Outcome
    decreases |script|
  {
    if script == [] then Outcome(w, None)
    else if script[0].Throw? then Outcome(w, Some(script[0].error))
    else Ran(Done(w, script[0]), script[1..])
  }

  function Invoked(w: World, c: Cleanup): Outcome {
    match c
    case ReleaseOf(id) => Outcome(w.(live := w.live - {id}), None)
    case Callback(script) => Ran(w, script)
  }

  /** `first ??= next`: a nullish value gives way to a later one. */
  function Recorded(first: Option<Thrown>, next: Option<Thrown>): Option<Thrown> {
    if next.Some? && (first == None || first == Some(Nullish)) then next else first
  }

  function AllInvoked(w: World, cleanups: seq<Cleanup>, first: Option<Thrown>): Outcome
    decreases |cleanups|
  {
    if cleanups == [] then Outcome(w, first)
    else
      var o := Invoked(w, cleanups[0]);
      AllInvoked(o.world, cleanups[1..], Recorded(first, o.thrown))
  }

  function Reversed<T>(s: seq<T>): seq<T> {
    if s == [] then [] else [s[|s| - 1]] + Reversed(s[..|s| - 1])
  }

  // ---- The leak check ----

  function ResourceName(id: string, kind: string): string {
    kind + ":" + id
  }

  function Get(env: map<string, string>, key: string): Option<string> {
    if key in env then Some(env[key]) else None
  }

  predicate EnvironmentClean(before: World, after: World, allowed: set<string>) {
    forall key :: key in before.env.Keys + after.env.Keys && key !in allowed ==> Get(before.env, key) == Get(after.env, key)
  }

  predicate NameListed(before: World, name: string) {
    exists id :: id in before.live && ResourceName(id, before.live[id]) == name
  }

  predicate ResourcesClean(before: World, after: World) {
    forall id :: id in after.live ==> NameListed(before, ResourceName(id, after.live[id]))
  }

  predicate HandlesClean(before: World, after: World) {
    && (forall kind :: kind in after.handles ==>
          after.handles[kind] <= if kind in before.handles then before.handles[kind] else 0)
    && after.requests <= before.requests
  }

  predicate Clean(before: World, after: World, allowed: set<string>) {
    EnvironmentClean(before, after, allowed) && ResourcesClean(before, after) && HandlesClean(before, after)
  }

  function IsTruthy(t: Option<Thrown>): bool {
    t.Some? && t.value.Truthy?
  }

  /** What restore throws: a leak, or else the recorded cleanup error when it is truthy. */
  function RestoreError(clean: bool, recorded: Option<Thrown>): Option<Thrown> {
    if !clean then Some(LEAK) else if IsTruthy(recorded) then recorded else None
  }

  /** The variables the environment keeps beside the snapshot: an object has the inherited names anyway. */
  function Leftovers(env: map<string, string>, snapshot: map<string, string>, inherited: set<string>): set<string> {
    (env.Keys - snapshot.Keys) * inherited
  }

  function EnvironmentAfter(env: map<string, string>, snapshot: map<string, string>, inherited: set<string>): map<string, string> {
    map key | key in snapshot.Keys + Leftovers(env, snapshot, inherited) ::
      if key in snapshot then snapshot[key] else env[key]
  }

  function Restored(before: World, inherited: set<string>, allowed: set<string>, w: World): Outcome {
    var o := AllInvoked(w, Reversed(w.cleanups), None);
    Outcome(o.world.(env := EnvironmentAfter(o.world.env, before.env, inherited)),
            RestoreError(Clean(before, o.world, allowed), o.thrown))
  }

  /** A whole isolated call; the callback's own error comes first. */
  function Isolated(w: World, inherited: set<string>, allowed: set<string>, callback: seq<Action>): Outcome {
    var start := w.(cleanups := []);
    var o := Ran(start, callback);
    var r := Restored(start, inherited, allowed, o.world);
    Outcome(r.world, if o.thrown.Some? then o.thrown else r.thrown)
  }

  // ---- The classes ----

  /** process.env and the detector's own module state. */
  class Runtime {
    var env: map<string, string>
    var live: map<string, string>
    var sequence: nat
    var handles: map<string, nat>
    var requests: nat
    /** The names every object has: `constructor`, `toString` and the like. */
    const inherited: set<string>

    constructor (
      env: map<string, string>, live: map<string, string>, sequence: nat, handles: map<string, nat>, requests: nat,
      inherited: set<string>)
      ensures State([]) == World(env, live, sequence, handles, requests, []) && this.inherited == inherited
    {
      this.inherited := inherited;
      this.env, this.live, this.sequence, this.handles, this.requests := env, live, sequence, handles, requests;
    }

    function State(cleanups: seq<Cleanup>): World
      reads this
    {
      World(env, live, sequence, handles, requests, cleanups)
    }

    method TrackTestResource(kind: string, name: string) returns (id: string)
      modifies this
      ensures id == ResourceId(kind, name, old(sequence))
      ensures State([]) == Tracked(old(State([])), kind, name)
    {
      id := ResourceId(kind, name, sequence);
      sequence := sequence + 1;
      live := live[id := kind];
    }

    /** Whether a name is in the snapshot is asked of an object, which also answers for what it inherits. */
    method RestoreEnvironment(snapshot: map<string, string>)
      modifies this`env
      ensures env == EnvironmentAfter(old(env), snapshot, inherited)
      ensures env == snapshot <==> Leftovers(old(env), snapshot, inherited) == {}
    {
      var keys := env.Keys;
      while keys != {}
        invariant keys <= env.Keys <= old(env).Keys
        invariant forall key :: key in env ==> env[key] == old(env)[key] && (key in snapshot || key in inherited || key in keys)
        invariant forall key :: key in old(env) && (key in snapshot || key in inherited) ==> key in env
        decreases keys
      {
        var key :| key in keys;
        keys := keys - {key};
        if key !in snapshot && key !in inherited {
          env := env - {key};
        }
      }
      ghost var kept := env;
      keys := snapshot.Keys;
      while keys != {}
        invariant keys <= snapshot.Keys && kept.Keys - snapshot.Keys <= env.Keys <= kept.Keys + snapshot.Keys
        invariant forall key :: key in env && key !in snapshot ==> env[key] == kept[key]
        invariant forall key :: key in snapshot ==> key in keys || (key in env && env[key] == snapshot[key])
        decreases keys
      {
        var key :| key in keys;
        keys := keys - {key};
        env := env[key := snapshot[key]];
      }
      assert kept.Keys - snapshot.Keys == Leftovers(old(env), snapshot, inherited);
    }
  }

  class TestIsolation {
    const runtime: Runtime
    const allowed: set<string>
    const environment: map<string, string>
    const before: World
    var cleanups: seq<Cleanup>

    constructor (runtime: Runtime, allowed: set<string>)
      ensures this.runtime == runtime && this.allowed == allowed && cleanups == []
      ensures before == runtime.State([]) && environment == before.env
    {
      this.runtime, this.allowed := runtime, allowed;
      environment := runtime.env;
      before := runtime.State([]);
      cleanups := [];
    }

    ghost function State(): World
      reads this, runtime
    {
      runtime.State(cleanups)
    }

    method RegisterCleanup(cleanup: Cleanup)
      modifies this
      ensures State() == Done(old(State()), Action.RegisterCleanup(cleanup))
    {
      cleanups := cleanups + [cleanup];
    }

    method TrackResource(kind: string, name: string) returns (id: string)
      modifies this, runtime
      ensures id == ResourceId(kind, name, old(runtime.sequence))
      ensures State() == Done(old(State()), Action.TrackResource(kind, name))
    {
      id := runtime.TrackTestResource(kind, name);
      cleanups := cleanups + [ReleaseOf(id)];
    }

    /** One effect of a script on the shared state. */
    method Perform(a: Action)
      requires !a.Throw?
      modifies this, runtime
      ensures State() == Done(old(State()), a)
    {
      match a
      case SetEnv(key, value) => runtime.env := runtime.env[key := value];
      case DeleteEnv(key) => runtime.env := runtime.env - {key};
      case TrackResource(kind, name) => var _ := TrackResource(kind, name);
      case TrackOutside(kind, name) => var _ := runtime.TrackTestResource(kind, name);
      case Release(id) => runtime.live := runtime.live - {id};
      case SetHandles(kind, count) => runtime.handles := runtime.handles[kind := count];
      case SetRequests(count) => runtime.requests := count;
      case RegisterCleanup(cleanup) => RegisterCleanup(cleanup);
    }

    method Run(script: seq<Action>) returns (thrown: Option<Thrown>)
      modifies this, runtime
      ensures Outcome(State(), thrown) == Ran(old(State()), script)
    {
      var i := 0;
      while i < |script|
        invariant 0 <= i <= |script|
        invariant Ran(State(), script[i..]) == Ran(old(State()), script)
      {
        if script[i].Throw? {
          return Some(script[i].error);
        }
        Perform(script[i]);
        assert script[i..][1..] == script[i + 1..];
        i := i + 1;
      }
      return None;
    }

    method Invoke(cleanup: Cleanup) returns (thrown: Option<Thrown>)
      modifies this, runtime
      ensures Outcome(State(), thrown) == Invoked(old(State()), cleanup)
    {
      match cleanup
      case ReleaseOf(id) =>
        runtime.live := runtime.live - {id};
        thrown := None;
      case Callback(script) =>
        thrown := Run(script);
    }

    /** Every cleanup of the snapshot is invoked, whether or not an earlier one threw. */
    method Restore() returns (thrown: Option<Thrown>, ghost invoked: seq<Cleanup>)
      requires environment == before.env
      modifies this, runtime
      ensures Outcome(State(), thrown) == Restored(before, runtime.inherited, allowed, old(State()))
      ensures invoked == Reversed(old(cleanups))
    {
      var cleanupError: Option<Thrown> := None;
      var snapshot := Reversed(cleanups);
      invoked := [];
      for i := 0 to |snapshot|
        invariant invoked == snapshot[..i]
        invariant AllInvoked(State(), snapshot[i..], cleanupError) == AllInvoked(old(State()), snapshot, None)
      {
        assert snapshot[i..][1..] == snapshot[i + 1..];
        var error := Invoke(snapshot[i]);
        invoked := invoked + [snapshot[i]];
        if cleanupError == None || cleanupError == Some(Nullish) {
          cleanupError := if error.Some? then error else cleanupError;
        }
      }
      var clean := Clean(before, runtime.State([]), allowed);
      runtime.RestoreEnvironment(environment);
      thrown := RestoreError(clean, cleanupError);
    }
  }

  method WithTestIsolation(runtime: Runtime, allowed: set<string>, callback: seq<Action>)
    returns (thrown: Option<Thrown>, isolation: TestIsolation)
    modifies runtime
    ensures isolation.runtime == runtime
    ensures Outcome(isolation.State(), thrown) == Isolated(old(runtime.State([])), runtime.inherited, allowed, callback)
  {
    isolation := new TestIsolation(runtime, allowed);
    thrown := isolation.Run(callback);
    ghost var invoked;
    if thrown.Some? {
      var ignored;
      ignored, invoked := isolation.Restore();
      return;
    }
    thrown, invoked := isolation.Restore();
  }
}
