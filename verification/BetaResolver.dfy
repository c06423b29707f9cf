/**
 The beta-channel redirect (docs/src/lib/download-links.ts): the last-known-good cache shared by
 overlapping asynchronous calls. Times are integers in milliseconds; a fetch is known by its outcome.
 */
module BetaResolver {
  import opened Wrappers
  import opened BetaRelease

  const LKG_TTL_MS: int := 300_000

  // ---- The resolver ----

  datatype Lkg = Lkg(url: string, fetchedAt: int)

  datatype Reply =
    | Fresh(url: string)
    | Cached(url: string)
    | StaleLkg(url: string, refreshError: string)
    | Fallback(cause: string)

  /** How a fetch ends: with a decoded payload (None: off schema), or with an error. */
  datatype Outcome = Received(payload: Option<seq<Release>>) | Failed(error: string)

  const NO_BETA: string := "no published beta release carries the DMG asset"

  /** The synchronous part of a call: a reply from the cache, or None when a fetch is started. */
  function BeginReply(lkg: Option<Lkg>, now: int): Option<Reply> {
    if lkg.Some? && now - lkg.value.fetchedAt < LKG_TTL_MS then Some(Cached(lkg.value.url)) else None
  }

  /** The asynchronous part up to the cache: the URL a fetch brings, or the error it ends with. */
  function Settle(outcome: Outcome): Result<string, string> {
    match outcome
    case Received(payload) =>
      (match PickedUrl(payload)
       case Some(url) => Ok(url)
       case None => Err(NO_BETA))
    case Failed(error) => Err(error)
  }

  function SettledLkg(lkg: Option<Lkg>, now: int, result: Result<string, string>): Option<Lkg> {
    if result.Ok? then Some(Lkg(result.value, now)) else lkg
  }

  function SettledReply(lkg: Option<Lkg>, result: Result<string, string>): Reply {
    match result
    case Ok(url) => Fresh(url)
    case Err(error) => if lkg.Some? then StaleLkg(lkg.value.url, error) else Fallback(error)
  }

  /** The closure state of createBetaResolver and the two halves of a call. */
  class Resolver {
    var lkg: Option<Lkg>

    constructor ()
      ensures lkg == None
    {
      lkg := None;
    }

    method Begin(now: int) returns (reply: Option<Reply>)
      ensures reply == BeginReply(lkg, now)
    {
      if lkg.Some? && now - lkg.value.fetchedAt < LKG_TTL_MS {
        return Some(Cached(lkg.value.url));
      }
      return None;
    }

    method Complete(now: int, outcome: Outcome) returns (reply: Reply)
      modifies this
      ensures lkg == SettledLkg(old(lkg), now, Settle(outcome))
      ensures reply == SettledReply(old(lkg), Settle(outcome))
    {
      if outcome.Received? {
        var url := PickLatestBetaDmgUrl(outcome.payload);
        if url.Some? {
          lkg := Some(Lkg(url.value, now));
          return Fresh(url.value);
        }
      }
      var error := if outcome.Received? then NO_BETA else outcome.error;
      if lkg.Some? {
        return StaleLkg(lkg.value.url, error);
      }
      return Fallback(error);
    }
  }

  // ---- Interleavings ----

  datatype Event<O> = Start(call: nat, now: int) | Completion(call: nat, now: int, outcome: O)

  /** How an outcome settles; the runs below hold for any such function, Settle in particular. */
  type Settling<!O> = O -> Result<string, string>

  datatype World = World(lkg: Option<Lkg>, pending: set<nat>, answered: set<nat>)

  const INITIAL: World := World(None, {}, {})

  /** A call starts once and completes only while its fetch is pending. */
  predicate Enabled<O>(w: World, e: Event<O>) {
    match e
    case Start(call, _) => call !in w.pending && call !in w.answered
    case Completion(call, _, _) => call in w.pending
  }

  function ReplyTo<O>(settle: Settling<O>, w: World, e: Event<O>): Option<Reply> {
    match e
    case Start(_, now) => BeginReply(w.lkg, now)
    case Completion(_, _, outcome) => Some(SettledReply(w.lkg, settle(outcome)))
  }

  function Next<O>(settle: Settling<O>, w: World, e: Event<O>): World {
    match e
    case Start(call, now) =>
      if BeginReply(w.lkg, now).Some? then w.(answered := w.answered + {call}) else w.(pending := w.pending + {call})
    case Completion(call, now, outcome) =>
      World(SettledLkg(w.lkg, now, settle(outcome)), w.pending - {call}, w.answered + {call})
  }

  function After<O>(settle: Settling<O>, events: seq<Event<O>>): World {
    if events == [] then INITIAL
    else Next(settle, After(settle, events[..|events| - 1]), events[|events| - 1])
  }

  /** Overlapping calls in any order, on a clock that never goes back. */
  ghost predicate IsRun<O>(settle: Settling<O>, events: seq<Event<O>>) {
    && (forall i :: 0 <= i < |events| ==> Enabled(After(settle, events[..i]), events[i]))
    && (forall i, j :: 0 <= i <= j < |events| ==> events[i].now <= events[j].now)
  }

  /** One event on the resolver that holds the cache of w. */
  method Handle(resolver: Resolver, e: Event<Outcome>, ghost w: World) returns (reply: Option<Reply>)
    requires resolver.lkg == w.lkg
    modifies resolver
    ensures reply == ReplyTo(Settle, w, e) && resolver.lkg == Next(Settle, w, e).lkg
  {
    match e
    case Start(_, now) =>
      reply := resolver.Begin(now);
    case Completion(_, now, outcome) =>
      var sent := resolver.Complete(now, outcome);
      reply := Some(sent);
  }

  /** The reply of the state machine to each of the first n events. */
  ghost predicate RepliesTo<O>(settle: Settling<O>, events: seq<Event<O>>, replies: seq<Option<Reply>>, n: nat)
    requires n <= |events|
  {
    |replies| == n && forall i :: 0 <= i < n ==> replies[i] == ReplyTo(settle, After(settle, events[..i]), events[i])
  }

  /** The events played on one resolver, in their order. */
  method Play(events: seq<Event<Outcome>>) returns (replies: seq<Option<Reply>>)
    ensures RepliesTo(Settle, events, replies, |events|)
  {
    var resolver := new Resolver();
    replies := [];
    ghost var w := INITIAL;
    for n := 0 to |events|
      invariant RepliesTo(Settle, events, replies, n)
      invariant w == After(Settle, events[..n]) && resolver.lkg == w.lkg
    {
      var reply := Handle(resolver, events[n], w);
      RepliesPush(Settle, events, replies, n, reply);
      replies := replies + [reply];
      w := Next(Settle, w, events[n]);
    }
  }

  lemma {:induction false} RepliesPush<O>(
    settle: Settling<O>, events: seq<Event<O>>, replies: seq<Option<Reply>>, n: nat, reply: Option<Reply>)
    requires n < |events| && RepliesTo(settle, events, replies, n)
    requires reply == ReplyTo(settle, After(settle, events[..n]), events[n])
    ensures RepliesTo(settle, events, replies + [reply], n + 1)
    ensures After(settle, events[..n + 1]) == Next(settle, After(settle, events[..n]), events[n])
  {
    assert events[..n + 1][..n] == events[..n];
  }

  /** The URL a successful completion brings. */
  function SuccessUrl<O>(settle: Settling<O>, e: Event<O>): Option<string> {
    if e.Completion? && settle(e.outcome).Ok? then Some(settle(e.outcome).value) else None
  }

  /** i is the latest successful completion before n. */
  ghost predicate IsLatestSuccess<O>(settle: Settling<O>, events: seq<Event<O>>, n: nat, i: nat)
    requires n <= |events|
  {
    i < n && SuccessUrl(settle, events[i]).Some? && forall j :: i < j < n ==> SuccessUrl(settle, events[j]) == None
  }

  ghost predicate NoSuccess<O>(settle: Settling<O>, events: seq<Event<O>>, n: nat)
    requires n <= |events|
  {
    forall j :: 0 <= j < n ==> SuccessUrl(settle, events[j]) == None
  }

  /** The cache always holds the latest successful write, or nothing before the first. */
  lemma {:induction false} CacheIsLatestSuccess<O>(settle: Settling<O>, events: seq<Event<O>>, n: nat) returns (i: nat)
    requires n <= |events|
    ensures After(settle, events[..n]).lkg == None ==> NoSuccess(settle, events, n)
    ensures After(settle, events[..n]).lkg.Some? ==>
              && IsLatestSuccess(settle, events, n, i)
              && After(settle, events[..n]).lkg == Some(Lkg(SuccessUrl(settle, events[i]).value, events[i].now))
  {
    i := 0;
    if n > 0 {
      var before := CacheIsLatestSuccess(settle, events, n - 1);
      assert events[..n][..n - 1] == events[..n - 1];
      i := if SuccessUrl(settle, events[n - 1]).Some? then n - 1 else before;
    }
  }

  predicate IsFallback(reply: Option<Reply>) {
    reply.Some? && reply.value.Fallback?
  }

  /** A fallback is sent exactly when a fetch fails and none has succeeded before. */
  lemma {:induction false} FallbackExact<O>(settle: Settling<O>, events: seq<Event<O>>, n: nat)
    requires n < |events|
    ensures IsFallback(ReplyTo(settle, After(settle, events[..n]), events[n])) <==>
            events[n].Completion? && NoSuccess(settle, events, n + 1)
  {
    var i := CacheIsLatestSuccess(settle, events, n);
    if NoSuccess(settle, events, n + 1) {
      assert SuccessUrl(settle, events[n]) == None;
    }
  }

  /** The latest success before n brought this URL less than a lifetime ago. */
  ghost predicate FreshEnough<O>(settle: Settling<O>, events: seq<Event<O>>, n: nat, url: string) {
    && n < |events|
    && exists i: nat :: IsLatestSuccess(settle, events, n, i) && SuccessUrl(settle, events[i]) == Some(url)
                        && 0 <= events[n].now - events[i].now < LKG_TTL_MS
  }

  /** A start replies from the cache exactly with the URL of a latest success that is fresh enough. */
  lemma {:induction false} CachedExact<O>(settle: Settling<O>, events: seq<Event<O>>, n: nat, url: string)
    requires IsRun(settle, events) && n < |events| && events[n].Start?
    ensures ReplyTo(settle, After(settle, events[..n]), events[n]) == Some(Cached(url)) <==>
            FreshEnough(settle, events, n, url)
  {
    var i := CacheIsLatestSuccess(settle, events, n);
    if After(settle, events[..n]).lkg.Some? {
      assert events[i].now <= events[n].now;
      if ReplyTo(settle, After(settle, events[..n]), events[n]) == Some(Cached(url)) {
        assert IsLatestSuccess(settle, events, n, i);
      }
    }
    if FreshEnough(settle, events, n, url) {
      var j: nat :| IsLatestSuccess(settle, events, n, j) && SuccessUrl(settle, events[j]) == Some(url)
                    && 0 <= events[n].now - events[j].now < LKG_TTL_MS;
      assert SuccessUrl(settle, events[j]).Some?;
      assert i == j;
    }
  }

  /** Every reply with a URL carries that of the latest success, the completion itself included. */
  lemma {:induction false} ReplyUrlIsLatest<O>(settle: Settling<O>, events: seq<Event<O>>, n: nat) returns (i: nat)
    requires n < |events|
    ensures var r := ReplyTo(settle, After(settle, events[..n]), events[n]);
            r.Some? && !r.value.Fallback? ==>
              IsLatestSuccess(settle, events, n + 1, i) && SuccessUrl(settle, events[i]) == Some(r.value.url)
  {
    i := CacheIsLatestSuccess(settle, events, n);
    if SuccessUrl(settle, events[n]).Some? {
      i := n;
    }
  }

  /** A payload comes down to the URL of its first newest published beta, or to a lack of one. */
  lemma {:induction false} SettleExact(outcome: Outcome, url: string)
    ensures Settle(outcome) == Ok(url) <==> Brings(outcome, url)
    ensures outcome.Received? && Settle(outcome).Err? ==> Settle(outcome).error == NO_BETA
    ensures outcome.Failed? ==> Settle(outcome) == Err(outcome.error)
  {
    if outcome.Received? && outcome.payload.Some? {
      PickedExact(outcome.payload.value, url);
    }
  }

  ghost predicate Brings(outcome: Outcome, url: string) {
    && outcome.Received? && outcome.payload.Some?
    && exists k: nat, rank :: NewestAt(Publishes, outcome.payload.value, k, rank, url)
  }

  /** The URL is that of the newest published beta of a payload received by event e. */
  ghost predicate Vouched(e: Event<Outcome>, url: string) {
    e.Completion? && Brings(e.outcome, url)
  }

  /** No reply invents a URL: fresh, cached or stale, it is the newest beta of the latest useful payload. */
  lemma {:induction false} RepliesVouched(events: seq<Event<Outcome>>, n: nat) returns (i: nat)
    requires n < |events|
    ensures var r := ReplyTo(Settle, After(Settle, events[..n]), events[n]);
            r.Some? && !r.value.Fallback? ==> i <= n && Vouched(events[i], r.value.url)
  {
    i := ReplyUrlIsLatest(Settle, events, n);
    if i <= n && SuccessUrl(Settle, events[i]).Some? {
      SuccessVouched(events[i]);
    }
  }

  lemma {:induction false} SuccessVouched(e: Event<Outcome>)
    requires SuccessUrl(Settle, e).Some?
    ensures Vouched(e, SuccessUrl(Settle, e).value)
  {
    SettleExact(e.outcome, SuccessUrl(Settle, e).value);
  }

  /**
   Every reply: a start gives a cached URL or none yet; a completion gives the URL it brought, or with
   its error that of the latest success, or with its error alone when there was none.
   */
  lemma {:induction false} RepliesExact<O>(settle: Settling<O>, events: seq<Event<O>>, n: nat) returns (i: nat)
    requires n < |events|
    ensures var r := ReplyTo(settle, After(settle, events[..n]), events[n]);
            match events[n]
            case Start(_, _) => r == None || r.value.Cached?
            case Completion(_, _, outcome) =>
              if settle(outcome).Ok? then r == Some(Fresh(settle(outcome).value))
              else if NoSuccess(settle, events, n) then r == Some(Fallback(settle(outcome).error))
              else IsLatestSuccess(settle, events, n, i)
                   && r == Some(StaleLkg(SuccessUrl(settle, events[i]).value, settle(outcome).error))
  {
    i := CacheIsLatestSuccess(settle, events, n);
    if After(settle, events[..n]).lkg.Some? {
      assert SuccessUrl(settle, events[i]) != None;
      assert !NoSuccess(settle, events, n);
    }
  }

  /** The calls started so far. */
  function Started<O>(events: seq<Event<O>>): set<nat> {
    if events == [] then {}
    else Started(events[..|events| - 1])
         + if events[|events| - 1].Start? then {events[|events| - 1].call} else {}
  }

  lemma {:induction false} RunPrefix<O>(settle: Settling<O>, events: seq<Event<O>>, n: nat)
    requires IsRun(settle, events) && n <= |events|
    ensures IsRun(settle, events[..n])
  {
    var front := events[..n];
    forall i | 0 <= i < n ensures Enabled(After(settle, front[..i]), front[i]) {
      assert front[..i] == events[..i];
      assert Enabled(After(settle, events[..i]), events[i]);
    }
  }

  /** Every started call is either answered or pending, never both: each gets at most one reply. */
  lemma {:induction false} AnsweredOnce<O>(settle: Settling<O>, events: seq<Event<O>>)
    requires IsRun(settle, events)
    ensures After(settle, events).pending !! After(settle, events).answered
    ensures After(settle, events).pending + After(settle, events).answered == Started(events)
  {
    if events != [] {
      var n := |events| - 1;
      RunPrefix(settle, events, n);
      AnsweredOnce(settle, events[..n]);
      assert Enabled(After(settle, events[..n]), events[n]);
    }
  }

  /** The n-th event sends a reply to the call. */
  predicate RepliesAt<O>(settle: Settling<O>, events: seq<Event<O>>, n: nat, call: nat) {
    n < |events| && events[n].call == call && ReplyTo(settle, After(settle, events[..n]), events[n]).Some?
  }

  lemma {:induction false} AnsweredIsReplied<O>(settle: Settling<O>, events: seq<Event<O>>, n: nat, call: nat)
    requires n <= |events|
    ensures call in After(settle, events[..n]).answered <==> exists i: nat :: i < n && RepliesAt(settle, events, i, call)
  {
    if n > 0 {
      AnsweredIsReplied(settle, events, n - 1, call);
      assert events[..n][..n - 1] == events[..n - 1];
      AnsweredStep(settle, After(settle, events[..n - 1]), events[n - 1], call);
      assert (exists i: nat :: i < n && RepliesAt(settle, events, i, call)) <==>
             RepliesAt(settle, events, n - 1, call) || exists i: nat :: i < n - 1 && RepliesAt(settle, events, i, call);
    }
  }

  lemma {:induction false} AnsweredStep<O>(settle: Settling<O>, w: World, e: Event<O>, call: nat)
    ensures call in Next(settle, w, e).answered <==> call in w.answered || (e.call == call && ReplyTo(settle, w, e).Some?)
  {
  }

  lemma {:induction false} NotAgain<O>(settle: Settling<O>, events: seq<Event<O>>, i: nat, j: nat, call: nat)
    requires IsRun(settle, events) && i < j < |events| && RepliesAt(settle, events, i, call)
    ensures events[j].call != call
  {
    AnsweredIsReplied(settle, events, j, call);
    RunPrefix(settle, events, j);
    AnsweredOnce(settle, events[..j]);
    assert Enabled(After(settle, events[..j]), events[j]);
  }

  /** No call is replied to twice, and one that was started and has no reply is still pending. */
  lemma {:induction false} RepliedOnce<O>(settle: Settling<O>, events: seq<Event<O>>, call: nat)
    requires IsRun(settle, events)
    ensures forall i: nat, j: nat :: RepliesAt(settle, events, i, call) && RepliesAt(settle, events, j, call) ==> i == j
    ensures call in After(settle, events).pending <==>
              call in Started(events) && !exists i: nat :: RepliesAt(settle, events, i, call)
  {
    forall i: nat, j: nat | i < j < |events| && RepliesAt(settle, events, i, call) ensures !RepliesAt(settle, events, j, call) {
      NotAgain(settle, events, i, j, call);
    }
    AnsweredOnce(settle, events);
    AnsweredIsReplied(settle, events, |events|, call);
    assert events[..|events|] == events;
  }
}
