/**
 Grouping agent transactions into bursts between human edits (packages/core/src/burst-grouping.ts).
 Timestamps are exact numbers.
 */
module Bursts {
  import opened Wrappers
  import opened Sorting

  datatype Transaction = Transaction(session: string, timestamp: real, effect: string, agentType: Option<string>)

  datatype Burst = Burst(session: string, start: real, end: real, transactions: seq<Transaction>)

  function Leq(): (real, real) -> bool {
    (a: real, b: real) => a <= b
  }

  function Earlier(): (Transaction, Transaction) -> bool {
    (a: Transaction, b: Transaction) => a.timestamp <= b.timestamp
  }

  // ---- Edits between two moments ----

  /** Some human edit lies strictly between the two moments, whichever comes first. */
  ghost predicate EditBetween(edits: seq<real>, a: real, b: real) {
    exists e :: e in edits && (a < e < b || b < e < a)
  }

  /** The order of the moments does not matter, and an edit at one of them is not between them. */
  lemma {:induction false} BetweenExact(edits: seq<real>, a: real, b: real)
    ensures EditBetween(edits, a, b) <==> EditBetween(edits, b, a)
    ensures a <= b ==> (EditBetween(edits, a, b) <==> exists e :: e in edits && a < e && e < b)
  {
  }

  method HumanEditBetween(sorted: seq<real>, ts1: real, ts2: real) returns (found: bool)
    requires Sorted(Leq(), sorted)
    ensures found == EditBetween(sorted, ts1, ts2)
  {
    var lo := if ts1 <= ts2 then ts1 else ts2;
    var hi := if ts1 <= ts2 then ts2 else ts1;
    var left, right := 0, |sorted|;
    while left < right
      invariant 0 <= left <= right <= |sorted|
      invariant forall i :: 0 <= i < left ==> sorted[i] <= lo
      invariant forall i :: right <= i < |sorted| ==> lo < sorted[i]
    {
      var mid := (left + right) / 2;
      if sorted[mid] <= lo {
        left := mid + 1;
      } else {
        right := mid;
      }
    }
    found := left < |sorted| && sorted[left] < hi;
    if left < |sorted| {
      assert sorted[left] in sorted;
    }
  }

  // ---- Sessions in order of arrival ----

  function InSession(session: string): Transaction -> bool {
    (tx: Transaction) => tx.session == session
  }

  function SessionsOf(txs: seq<Transaction>): (r: seq<string>)
    ensures |r| == |txs|
    ensures forall i :: 0 <= i < |r| ==> r[i] == txs[i].session
  {
    seq(|txs|, i requires 0 <= i < |txs| => txs[i].session)
  }

  /** A JavaScript Map: its keys in the order of their first insertion, and the list under each. */
  datatype Sessions = Sessions(order: seq<string>, lists: map<string, seq<Transaction>>)

  ghost predicate ListsOf(lists: map<string, seq<Transaction>>, txs: seq<Transaction>) {
    && (forall s :: s in lists <==> s in SessionsOf(txs))
    && forall s :: s in lists ==> lists[s] == Filter(InSession(s), txs)
  }

  ghost predicate GroupsOf(sessions: Sessions, txs: seq<Transaction>) {
    sessions.order == Dedup(SessionsOf(txs)) && ListsOf(sessions.lists, txs)
  }

  method GroupBySession(txs: seq<Transaction>) returns (sessions: Sessions)
    ensures GroupsOf(sessions, txs)
  {
    sessions := Sessions([], map[]);
    for i := 0 to |txs|
      invariant GroupsOf(sessions, txs[..i])
    {
      GroupPush(sessions, txs[..i], txs[i]);
      assert txs[..i + 1] == txs[..i] + [txs[i]];
      sessions := PushTransaction(sessions, txs[i]);
    }
    assert txs[..|txs|] == txs;
  }

  method PushTransaction(sessions: Sessions, tx: Transaction) returns (r: Sessions)
    ensures r == Pushed(sessions, tx)
  {
    r := sessions;
    if tx.session !in r.lists {
      r := Sessions(r.order + [tx.session], r.lists[tx.session := []]);
    }
    r := r.(lists := r.lists[tx.session := r.lists[tx.session] + [tx]]);
  }

  function ListAt(lists: map<string, seq<Transaction>>, session: string): seq<Transaction> {
    if session in lists then lists[session] else []
  }

  function Pushed(sessions: Sessions, tx: Transaction): Sessions {
    Sessions(
      sessions.order + (if tx.session in sessions.lists then [] else [tx.session]),
      sessions.lists[tx.session := ListAt(sessions.lists, tx.session) + [tx]])
  }

  lemma {:induction false} GroupPush(sessions: Sessions, txs: seq<Transaction>, tx: Transaction)
    requires GroupsOf(sessions, txs)
    ensures GroupsOf(Pushed(sessions, tx), txs + [tx])
  {
    var all := SessionsOf(txs + [tx]);
    assert all[..|all| - 1] == SessionsOf(txs);
    ListsPush(sessions.lists, txs, tx);
  }

  lemma {:induction false} ListsPush(lists: map<string, seq<Transaction>>, txs: seq<Transaction>, tx: Transaction)
    requires ListsOf(lists, txs)
    ensures ListsOf(lists[tx.session := ListAt(lists, tx.session) + [tx]], txs + [tx])
  {
    assert SessionsOf(txs + [tx]) == SessionsOf(txs) + [tx.session];
    forall s ensures Filter(InSession(s), txs + [tx]) == ListAt(lists, s) + (if tx.session == s then [tx] else []) {
      FilterPush(InSession(s), txs, tx);
      if s !in lists {
        NoneInSession(txs, s);
      }
    }
  }

  lemma {:induction false} NoneInSession(txs: seq<Transaction>, session: string)
    requires session !in SessionsOf(txs)
    ensures Filter(InSession(session), txs) == []
  {
    var kept := Filter(InSession(session), txs);
    assert kept == [] || kept[0] in txs;
    assert forall tx :: tx in txs ==> tx.session in SessionsOf(txs) by {
      forall tx | tx in txs ensures tx.session in SessionsOf(txs) {
        var i :| 0 <= i < |txs| && txs[i] == tx;
        assert SessionsOf(txs)[i] == tx.session;
      }
    }
  }

  // ---- Bursts ----

  function Concat<T>(parts: seq<seq<T>>): seq<T> {
    if parts == [] then [] else Concat(parts[..|parts| - 1]) + parts[|parts| - 1]
  }

  /** No human edit lies strictly between neighbours. */
  ghost predicate Unbroken(part: seq<Transaction>, edits: seq<real>) {
    forall i :: 0 < i < |part| ==> !EditBetween(edits, part[i - 1].timestamp, part[i].timestamp)
  }

  ghost predicate BreaksBetween(a: seq<Transaction>, b: seq<Transaction>, edits: seq<real>) {
    a != [] && b != [] && EditBetween(edits, a[|a| - 1].timestamp, b[0].timestamp)
  }

  /** parts cut txs exactly where a human edit lies strictly between neighbours. */
  ghost predicate IsPartition(parts: seq<seq<Transaction>>, txs: seq<Transaction>, edits: seq<real>) {
    && Concat(parts) == txs
    && (forall k :: 0 <= k < |parts| ==> parts[k] != [] && Unbroken(parts[k], edits))
    && forall k :: 0 < k < |parts| ==> BreaksBetween(parts[k - 1], parts[k], edits)
  }

  /** The same sequence cut off before its last part. */
  lemma {:induction false} PartitionFront(parts: seq<seq<Transaction>>, txs: seq<Transaction>, edits: seq<real>)
    requires IsPartition(parts, txs, edits) && parts != []
    ensures IsPartition(parts[..|parts| - 1], Concat(parts[..|parts| - 1]), edits)
    ensures txs == Concat(parts[..|parts| - 1]) + parts[|parts| - 1]
  {
  }

  /** The last part begins right after an edit. */
  lemma {:induction false} LastBreak(parts: seq<seq<Transaction>>, txs: seq<Transaction>, edits: seq<real>, n: nat)
    requires IsPartition(parts, txs, edits) && parts != []
    requires n == |txs| - |parts[|parts| - 1]| && n > 0
    ensures n < |txs| && EditBetween(edits, txs[n - 1].timestamp, txs[n].timestamp)
  {
    PartitionFront(parts, txs, edits);
    var front := parts[..|parts| - 1];
    assert front != [];
    assert BreaksBetween(parts[|parts| - 2], parts[|parts| - 1], edits);
  }

  /** Two last parts of one sequence have the same length: a longer one would hold the break before the shorter. */
  lemma {:induction false} LastPartLength(a: seq<seq<Transaction>>, b: seq<seq<Transaction>>, txs: seq<Transaction>, edits: seq<real>)
    requires IsPartition(a, txs, edits) && IsPartition(b, txs, edits) && a != [] && b != []
    ensures |a[|a| - 1]| <= |b[|b| - 1]|
  {
    PartitionFront(a, txs, edits);
    PartitionFront(b, txs, edits);
    if |a[|a| - 1]| > |b[|b| - 1]| {
      var n := |txs| - |b[|b| - 1]|;
      LastBreak(b, txs, edits, n);
    }
  }

  /** There is exactly one way to cut a sequence into bursts. */
  lemma {:induction false} PartitionUnique(a: seq<seq<Transaction>>, b: seq<seq<Transaction>>, txs: seq<Transaction>, edits: seq<real>)
    requires IsPartition(a, txs, edits) && IsPartition(b, txs, edits)
    ensures a == b
  {
    if a != [] && b != [] {
      LastPartLength(a, b, txs, edits);
      LastPartLength(b, a, txs, edits);
      PartitionFront(a, txs, edits);
      PartitionFront(b, txs, edits);
      var n := |txs| - |a[|a| - 1]|;
      assert Concat(a[..|a| - 1]) == txs[..n] == Concat(b[..|b| - 1]);
      assert a[|a| - 1] == txs[n..] == b[|b| - 1];
      PartitionUnique(a[..|a| - 1], b[..|b| - 1], txs[..n], edits);
      assert a == a[..|a| - 1] + [a[|a| - 1]] && b == b[..|b| - 1] + [b[|b| - 1]];
    } else {
      NothingToCut(a, txs, edits);
      NothingToCut(b, txs, edits);
    }
  }

  lemma {:induction false} NothingToCut(parts: seq<seq<Transaction>>, txs: seq<Transaction>, edits: seq<real>)
    requires IsPartition(parts, txs, edits)
    ensures parts == [] <==> txs == []
  {
  }

  /** Only an edit at the moment of some transaction of a burst lies strictly inside the burst. */
  lemma {:induction false} EditInsideCoincides(part: seq<Transaction>, edits: seq<real>, e: real) returns (k: nat)
    requires part != [] && Unbroken(part, edits) && e in edits
    requires part[0].timestamp < e < part[|part| - 1].timestamp
    ensures k < |part| && part[k].timestamp == e
  {
    var n := |part| - 1;
    assert part[..n][0] == part[0];
    if part[n - 1].timestamp == e {
      k := n - 1;
    } else {
      assert !EditBetween(edits, part[n - 1].timestamp, part[n].timestamp);
      k := EditInsideCoincides(part[..n], edits, e);
    }
  }

  function BurstOf(session: string, part: seq<Transaction>): Burst
    requires part != []
  {
    Burst(session, part[0].timestamp, part[|part| - 1].timestamp, part)
  }

  ghost predicate AllOfSession(bursts: seq<Burst>, session: string) {
    forall k :: 0 <= k < |bursts| ==> bursts[k].transactions != [] && bursts[k] == BurstOf(session, bursts[k].transactions)
  }

  function Parts(bursts: seq<Burst>): (r: seq<seq<Transaction>>)
    ensures |r| == |bursts|
    ensures forall i :: 0 <= i < |r| ==> r[i] == bursts[i].transactions
  {
    seq(|bursts|, i requires 0 <= i < |bursts| => bursts[i].transactions)
  }

  /** The bursts of one session: its transactions by time, cut where an edit lies between. */
  ghost predicate IsSessionBursts(bursts: seq<Burst>, session: string, txs: seq<Transaction>, edits: seq<real>) {
    && IsPartition(Parts(bursts), SortBy(Earlier(), Filter(InSession(session), txs)), edits)
    && AllOfSession(bursts, session)
  }

  /** What the loop has done before index i: a partition of the first `start` and an unbroken rest. */
  ghost predicate CutUpTo(parts: seq<seq<Transaction>>, txs: seq<Transaction>, edits: seq<real>, start: nat, i: nat) {
    && start < i <= |txs|
    && IsPartition(parts, txs[..start], edits)
    && Unbroken(txs[start..i], edits)
    && (start > 0 ==> EditBetween(edits, txs[start - 1].timestamp, txs[start].timestamp))
  }

  lemma {:induction false} PartitionPush(parts: seq<seq<Transaction>>, txs: seq<Transaction>, edits: seq<real>, start: nat, i: nat)
    requires CutUpTo(parts, txs, edits, start, i)
    ensures IsPartition(parts + [txs[start..i]], txs[..i], edits)
  {
    var next := parts + [txs[start..i]];
    assert next[..|parts|] == parts;
    assert txs[..i] == txs[..start] + txs[start..i];
    if parts != [] {
      assert BreaksBetween(parts[|parts| - 1], txs[start..i], edits);
    }
  }

  ghost predicate CutState(
    bursts: seq<Burst>, session: string, txs: seq<Transaction>, edits: seq<real>, start: nat, i: nat)
  {
    && AllOfSession(bursts, session)
    && if i <= |txs| then CutUpTo(Parts(bursts), txs, edits, start, i) else IsPartition(Parts(bursts), txs, edits)
  }

  lemma {:induction false} StepBreak(
    bursts: seq<Burst>, session: string, txs: seq<Transaction>, edits: seq<real>, start: nat, i: nat)
    requires CutState(bursts, session, txs, edits, start, i) && i <= |txs|
    requires i < |txs| ==> EditBetween(edits, txs[i - 1].timestamp, txs[i].timestamp)
    ensures CutState(bursts + [BurstOf(session, txs[start..i])], session, txs, edits, i, i + 1)
  {
    PartitionPush(Parts(bursts), txs, edits, start, i);
    assert Parts(bursts + [BurstOf(session, txs[start..i])]) == Parts(bursts) + [txs[start..i]];
    if i == |txs| {
      assert txs[..i] == txs;
    }
  }

  lemma {:induction false} StepOn(
    bursts: seq<Burst>, session: string, txs: seq<Transaction>, edits: seq<real>, start: nat, i: nat)
    requires CutState(bursts, session, txs, edits, start, i) && i < |txs|
    requires !EditBetween(edits, txs[i - 1].timestamp, txs[i].timestamp)
    ensures CutState(bursts, session, txs, edits, start, i + 1)
  {
    assert txs[start..i + 1] == txs[start..i] + [txs[i]];
  }

  method CutSession(session: string, sorted: seq<Transaction>, sortedEdits: seq<real>) returns (bursts: seq<Burst>)
    requires Sorted(Leq(), sortedEdits)
    ensures IsPartition(Parts(bursts), sorted, sortedEdits) && AllOfSession(bursts, session)
  {
    bursts := [];
    var burstStart := 0;
    for i := 1 to |sorted| + 1
      invariant burstStart < i && CutState(bursts, session, sorted, sortedEdits, burstStart, i)
    {
      var breakBurst := i == |sorted|;
      if !breakBurst {
        breakBurst := HumanEditBetween(sortedEdits, sorted[i - 1].timestamp, sorted[i].timestamp);
      }
      if breakBurst {
        StepBreak(bursts, session, sorted, sortedEdits, burstStart, i);
        var slice := sorted[burstStart..i];
        bursts := bursts + [Burst(session, slice[0].timestamp, slice[|slice| - 1].timestamp, slice)];
        burstStart := i;
      } else {
        StepOn(bursts, session, sorted, sortedEdits, burstStart, i);
      }
    }
  }

  /** The bursts of all sessions, the sessions in order of first arrival. */
  ghost predicate AreBursts(bursts: seq<Burst>, order: seq<string>, txs: seq<Transaction>, edits: seq<real>) {
    exists groups: seq<seq<Burst>> :: IsGrouped(groups, bursts, order, txs, edits)
  }

  ghost predicate IsGrouped(groups: seq<seq<Burst>>, bursts: seq<Burst>, order: seq<string>, txs: seq<Transaction>, edits: seq<real>) {
    Grouped(groups, bursts, order, SessionTest(txs, edits))
  }

  ghost function SessionTest(txs: seq<Transaction>, edits: seq<real>): (seq<Burst>, string) -> bool {
    (bursts: seq<Burst>, session: string) => IsSessionBursts(bursts, session, txs, edits)
  }

  ghost predicate Grouped(groups: seq<seq<Burst>>, bursts: seq<Burst>, order: seq<string>, ok: (seq<Burst>, string) -> bool) {
    && |groups| == |order| && Concat(groups) == bursts
    && forall k :: 0 <= k < |groups| ==> ok(groups[k], order[k])
  }

  function Matching(agentType: string): Burst -> bool {
    (b: Burst) => exists tx :: tx in b.transactions && tx.agentType == Some(agentType)
  }

  function Kept(bursts: seq<Burst>, agentTypeFilter: Option<string>): seq<Burst> {
    match agentTypeFilter
    case None => bursts
    case Some(agentType) => Filter(Matching(agentType), bursts)
  }

  /** kept is what the filter leaves of the bursts. */
  ghost predicate AreKeptBursts(kept: seq<Burst>, txs: seq<Transaction>, edits: seq<real>, agentTypeFilter: Option<string>) {
    exists bursts :: AreBursts(bursts, Dedup(SessionsOf(txs)), txs, edits) && kept == Kept(bursts, agentTypeFilter)
  }

  method BucketIntoBursts(txs: seq<Transaction>, humanEdits: seq<real>, agentTypeFilter: Option<string>)
    returns (kept: seq<Burst>)
    ensures AreKeptBursts(kept, txs, humanEdits, agentTypeFilter)
  {
    if txs == [] {
      assert IsGrouped([], [], [], txs, humanEdits);
      assert AreBursts([], Dedup(SessionsOf(txs)), txs, humanEdits);
      return [];
    }
    var bursts := AllBursts(txs, humanEdits);
    return Kept(bursts, agentTypeFilter);
  }

  method AllBursts(txs: seq<Transaction>, humanEdits: seq<real>) returns (bursts: seq<Burst>)
    ensures AreBursts(bursts, Dedup(SessionsOf(txs)), txs, humanEdits)
  {
    var sortedEdits := SortBy(Leq(), humanEdits);
    SortBySorted(Leq(), humanEdits);
    var sessions := GroupBySession(txs);
    bursts := [];
    ghost var groups: seq<seq<Burst>> := [];
    for k := 0 to |sessions.order|
      invariant IsGrouped(groups, bursts, sessions.order[..k], txs, humanEdits)
    {
      var session := sessions.order[k];
      assert session in sessions.lists;
      var sorted := SortBy(Earlier(), sessions.lists[session]);
      var more := CutSession(session, sorted, sortedEdits);
      SameEdits(Parts(more), sorted, sortedEdits, humanEdits);
      GroupedPush(groups, bursts, sessions.order, k, SessionTest(txs, humanEdits), more);
      groups, bursts := groups + [more], bursts + more;
    }
    assert sessions.order[..|sessions.order|] == sessions.order;
  }

  lemma {:induction false} GroupedPush(
    groups: seq<seq<Burst>>, bursts: seq<Burst>, order: seq<string>, k: nat, ok: (seq<Burst>, string) -> bool, more: seq<Burst>)
    requires k < |order| && Grouped(groups, bursts, order[..k], ok) && ok(more, order[k])
    ensures Grouped(groups + [more], bursts + more, order[..k + 1], ok)
  {
    assert (groups + [more])[..k] == groups;
  }

  /** The order and repetition of the edits do not matter. */
  lemma {:induction false} SameEdits(parts: seq<seq<Transaction>>, txs: seq<Transaction>, a: seq<real>, b: seq<real>)
    requires IsPartition(parts, txs, a) && multiset(a) == multiset(b)
    ensures IsPartition(parts, txs, b)
  {
    forall e ensures e in a <==> e in b {
      assert e in a <==> e in multiset(a);
    }
    assert forall s, t :: EditBetween(a, s, t) <==> EditBetween(b, s, t);
  }

  // ---- What the bursts are ----

  /** The result is determined: the input admits one list of bursts only. */
  lemma {:induction false} BurstsUnique(a: seq<Burst>, b: seq<Burst>, order: seq<string>, txs: seq<Transaction>, edits: seq<real>)
    requires AreBursts(a, order, txs, edits) && AreBursts(b, order, txs, edits)
    ensures a == b
  {
    var g :| IsGrouped(g, a, order, txs, edits);
    var h :| IsGrouped(h, b, order, txs, edits);
    forall k | 0 <= k < |order| ensures g[k] == h[k] {
      SessionUnique(g[k], h[k], order[k], txs, edits);
    }
    assert g == h;
  }

  lemma {:induction false} SessionUnique(a: seq<Burst>, b: seq<Burst>, session: string, txs: seq<Transaction>, edits: seq<real>)
    requires IsSessionBursts(a, session, txs, edits) && IsSessionBursts(b, session, txs, edits)
    ensures a == b
  {
    PartitionUnique(Parts(a), Parts(b), SortBy(Earlier(), Filter(InSession(session), txs)), edits);
    forall k | 0 <= k < |a| ensures a[k] == b[k] {
      assert a[k].transactions == Parts(a)[k] == Parts(b)[k] == b[k].transactions;
    }
  }

  function InBurstsOf(session: string): Burst -> bool {
    (b: Burst) => b.session == session
  }

  lemma {:induction false} SessionGroup(bursts: seq<Burst>, order: seq<string>, txs: seq<Transaction>, edits: seq<real>, session: string)
    requires AreBursts(bursts, order, txs, edits) && Distinct(order) && session in order
    ensures IsSessionBursts(Filter(InBurstsOf(session), bursts), session, txs, edits)
  {
    var g :| IsGrouped(g, bursts, order, txs, edits);
    var k :| 0 <= k < |order| && order[k] == session;
    FilterOneGroup(g, order, SessionTest(txs, edits), k);
  }

  function AtTime(t: real): Transaction -> bool {
    (tx: Transaction) => tx.timestamp == t
  }

  /** sorted holds the transactions of the session in order of time, those of one moment in order of arrival. */
  ghost predicate InStableOrder(sorted: seq<Transaction>, session: string, txs: seq<Transaction>) {
    && multiset(sorted) == multiset(Filter(InSession(session), txs))
    && Sorted(Earlier(), sorted)
    && forall t :: Filter(AtTime(t), sorted) == Filter(AtTime(t), Filter(InSession(session), txs))
  }

  lemma {:induction false} SortedIsStable(session: string, txs: seq<Transaction>)
    ensures InStableOrder(SortBy(Earlier(), Filter(InSession(session), txs)), session, txs)
  {
    var own := Filter(InSession(session), txs);
    SortBySorted(Earlier(), own);
    forall t ensures Filter(AtTime(t), SortBy(Earlier(), own)) == Filter(AtTime(t), own) {
      SortByStable(Earlier(), own, AtTime(t));
    }
  }

  /** Taken together, the bursts of a session are its transactions in stable order of time, cut at the edits. */
  lemma {:induction false} SessionTransactions(bursts: seq<Burst>, order: seq<string>, txs: seq<Transaction>, edits: seq<real>, session: string)
    requires AreBursts(bursts, order, txs, edits) && Distinct(order) && session in order
    ensures var parts := Parts(Filter(InBurstsOf(session), bursts));
            IsPartition(parts, Concat(parts), edits) && InStableOrder(Concat(parts), session, txs)
  {
    SessionGroup(bursts, order, txs, edits, session);
    SortedIsStable(session, txs);
  }

  ghost predicate OwnSession(ok: (seq<Burst>, string) -> bool) {
    forall bursts, session :: ok(bursts, session) ==> AllOfSession(bursts, session)
  }

  lemma {:induction false} FilterOneGroup(g: seq<seq<Burst>>, order: seq<string>, ok: (seq<Burst>, string) -> bool, k: nat)
    requires Grouped(g, Concat(g), order, ok) && OwnSession(ok) && Distinct(order) && k < |order|
    ensures Filter(InBurstsOf(order[k]), Concat(g)) == g[k]
  {
    var n := |g| - 1;
    var p := InBurstsOf(order[k]);
    FilterAppend(p, Concat(g[..n]), g[n]);
    if k == n {
      FilterNoGroup(g[..n], order[..n], ok, order[k]);
      FilterAll(p, g[n]);
    } else {
      FilterOneGroup(g[..n], order[..n], ok, k);
      FilterNone(p, g[n]);
    }
  }

  lemma {:induction false} FilterNoGroup(g: seq<seq<Burst>>, order: seq<string>, ok: (seq<Burst>, string) -> bool, session: string)
    requires Grouped(g, Concat(g), order, ok) && OwnSession(ok) && session !in order
    ensures Filter(InBurstsOf(session), Concat(g)) == []
  {
    if g != [] {
      var n := |g| - 1;
      FilterNoGroup(g[..n], order[..n], ok, session);
      FilterAppend(InBurstsOf(session), Concat(g[..n]), g[n]);
      FilterNone(InBurstsOf(session), g[n]);
    }
  }

  // ---- Conservation ----

  function Flat(bursts: seq<Burst>): seq<Transaction> {
    Concat(Parts(bursts))
  }

  /** No transaction is lost or counted twice. */
  lemma {:induction false} TransactionsConserved(bursts: seq<Burst>, txs: seq<Transaction>, edits: seq<real>)
    requires AreBursts(bursts, Dedup(SessionsOf(txs)), txs, edits)
    ensures multiset(Flat(bursts)) == multiset(txs)
  {
    var order := Dedup(SessionsOf(txs));
    var g :| IsGrouped(g, bursts, order, txs, edits);
    forall x ensures multiset(Flat(bursts))[x] == multiset(txs)[x] {
      AllSessionsCount(txs, edits, x);
      GroupCount(g, order, SessionTest(txs, edits), x, multiset(txs)[x]);
      if x in multiset(txs) {
        var i :| 0 <= i < |txs| && txs[i] == x;
        assert SessionsOf(txs)[i] == x.session;
      }
    }
  }

  /** A group holds x `count` times if it is the group of its session, and not at all otherwise. */
  ghost predicate Counts(ok: (seq<Burst>, string) -> bool, x: Transaction, count: nat) {
    forall bursts, session :: ok(bursts, session) ==>
      multiset(Flat(bursts))[x] == if x.session == session then count else 0
  }

  lemma {:induction false} GroupCount(
    g: seq<seq<Burst>>, order: seq<string>, ok: (seq<Burst>, string) -> bool, x: Transaction, count: nat)
    requires Grouped(g, Concat(g), order, ok) && Counts(ok, x, count) && Distinct(order)
    ensures multiset(Flat(Concat(g)))[x] == if x.session in order then count else 0
  {
    if g != [] {
      var n := |g| - 1;
      GroupCount(g[..n], order[..n], ok, x, count);
      FlatCount(Concat(g[..n]), g[n], x);
      LastIsNew(order);
      assert ok(g[n], order[n]);
    }
  }

  lemma {:induction false} LastIsNew(order: seq<string>)
    requires Distinct(order) && order != []
    ensures var front, last := order[..|order| - 1], order[|order| - 1];
            last !in front && Distinct(front) && forall s :: s in order <==> s in front || s == last
  {
    assert order == order[..|order| - 1] + [order[|order| - 1]];
  }

  lemma {:induction false} SessionCount(bursts: seq<Burst>, session: string, txs: seq<Transaction>, edits: seq<real>, x: Transaction)
    requires IsSessionBursts(bursts, session, txs, edits)
    ensures multiset(Flat(bursts))[x] == if x.session == session then multiset(txs)[x] else 0
  {
    FilterCount(InSession(session), txs, x);
  }

  lemma {:induction false} AllSessionsCount(txs: seq<Transaction>, edits: seq<real>, x: Transaction)
    ensures Counts(SessionTest(txs, edits), x, multiset(txs)[x])
  {
    forall bursts, session | SessionTest(txs, edits)(bursts, session)
      ensures multiset(Flat(bursts))[x] == if x.session == session then multiset(txs)[x] else 0
    {
      SessionCount(bursts, session, txs, edits, x);
    }
  }

  lemma {:induction false} FlatCount(a: seq<Burst>, b: seq<Burst>, x: Transaction)
    ensures multiset(Flat(a + b))[x] == multiset(Flat(a))[x] + multiset(Flat(b))[x]
  {
    FlatAppend(a, b);
  }

  lemma {:induction false} FlatAppend(a: seq<Burst>, b: seq<Burst>)
    ensures Flat(a + b) == Flat(a) + Flat(b)
  {
    if b == [] {
      assert a + b == a;
    } else {
      var n := |b| - 1;
      FlatAppend(a, b[..n]);
      assert Parts(a + b)[..|a| + n] == Parts(a + b[..n]);
      assert Parts(b)[..n] == Parts(b[..n]);
    }
  }

  lemma {:induction false} FilterCount(p: Transaction -> bool, s: seq<Transaction>, x: Transaction)
    ensures multiset(Filter(p, s))[x] == if p(x) then multiset(s)[x] else 0
  {
    if s != [] {
      FilterCount(p, s[1..], x);
      assert s == [s[0]] + s[1..];
    }
  }

  lemma {:induction false} ConcatOne<T>(part: seq<T>)
    ensures Concat([part]) == part
  {
    assert [part][..0] == [];
  }
}
