/**
 The agent filter of the burst grouping (packages/core/src/burst-grouping.ts). It is documented to
 return bursts of matching sessions and tests each burst by itself; this says when the two agree.
 */
module BurstFilter {
  import opened Sequences
  import opened Wrappers
  import opened Sorting
  import opened Bursts

  /** All transactions of a session come from one kind of agent. */
  ghost predicate OneAgentPerSession(txs: seq<Transaction>) {
    forall a, b :: a in txs && b in txs && a.session == b.session ==> a.agentType == b.agentType
  }

  ghost predicate SessionMatches(txs: seq<Transaction>, session: string, agentType: string) {
    exists tx :: tx in txs && tx.session == session && tx.agentType == Some(agentType)
  }

  /** A burst holds transactions of its own session only, and at least one. */
  lemma {:induction false} BurstTransactions(bursts: seq<Burst>, txs: seq<Transaction>, edits: seq<real>, b: Burst)
    requires AreBursts(bursts, Dedup(SessionsOf(txs)), txs, edits) && b in bursts
    ensures b.transactions != [] && b == BurstOf(b.session, b.transactions)
    ensures forall tx :: tx in b.transactions ==> tx in txs && tx.session == b.session
  {
    var order := Dedup(SessionsOf(txs));
    var g :| IsGrouped(g, bursts, order, txs, edits);
    var k, i := GroupOf(g, b);
    assert IsSessionBursts(g[k], order[k], txs, edits);
    forall tx | tx in b.transactions ensures tx in txs && tx.session == b.session {
      var all := Filter(InSession(order[k]), txs);
      PartInConcat(Parts(g[k]), i, tx);
      assert tx in multiset(SortBy(Earlier(), all));
    }
  }

  lemma {:induction false} GroupOf(g: seq<seq<Burst>>, b: Burst) returns (k: nat, i: nat)
    requires b in Concat(g)
    ensures k < |g| && i < |g[k]| && g[k][i] == b
  {
    var n := |g| - 1;
    if b in g[n] {
      k := n;
      i :| 0 <= i < |g[n]| && g[n][i] == b;
    } else {
      k, i := GroupOf(g[..n], b);
    }
  }

  lemma {:induction false} PartInConcat(parts: seq<seq<Transaction>>, i: nat, tx: Transaction)
    requires i < |parts| && tx in parts[i]
    ensures tx in Concat(parts)
  {
    if i < |parts| - 1 {
      PartInConcat(parts[..|parts| - 1], i, tx);
    }
  }

  // ---- Which transactions share a burst ----

  /** Some edit lies strictly between x and y, and at no moment of their session's transactions. */
  ghost predicate Separated(txs: seq<Transaction>, edits: seq<real>, x: Transaction, y: Transaction) {
    exists e :: e in edits && Between(e, x, y) && FreeMoment(txs, x.session, e)
  }

  predicate Between(e: real, x: Transaction, y: Transaction) {
    x.timestamp < e < y.timestamp || y.timestamp < e < x.timestamp
  }

  ghost predicate FreeMoment(txs: seq<Transaction>, session: string, e: real) {
    forall z :: z in txs && z.session == session ==> z.timestamp != e
  }

  lemma {:induction false} ConcatSplit<T>(parts: seq<seq<T>>, k: nat)
    requires k <= |parts|
    ensures Concat(parts) == Concat(parts[..k]) + Concat(parts[k..])
  {
    var n := |parts| - 1;
    if k == |parts| {
      assert parts[..k] == parts;
    } else {
      ConcatSplit(parts[..n], k);
      assert parts[..n][..k] == parts[..k] && parts[..n][k..] == parts[k..][..n - k];
      Assoc(Concat(parts[..k]), Concat(parts[k..n]), parts[n]);
    }
  }

  lemma {:induction false} FirstOfConcat<T>(parts: seq<seq<T>>)
    requires parts != [] && parts[0] != []
    ensures Concat(parts) != [] && Concat(parts)[0] == parts[0][0]
  {
    ConcatSplit(parts, 1);
    assert parts[..1] == [parts[0]];
    ConcatOne(parts[0]);
  }

  ghost predicate AtMost(txs: seq<Transaction>, t: real) {
    forall z :: z in txs ==> z.timestamp <= t
  }

  ghost predicate AtLeast(txs: seq<Transaction>, t: real) {
    forall z :: z in txs ==> t <= z.timestamp
  }

  /** Nothing before a cut of a sorted sequence is later than its last element there, nothing after it earlier than the first. */
  lemma {:induction false} SortedCut(a: seq<Transaction>, b: seq<Transaction>)
    requires Sorted(Earlier(), a + b) && a != [] && b != []
    ensures AtMost(a, a[|a| - 1].timestamp) && AtLeast(b, b[0].timestamp)
    ensures a[|a| - 1].timestamp <= b[0].timestamp
  {
    var s, leq := a + b, Earlier();
    forall z | z in a ensures z.timestamp <= a[|a| - 1].timestamp {
      var i :| 0 <= i < |a| && a[i] == z;
      assert i < |a| - 1 ==> leq(s[i], s[|a| - 1]);
    }
    forall z | z in b ensures b[0].timestamp <= z.timestamp {
      var i :| 0 <= i < |b| && b[i] == z;
      assert i > 0 ==> leq(s[|a|], s[|a| + i]);
    }
    assert leq(s[|a| - 1], s[|a|]);
  }

  /** The edit that cuts two parts lies between everything before and everything after. */
  lemma {:induction false} CutMoment(parts: seq<seq<Transaction>>, txs: seq<Transaction>, edits: seq<real>, p: nat) returns (e: real)
    requires IsPartition(parts, txs, edits) && Sorted(Earlier(), txs) && p + 1 < |parts|
    ensures e in edits
    ensures forall z :: z in Concat(parts[..p + 1]) ==> z.timestamp < e
    ensures forall z :: z in Concat(parts[p + 1..]) ==> e < z.timestamp
  {
    var a, b := Concat(parts[..p + 1]), Concat(parts[p + 1..]);
    ConcatSplit(parts, p + 1);
    FirstOfConcat(parts[p + 1..]);
    assert BreaksBetween(parts[p], parts[p + 1], edits);
    SortedCut(a, b);
    e :| e in edits && (parts[p][|parts[p]| - 1].timestamp < e < parts[p + 1][0].timestamp
                        || parts[p + 1][0].timestamp < e < parts[p][|parts[p]| - 1].timestamp);
  }

  /** Two transactions of one part are not separated: an edit between them falls on a moment of the part. */
  lemma {:induction false} InsideNotSeparated(
    txs: seq<Transaction>, edits: seq<real>, part: seq<Transaction>, x: Transaction, y: Transaction)
    requires Sorted(Earlier(), part) && Unbroken(part, edits) && x in part && y in part
    requires forall z :: z in part ==> z in txs && z.session == x.session
    ensures !Separated(txs, edits, x, y)
  {
    if e :| e in edits && Between(e, x, y) && FreeMoment(txs, x.session, e) {
      PartBounds(part, x);
      PartBounds(part, y);
      var k := EditInsideCoincides(part, edits, e);
      MomentTaken(txs, part, k, x.session);
    }
  }

  lemma {:induction false} MomentTaken(txs: seq<Transaction>, part: seq<Transaction>, k: nat, session: string)
    requires k < |part| && forall z :: z in part ==> z in txs && z.session == session
    ensures !FreeMoment(txs, session, part[k].timestamp)
  {
    assert part[k] in part;
  }

  lemma {:induction false} PartBounds(part: seq<Transaction>, x: Transaction)
    requires Sorted(Earlier(), part) && x in part
    ensures part[0].timestamp <= x.timestamp <= part[|part| - 1].timestamp
  {
    var leq := Earlier();
    var i :| 0 <= i < |part| && part[i] == x;
    assert i > 0 ==> leq(part[0], part[i]);
    assert i < |part| - 1 ==> leq(part[i], part[|part| - 1]);
  }

  /** Two transactions of different parts are separated by the edit that ends the earlier part. */
  lemma {:induction false} ApartSeparated(
    txs: seq<Transaction>, edits: seq<real>, parts: seq<seq<Transaction>>, sorted: seq<Transaction>, session: string,
    p: nat, q: nat, x: Transaction, y: Transaction)
    requires IsPartition(parts, sorted, edits) && Sorted(Earlier(), sorted)
    requires forall z :: z in sorted <==> z in txs && z.session == session
    requires p < q < |parts| && x in parts[p] && y in parts[q] && x.session == y.session == session
    ensures Separated(txs, edits, x, y) && Separated(txs, edits, y, x)
  {
    var e := CutMoment(parts, sorted, edits, p);
    ConcatSplit(parts, p + 1);
    OnEitherSide(parts, p, q, x, y);
    CutIsFree(txs, Concat(parts[..p + 1]), Concat(parts[p + 1..]), session, e);
    assert Between(e, x, y) && Between(e, y, x);
  }

  lemma {:induction false} OnEitherSide(parts: seq<seq<Transaction>>, p: nat, q: nat, x: Transaction, y: Transaction)
    requires p < q < |parts| && x in parts[p] && y in parts[q]
    ensures x in Concat(parts[..p + 1]) && y in Concat(parts[p + 1..])
  {
    PartInConcat(parts[..p + 1], p, x);
    assert parts[p + 1..][q - p - 1] == parts[q];
    PartInConcat(parts[p + 1..], q - p - 1, y);
  }

  lemma {:induction false} CutIsFree(txs: seq<Transaction>, a: seq<Transaction>, b: seq<Transaction>, session: string, e: real)
    requires forall z :: z in a + b <==> z in txs && z.session == session
    requires (forall z :: z in a ==> z.timestamp < e) && (forall z :: z in b ==> e < z.timestamp)
    ensures FreeMoment(txs, session, e)
  {
    forall z | z in txs && z.session == session ensures z.timestamp != e {
      assert z in a + b;
    }
  }

  lemma {:induction false} PartSorted(parts: seq<seq<Transaction>>, k: nat)
    requires Sorted(Earlier(), Concat(parts)) && k < |parts|
    ensures Sorted(Earlier(), parts[k])
  {
    var before := |Concat(parts[..k])|;
    ConcatSplit(parts, k);
    ConcatSplit(parts[k..], 1);
    assert parts[k..][..1] == [parts[k]];
    ConcatOne(parts[k]);
    assert Concat(parts)[before..][..|parts[k]|] == parts[k];
    SortedSuffix(Concat(parts), before);
    SortedPrefix(Concat(parts)[before..], |parts[k]|);
  }

  lemma {:induction false} SortedSuffix(s: seq<Transaction>, i: nat)
    requires Sorted(Earlier(), s) && i <= |s|
    ensures Sorted(Earlier(), s[i..])
  {
  }

  lemma {:induction false} SortedPrefix(s: seq<Transaction>, i: nat)
    requires Sorted(Earlier(), s) && i <= |s|
    ensures Sorted(Earlier(), s[..i])
  {
  }

  lemma {:induction false} PartOf(parts: seq<seq<Transaction>>, tx: Transaction) returns (k: nat)
    requires tx in Concat(parts)
    ensures k < |parts| && tx in parts[k]
  {
    var n := |parts| - 1;
    if tx in parts[n] {
      k := n;
    } else {
      k := PartOf(parts[..n], tx);
    }
  }

  /** The session's own bursts and their transactions in order. */
  lemma {:induction false} OwnBursts(bursts: seq<Burst>, txs: seq<Transaction>, edits: seq<real>, session: string)
    returns (own: seq<Burst>, sorted: seq<Transaction>)
    requires AreBursts(bursts, Dedup(SessionsOf(txs)), txs, edits) && session in SessionsOf(txs)
    ensures forall b :: b in own <==> b in bursts && b.session == session
    ensures IsPartition(Parts(own), sorted, edits) && Sorted(Earlier(), sorted) && sorted == Concat(Parts(own))
    ensures forall z :: z in sorted <==> z in txs && z.session == session
  {
    own := Filter(InBurstsOf(session), bursts);
    sorted := Concat(Parts(own));
    SessionTransactions(bursts, Dedup(SessionsOf(txs)), txs, edits, session);
    SameMembers(sorted, Filter(InSession(session), txs));
  }

  lemma {:induction false} SameMembers<T>(a: seq<T>, b: seq<T>)
    requires multiset(a) == multiset(b)
    ensures forall z :: z in a <==> z in b
  {
    forall z ensures z in a <==> z in b {
      assert z in a <==> z in multiset(a);
    }
  }

  lemma {:induction false} SessionListed(txs: seq<Transaction>, x: Transaction)
    requires x in txs
    ensures x.session in SessionsOf(txs)
  {
    var i :| 0 <= i < |txs| && txs[i] == x;
    assert SessionsOf(txs)[i] == x.session;
  }

  /** A burst is all the transactions of its session that are not separated from any one of them. */
  lemma {:induction false} BurstExactly(
    bursts: seq<Burst>, txs: seq<Transaction>, edits: seq<real>, b: Burst, x: Transaction, y: Transaction)
    requires AreBursts(bursts, Dedup(SessionsOf(txs)), txs, edits) && b in bursts
    requires x in b.transactions && y in txs && y.session == x.session
    ensures y in b.transactions <==> !Separated(txs, edits, x, y)
  {
    BurstTransactions(bursts, txs, edits, b);
    SessionListed(txs, x);
    var own, sorted := OwnBursts(bursts, txs, edits, b.session);
    var p :| 0 <= p < |own| && own[p] == b;
    var q := PartOf(Parts(own), y);
    if y in b.transactions {
      PartSorted(Parts(own), p);
      InsideNotSeparated(txs, edits, b.transactions, x, y);
    } else if p < q {
      ApartSeparated(txs, edits, Parts(own), sorted, b.session, p, q, x, y);
    } else {
      ApartSeparated(txs, edits, Parts(own), sorted, b.session, q, p, y, x);
    }
  }

  /** A burst runs from its earliest transaction to its latest, in the order of time. */
  lemma {:induction false} BurstSpan(bursts: seq<Burst>, txs: seq<Transaction>, edits: seq<real>, b: Burst)
    requires AreBursts(bursts, Dedup(SessionsOf(txs)), txs, edits) && b in bursts
    ensures forall i, j :: 0 <= i < j < |b.transactions| ==> b.transactions[i].timestamp <= b.transactions[j].timestamp
    ensures forall tx :: tx in b.transactions ==> b.start <= tx.timestamp <= b.end
    ensures exists first, last :: first in b.transactions && last in b.transactions
              && first.timestamp == b.start && last.timestamp == b.end
  {
    BurstSorted(bursts, txs, edits, b);
    SpanOf(b);
  }

  lemma {:induction false} BurstSorted(bursts: seq<Burst>, txs: seq<Transaction>, edits: seq<real>, b: Burst)
    requires AreBursts(bursts, Dedup(SessionsOf(txs)), txs, edits) && b in bursts
    ensures b.transactions != [] && b == BurstOf(b.session, b.transactions) && Sorted(Earlier(), b.transactions)
  {
    BurstTransactions(bursts, txs, edits, b);
    SessionListed(txs, b.transactions[0]);
    var own, sorted := OwnBursts(bursts, txs, edits, b.session);
    var p :| 0 <= p < |own| && own[p] == b;
    PartSorted(Parts(own), p);
  }

  lemma {:induction false} SpanOf(b: Burst)
    requires b.transactions != [] && b == BurstOf(b.session, b.transactions) && Sorted(Earlier(), b.transactions)
    ensures forall i, j :: 0 <= i < j < |b.transactions| ==> b.transactions[i].timestamp <= b.transactions[j].timestamp
    ensures forall tx :: tx in b.transactions ==> b.start <= tx.timestamp <= b.end
    ensures exists first, last :: first in b.transactions && last in b.transactions
              && first.timestamp == b.start && last.timestamp == b.end
  {
    var leq, n := Earlier(), |b.transactions| - 1;
    forall i, j | 0 <= i < j < |b.transactions| ensures b.transactions[i].timestamp <= b.transactions[j].timestamp {
      assert leq(b.transactions[i], b.transactions[j]);
    }
    assert b.transactions[0] in b.transactions && b.transactions[n] in b.transactions;
  }

  lemma {:induction false} BurstHolding(bursts: seq<Burst>, txs: seq<Transaction>, edits: seq<real>, x: Transaction) returns (b: Burst)
    requires AreBursts(bursts, Dedup(SessionsOf(txs)), txs, edits) && x in txs
    ensures b in bursts && b.session == x.session && x in b.transactions
  {
    SessionListed(txs, x);
    var own, sorted := OwnBursts(bursts, txs, edits, x.session);
    var p := PartOf(Parts(own), x);
    b := own[p];
    assert b in own;
  }

  // ---- When the filter keeps sessions ----

  /** Without a filter every burst is returned; with one, those with a transaction of that agent type. */
  lemma {:induction false} KeptExact(bursts: seq<Burst>, agentType: string, b: Burst)
    ensures Kept(bursts, None) == bursts
    ensures b in Kept(bursts, Some(agentType)) <==>
              b in bursts && exists tx :: tx in b.transactions && tx.agentType == Some(agentType)
  {
    assert b in Kept(bursts, Some(agentType)) <==> b in bursts && Matching(agentType)(b);
  }

  /** The filter keeps exactly the bursts of matching sessions, as documented. */
  ghost predicate KeepsSessions(bursts: seq<Burst>, txs: seq<Transaction>, agentType: string) {
    forall b :: b in bursts ==> (b in Kept(bursts, Some(agentType)) <==> SessionMatches(txs, b.session, agentType))
  }

  /** Some transaction of x's session has the type and is not separated from x. */
  ghost predicate NearMatch(txs: seq<Transaction>, edits: seq<real>, agentType: string, x: Transaction) {
    exists y :: y in txs && y.session == x.session && y.agentType == Some(agentType) && !Separated(txs, edits, x, y)
  }

  ghost predicate AllNearMatch(txs: seq<Transaction>, edits: seq<real>, agentType: string) {
    forall x :: x in txs && SessionMatches(txs, x.session, agentType) ==> NearMatch(txs, edits, agentType, x)
  }

  /** The code and its documentation agree exactly when every transaction of a matching session has a near match. */
  lemma {:induction false} FilterKeepsSessions(bursts: seq<Burst>, txs: seq<Transaction>, edits: seq<real>, agentType: string)
    requires AreBursts(bursts, Dedup(SessionsOf(txs)), txs, edits)
    ensures KeepsSessions(bursts, txs, agentType) <==> AllNearMatch(txs, edits, agentType)
  {
    if KeepsSessions(bursts, txs, agentType) {
      forall x | x in txs && SessionMatches(txs, x.session, agentType) ensures NearMatch(txs, edits, agentType, x) {
        var b := BurstHolding(bursts, txs, edits, x);
        KeptMatches(bursts, txs, edits, agentType, b, x);
      }
    }
    if AllNearMatch(txs, edits, agentType) {
      forall b | b in bursts ensures b in Kept(bursts, Some(agentType)) <==> SessionMatches(txs, b.session, agentType) {
        BurstTransactions(bursts, txs, edits, b);
        var x := b.transactions[0];
        assert x in b.transactions;
        KeptMatches(bursts, txs, edits, agentType, b, x);
      }
    }
  }

  /** A burst is kept exactly when a transaction of it, any one, has a near match. */
  lemma {:induction false} KeptMatches(
    bursts: seq<Burst>, txs: seq<Transaction>, edits: seq<real>, agentType: string, b: Burst, x: Transaction)
    requires AreBursts(bursts, Dedup(SessionsOf(txs)), txs, edits) && b in bursts && x in b.transactions
    ensures b in Kept(bursts, Some(agentType)) <==> NearMatch(txs, edits, agentType, x)
    ensures b in Kept(bursts, Some(agentType)) ==> SessionMatches(txs, b.session, agentType)
  {
    BurstTransactions(bursts, txs, edits, b);
    assert b in Kept(bursts, Some(agentType)) <==> Matching(agentType)(b);
    if y :| y in b.transactions && y.agentType == Some(agentType) {
      BurstExactly(bursts, txs, edits, b, x, y);
    }
    if y :| y in txs && y.session == x.session && y.agentType == Some(agentType) && !Separated(txs, edits, x, y) {
      BurstExactly(bursts, txs, edits, b, x, y);
    }
  }

  /** One kind of agent per session is enough. */
  lemma {:induction false} OneAgentSuffices(txs: seq<Transaction>, edits: seq<real>, agentType: string)
    requires OneAgentPerSession(txs)
    ensures AllNearMatch(txs, edits, agentType)
  {
    forall x | x in txs && SessionMatches(txs, x.session, agentType) ensures NearMatch(txs, edits, agentType, x) {
      assert x.agentType == Some(agentType);
      assert forall e :: !Between(e, x, x);
    }
  }

  /** Without a filter every transaction has a place in the result; with one, those with a near match. */
  ghost predicate Shown(txs: seq<Transaction>, edits: seq<real>, agentTypeFilter: Option<string>, x: Transaction) {
    agentTypeFilter == None || NearMatch(txs, edits, agentTypeFilter.value, x)
  }

  /** The result as a whole: which transactions it holds, and that it is determined. */
  lemma {:induction false} ResultExact(
    kept: seq<Burst>, txs: seq<Transaction>, edits: seq<real>, agentTypeFilter: Option<string>, x: Transaction)
    requires AreKeptBursts(kept, txs, edits, agentTypeFilter) && x in txs
    ensures (exists b :: b in kept && x in b.transactions) <==> Shown(txs, edits, agentTypeFilter, x)
    ensures forall other :: AreKeptBursts(other, txs, edits, agentTypeFilter) ==> other == kept
  {
    var order := Dedup(SessionsOf(txs));
    var bursts :| AreBursts(bursts, order, txs, edits) && kept == Kept(bursts, agentTypeFilter);
    forall other | AreKeptBursts(other, txs, edits, agentTypeFilter) ensures other == kept {
      var others :| AreBursts(others, order, txs, edits) && other == Kept(others, agentTypeFilter);
      BurstsUnique(bursts, others, order, txs, edits);
    }
    var b := BurstHolding(bursts, txs, edits, x);
    if agentTypeFilter.Some? {
      KeptMatches(bursts, txs, edits, agentTypeFilter.value, b, x);
      forall c | c in kept && x in c.transactions ensures Shown(txs, edits, agentTypeFilter, x) {
        KeptExact(bursts, agentTypeFilter.value, c);
        KeptMatches(bursts, txs, edits, agentTypeFilter.value, c, x);
      }
    }
  }

  /** With two kinds of agent in one session it keeps single bursts instead. */
  lemma {:induction false} FilterMaySplitSession(a: Transaction, b: Transaction)
    requires a == Transaction("s", 0.0, "", Some("one")) && b == Transaction("s", 2.0, "", Some("two"))
    ensures var bursts := [BurstOf("s", [a]), BurstOf("s", [b])];
            AreBursts(bursts, ["s"], [a, b], [1.0]) && SessionMatches([a, b], "s", "one")
            && Kept(bursts, Some("one")) == [bursts[0]]
  {
    var x, y := BurstOf("s", [a]), BurstOf("s", [b]);
    TwoBursts(a, b);
    ConcatOne([x, y]);
    assert IsGrouped([[x, y]], [x, y], ["s"], [a, b], [1.0]);
    assert a in [a, b] && a in x.transactions;
    FirstKept("one", x, y);
  }

  lemma {:induction false} FirstKept(agentType: string, x: Burst, y: Burst)
    requires Matching(agentType)(x) && !Matching(agentType)(y)
    ensures Kept([x, y], Some(agentType)) == [x]
  {
    FilterPush(Matching(agentType), [x], y);
    FilterAll(Matching(agentType), [x]);
    assert [x, y] == [x] + [y];
  }

  lemma {:induction false} TwoBursts(a: Transaction, b: Transaction)
    requires a.session == b.session == "s" && a.timestamp == 0.0 && b.timestamp == 2.0
    ensures IsSessionBursts([BurstOf("s", [a]), BurstOf("s", [b])], "s", [a, b], [1.0])
  {
    assert Parts([BurstOf("s", [a]), BurstOf("s", [b])]) == [[a], [b]];
    TwoParts(a, b);
  }

  lemma {:induction false} TwoParts(a: Transaction, b: Transaction)
    requires a.timestamp == 0.0 && b.timestamp == 2.0
    ensures IsPartition([[a], [b]], [a, b], [1.0])
  {
    assert [[a], [b]][..1] == [[a]];
    ConcatOne([a]);
    assert EditBetween([1.0], a.timestamp, b.timestamp) by {
      assert 1.0 in [1.0];
    }
  }
}
