/**
 Choosing the newest published beta of a release listing (docs/src/lib/download-links.ts): reading
 beta tags, ranking them and picking the asset to serve. A payload is given decoded, or as None when
 it does not match the schema.
 */
module BetaRelease {
  import opened Wrappers
  import opened Text

  const DMG_ASSET_NAME: string := "SynapseNote-arm64.dmg"
  const ASSET_URL_PREFIX: string := "https://github.com/Nedian0Brien/SynapseNote/releases/download/"

  datatype Asset = Asset(name: string, url: string)

  datatype Release = Release(tag: string, draft: bool, prerelease: bool, assets: seq<Asset>)

  datatype Rank = Rank(major: nat, minor: nat, patch: nat, beta: nat)

  // ---- Tags ----

  /** A number at the start of s, ended by the given text, and what follows that text. */
  function NumberBefore(s: string, end: string): (r: Option<(nat, string)>) {
    var k := DigitRun(s);
    if k == 0 || !(end <= s[k..]) then None else Some((DigitsValue(s[..k]), s[k..][|end|..]))
  }

  /** vMAJOR.MINOR.PATCH-beta.N and nothing else. */
  function ReadTag(tag: string): Option<Rank> {
    if tag == [] || tag[0] != 'v' then None
    else match NumberBefore(tag[1..], ".")
      case None => None
      case Some((major, s)) => match NumberBefore(s, ".")
        case None => None
        case Some((minor, t)) => match NumberBefore(t, "-beta.")
          case None => None
          case Some((patch, u)) =>
            if u == [] || DigitRun(u) != |u| then None
            else
              assert u[..DigitRun(u)] == u;
              Some(Rank(major, minor, patch, DigitsValue(u)))
  }

  function PrintTag(r: Rank): string {
    ['v'] + (Digits(r.major) + ("." + (Digits(r.minor) + ("." + (Digits(r.patch) + ("-beta." + Digits(r.beta)))))))
  }

  ghost predicate Numeral(a: string) {
    a != [] && AllDigits(a)
  }

  /** The pattern of a beta tag, piece by piece. */
  ghost predicate TagOf(tag: string, a: string, b: string, c: string, d: string) {
    && Numeral(a) && Numeral(b) && Numeral(c) && Numeral(d)
    && tag == ['v'] + (a + ("." + (b + ("." + (c + ("-beta." + d))))))
  }

  lemma {:induction false} NumberBeforeRead(a: string, end: string, rest: string)
    requires end != [] && !IsDigit(end[0]) && Numeral(a)
    ensures NumberBefore(a + (end + rest), end) == Some((DigitsValue(a), rest))
  {
    DigitRunOf(a, end + rest);
    assert end <= end + rest && (end + rest)[|end|..] == rest;
  }

  lemma {:induction false} NumberBeforeShape(s: string, end: string) returns (a: string)
    requires NumberBefore(s, end).Some?
    ensures Numeral(a) && s == a + (end + NumberBefore(s, end).value.1)
    ensures NumberBefore(s, end).value.0 == DigitsValue(a)
  {
    var k := DigitRun(s);
    a := s[..k];
    assert s[k..] == end + s[k..][|end|..];
  }

  /** The pattern decides, with the values of its four numerals. */
  lemma {:induction false} TagRead(tag: string, a: string, b: string, c: string, d: string)
    requires TagOf(tag, a, b, c, d)
    ensures ReadTag(tag) == Some(Rank(DigitsValue(a), DigitsValue(b), DigitsValue(c), DigitsValue(d)))
  {
    var t := c + ("-beta." + d);
    var s := b + ("." + t);
    assert tag[1..] == a + ("." + s);
    NumberBeforeRead(a, ".", s);
    NumberBeforeRead(b, ".", t);
    NumberBeforeRead(c, "-beta.", d);
    DigitRunOf(d, []);
    assert d + [] == d;
  }

  /** The texts after each of the first three numerals. */
  lemma {:induction false} TagRests(tag: string) returns (s: string, t: string, d: string)
    requires ReadTag(tag).Some?
    ensures tag != [] && tag[0] == 'v' && Numeral(d)
    ensures NumberBefore(tag[1..], ".").Some? && NumberBefore(tag[1..], ".").value.1 == s
    ensures NumberBefore(s, ".").Some? && NumberBefore(s, ".").value.1 == t
    ensures NumberBefore(t, "-beta.").Some? && NumberBefore(t, "-beta.").value.1 == d
  {
    s := NumberBefore(tag[1..], ".").value.1;
    t := NumberBefore(s, ".").value.1;
    d := NumberBefore(t, "-beta.").value.1;
    assert d[..DigitRun(d)] == d;
  }

  /** Whatever is read as a tag has the pattern. */
  lemma {:induction false} TagShape(tag: string) returns (a: string, b: string, c: string, d: string)
    requires ReadTag(tag).Some?
    ensures TagOf(tag, a, b, c, d)
  {
    var s, t;
    s, t, d := TagRests(tag);
    a, b, c := TagPieces(tag, s, t, d);
  }

  lemma {:induction false} TagPieces(tag: string, s: string, t: string, d: string) returns (a: string, b: string, c: string)
    requires tag != [] && tag[0] == 'v' && Numeral(d)
    requires NumberBefore(tag[1..], ".").Some? && NumberBefore(tag[1..], ".").value.1 == s
    requires NumberBefore(s, ".").Some? && NumberBefore(s, ".").value.1 == t
    requires NumberBefore(t, "-beta.").Some? && NumberBefore(t, "-beta.").value.1 == d
    ensures TagOf(tag, a, b, c, d)
  {
    a := NumberBeforeShape(tag[1..], ".");
    b := NumberBeforeShape(s, ".");
    c := NumberBeforeShape(t, "-beta.");
    TagCompose(tag, a, b, c, d, s, t);
  }

  lemma {:induction false} TagCompose(tag: string, a: string, b: string, c: string, d: string, s: string, t: string)
    requires Numeral(a) && Numeral(b) && Numeral(c) && Numeral(d)
    requires tag != [] && tag[0] == 'v' && tag[1..] == a + ("." + s)
    requires s == b + ("." + t) && t == c + ("-beta." + d)
    ensures TagOf(tag, a, b, c, d)
  {
    assert tag == ['v'] + tag[1..];
  }

  /** A tag is read exactly when it has the pattern; every rank has a tag. */
  lemma {:induction false} TagExact(tag: string, r: Rank)
    ensures ReadTag(tag).Some? <==> exists a, b, c, d :: TagOf(tag, a, b, c, d)
    ensures ReadTag(PrintTag(r)) == Some(r)
  {
    if ReadTag(tag).Some? {
      var a, b, c, d := TagShape(tag);
    }
    if a, b, c, d :| TagOf(tag, a, b, c, d) {
      TagRead(tag, a, b, c, d);
    }
    TagRead(PrintTag(r), Digits(r.major), Digits(r.minor), Digits(r.patch), Digits(r.beta));
    DigitsRoundTrip(r.major);
    DigitsRoundTrip(r.minor);
    DigitsRoundTrip(r.patch);
    DigitsRoundTrip(r.beta);
  }

  // ---- The newest beta ----

  /** Lexicographic; positive when a is newer. */
  function CompareRank(a: Rank, b: Rank): int {
    if a.major != b.major then a.major - b.major
    else if a.minor != b.minor then a.minor - b.minor
    else if a.patch != b.patch then a.patch - b.patch
    else a.beta - b.beta
  }

  function FindDmg(assets: seq<Asset>): Option<Asset> {
    if assets == [] then None
    else if assets[0].name == DMG_ASSET_NAME && ASSET_URL_PREFIX <= assets[0].url then Some(assets[0])
    else FindDmg(assets[1..])
  }

  datatype Beta = Beta(rank: Rank, url: string)

  /** A published beta that carries the asset at a URL of our own. */
  function Eligible(r: Release): Option<Beta> {
    if r.draft || !r.prerelease then None
    else match (ReadTag(r.tag), FindDmg(r.assets))
      case (Some(rank), Some(dmg)) => Some(Beta(rank, dmg.url))
      case _ => None
  }

  function Better(best: Option<Beta>, next: Option<Beta>): Option<Beta> {
    if next == None then best
    else if best == None || CompareRank(next.value.rank, best.value.rank) > 0 then next
    else best
  }

  /** The loop over a listing, given what each release offers. */
  function Best(offers: seq<Option<Beta>>): Option<Beta> {
    if offers == [] then None else Better(Best(offers[..|offers| - 1]), offers[|offers| - 1])
  }

  function Offers(releases: seq<Release>): (r: seq<Option<Beta>>)
    ensures |r| == |releases|
    ensures forall i :: 0 <= i < |r| ==> r[i] == Eligible(releases[i])
  {
    seq(|releases|, i requires 0 <= i < |releases| => Eligible(releases[i]))
  }

  /** The URL served for a payload; None when it does not match the schema or holds no beta. */
  function PickedUrl(payload: Option<seq<Release>>): Option<string> {
    if payload == None then None
    else match Best(Offers(payload.value))
      case None => None
      case Some(b) => Some(b.url)
  }

  method PickLatestBetaDmgUrl(payload: Option<seq<Release>>) returns (url: Option<string>)
    ensures url == PickedUrl(payload)
    ensures url.Some? ==> payload.Some? && exists k: nat, rank :: NewestAt(Publishes, payload.value, k, rank, url.value)
  {
    if payload == None {
      return None;
    }
    forall u | PickedUrl(payload) == Some(u) ensures exists k: nat, rank :: NewestAt(Publishes, payload.value, k, rank, u) {
      PickedExact(payload.value, u);
    }
    var best := PickBest(payload.value);
    url := if best == None then None else Some(best.value.url);
  }

  method PickBest(releases: seq<Release>) returns (best: Option<Beta>)
    ensures best == Best(Offers(releases))
  {
    best := None;
    ghost var offers := Offers(releases);
    for i := 0 to |releases|
      invariant best == Best(offers[..i])
    {
      BestStep(offers, i);
      var next := Eligible(releases[i]);
      if next == None {
        continue;
      }
      if best == None || CompareRank(next.value.rank, best.value.rank) > 0 {
        best := next;
      }
    }
    assert offers[..|offers|] == offers;
  }

  lemma {:induction false} BestStep(offers: seq<Option<Beta>>, i: nat)
    requires i < |offers|
    ensures Best(offers[..i + 1]) == Better(Best(offers[..i]), offers[i])
  {
    assert offers[..i + 1][..i] == offers[..i];
  }

  /** best is on offer, and nothing on offer ranks above it. */
  ghost predicate IsNewest(best: Beta, offers: seq<Option<Beta>>) {
    Some(best) in offers && forall b: Beta :: Some(b) in offers ==> CompareRank(b.rank, best.rank) <= 0
  }

  lemma {:induction false} BestIsNewest(offers: seq<Option<Beta>>)
    ensures Best(offers) == None <==> forall b: Beta :: Some(b) !in offers
    ensures Best(offers).Some? ==> IsNewest(Best(offers).value, offers)
  {
    if offers != [] {
      var front, last := offers[..|offers| - 1], offers[|offers| - 1];
      BestIsNewest(front);
      assert offers == front + [last];
      if last.Some? {
        assert Some(last.value) in offers;
      }
    }
  }

  /** No two betas on offer share a rank. */
  ghost predicate DistinctRanks(offers: seq<Option<Beta>>) {
    forall a: Beta, b: Beta :: Some(a) in offers && Some(b) in offers && a.rank == b.rank ==> a == b
  }

  /** All offers of the highest rank share one URL. */
  ghost predicate OneNewestUrl(offers: seq<Option<Beta>>) {
    forall a, b :: IsNewest(a, offers) && IsNewest(b, offers) ==> a.url == b.url
  }

  lemma {:induction false} DistinctRanksSuffice(offers: seq<Option<Beta>>)
    requires DistinctRanks(offers)
    ensures OneNewestUrl(offers)
  {
    forall a, b | IsNewest(a, offers) && IsNewest(b, offers) ensures a == b {
      RanksAntisymmetric(a.rank, b.rank);
    }
  }

  ghost predicate OrderFree(releases: seq<Release>) {
    forall other :: multiset(other) == multiset(releases) ==> PickedUrl(Some(other)) == PickedUrl(Some(releases))
  }

  /** The order of a listing does not matter exactly when its newest betas share one URL. */
  lemma {:induction false} OrderIrrelevant(releases: seq<Release>)
    ensures OrderFree(releases) <==> OneNewestUrl(Offers(releases))
  {
    if OneNewestUrl(Offers(releases)) {
      forall other | multiset(other) == multiset(releases) ensures PickedUrl(Some(other)) == PickedUrl(Some(releases)) {
        SameOffers(releases, other);
        SameOffers(other, releases);
        SameUrl(Offers(releases), Offers(other));
      }
    }
    if OrderFree(releases) {
      forall a, b | IsNewest(a, Offers(releases)) && IsNewest(b, Offers(releases)) ensures a.url == b.url {
        var _ := MovedToFront(releases, a);
        var _ := MovedToFront(releases, b);
      }
    }
  }

  /** Some order of the listing serves any one of its newest betas. */
  lemma {:induction false} MovedToFront(releases: seq<Release>, best: Beta) returns (other: seq<Release>)
    requires IsNewest(best, Offers(releases))
    ensures multiset(other) == multiset(releases) && PickedUrl(Some(other)) == Some(best.url)
  {
    var offers := Offers(releases);
    var i :| 0 <= i < |offers| && offers[i] == Some(best);
    other := ToFront(releases, i);
    SameOffers(other, releases);
    ServesFirst(other, Offers(other), offers, best);
  }

  lemma {:induction false} ServesFirst(releases: seq<Release>, offers: seq<Option<Beta>>, all: seq<Option<Beta>>, best: Beta)
    requires offers == Offers(releases) && offers != [] && offers[0] == Some(best)
    requires IsNewest(best, all) && forall o :: o in offers ==> o in all
    ensures PickedUrl(Some(releases)) == Some(best.url)
  {
    FirstNewestWins(offers, best);
  }

  lemma {:induction false} ToFront<T>(s: seq<T>, i: nat) returns (r: seq<T>)
    requires i < |s|
    ensures multiset(r) == multiset(s) && r != [] && r[0] == s[i]
  {
    r := [s[i]] + (s[..i] + s[i + 1..]);
    assert s == s[..i] + ([s[i]] + s[i + 1..]);
  }

  lemma {:induction false} FirstNewestWins(offers: seq<Option<Beta>>, best: Beta)
    requires offers != [] && offers[0] == Some(best)
    requires forall b: Beta :: Some(b) in offers ==> CompareRank(b.rank, best.rank) <= 0
    ensures Best(offers) == Some(best)
  {
    var front, last := offers[..|offers| - 1], offers[|offers| - 1];
    if front == [] {
      assert Best(front) == None;
    } else {
      FirstNewestWins(front, best);
      assert last.Some? ==> Some(last.value) in offers;
    }
  }

  lemma {:induction false} SameOffers(a: seq<Release>, b: seq<Release>)
    requires multiset(a) == multiset(b)
    ensures forall o :: o in Offers(a) ==> o in Offers(b)
  {
    forall o | o in Offers(a) ensures o in Offers(b) {
      var i :| 0 <= i < |a| && Offers(a)[i] == o;
      assert a[i] in multiset(b);
      var j :| 0 <= j < |b| && b[j] == a[i];
      assert Offers(b)[j] == o;
    }
  }

  lemma {:induction false} SameUrl(a: seq<Option<Beta>>, b: seq<Option<Beta>>)
    requires (forall o :: o in a <==> o in b) && OneNewestUrl(a)
    ensures Best(a).Some? <==> Best(b).Some?
    ensures Best(a).Some? ==> Best(a).value.url == Best(b).value.url
  {
    BestIsNewest(a);
    BestIsNewest(b);
    if Best(a).Some? {
      assert Some(Best(a).value) in b;
      assert IsNewest(Best(b).value, a);
    }
  }

  lemma {:induction false} RanksAntisymmetric(a: Rank, b: Rank)
    requires CompareRank(a, b) <= 0 && CompareRank(b, a) <= 0
    ensures a == b
  {
  }

  // ---- What is served, in terms of the listing ----

  predicate IsDmg(asset: Asset) {
    asset.name == DMG_ASSET_NAME && ASSET_URL_PREFIX <= asset.url
  }

  /** The first asset of our name and at a URL of our own. */
  ghost predicate FirstDmg(assets: seq<Asset>, i: nat) {
    i < |assets| && IsDmg(assets[i]) && forall j :: 0 <= j < i ==> !IsDmg(assets[j])
  }

  ghost predicate DmgAt(assets: seq<Asset>, url: string) {
    exists i: nat :: FirstDmg(assets, i) && assets[i].url == url
  }

  ghost predicate TagHasRank(tag: string, rank: Rank) {
    exists a, b, c, d ::
      TagOf(tag, a, b, c, d) && rank == Rank(DigitsValue(a), DigitsValue(b), DigitsValue(c), DigitsValue(d))
  }

  /** A published beta of this rank whose first such asset is at the URL. */
  ghost predicate Publishes(r: Release, rank: Rank, url: string) {
    !r.draft && r.prerelease && TagHasRank(r.tag, rank) && DmgAt(r.assets, url)
  }

  predicate Newer(a: Rank, b: Rank) {
    || a.major > b.major
    || (a.major == b.major && a.minor > b.minor)
    || (a.major == b.major && a.minor == b.minor && a.patch > b.patch)
    || (a.major == b.major && a.minor == b.minor && a.patch == b.patch && a.beta > b.beta)
  }

  /** No published beta of the listing is newer than the k-th, and none before it is as new. */
  ghost predicate NewestAt(publishes: (Release, Rank, string) -> bool, releases: seq<Release>, k: nat, rank: Rank, url: string) {
    && k < |releases| && publishes(releases[k], rank, url)
    && (forall j: nat, r, u :: j < |releases| && publishes(releases[j], r, u) ==> !Newer(r, rank) && (j < k ==> r != rank))
  }

  ghost predicate NothingIn(publishes: (Release, Rank, string) -> bool, releases: seq<Release>) {
    forall r, rank, url :: r in releases ==> !publishes(r, rank, url)
  }

  lemma {:induction false} FoundDmg(assets: seq<Asset>)
    ensures if FindDmg(assets) == None then forall asset :: asset in assets ==> !IsDmg(asset)
            else exists i: nat :: FirstDmg(assets, i) && assets[i] == FindDmg(assets).value
  {
    if assets != [] && !IsDmg(assets[0]) {
      FoundDmg(assets[1..]);
      if FindDmg(assets).Some? {
        var i: nat :| FirstDmg(assets[1..], i) && assets[1..][i] == FindDmg(assets).value;
        assert FirstDmg(assets, i + 1);
      }
    } else if assets != [] {
      assert FirstDmg(assets, 0);
    }
  }

  lemma {:induction false} DmgExact(assets: seq<Asset>, url: string)
    ensures DmgAt(assets, url) <==> FindDmg(assets).Some? && FindDmg(assets).value.url == url
  {
    FoundDmg(assets);
    forall i: nat, j: nat | FirstDmg(assets, i) && FirstDmg(assets, j) ensures i == j {
    }
    if DmgAt(assets, url) {
      var i: nat :| FirstDmg(assets, i) && assets[i].url == url;
      assert assets[i] in assets;
    }
  }

  lemma {:induction false} TagRankExact(tag: string, rank: Rank)
    ensures TagHasRank(tag, rank) <==> ReadTag(tag) == Some(rank)
  {
    if ReadTag(tag) == Some(rank) {
      var a, b, c, d := TagShape(tag);
      TagRead(tag, a, b, c, d);
    }
    if TagHasRank(tag, rank) {
      var a, b, c, d :| TagOf(tag, a, b, c, d) && rank == Rank(DigitsValue(a), DigitsValue(b), DigitsValue(c), DigitsValue(d));
      TagRead(tag, a, b, c, d);
    }
  }

  lemma {:induction false} EligibleExact(r: Release, rank: Rank, url: string)
    ensures Eligible(r) == Some(Beta(rank, url)) <==> Publishes(r, rank, url)
  {
    TagRankExact(r.tag, rank);
    DmgExact(r.assets, url);
  }

  /** The best offer is the first of its rank. */
  ghost predicate FirstNewest(offers: seq<Option<Beta>>, k: nat) {
    && k < |offers| && offers[k].Some?
    && (forall j: nat :: j < |offers| && offers[j].Some? ==> !Newer(offers[j].value.rank, offers[k].value.rank))
    && (forall j: nat :: j < k && offers[j].Some? ==> offers[j].value.rank != offers[k].value.rank)
  }

  lemma {:induction false} NewerCompares(a: Rank, b: Rank)
    ensures Newer(a, b) <==> CompareRank(a, b) > 0
    ensures Newer(a, b) || Newer(b, a) || a == b
  {
  }

  lemma {:induction false} NewerTransitive(a: Rank, b: Rank, c: Rank)
    requires !Newer(a, b) && (Newer(c, b) || c == b)
    ensures !Newer(a, c)
    ensures Newer(c, b) ==> a != c
  {
  }

  lemma {:induction false} NewestKept(front: seq<Option<Beta>>, last: Option<Beta>, k: nat)
    requires FirstNewest(front, k) && (last.Some? ==> !Newer(last.value.rank, front[k].value.rank))
    ensures FirstNewest(front + [last], k)
  {
  }

  lemma {:induction false} NewestReplaced(front: seq<Option<Beta>>, last: Beta, k: nat)
    requires FirstNewest(front, k) && Newer(last.rank, front[k].value.rank)
    ensures FirstNewest(front + [Some(last)], |front|)
  {
    forall j: nat | j < |front| && front[j].Some?
      ensures !Newer(front[j].value.rank, last.rank) && front[j].value.rank != last.rank
    {
      NewerTransitive(front[j].value.rank, front[k].value.rank, last.rank);
    }
  }

  lemma {:induction false} BestAt(offers: seq<Option<Beta>>)
    ensures Best(offers).Some? ==> exists k: nat :: FirstNewest(offers, k) && offers[k] == Best(offers)
    ensures Best(offers) == None ==> forall j :: 0 <= j < |offers| ==> offers[j] == None
  {
    if offers != [] {
      var n := |offers| - 1;
      var front, last := offers[..n], offers[n];
      assert offers == front + [last];
      BestAt(front);
      if Best(front).Some? {
        var k: nat :| FirstNewest(front, k) && front[k] == Best(front);
        if last.Some? {
          NewerCompares(last.value.rank, front[k].value.rank);
        }
        if last.Some? && Newer(last.value.rank, front[k].value.rank) {
          NewestReplaced(front, last.value, k);
        } else {
          NewestKept(front, last, k);
        }
      } else if last.Some? {
        assert FirstNewest(offers, n);
      }
    }
  }

  lemma {:induction false} FirstNewestUnique(offers: seq<Option<Beta>>, j: nat, k: nat)
    requires FirstNewest(offers, j) && FirstNewest(offers, k)
    ensures j == k
  {
    NewerCompares(offers[j].value.rank, offers[k].value.rank);
  }

  /** Each release offers what it publishes. */
  ghost predicate OffersExact(publishes: (Release, Rank, string) -> bool, releases: seq<Release>, offers: seq<Option<Beta>>) {
    && |offers| == |releases|
    && forall j: nat, r, u :: j < |releases| ==> (publishes(releases[j], r, u) <==> offers[j] == Some(Beta(r, u)))
  }

  lemma {:induction false} NewestAtExact(
    publishes: (Release, Rank, string) -> bool, releases: seq<Release>, offers: seq<Option<Beta>>, k: nat, rank: Rank, url: string)
    requires OffersExact(publishes, releases, offers)
    ensures NewestAt(publishes, releases, k, rank, url) <==> FirstNewest(offers, k) && offers[k] == Some(Beta(rank, url))
  {
    if FirstNewest(offers, k) && offers[k] == Some(Beta(rank, url)) {
      assert publishes(releases[k], rank, url);
      forall j: nat, r, u | j < |releases| && publishes(releases[j], r, u) ensures !Newer(r, rank) && (j < k ==> r != rank) {
        assert offers[j] == Some(Beta(r, u));
      }
    }
    if NewestAt(publishes, releases, k, rank, url) {
      assert offers[k] == Some(Beta(rank, url));
      forall j: nat | j < |offers| && offers[j].Some?
        ensures !Newer(offers[j].value.rank, rank) && (j < k ==> offers[j].value.rank != rank)
      {
        assert publishes(releases[j], offers[j].value.rank, offers[j].value.url);
      }
    }
  }

  lemma {:induction false} ReleasesExact(publishes: (Release, Rank, string) -> bool, releases: seq<Release>)
    requires forall r, rank, url :: publishes(r, rank, url) <==> Publishes(r, rank, url)
    ensures OffersExact(publishes, releases, Offers(releases))
  {
    forall j: nat, r, u | j < |releases| ensures publishes(releases[j], r, u) <==> Offers(releases)[j] == Some(Beta(r, u)) {
      EligibleExact(releases[j], r, u);
    }
  }

  lemma {:induction false} SomeNewest(
    publishes: (Release, Rank, string) -> bool, releases: seq<Release>, offers: seq<Option<Beta>>, url: string)
    requires OffersExact(publishes, releases, offers)
    ensures Best(offers).Some? && Best(offers).value.url == url <==> exists k: nat, rank :: NewestAt(publishes, releases, k, rank, url)
  {
    BestAt(offers);
    if Best(offers).Some? && Best(offers).value.url == url {
      var k: nat :| FirstNewest(offers, k) && offers[k] == Best(offers);
      NewestAtExact(publishes, releases, offers, k, offers[k].value.rank, url);
    }
    if k: nat, rank :| NewestAt(publishes, releases, k, rank, url) {
      NewestAtExact(publishes, releases, offers, k, rank, url);
      var best: nat :| FirstNewest(offers, best) && offers[best] == Best(offers);
      FirstNewestUnique(offers, k, best);
    }
  }

  lemma {:induction false} NonePublished(
    publishes: (Release, Rank, string) -> bool, releases: seq<Release>, offers: seq<Option<Beta>>)
    requires OffersExact(publishes, releases, offers)
    ensures Best(offers) == None <==> NothingIn(publishes, releases)
  {
    BestAt(offers);
    if Best(offers).Some? {
      var k: nat :| FirstNewest(offers, k) && offers[k] == Best(offers);
      assert publishes(releases[k], offers[k].value.rank, offers[k].value.url);
      assert releases[k] in releases;
    } else {
      forall j: nat, r, u | j < |releases| ensures !publishes(releases[j], r, u) {
        assert publishes(releases[j], r, u) <==> offers[j] == Some(Beta(r, u));
      }
    }
  }

  /** The URL served is exactly that of the first release among the newest published betas. */
  lemma {:induction false} PickedExact(releases: seq<Release>, url: string)
    ensures PickedUrl(Some(releases)) == Some(url) <==> exists k: nat, rank :: NewestAt(Publishes, releases, k, rank, url)
    ensures PickedUrl(Some(releases)) == None <==> NothingIn(Publishes, releases)
    ensures PickedUrl(None) == None
  {
    ReleasesExact(Publishes, releases);
    SomeNewest(Publishes, releases, Offers(releases), url);
    NonePublished(Publishes, releases, Offers(releases));
  }
}
