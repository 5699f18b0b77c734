/** The community resolver's decision rule (services/community_resolver.py).
    Text fields are taken already normalised; confidences are hundredths. */
module CommunityResolver {
  import opened Text
  import opened Orders
  import opened Sequences

  datatype GeoPoint = GeoPoint(latitude: real, longitude: real)

  datatype Community = Community(
    communityId: string, cityCode: string, canonicalName: string, district: Option<string>,
    subdistrict: Option<string>, address: Option<string>, location: Option<GeoPoint>)

  datatype Request = Request(
    query: string, cityCode: string, district: Option<string>, subdistrict: Option<string>,
    address: Option<string>, location: Option<GeoPoint>)

  /** Whether two points lie within the confirmation radius of each other. */
  type Near = (GeoPoint, GeoPoint) -> bool

  datatype Reason =
    | ExactNativeId | ExactName | DistrictMatch | DistrictMismatch | SubdistrictMatch | SubdistrictMismatch
    | AddressMatch | CoordinateMatch | CoordinateMismatch

  datatype Candidate = Candidate(community: Community, confidence: int, reasons: seq<Reason>)

  datatype Warning = AliasInOtherCity | NoCandidate | SeveralRemain

  datatype Status = RESOLVED | AMBIGUOUS | NOT_FOUND

  datatype Resolution = Resolution(
    status: Status, community: Option<Community>, confidence: int, candidates: seq<Candidate>, warnings: seq<Warning>)

  // ---- Scoring one candidate ----

  datatype Verdict = Agrees | Contradicts | Silent

  /** What comparing one field says; a field missing on either side says nothing. */
  function CompareText(asked: Option<string>, held: Option<string>): Verdict {
    if asked.None? || held.None? then Silent
    else if asked.value == held.value then Agrees else Contradicts
  }

  function CompareLocation(asked: Option<GeoPoint>, held: Option<GeoPoint>, near: Near): Verdict {
    if asked.None? || held.None? then Silent
    else if near(asked.value, held.value) then Agrees else Contradicts
  }

  function Weigh(v: Verdict, agree: int, contradict: int): int {
    match v
    case Agrees => agree
    case Contradicts => contradict
    case Silent => 0
  }

  function Clamp(score: int): int {
    if score < 0 then 0 else if score > 100 then 100 else score
  }

  function Confidence(c: Community, r: Request, near: Near): int {
    Clamp(70 + Weigh(CompareText(r.district, c.district), 20, -20)
             + Weigh(CompareText(r.subdistrict, c.subdistrict), 8, -10)
             + Weigh(CompareText(r.address, c.address), 15, 0)
             + Weigh(CompareLocation(r.location, c.location, near), 15, -25))
  }

  function Explain(v: Verdict, agree: Reason, contradict: seq<Reason>): seq<Reason> {
    match v
    case Agrees => [agree]
    case Contradicts => contradict
    case Silent => []
  }

  function Scored(c: Community, r: Request, near: Near): Candidate {
    Candidate(c, Confidence(c, r, near),
      [ExactName]
      + Explain(CompareText(r.district, c.district), DistrictMatch, [DistrictMismatch])
      + Explain(CompareText(r.subdistrict, c.subdistrict), SubdistrictMatch, [SubdistrictMismatch])
      + Explain(CompareText(r.address, c.address), AddressMatch, [])
      + Explain(CompareLocation(r.location, c.location, near), CoordinateMatch, [CoordinateMismatch]))
  }

  /** `_score`: the score and the reasons, built up field by field. */
  method Score(c: Community, r: Request, near: Near) returns (candidate: Candidate)
    ensures candidate == Scored(c, r, near)
  {
    var score := 70;
    var reasons := [ExactName];
    if r.district.Some? && c.district.Some? {
      if r.district.value == c.district.value {
        score := score + 20;
        reasons := reasons + [DistrictMatch];
      } else {
        score := score - 20;
        reasons := reasons + [DistrictMismatch];
      }
    }
    assert reasons == [ExactName] + Explain(CompareText(r.district, c.district), DistrictMatch, [DistrictMismatch]);
    ghost var soFar := reasons;
    if r.subdistrict.Some? && c.subdistrict.Some? {
      if r.subdistrict.value == c.subdistrict.value {
        score := score + 8;
        reasons := reasons + [SubdistrictMatch];
      } else {
        score := score - 10;
        reasons := reasons + [SubdistrictMismatch];
      }
    }
    assert reasons == soFar + Explain(CompareText(r.subdistrict, c.subdistrict), SubdistrictMatch, [SubdistrictMismatch]);
    soFar := reasons;
    if r.address.Some? && c.address.Some? {
      if r.address.value == c.address.value {
        score := score + 15;
        reasons := reasons + [AddressMatch];
      }
    }
    assert reasons == soFar + Explain(CompareText(r.address, c.address), AddressMatch, []);
    soFar := reasons;
    if r.location.Some? && c.location.Some? {
      if near(r.location.value, c.location.value) {
        score := score + 15;
        reasons := reasons + [CoordinateMatch];
      } else {
        score := score - 25;
        reasons := reasons + [CoordinateMismatch];
      }
    }
    assert reasons == soFar + Explain(CompareLocation(r.location, c.location, near), CoordinateMatch, [CoordinateMismatch]);
    var capped := if score > 100 then 100 else score;
    candidate := Candidate(c, if capped < 0 then 0 else capped, reasons);
  }

  // ---- Deciding between candidates ----

  const THRESHOLD := 90
  const MARGIN := 15

  /** sort key (-confidence, community_id) */
  predicate Ranks(a: Candidate, b: Candidate) {
    || a.confidence > b.confidence
    || (a.confidence == b.confidence && StrLe(a.community.communityId, b.community.communityId))
  }

  function ScoreAll(cs: seq<Community>, r: Request, near: Near): seq<Candidate> {
    Map((c: Community) => Scored(c, r, near), cs)
  }

  function Ranking(cs: seq<Community>, r: Request, near: Near): (s: seq<Candidate>)
    ensures |s| == |cs|
  {
    Sort(Ranks, ScoreAll(cs, r, near))
  }

  /** The decision over ranked candidates. */
  function Decide(scored: seq<Candidate>): Resolution
    requires scored != []
  {
    if |scored| == 1 then Resolution(RESOLVED, Some(scored[0].community), scored[0].confidence, scored, [])
    else if scored[0].confidence >= THRESHOLD && scored[0].confidence - scored[1].confidence >= MARGIN then
      Resolution(RESOLVED, Some(scored[0].community), scored[0].confidence, scored, [])
    else Resolution(AMBIGUOUS, None, scored[0].confidence, scored, [SeveralRemain])
  }

  /** The decision over same-name candidates. */
  function ResolveByName(cs: seq<Community>, r: Request, near: Near): Resolution {
    if cs == [] then Resolution(NOT_FOUND, None, 0, [], [NoCandidate]) else Decide(Ranking(cs, r, near))
  }

  /** `aliased` is the community an exact provider alias names, `cs` the same-name communities of the city. */
  function ResolveWith(aliased: Option<Community>, cs: seq<Community>, r: Request, near: Near): Resolution {
    if aliased.None? then ResolveByName(cs, r, near)
    else if aliased.value.cityCode != r.cityCode then Resolution(NOT_FOUND, None, 0, [], [AliasInOtherCity])
    else Resolution(RESOLVED, aliased, 100, [Candidate(aliased.value, 100, [ExactNativeId])], [])
  }

  // ---- What a candidate's score says ----

  function Points(reason: Reason): int {
    match reason
    case ExactNativeId => 100
    case ExactName => 70
    case DistrictMatch => 20
    case DistrictMismatch => -20
    case SubdistrictMatch => 8
    case SubdistrictMismatch => -10
    case AddressMatch => 15
    case CoordinateMatch => 15
    case CoordinateMismatch => -25
  }

  function TotalPoints(reasons: seq<Reason>): int {
    if reasons == [] then 0 else Points(reasons[0]) + TotalPoints(reasons[1..])
  }

  lemma {:induction false} TotalAppend(a: seq<Reason>, b: seq<Reason>)
    ensures TotalPoints(a + b) == TotalPoints(a) + TotalPoints(b)
  {
    if a == [] {
      Empty(b);
    } else {
      assert (a + b)[1..] == a[1..] + b;
      TotalAppend(a[1..], b);
    }
  }

  lemma OnePoint(reason: Reason)
    ensures TotalPoints([reason]) == Points(reason)
  {
  }

  lemma {:induction false} WeighedBy(v: Verdict, agree: Reason, contradict: seq<Reason>, weight: int, penalty: int)
    requires weight == Points(agree) && penalty == TotalPoints(contradict)
    ensures TotalPoints(Explain(v, agree, contradict)) == Weigh(v, weight, penalty)
  {
  }

  /** The reasons account for the confidence: their points add up to it, cut off below nothing and above certainty. */
  lemma ReasonsExplainConfidence(c: Community, r: Request, near: Near)
    ensures var scored := Scored(c, r, near);
            var total := TotalPoints(scored.reasons);
            && scored.community == c
            && scored.confidence == (if total < 0 then 0 else if total > 100 then 100 else total)
  {
    var district := Explain(CompareText(r.district, c.district), DistrictMatch, [DistrictMismatch]);
    var subdistrict := Explain(CompareText(r.subdistrict, c.subdistrict), SubdistrictMatch, [SubdistrictMismatch]);
    var address := Explain(CompareText(r.address, c.address), AddressMatch, []);
    var position := Explain(CompareLocation(r.location, c.location, near), CoordinateMatch, [CoordinateMismatch]);
    OnePoint(DistrictMismatch);
    OnePoint(SubdistrictMismatch);
    OnePoint(CoordinateMismatch);
    OnePoint(ExactName);
    WeighedBy(CompareText(r.district, c.district), DistrictMatch, [DistrictMismatch], 20, -20);
    WeighedBy(CompareText(r.subdistrict, c.subdistrict), SubdistrictMatch, [SubdistrictMismatch], 8, -10);
    WeighedBy(CompareText(r.address, c.address), AddressMatch, [], 15, 0);
    WeighedBy(CompareLocation(r.location, c.location, near), CoordinateMatch, [CoordinateMismatch], 15, -25);
    TotalAppend([ExactName], district);
    TotalAppend([ExactName] + district, subdistrict);
    TotalAppend([ExactName] + district + subdistrict, address);
    TotalAppend([ExactName] + district + subdistrict + address, position);
  }

  /** Which reasons are given: the name always, and for each further field present on both sides how the two compare;
      a differing address is no reason. */
  lemma ReasonsExactly(c: Community, r: Request, near: Near)
    ensures var reasons := Scored(c, r, near).reasons;
            && ExactName in reasons && ExactNativeId !in reasons
            && (DistrictMatch in reasons <==> r.district.Some? && c.district == r.district)
            && (DistrictMismatch in reasons <==> r.district.Some? && c.district.Some? && c.district != r.district)
            && (SubdistrictMatch in reasons <==> r.subdistrict.Some? && c.subdistrict == r.subdistrict)
            && (SubdistrictMismatch in reasons <==>
                  r.subdistrict.Some? && c.subdistrict.Some? && c.subdistrict != r.subdistrict)
            && (AddressMatch in reasons <==> r.address.Some? && c.address == r.address)
            && (CoordinateMatch in reasons <==>
                  r.location.Some? && c.location.Some? && near(r.location.value, c.location.value))
            && (CoordinateMismatch in reasons <==>
                  r.location.Some? && c.location.Some? && !near(r.location.value, c.location.value))
  {
    ReasonsInParts([ExactName], Explain(CompareText(r.district, c.district), DistrictMatch, [DistrictMismatch]),
      Explain(CompareText(r.subdistrict, c.subdistrict), SubdistrictMatch, [SubdistrictMismatch]),
      Explain(CompareText(r.address, c.address), AddressMatch, []),
      Explain(CompareLocation(r.location, c.location, near), CoordinateMatch, [CoordinateMismatch]));
  }

  lemma ReasonsInParts(name: seq<Reason>, a: seq<Reason>, b: seq<Reason>, c: seq<Reason>, d: seq<Reason>)
    ensures forall x :: x in name + a + b + c + d <==> x in name || x in a || x in b || x in c || x in d
  {
  }

  /** In field order, each at most once. */
  lemma ReasonsOrdered(c: Community, r: Request, near: Near)
    ensures var reasons := Scored(c, r, near).reasons;
            forall i, j :: 0 <= i < j < |reasons| ==> Field(reasons[i]) < Field(reasons[j])
  {
  }

  function Field(reason: Reason): nat {
    match reason
    case ExactNativeId => 0
    case ExactName => 0
    case DistrictMatch => 1
    case DistrictMismatch => 1
    case SubdistrictMatch => 2
    case SubdistrictMismatch => 2
    case AddressMatch => 3
    case CoordinateMatch => 4
    case CoordinateMismatch => 4
  }

  // ---- What is decided ----

  /** Highest confidence first, ties by identifier. */
  ghost predicate BestFirst(s: seq<Candidate>) {
    forall i, j :: 0 <= i < j < |s| ==>
      || s[i].confidence > s[j].confidence
      || (s[i].confidence == s[j].confidence && StrLe(s[i].community.communityId, s[j].community.communityId))
  }

  function CommunityOf(candidate: Candidate): Community {
    candidate.community
  }

  lemma RankedCommunities(cs: seq<Community>, r: Request, near: Near)
    ensures multiset(Map(CommunityOf, Ranking(cs, r, near))) == multiset(cs)
  {
    MapPermutation(CommunityOf, Ranking(cs, r, near), ScoreAll(cs, r, near));
    assert Map(CommunityOf, ScoreAll(cs, r, near)) == cs;
  }

  lemma RankedBestFirst(cs: seq<Community>, r: Request, near: Near)
    ensures BestFirst(Ranking(cs, r, near)) && AllScored(Ranking(cs, r, near), r, near)
  {
    RankingFacts(cs, r, near);
  }

  ghost predicate AllScored(s: seq<Candidate>, r: Request, near: Near) {
    forall i :: 0 <= i < |s| ==> s[i] == Scored(s[i].community, r, near)
  }

  /** What the caller is told when no alias is known, from the ranked candidates. */
  ghost predicate Decision(resolution: Resolution, cs: seq<Community>) {
    var s := resolution.candidates;
    if |cs| == 0 then
      resolution.status == NOT_FOUND && resolution.community.None? && resolution.confidence == 0
      && resolution.warnings == [NoCandidate]
    else if |s| == 1 || (|s| >= 2 && s[0].confidence >= 90 && s[0].confidence - s[1].confidence >= 15) then
      resolution.status == RESOLVED && resolution.community == Some(s[0].community)
      && resolution.confidence == s[0].confidence && resolution.warnings == []
    else
      resolution.status == AMBIGUOUS && resolution.community.None? && |s| >= 2
      && resolution.confidence == s[0].confidence && resolution.warnings == [SeveralRemain]
  }

  /** With no alias known: every same-name community is ranked, each with its score, and the ranking decides. */
  ghost predicate DecidedByName(resolution: Resolution, cs: seq<Community>, r: Request, near: Near) {
    && Decision(resolution, cs) && BestFirst(resolution.candidates)
    && multiset(Map(CommunityOf, resolution.candidates)) == multiset(cs)
    && AllScored(resolution.candidates, r, near)
  }

  /** A known alias decides alone: its community if that is in the asked city, nothing otherwise. */
  ghost predicate DecidedByAlias(resolution: Resolution, aliased: Community, r: Request) {
    if aliased.cityCode == r.cityCode then
      resolution == Resolution(RESOLVED, Some(aliased), 100, [Candidate(aliased, 100, [ExactNativeId])], [])
    else resolution == Resolution(NOT_FOUND, None, 0, [], [AliasInOtherCity])
  }

  lemma NameDecision(cs: seq<Community>, r: Request, near: Near)
    ensures DecidedByName(ResolveByName(cs, r, near), cs, r, near)
  {
    RankedCommunities(cs, r, near);
    RankedBestFirst(cs, r, near);
    if cs == [] {
      assert Ranking(cs, r, near) == [];
    }
  }

  /** No community of another city is ever resolved, whether by name or by alias. */
  lemma CityRespected(aliased: Option<Community>, cs: seq<Community>, r: Request, near: Near)
    requires forall c :: c in cs ==> c.cityCode == r.cityCode
    ensures var resolution := ResolveWith(aliased, cs, r, near);
            && (resolution.community.Some? ==> resolution.community.value.cityCode == r.cityCode)
            && forall x :: x in resolution.candidates ==> x.community.cityCode == r.cityCode
  {
    RankingFacts(cs, r, near);
    var s := Ranking(cs, r, near);
    assert s != [] ==> s[0] in s;
  }

  method ScoreCandidates(cs: seq<Community>, r: Request, near: Near) returns (scored: seq<Candidate>)
    ensures scored == ScoreAll(cs, r, near)
  {
    scored := [];
    ghost var all := ScoreAll(cs, r, near);
    for i := 0 to |cs|
      invariant scored == all[..i]
    {
      var candidate := Score(cs[i], r, near);
      scored := scored + [candidate];
    }
  }

  method Resolve(aliased: Option<Community>, cs: seq<Community>, r: Request, near: Near)
    returns (resolution: Resolution)
    ensures resolution == ResolveWith(aliased, cs, r, near)
    ensures aliased.Some? ==> DecidedByAlias(resolution, aliased.value, r)
    ensures aliased.None? ==> DecidedByName(resolution, cs, r, near)
  {
    NameDecision(cs, r, near);
    if aliased.Some? {
      if aliased.value.cityCode != r.cityCode {
        return Resolution(NOT_FOUND, None, 0, [], [AliasInOtherCity]);
      }
      return Resolution(RESOLVED, aliased, 100, [Candidate(aliased.value, 100, [ExactNativeId])], []);
    }
    if cs == [] {
      return Resolution(NOT_FOUND, None, 0, [], [NoCandidate]);
    }
    var scored := ScoreCandidates(cs, r, near);
    scored := Sort(Ranks, scored);
    if |scored| == 1 {
      return Resolution(RESOLVED, Some(scored[0].community), scored[0].confidence, scored, []);
    }
    var best, second := scored[0], scored[1];
    if best.confidence >= THRESHOLD && best.confidence - second.confidence >= MARGIN {
      return Resolution(RESOLVED, Some(best.community), best.confidence, scored, []);
    }
    return Resolution(AMBIGUOUS, None, best.confidence, scored, [SeveralRemain]);
  }

  // ---- What the rule guarantees ----

  /** community_id is the primary key candidates are read by. */
  ghost predicate DistinctIds(cs: seq<Community>) {
    forall i, j :: 0 <= i < j < |cs| ==> cs[i].communityId != cs[j].communityId
  }

  lemma RanksTotal()
    ensures TotalPreorder(Ranks)
  {
    forall a, b ensures Ranks(a, b) || Ranks(b, a) {
      StrLeTotal(a.community.communityId, b.community.communityId);
    }
    forall a, b, c | Ranks(a, b) && Ranks(b, c) ensures Ranks(a, c) {
      if a.confidence == c.confidence {
        StrLeTransitive(a.community.communityId, b.community.communityId, c.community.communityId);
      }
    }
  }

  /** The ranking lists every candidate's score once, best first. */
  lemma RankingFacts(cs: seq<Community>, r: Request, near: Near)
    ensures var s := Ranking(cs, r, near);
            && Sorted(Ranks, s) && multiset(s) == multiset(ScoreAll(cs, r, near))
            && (forall x :: x in s ==> x.community in cs && x == Scored(x.community, r, near))
            && (forall c :: c in cs ==> Scored(c, r, near) in s)
  {
    var s, all := Ranking(cs, r, near), ScoreAll(cs, r, near);
    RanksTotal();
    SortSorted(Ranks, all);
    SameMembers(s, all);
    forall c | c in cs ensures Scored(c, r, near) in all {
      var i :| 0 <= i < |cs| && cs[i] == c;
      assert all[i] == Scored(c, r, near);
    }
  }

  lemma DistinctScores(cs: seq<Community>, r: Request, near: Near)
    requires DistinctIds(cs)
    ensures NoTies(Ranks, ScoreAll(cs, r, near)) && Distinct(ScoreAll(cs, r, near))
  {
    var all := ScoreAll(cs, r, near);
    forall x, y | x in all && y in all && Ranks(x, y) && Ranks(y, x) ensures x == y {
      StrLeAntisymmetric(x.community.communityId, y.community.communityId);
    }
  }

  /** The resolution does not depend on the order the candidates were returned in. */
  lemma CandidateOrderIrrelevant(cs: seq<Community>, cs': seq<Community>, r: Request, near: Near)
    requires multiset(cs) == multiset(cs') && DistinctIds(cs)
    ensures ResolveByName(cs, r, near) == ResolveByName(cs', r, near)
  {
    assert |multiset(cs)| == |cs| && |multiset(cs')| == |cs'|;
    var score := (c: Community) => Scored(c, r, near);
    MapPermutation(score, cs, cs');
    RankingFacts(cs, r, near);
    RankingFacts(cs', r, near);
    DistinctScores(cs, r, near);
    var s := Ranking(cs, r, near);
    assert NoTies(Ranks, s) by { SameMembers(s, ScoreAll(cs, r, near)); }
    SortedUnique(Ranks, s, Ranking(cs', r, near));
  }

  /** Among two or more candidates, X is resolved exactly when it reaches the threshold and beats
      every other candidate, not just the second, by the margin. */
  lemma WinnerExactly(cs: seq<Community>, r: Request, near: Near, x: Community)
    requires |cs| >= 2 && DistinctIds(cs)
    ensures ResolveByName(cs, r, near).community == Some(x) <==>
            && x in cs && Confidence(x, r, near) >= 90
            && forall y :: y in cs && y != x ==> Confidence(x, r, near) - Confidence(y, r, near) >= 15
  {
    RankingFacts(cs, r, near);
    DistinctScores(cs, r, near);
    RankedDistinct(cs, r, near);
    if ResolveByName(cs, r, near).community == Some(x) {
      WinnerBeatsAll(cs, r, near);
    }
    if x in cs && Confidence(x, r, near) >= 90
       && forall y :: y in cs && y != x ==> Confidence(x, r, near) - Confidence(y, r, near) >= 15
    {
      DominantWins(cs, r, near, x);
    }
  }

  lemma RankedDistinct(cs: seq<Community>, r: Request, near: Near)
    requires DistinctIds(cs)
    ensures var s := Ranking(cs, r, near);
            forall i, j :: 0 <= i < j < |s| ==> s[i].community != s[j].community
  {
    var s := Ranking(cs, r, near);
    DistinctScores(cs, r, near);
    DistinctPermutation(s, ScoreAll(cs, r, near));
    RankingFacts(cs, r, near);
  }

  lemma WinnerBeatsAll(cs: seq<Community>, r: Request, near: Near)
    requires |cs| >= 2 && ResolveByName(cs, r, near).community.Some?
    ensures var x := ResolveByName(cs, r, near).community.value;
            && x in cs && Confidence(x, r, near) >= THRESHOLD
            && forall y :: y in cs && y != x ==> Confidence(x, r, near) - Confidence(y, r, near) >= MARGIN
  {
    RankingFacts(cs, r, near);
    var s := Ranking(cs, r, near);
    var x := s[0].community;
    forall y | y in cs && y != x ensures Confidence(x, r, near) - Confidence(y, r, near) >= MARGIN {
      var i :| 0 <= i < |s| && s[i] == Scored(y, r, near);
      assert i == 1 || Ranks(s[1], s[i]);
    }
  }

  lemma DominantWins(cs: seq<Community>, r: Request, near: Near, x: Community)
    requires |cs| >= 2 && DistinctIds(cs) && x in cs && Confidence(x, r, near) >= THRESHOLD
    requires forall y :: y in cs && y != x ==> Confidence(x, r, near) - Confidence(y, r, near) >= MARGIN
    ensures ResolveByName(cs, r, near).community == Some(x)
  {
    RankingFacts(cs, r, near);
    RankedDistinct(cs, r, near);
    var s := Ranking(cs, r, near);
    var i :| 0 <= i < |s| && s[i] == Scored(x, r, near);
    assert s[0] in s && s[0].community in cs;
    assert forall k :: 0 < k < |s| ==> Ranks(s[0], s[k]) && s[0].community != s[k].community;
    assert s[1] in s && s[1].community != x;
  }

  lemma WinnerConfident(cs: seq<Community>, r: Request, near: Near)
    requires |cs| >= 2 && ResolveByName(cs, r, near).status == RESOLVED
    ensures var x := ResolveByName(cs, r, near).community;
            x.Some? && x.value in cs && Confidence(x.value, r, near) > 100 - MARGIN
  {
    RankingFacts(cs, r, near);
    var s := Ranking(cs, r, near);
    assert s[0] in s;
  }

  /** Stability: once two or more candidates resolve to X, adding any further candidates can leave X
      resolved or make it ambiguous, never resolve to another community. */
  lemma StableUnderMoreCandidates(cs: seq<Community>, more: seq<Community>, r: Request, near: Near)
    requires |cs| >= 2 && DistinctIds(cs + more) && ResolveByName(cs, r, near).status == RESOLVED
    ensures var after := ResolveByName(cs + more, r, near);
            after.status == AMBIGUOUS || after.community == ResolveByName(cs, r, near).community
  {
    WinnerConfident(cs, r, near);
    var x := ResolveByName(cs, r, near).community.value;
    if ResolveByName(cs + more, r, near).status == RESOLVED {
      WinnerBeatsAll(cs + more, r, near);
      var y := ResolveByName(cs + more, r, near).community.value;
      assert x in cs + more;
      assert y != x ==> Confidence(y, r, near) - Confidence(x, r, near) >= MARGIN;
    }
  }

  /** Reaching the threshold, field by field: no contradiction of district or position is ever made up for. */
  lemma ThresholdExactly(c: Community, r: Request, near: Near)
    ensures var district, subdistrict := CompareText(r.district, c.district), CompareText(r.subdistrict, c.subdistrict);
            var address, position := CompareText(r.address, c.address), CompareLocation(r.location, c.location, near);
            Confidence(c, r, near) >= 90 <==>
            && district != Contradicts && position != Contradicts
            && (if district == Agrees then subdistrict != Contradicts || address == Agrees || position == Agrees
                else if address == Agrees && position == Agrees then true
                else subdistrict == Agrees && (address == Agrees || position == Agrees))
  {
  }

  /** Among two or more candidates, one whose district or position contradicts the request never wins. */
  lemma ContradictedNeverWins(cs: seq<Community>, r: Request, near: Near, x: Community)
    requires |cs| >= 2 && DistinctIds(cs)
    requires CompareText(r.district, x.district) == Contradicts
             || CompareLocation(r.location, x.location, near) == Contradicts
    ensures ResolveByName(cs, r, near).community != Some(x)
  {
    WinnerExactly(cs, r, near, x);
    ThresholdExactly(x, r, near);
  }

  // ---- A sole candidate is not checked ----

  lemma SoleCandidate(x: Community, r: Request, near: Near)
    ensures ResolveByName([x], r, near).community == Some(x)
  {
    RankingFacts([x], r, near);
    assert x in [x];
    assert Ranking([x], r, near)[0] in Ranking([x], r, near);
  }

  /** A contradicted candidate is resolved exactly when it is the only one. */
  lemma ContradictedWinsOnlyAlone(cs: seq<Community>, r: Request, near: Near, x: Community)
    requires DistinctIds(cs)
    requires CompareText(r.district, x.district) == Contradicts
             || CompareLocation(r.location, x.location, near) == Contradicts
    ensures ResolveByName(cs, r, near).community == Some(x) <==> cs == [x]
  {
    if |cs| >= 2 {
      ContradictedNeverWins(cs, r, near, x);
    } else if |cs| == 1 {
      assert cs == [cs[0]];
      SoleCandidate(cs[0], r, near);
    }
  }

  /** The highest confidence any community can reach for a request. */
  function Ceiling(r: Request): int {
    Clamp(70 + (if r.district.Some? then 20 else 0) + (if r.subdistrict.Some? then 8 else 0)
             + (if r.address.Some? then 15 else 0) + (if r.location.Some? then 15 else 0))
  }

  /** No further candidates can make another community the resolved one. */
  ghost predicate StaysResolved(x: Community, r: Request, near: Near) {
    forall more :: DistinctIds([x] + more) ==>
      var after := ResolveByName([x] + more, r, near);
      after.status == AMBIGUOUS || after.community == Some(x)
  }

  lemma ConfidenceCeiling(c: Community, r: Request, near: Near)
    ensures Confidence(c, r, near) <= Ceiling(r)
  {
  }

  lemma SoleWithMore(x: Community, more: seq<Community>, r: Request, near: Near)
    requires DistinctIds([x] + more)
    requires Ceiling(r) < THRESHOLD || Confidence(x, r, near) > Ceiling(r) - MARGIN
    ensures var after := ResolveByName([x] + more, r, near);
            after.status == AMBIGUOUS || after.community == Some(x)
  {
    var cs := [x] + more;
    if more == [] {
      assert cs == [x];
      SoleCandidate(x, r, near);
    } else if ResolveByName(cs, r, near).status == RESOLVED {
      WinnerBeatsAll(cs, r, near);
      ConfidenceCeiling(ResolveByName(cs, r, near).community.value, r, near);
      assert x in cs;
    }
  }

  lemma SoleOvertaken(x: Community, r: Request, near: Near)
    requires r.location.Some? ==> near(r.location.value, r.location.value)
    requires Ceiling(r) >= THRESHOLD && Confidence(x, r, near) <= Ceiling(r) - MARGIN
    ensures !StaysResolved(x, r, near)
  {
    var y := Community(x.communityId + "'", r.cityCode, r.query, r.district, r.subdistrict, r.address, r.location);
    assert |y.communityId| == |x.communityId| + 1;
    assert Confidence(y, r, near) == Ceiling(r);
    assert [x] + [y] == [x, y];
    DominantWins([x, y], r, near, y);
    assert DistinctIds([x] + [y]);
  }

  /** Stability fails for a sole candidate in general: it stays resolved under every addition exactly when
      the request is too vague for anyone to reach the threshold, or no newcomer could beat it by the margin. */
  lemma SoleCandidateStability(x: Community, r: Request, near: Near)
    requires r.location.Some? ==> near(r.location.value, r.location.value)
    ensures StaysResolved(x, r, near) <==> Ceiling(r) < 90 || Confidence(x, r, near) > Ceiling(r) - 15
  {
    if Ceiling(r) < 90 || Confidence(x, r, near) > Ceiling(r) - 15 {
      forall more | DistinctIds([x] + more)
        ensures var after := ResolveByName([x] + more, r, near);
                after.status == AMBIGUOUS || after.community == Some(x)
      {
        SoleWithMore(x, more, r, near);
      }
    } else {
      SoleOvertaken(x, r, near);
    }
  }

  /** A concrete case: the only candidate is resolved against the asked district, and overtaken by a second. */
  lemma SoleCandidateOvertaken()
    ensures exists x: Community, y: Community, r: Request, near: Near ::
              && CompareText(r.district, x.district) == Contradicts
              && ResolveByName([x], r, near).community == Some(x)
              && DistinctIds([x, y]) && ResolveByName([x, y], r, near).community == Some(y)
  {
    var x := Community("a", "sh", "n", Some("west"), None, None, None);
    var y := Community("b", "sh", "n", Some("east"), None, None, None);
    var r := Request("n", "sh", Some("east"), None, None, None);
    var near: Near := (p: GeoPoint, q: GeoPoint) => true;
    SoleCandidate(x, r, near);
    DominantWins([x, y], r, near, y);
  }
}
