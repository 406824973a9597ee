/** SLA policies: their validation on write, and the choice of a band by severity. */
module SlaPolicy {
  import opened Wrappers
  import opened Sorting

  // One row of a tenant's policy; both targets are in minutes.
  datatype SlaRow = SlaRow(severityMin: int, respondMinutes: int, resolveMinutes: int)

  datatype Band = Band(respondMinutes: int, resolveMinutes: int)

  const MAX_BANDS := 16

  datatype PolicyError = TooManyBands | BadBand | RepeatedFloor | LooserAtHigherSeverity

  // The field constraints and the cross-field check of one band.
  predicate BandIsValid(row: SlaRow) {
    && 0 <= row.severityMin <= 15
    && 0 < row.respondMinutes <= row.resolveMinutes
  }

  ghost predicate SortedByFloor(policy: seq<SlaRow>) {
    forall i, j | 0 <= i < j < |policy| :: policy[i].severityMin < policy[j].severityMin
  }

  ghost predicate TighterWhenHigher(policy: seq<SlaRow>) {
    forall i, j | 0 <= i < |policy| && 0 <= j < |policy| && policy[i].severityMin <= policy[j].severityMin ::
      policy[j].respondMinutes <= policy[i].respondMinutes
  }

  // What every stored policy satisfies.
  ghost predicate Accepted(policy: seq<SlaRow>) {
    && SortedByFloor(policy)
    && TighterWhenHigher(policy)
    && forall i | 0 <= i < |policy| :: BandIsValid(policy[i])
  }

  // The promise made to whoever submits bands, in whatever order they come.
  ghost predicate Acceptable(bands: seq<SlaRow>) {
    && |bands| <= 16
    && (forall i | 0 <= i < |bands| ::
          0 <= bands[i].severityMin <= 15 && 0 < bands[i].respondMinutes <= bands[i].resolveMinutes)
    && (forall i, j | 0 <= i < j < |bands| :: bands[i].severityMin != bands[j].severityMin)
    && TighterWhenHigher(bands)
  }

  function Floor(row: SlaRow): int { row.severityMin }

  lemma TightnessSurvives(a: seq<SlaRow>, b: seq<SlaRow>)
    requires multiset(a) == multiset(b) && TighterWhenHigher(a)
    ensures TighterWhenHigher(b)
  {
    Positions(a, b);
    forall i, j | 0 <= i < |b| && 0 <= j < |b| && b[i].severityMin <= b[j].severityMin
      ensures b[j].respondMinutes <= b[i].respondMinutes
    {
      assert b[i] in a && b[j] in a;
    }
  }

  /** The neighbour loop: on sorted rows, comparing neighbours decides every pair. */
  method NeighboursTighten(sorted: seq<SlaRow>) returns (ok: bool)
    requires SortedByFloor(sorted)
    ensures ok <==> TighterWhenHigher(sorted)
  {
    var i := 1;
    while i < |sorted|
      invariant 1 <= i
      invariant forall j, k | 0 <= j <= k < |sorted| && k < i :: sorted[k].respondMinutes <= sorted[j].respondMinutes
    {
      if sorted[i].respondMinutes > sorted[i - 1].respondMinutes {
        return false;
      }
      i := i + 1;
    }
    forall j, k | 0 <= j < |sorted| && 0 <= k < |sorted| && sorted[j].severityMin <= sorted[k].severityMin
      ensures sorted[k].respondMinutes <= sorted[j].respondMinutes
    {
      assert j <= k;
    }
    return true;
  }

  /** Validates one submitted policy and returns it in stored order. */
  method ValidatePolicy(bands: seq<SlaRow>) returns (r: Result<seq<SlaRow>, PolicyError>)
    ensures r.Ok? <==> Acceptable(bands)
    ensures r.Ok? ==> Accepted(r.value) && multiset(r.value) == multiset(bands)
  {
    if |bands| > MAX_BANDS { return Err(TooManyBands); }
    for i := 0 to |bands|
      invariant forall k | 0 <= k < i :: BandIsValid(bands[k])
    {
      if !BandIsValid(bands[i]) { return Err(BadBand); }
    }
    var floors: set<int> := {};
    for i := 0 to |bands|
      invariant floors == set k | 0 <= k < i :: bands[k].severityMin
      invariant forall j, k | 0 <= j < k < i :: bands[j].severityMin != bands[k].severityMin
    {
      if bands[i].severityMin in floors { return Err(RepeatedFloor); }
      floors := floors + {bands[i].severityMin};
    }
    var sorted := SortBy(Floor, bands);
    SortedRowsAreSound(bands, sorted);
    var ok := NeighboursTighten(sorted);
    if ok {
      TightnessSurvives(sorted, bands);
      return Ok(sorted);
    }
    if TighterWhenHigher(bands) { TightnessSurvives(bands, sorted); }
    return Err(LooserAtHigherSeverity);
  }

  lemma SortedRowsAreSound(bands: seq<SlaRow>, sorted: seq<SlaRow>)
    requires sorted == SortBy(Floor, bands)
    requires forall i | 0 <= i < |bands| :: BandIsValid(bands[i])
    requires forall i, j | 0 <= i < j < |bands| :: bands[i].severityMin != bands[j].severityMin
    ensures multiset(sorted) == multiset(bands) && SortedByFloor(sorted)
    ensures forall i | 0 <= i < |sorted| :: BandIsValid(sorted[i])
  {
    SortKeepsElements(Floor, bands);
    SortOrders(Floor, bands);
    DistinctKeysSurvive(Floor, bands, sorted);
    forall i, j | 0 <= i < j < |sorted| ensures sorted[i].severityMin < sorted[j].severityMin {
      assert Floor(sorted[i]) <= Floor(sorted[j]) && Floor(sorted[i]) != Floor(sorted[j]);
    }
    Positions(bands, sorted);
    forall i | 0 <= i < |sorted| ensures BandIsValid(sorted[i]) {
      assert sorted[i] in bands;
    }
  }

  // ---- choosing a band --------------------------------------------------------

  // The last row of the leading run of rows whose floor the severity reaches.
  function Match(policy: seq<SlaRow>, severity: int): Option<SlaRow> {
    if policy == [] || policy[0].severityMin > severity then None
    else
      var later := Match(policy[1..], severity);
      if later.Some? then later else Some(policy[0])
  }

  function ToBand(row: Option<SlaRow>): Option<Band> {
    if row.None? then None else Some(Band(row.value.respondMinutes, row.value.resolveMinutes))
  }

  function BandFor(policy: seq<SlaRow>, severity: int): Option<Band> {
    ToBand(Match(policy, severity))
  }

  lemma {:induction false} MatchOfPrefix(policy: seq<SlaRow>, severity: int, n: nat)
    requires n < |policy|
    requires forall k | 0 <= k <= n :: policy[k].severityMin <= severity
    ensures Match(policy[..n + 1], severity) == Some(policy[n])
  {
    if n > 0 {
      MatchOfPrefix(policy[1..], severity, n - 1);
      assert policy[..n + 1][1..] == policy[1..][..n];
    }
  }

  lemma {:induction false} MatchStops(policy: seq<SlaRow>, severity: int, n: nat)
    requires n < |policy| && policy[n].severityMin > severity
    requires forall k | 0 <= k < n :: policy[k].severityMin <= severity
    ensures Match(policy, severity) == if n == 0 then None else Some(policy[n - 1])
  {
    if n > 0 {
      MatchStops(policy[1..], severity, n - 1);
    }
  }

  /** The early-exit loop. */
  method FindBand(policy: seq<SlaRow>, severity: int) returns (band: Option<Band>)
    ensures band == BandFor(policy, severity)
  {
    var match_: Option<SlaRow> := None;
    var i := 0;
    while i < |policy|
      invariant 0 <= i <= |policy|
      invariant forall k | 0 <= k < i :: policy[k].severityMin <= severity
      invariant match_ == if i == 0 then None else Some(policy[i - 1])
    {
      if policy[i].severityMin <= severity {
        match_ := Some(policy[i]);
      } else {
        MatchStops(policy, severity, i);
        break;
      }
      i := i + 1;
    }
    if i == |policy| && i > 0 {
      MatchOfPrefix(policy, severity, i - 1);
      assert policy[..i] == policy;
    }
    band := ToBand(match_);
  }

  /** On a stored policy, stopping at the first floor above the severity loses
      nothing: the match is the highest floor not above the severity, and there is
      a match exactly when some floor is not above it. */
  lemma {:induction false} MatchIsHighestFloor(policy: seq<SlaRow>, severity: int)
    requires SortedByFloor(policy)
    ensures Match(policy, severity).Some? <==> exists row :: row in policy && row.severityMin <= severity
    ensures Match(policy, severity).Some? ==>
      && Match(policy, severity).value in policy
      && Match(policy, severity).value.severityMin <= severity
      && forall row | row in policy && row.severityMin <= severity ::
           row.severityMin <= Match(policy, severity).value.severityMin
  {
    if policy != [] {
      if policy[0].severityMin <= severity {
        MatchIsHighestFloor(policy[1..], severity);
        assert policy == [policy[0]] + policy[1..];
        assert policy[0] in policy;
      } else {
        forall row | row in policy ensures row.severityMin > severity {
          var k :| 0 <= k < |policy| && policy[k] == row;
        }
      }
    }
  }

  /** Raising the severity under one stored policy never loses the band and never
      lengthens the response target. */
  lemma HigherSeverityIsTighter(policy: seq<SlaRow>, low: int, high: int)
    requires Accepted(policy) && low <= high
    ensures BandFor(policy, low).Some? ==>
      && BandFor(policy, high).Some?
      && BandFor(policy, high).value.respondMinutes <= BandFor(policy, low).value.respondMinutes
  {
    MatchIsHighestFloor(policy, low);
    MatchIsHighestFloor(policy, high);
    if BandFor(policy, low).Some? {
      var a, b := Match(policy, low).value, Match(policy, high).value;
      assert a.severityMin <= b.severityMin;
    }
  }

  // The resolution target carries no such promise.
  lemma ResolveTargetMayLengthen() returns (policy: seq<SlaRow>)
    ensures Accepted(policy)
    ensures BandFor(policy, 3).Some? && BandFor(policy, 12).Some?
    ensures BandFor(policy, 3).value.resolveMinutes < BandFor(policy, 12).value.resolveMinutes
  {
    policy := [SlaRow(0, 60, 60), SlaRow(10, 30, 240)];
    assert Match(policy[1..][1..], 12) == None;
    assert Match(policy[1..], 12) == Some(policy[1]);
    assert Match(policy[1..], 3) == None;
  }

  // No higher severity is given longer to resolve.
  ghost predicate ResolvesNoLater(policy: seq<SlaRow>) {
    forall low, high | low <= high && BandFor(policy, low).Some? && BandFor(policy, high).Some? ::
      BandFor(policy, high).value.resolveMinutes <= BandFor(policy, low).value.resolveMinutes
  }

  predicate NeighboursResolveNoLater(policy: seq<SlaRow>) {
    forall i | 0 <= i < |policy| - 1 :: policy[i + 1].resolveMinutes <= policy[i].resolveMinutes
  }

  /** Exactly which stored policies never give a higher severity longer to resolve: those
      whose neighbouring rows do not. */
  lemma ResolvesNoLaterExactly(policy: seq<SlaRow>)
    requires SortedByFloor(policy)
    ensures ResolvesNoLater(policy) <==> NeighboursResolveNoLater(policy)
  {
    if NeighboursResolveNoLater(policy) {
      forall low, high | low <= high && BandFor(policy, low).Some? && BandFor(policy, high).Some?
        ensures BandFor(policy, high).value.resolveMinutes <= BandFor(policy, low).value.resolveMinutes
      {
        MatchIsHighestFloor(policy, low);
        MatchIsHighestFloor(policy, high);
        var a, b := Match(policy, low).value, Match(policy, high).value;
        assert a.severityMin <= b.severityMin;
        var i :| 0 <= i < |policy| && policy[i] == a;
        var j :| 0 <= j < |policy| && policy[j] == b;
        ResolveAlong(policy, i, j);
      }
    } else {
      var i :| 0 <= i < |policy| - 1 && policy[i + 1].resolveMinutes > policy[i].resolveMinutes;
      MatchAtFloor(policy, i);
      MatchAtFloor(policy, i + 1);
      assert BandFor(policy, policy[i].severityMin).Some? && BandFor(policy, policy[i + 1].severityMin).Some?;
    }
  }

  lemma {:induction false} ResolveAlong(policy: seq<SlaRow>, i: nat, j: nat)
    requires i <= j < |policy| && NeighboursResolveNoLater(policy)
    ensures policy[j].resolveMinutes <= policy[i].resolveMinutes
    decreases j
  {
    if i < j {
      ResolveAlong(policy, i, j - 1);
      assert policy[j - 1 + 1].resolveMinutes <= policy[j - 1].resolveMinutes;
    }
  }

  lemma MatchAtFloor(policy: seq<SlaRow>, i: nat)
    requires SortedByFloor(policy) && i < |policy|
    ensures Match(policy, policy[i].severityMin) == Some(policy[i])
  {
    MatchIsHighestFloor(policy, policy[i].severityMin);
    assert policy[i] in policy;
    var row := Match(policy, policy[i].severityMin).value;
    var k :| 0 <= k < |policy| && policy[k] == row;
    assert policy[k].severityMin == policy[i].severityMin;
  }

  // Every band of a stored policy gives at least as long to resolve as to respond.
  lemma BandIsOrdered(policy: seq<SlaRow>, severity: int)
    requires Accepted(policy)
    ensures BandFor(policy, severity).Some? ==>
      0 < BandFor(policy, severity).value.respondMinutes <= BandFor(policy, severity).value.resolveMinutes
  {
    MatchIsHighestFloor(policy, severity);
  }
}
