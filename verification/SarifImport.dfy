/** Normalising imported SARIF results (packages/scanner/src/inspection-pipeline.ts): nested
    loops with two counters and a limit, against a plain pass over the first results. */
module SarifImport {
  import opened Options
  import opened Sequences

  const MAX_OBSERVATIONS: nat := 20_000

  /** A location with a safe relative path, with its line when the region names one. */
  datatype Location = Source(path: string, startLine: int) | Artifact(path: string)

  /** A result: its rule id unless unusable, and what each of its locations comes to. */
  datatype Result = Malformed | Result(ruleId: Option<string>, locations: seq<Option<Location>>)

  /** `index` is what the observation id is derived from, together with the run id. */
  datatype Observation = Observation(index: nat, ruleId: string, location: Location)

  function FirstSafe(locations: seq<Option<Location>>): Option<Location> {
    if locations == [] then None
    else if locations[0].Some? then locations[0]
    else FirstSafe(locations[1..])
  }

  predicate Usable(r: Result) {
    r.Result? && r.ruleId.Some? && exists k :: 0 <= k < |r.locations| && r.locations[k].Some?
  }

  lemma {:induction false} FirstSafeIff(locations: seq<Option<Location>>)
    ensures FirstSafe(locations).Some? <==> exists k :: 0 <= k < |locations| && locations[k].Some?
  {
    if locations != [] && locations[0].None? {
      FirstSafeIff(locations[1..]);
      if FirstSafe(locations[1..]).Some? {
        var k :| 0 <= k < |locations[1..]| && locations[1..][k].Some?;
        assert locations[k + 1].Some?;
      }
      if k :| 0 <= k < |locations| && locations[k].Some? {
        assert locations[1..][k - 1].Some?;
      }
    }
  }

  /** The results of all runs, one after the other. */
  function Flat<T>(runs: seq<seq<T>>): seq<T> {
    if runs == [] then [] else Flat(runs[..|runs| - 1]) + runs[|runs| - 1]
  }

  /** One observation for every usable result, in order, numbered by its position. */
  function Normalized(results: seq<Result>): seq<Observation> {
    if results == [] then []
    else
      var n := |results| - 1;
      var r := results[n];
      Normalized(results[..n]) +
      if r.Result? && r.ruleId.Some? && FirstSafe(r.locations).Some?
      then [Observation(n + 1, r.ruleId.value, FirstSafe(r.locations).value)] else []
  }

  lemma NormalizedSnoc(results: seq<Result>, r: Result)
    ensures Normalized(results + [r]) == Normalized(results) +
              if r.Result? && r.ruleId.Some? && FirstSafe(r.locations).Some?
              then [Observation(|results| + 1, r.ruleId.value, FirstSafe(r.locations).value)] else []
  {
    assert (results + [r])[..|results|] == results;
  }

  /** What is taken of a document: everything up to the limit. */
  function Taken(runs: seq<seq<Result>>): seq<Result> {
    var flat := Flat(runs);
    if |flat| <= MAX_OBSERVATIONS then flat else flat[..MAX_OBSERVATIONS]
  }

  // ---------------------------------------------------------------------
  // The loops
  // ---------------------------------------------------------------------

  /** The loop over the locations of one result. */
  method FindLocation(locations: seq<Option<Location>>) returns (location: Option<Location>)
    ensures location == FirstSafe(locations)
  {
    location := None;
    assert locations[0..] == locations;
    for k := 0 to |locations|
      invariant location == None && FirstSafe(locations) == FirstSafe(locations[k..])
    {
      assert locations[k..][1..] == locations[k + 1..];
      if locations[k].Some? {
        return locations[k];
      }
    }
  }

  /** One result: an observation, or nothing. */
  method NormalizeOne(result: Result, examined: nat, ghost before: seq<Result>) returns (o: Option<Observation>)
    requires examined == |before| + 1
    ensures Normalized(before + [result]) == Normalized(before) + if o.Some? then [o.value] else []
  {
    NormalizedSnoc(before, result);
    if result.Malformed? || result.ruleId.None? {
      return None;
    }
    var location := FindLocation(result.locations);
    if location.None? {
      return None;
    }
    o := Some(Observation(examined, result.ruleId.value, location.value));
  }

  /** The results of one run, after those of the earlier ones. */
  method NormalizeRun(results: seq<Result>, start: seq<Observation>, omittedSoFar: nat, examinedSoFar: nat, ghost before: seq<Result>)
    returns (observations: seq<Observation>, omitted: nat, examined: nat)
    requires examinedSoFar == |before| <= MAX_OBSERVATIONS
    requires start == Normalized(before) && omittedSoFar + |start| == |before|
    ensures examined <= MAX_OBSERVATIONS ==>
              && examined == |before| + |results|
              && observations == Normalized(before + results) && omitted + |observations| == |before + results|
    ensures examined > MAX_OBSERVATIONS ==>
              && |before| + |results| > MAX_OBSERVATIONS
              && observations == Normalized((before + results)[..MAX_OBSERVATIONS])
              && omitted + |observations| == MAX_OBSERVATIONS
  {
    observations, omitted, examined := start, omittedSoFar, examinedSoFar;
    assert before + results[..0] == before;
    for i := 0 to |results|
      invariant examined == |before| + i <= MAX_OBSERVATIONS
      invariant observations == Normalized(before + results[..i]) && omitted + |observations| == examined
    {
      examined := examined + 1;
      if examined > MAX_OBSERVATIONS {
        assert (before + results)[..MAX_OBSERVATIONS] == before + results[..i];
        return;
      }
      var o := NormalizeOne(results[i], examined, before + results[..i]);
      assert before + results[..i + 1] == (before + results[..i]) + [results[i]];
      if o.Some? {
        observations := observations + [o.value];
      } else {
        omitted := omitted + 1;
      }
    }
    TakeAll(results);
  }

  /** `normalizeSarif`: the normal form of the first 20 000 results, no result lost or counted
      twice, and the limit reported exactly when there were more. */
  method NormalizeSarif(runs: seq<seq<Result>>) returns (observations: seq<Observation>, omitted: nat, limitReached: bool)
    ensures observations == Normalized(Taken(runs))
    ensures omitted + |observations| == |Taken(runs)| <= MAX_OBSERVATIONS
    ensures limitReached <==> |Flat(runs)| > MAX_OBSERVATIONS
    // The same told from the results: which are taken, and what each of them comes to.
    ensures Taken(runs) <= Flat(runs) && |Taken(runs)| == if |Flat(runs)| < 20_000 then |Flat(runs)| else 20_000
    ensures IsNormal(Taken(runs), observations)
  {
    NormalAsTold(Taken(runs));
    observations, omitted, limitReached := [], 0, false;
    var examined := 0;
    assert runs[..0] == [];
    for r := 0 to |runs|
      invariant examined == |Flat(runs[..r])| <= MAX_OBSERVATIONS && !limitReached
      invariant observations == Normalized(Flat(runs[..r])) && omitted + |observations| == examined
    {
      ghost var before := Flat(runs[..r]);
      observations, omitted, examined := NormalizeRun(runs[r], observations, omitted, examined, before);
      FlatOneMore(runs, r);
      if examined > MAX_OBSERVATIONS {
        FlatPrefix(runs, r + 1);
        TakeTwice(Flat(runs), |Flat(runs[..r + 1])|, MAX_OBSERVATIONS);
        limitReached := true;
        return;
      }
    }
    TakeAll(runs);
  }

  lemma TakeTwice<T>(s: seq<T>, m: nat, n: nat)
    requires n <= m <= |s|
    ensures s[..m][..n] == s[..n]
  {
  }

  lemma FlatOneMore<T>(runs: seq<seq<T>>, r: nat)
    requires r < |runs|
    ensures Flat(runs[..r + 1]) == Flat(runs[..r]) + runs[r]
  {
    assert runs[..r + 1][..r] == runs[..r];
  }

  lemma {:induction false} FlatPrefix<T>(runs: seq<seq<T>>, r: nat)
    requires r <= |runs|
    ensures |Flat(runs[..r])| <= |Flat(runs)|
    ensures Flat(runs)[..|Flat(runs[..r])|] == Flat(runs[..r])
  {
    if r == |runs| {
      TakeAll(runs);
    } else {
      var init := runs[..|runs| - 1];
      FlatPrefix(init, r);
      assert init[..r] == runs[..r];
    }
  }

  // ---------------------------------------------------------------------
  // What the normal form is
  // ---------------------------------------------------------------------

  /** The observation belongs to the result at its number. */
  predicate Belongs(results: seq<Result>, o: Observation) {
    && 1 <= o.index <= |results|
    && var r := results[o.index - 1];
       r.Result? && r.ruleId == Some(o.ruleId) && FirstSafe(r.locations) == Some(o.location)
  }

  /** The location is that of the first one of the result that has a safe path. */
  ghost predicate FirstLocation(locations: seq<Option<Location>>, location: Location) {
    exists m :: 0 <= m < |locations| && locations[m] == Some(location) && forall j :: 0 <= j < m ==> locations[j] == None
  }

  /** What the observation says is what the result at its number says. */
  ghost predicate Describes(results: seq<Result>, o: Observation) {
    && 1 <= o.index <= |results|
    && var r := results[o.index - 1];
       r.Result? && r.ruleId == Some(o.ruleId) && FirstLocation(r.locations, o.location)
  }

  /** One observation for each usable result, in order, and no other. */
  ghost predicate IsNormal(results: seq<Result>, observations: seq<Observation>) {
    && (forall k :: 0 <= k < |observations| ==> Describes(results, observations[k]))
    && (forall j, k :: 0 <= j < k < |observations| ==> observations[j].index < observations[k].index)
    && (forall i :: 0 <= i < |results| && Usable(results[i]) ==> Numbered(observations, i + 1))
  }

  lemma {:induction false} FirstSafeIsFirst(locations: seq<Option<Location>>)
    ensures FirstSafe(locations).Some? ==> FirstLocation(locations, FirstSafe(locations).value)
  {
    if locations != [] && locations[0] == None && FirstSafe(locations).Some? {
      var rest := locations[1..];
      FirstSafeIsFirst(rest);
      var m :| 0 <= m < |rest| && rest[m] == FirstSafe(locations) && forall j :: 0 <= j < m ==> rest[j] == None;
      assert locations[m + 1] == FirstSafe(locations);
      assert forall j :: 0 < j < m + 1 ==> locations[j] == rest[j - 1];
    }
  }

  lemma NormalAsTold(results: seq<Result>)
    ensures IsNormal(results, Normalized(results))
  {
    var observations := Normalized(results);
    NumbersIncrease(results);
    forall k | 0 <= k < |observations| ensures Describes(results, observations[k]) {
      assert Belongs(results, observations[k]);
      FirstSafeIsFirst(results[observations[k].index - 1].locations);
    }
    forall i | 0 <= i < |results| && Usable(results[i]) ensures Numbered(observations, i + 1) {
      UsableAreKept(results, i);
    }
  }

  /** Every observation belongs to the result at its number, and the numbers increase: no two
      observations of a document share the number their ids are made from. */
  lemma {:induction false} NumbersIncrease(results: seq<Result>)
    ensures forall k :: 0 <= k < |Normalized(results)| ==> Belongs(results, Normalized(results)[k])
    ensures forall j, k :: 0 <= j < k < |Normalized(results)| ==> Normalized(results)[j].index < Normalized(results)[k].index
  {
    if results != [] {
      var n := |results| - 1;
      NumbersIncrease(results[..n]);
      var earlier := Normalized(results[..n]);
      assert forall k :: 0 <= k < |earlier| ==> Belongs(results[..n], earlier[k]) && Belongs(results, earlier[k]);
    }
  }

  /** Some observation has the number. */
  ghost predicate Numbered(observations: seq<Observation>, index: nat) {
    exists k :: 0 <= k < |observations| && observations[k].index == index
  }

  lemma NumberedSnoc(observations: seq<Observation>, o: Observation, index: nat)
    ensures Numbered(observations + [o], index) <==> Numbered(observations, index) || o.index == index
  {
    var all := observations + [o];
    assert all[|observations|] == o && forall k :: 0 <= k < |observations| ==> all[k] == observations[k];
  }

  /** Every usable result has its observation, and no other result has one. */
  lemma {:induction false} UsableAreKept(results: seq<Result>, i: nat)
    requires i < |results|
    ensures Usable(results[i]) <==> Numbered(Normalized(results), i + 1)
  {
    var n := |results| - 1;
    var earlier, r := Normalized(results[..n]), results[n];
    if r.Result? { FirstSafeIff(r.locations); }
    if Usable(r) {
      NumberedSnoc(earlier, Observation(n + 1, r.ruleId.value, FirstSafe(r.locations).value), i + 1);
    } else {
      assert earlier + [] == earlier;
    }
    if i < n {
      UsableAreKept(results[..n], i);
    } else {
      NumbersIncrease(results[..n]);
      assert forall k :: 0 <= k < |earlier| ==> Belongs(results[..n], earlier[k]);
    }
  }
}
