/** `reconcileStops`: match every TransLoc stop to its nearest GTFS stop and
    build the map from GTFS stop id to TransLoc stop id. */
module Reconciliation {
  import opened Stops
  import opened Ranking

  /** The one way the matcher fails: it indexes the first entry of an empty
      `matches` list, which raises and abandons the whole call. */
  datatype Error = IndexOutOfRange

  datatype Result<+T> = Success(value: T) | Failure(error: Error)

  /** The candidates of `ts` within tolerance, nearest first, ties in GTFS order. */
  function Ranked(ts: TranslocStop, gtfs: seq<GtfsStop>, dist: Distance): seq<Candidate>
  {
    SortedByDistance(CloserThan(Candidates(ts, gtfs, dist), TOLERANCE))
  }

  /** The GTFS id `ts` is matched to, or None when its `matches` list is empty. */
  function BestId(ts: TranslocStop, gtfs: seq<GtfsStop>, dist: Distance): Option<string>
  {
    var ranked := Ranked(ts, gtfs, dist);
    if ranked == [] then None else Some(ranked[0].gtfsId)
  }

  /** GTFS stop `i` lies within tolerance of `ts`, no GTFS stop is nearer,
      and every earlier GTFS stop is strictly farther. This is
      `Ranking.IsFirstNearest` restated over the GTFS input and the distance
      function, so that the whole-call lemmas speak about stops rather than
      about candidate lists; `BestIdIsNearest` connects the two. */
  ghost predicate IsNearest(ts: TranslocStop, gtfs: seq<GtfsStop>, dist: Distance, i: int)
  {
    && 0 <= i < |gtfs|
    && dist(ts, gtfs[i]) < TOLERANCE
    && (forall j :: 0 <= j < |gtfs| ==> dist(ts, gtfs[i]) <= dist(ts, gtfs[j]))
    && (forall j :: 0 <= j < i ==> dist(ts, gtfs[i]) < dist(ts, gtfs[j]))
  }

  /** The map the outer loop builds from the decision it takes for each
      TransLoc stop, in order: `Some(g)` writes `g -> stopId` over any
      earlier entry for `g`; `None` (an empty `matches` list) aborts the
      whole call. */
  function Assemble(live: seq<TranslocStop>, claims: seq<Option<string>>): Result<map<string, string>>
    requires |claims| == |live|
    decreases |live|
  {
    if live == [] then Success(map[])
    else
      var n := |live| - 1;
      match Assemble(live[..n], claims[..n])
      case Failure(e) => Failure(e)
      case Success(m) =>
        match claims[n]
        case None => Failure(IndexOutOfRange)
        case Some(g) => Success(m[g := live[n].stopId])
  }

  /** The decision taken for each TransLoc stop. */
  function Claims(gtfs: seq<GtfsStop>, live: seq<TranslocStop>, dist: Distance): seq<Option<string>>
  {
    seq(|live|, k requires 0 <= k < |live| => BestId(live[k], gtfs, dist))
  }

  /** The outcome of `reconcileStops`. */
  function Reconciled(gtfs: seq<GtfsStop>, live: seq<TranslocStop>, dist: Distance): Result<map<string, string>>
  {
    Assemble(live, Claims(gtfs, live, dist))
  }

  /** One TransLoc stop more, at the end. */
  lemma ReconciledSnoc(gtfs: seq<GtfsStop>, live: seq<TranslocStop>, dist: Distance)
    requires live != []
    ensures var p := live[..|live| - 1];
            var ts := live[|live| - 1];
            Reconciled(gtfs, live, dist) ==
              match Reconciled(gtfs, p, dist)
              case Failure(e) => Failure(e)
              case Success(m) =>
                match BestId(ts, gtfs, dist)
                case None => Failure(IndexOutOfRange)
                case Some(g) => Success(m[g := ts.stopId])
  {
    var n := |live| - 1;
    assert Claims(gtfs, live, dist)[..n] == Claims(gtfs, live[..n], dist);
  }

  /** The diagnostics reported for one TransLoc stop whose ranked list is `ranked`. */
  function StopLog(ts: TranslocStop, ranked: seq<Candidate>): seq<Event>
  {
    [Attempting(ts.stopId, ts.name)] +
    if ranked == [] then []
    else
      [BestMatch(ranked[0].name, ranked[0].distance, ranked[0].gtfsId)] +
      match Ambiguity(ranked)
      case Some(e) => [e]
      case None => []
  }

  /** The diagnostics reported over a run, up to and including the stop at
      which it fails, if it does. */
  function Log(gtfs: seq<GtfsStop>, live: seq<TranslocStop>, dist: Distance): seq<Event>
    decreases |live|
  {
    if live == [] then []
    else
      var prefix := live[..|live| - 1];
      if Reconciled(gtfs, prefix, dist).Failure? then Log(gtfs, prefix, dist)
      else Log(gtfs, prefix, dist) + StopLog(live[|live| - 1], Ranked(live[|live| - 1], gtfs, dist))
  }

  /** Once a prefix of the TransLoc stops has failed, the whole run has
      failed and nothing more is reported. */
  lemma {:induction false} FailureIsFinal(gtfs: seq<GtfsStop>, live: seq<TranslocStop>, n: nat, dist: Distance)
    requires n <= |live|
    requires Reconciled(gtfs, live[..n], dist).Failure?
    ensures Reconciled(gtfs, live, dist).Failure?
    ensures Log(gtfs, live, dist) == Log(gtfs, live[..n], dist)
    decreases |live|
  {
    if n == |live| {
      assert live[..n] == live;
    } else {
      var prefix := live[..|live| - 1];
      assert prefix[..n] == live[..n];
      FailureIsFinal(gtfs, prefix, n, dist);
      ReconciledSnoc(gtfs, live, dist);
    }
  }

  /** One more TransLoc stop: its best match is written over the map, or
      the run fails there. */
  lemma Step(gtfs: seq<GtfsStop>, live: seq<TranslocStop>, i: nat, m: map<string, string>, dist: Distance)
    requires i < |live|
    requires Reconciled(gtfs, live[..i], dist) == Success(m)
    ensures var ranked := Ranked(live[i], gtfs, dist);
            && (ranked == [] ==> Reconciled(gtfs, live[..i + 1], dist).Failure?)
            && (ranked != [] ==> Reconciled(gtfs, live[..i + 1], dist) == Success(m[ranked[0].gtfsId := live[i].stopId]))
            && Log(gtfs, live[..i + 1], dist) == Log(gtfs, live[..i], dist) + StopLog(live[i], ranked)
  {
    var q := live[..i + 1];
    assert q[..i] == live[..i];
    assert q[i] == live[i];
    ReconciledSnoc(gtfs, q, dist);
  }

  /** The inner loop: one candidate per GTFS stop, in GTFS order. */
  method BuildCandidates(ts: TranslocStop, gtfsStops: seq<GtfsStop>, dist: Distance) returns (matches: seq<Candidate>)
    ensures |matches| == |gtfsStops|
    ensures forall j :: 0 <= j < |gtfsStops| ==>
              matches[j].gtfsId == gtfsStops[j].id && matches[j].distance == dist(ts, gtfsStops[j])
    ensures matches == Candidates(ts, gtfsStops, dist)
  {
    matches := [];
    var j := 0;
    while j < |gtfsStops|
      invariant 0 <= j <= |gtfsStops|
      invariant |matches| == j
      invariant forall k :: 0 <= k < j ==> matches[k] == CandidateFor(ts, gtfsStops[k], dist)
    {
      var gs := gtfsStops[j];
      var stopInfo := Candidate(dist(ts, gs), gs.id, gs.name, gs.loc);
      matches := matches + [stopInfo];
      j := j + 1;
    }
    CandidatesOnePerStop(ts, gtfsStops, dist);
  }

  /** The candidates of one TransLoc stop, filtered to the tolerance and
      sorted by distance. */
  method RankCandidates(ts: TranslocStop, gtfsStops: seq<GtfsStop>, dist: Distance) returns (matches: seq<Candidate>)
    ensures matches == Ranked(ts, gtfsStops, dist)
  {
    matches := BuildCandidates(ts, gtfsStops, dist);
    matches := CloserThan(matches, TOLERANCE);
    matches := SortedByDistance(matches);
  }

  /** The diagnostics printed for one TransLoc stop: the attempt, then, when
      `matches` is not empty, its best match and the "other possibilities"
      warning when that fires. */
  method ReportStop(ts: TranslocStop, matches: seq<Candidate>) returns (report: seq<Event>)
    ensures report == StopLog(ts, matches)
  {
    report := [Attempting(ts.stopId, ts.name)];
    if |matches| == 0 {
      return;
    }
    var best := matches[0];
    report := report + [BestMatch(best.name, best.distance, best.gtfsId)];
    var other := Ambiguity(matches);
    if other.Some? {
      report := report + [other.value];
    }
  }

  /** `reconcileStops`: the map from GTFS stop id to TransLoc stop id and the
      diagnostics reported, or the failure of the first TransLoc stop with
      no GTFS stop within tolerance. */
  method ReconcileStops(gtfsStops: seq<GtfsStop>, translocStops: seq<TranslocStop>, dist: Distance)
    returns (result: Result<map<string, string>>, log: seq<Event>)
    ensures result == Reconciled(gtfsStops, translocStops, dist)
    ensures log == Log(gtfsStops, translocStops, dist)
  {
    var stopMatchMap: map<string, string> := map[];
    log := [];
    var i := 0;
    while i < |translocStops|
      invariant 0 <= i <= |translocStops|
      invariant Reconciled(gtfsStops, translocStops[..i], dist) == Success(stopMatchMap)
      invariant log == Log(gtfsStops, translocStops[..i], dist)
    {
      var ts := translocStops[i];
      Step(gtfsStops, translocStops, i, stopMatchMap, dist);
      var matches := RankCandidates(ts, gtfsStops, dist);
      var report := ReportStop(ts, matches);
      log := log + report;
      if |matches| == 0 {
        FailureIsFinal(gtfsStops, translocStops, i + 1, dist);
        return Failure(IndexOutOfRange), log;
      }
      var best := matches[0];
      stopMatchMap := stopMatchMap[best.gtfsId := ts.stopId];
      i := i + 1;
    }
    assert translocStops[..i] == translocStops;
    result := Success(stopMatchMap);
  }


  // ----- The outer loop: assembling the map from per-stop decisions -----

  /** Assembling fails exactly when some TransLoc stop has no match. */
  lemma {:induction false} AssembleFailsIff(live: seq<TranslocStop>, claims: seq<Option<string>>)
    requires |claims| == |live|
    ensures Assemble(live, claims).Failure? <==> exists k :: 0 <= k < |claims| && claims[k].None?
    decreases |live|
  {
    if live != [] {
      var n := |live| - 1;
      AssembleFailsIff(live[..n], claims[..n]);
      assert forall k :: 0 <= k < n ==> claims[..n][k] == claims[k];
    }
  }

  /** `claims[k]` is `Some(g)` and no later decision is. */
  ghost predicate IsLastClaim(claims: seq<Option<string>>, k: int, g: string)
  {
    && 0 <= k < |claims|
    && claims[k] == Some(g)
    && forall k' :: k < k' < |claims| ==> claims[k'] != Some(g)
  }

  /** `g` is a key exactly when some decision names it. */
  lemma {:induction false} KeysAreClaims(live: seq<TranslocStop>, claims: seq<Option<string>>)
    requires |claims| == |live| && Assemble(live, claims).Success?
    ensures forall g :: g in Assemble(live, claims).value <==> exists k :: 0 <= k < |claims| && claims[k] == Some(g)
    decreases |live|
  {
    if live != [] {
      var n := |live| - 1;
      KeysAreClaims(live[..n], claims[..n]);
      assert forall k :: 0 <= k < n ==> claims[..n][k] == claims[k];
      assert Assemble(live, claims).value.Keys == Assemble(live[..n], claims[..n]).value.Keys + {claims[n].value};
    }
  }

  /** Last writer wins: a key maps to the TransLoc stop of the last
      decision that names it. */
  lemma {:induction false} LastWriterWins(live: seq<TranslocStop>, claims: seq<Option<string>>)
    requires |claims| == |live| && Assemble(live, claims).Success?
    ensures var m := Assemble(live, claims).value;
            forall g :: g in m ==> exists k :: IsLastClaim(claims, k, g) && m[g] == live[k].stopId
    decreases |live|
  {
    if live != [] {
      var n := |live| - 1;
      var p, pc := live[..n], claims[..n];
      LastWriterWins(p, pc);
      var mp := Assemble(p, pc).value;
      var g0 := claims[n].value;
      var m := Assemble(live, claims).value;
      assert m == mp[g0 := live[n].stopId];
      forall g | g in m ensures exists k :: IsLastClaim(claims, k, g) && m[g] == live[k].stopId {
        if g == g0 {
          assert IsLastClaim(claims, n, g);
        } else {
          var k :| IsLastClaim(pc, k, g) && mp[g] == p[k].stopId;
          assert pc[k] == claims[k] && p[k] == live[k];
          assert IsLastClaim(claims, k, g);
        }
      }
    }
  }

  /** The map has at most one entry per TransLoc stop. */
  lemma {:induction false} AssembleSize(live: seq<TranslocStop>, claims: seq<Option<string>>)
    requires |claims| == |live| && Assemble(live, claims).Success?
    ensures |Assemble(live, claims).value| <= |live|
    decreases |live|
  {
    if live != [] {
      var n := |live| - 1;
      AssembleSize(live[..n], claims[..n]);
      var mp := Assemble(live[..n], claims[..n]).value;
      var m := Assemble(live, claims).value;
      assert m.Keys == mp.Keys + {claims[n].value};
    }
  }

  // ----- One TransLoc stop: the nearest-neighbour match -----

  /** No GTFS stop lies strictly within tolerance of `ts`. */
  ghost predicate Unmatched(ts: TranslocStop, gtfs: seq<GtfsStop>, dist: Distance)
  {
    forall j :: 0 <= j < |gtfs| ==> dist(ts, gtfs[j]) >= TOLERANCE
  }

  /** `g` is the id of the nearest GTFS stop of `ts` in the sense of `IsNearest`. */
  ghost predicate MatchedTo(ts: TranslocStop, gtfs: seq<GtfsStop>, dist: Distance, g: string)
  {
    exists i :: IsNearest(ts, gtfs, dist, i) && gtfs[i].id == g
  }

  /** At most one GTFS stop is nearest in the sense of `IsNearest`. */
  lemma NearestUnique(ts: TranslocStop, gtfs: seq<GtfsStop>, dist: Distance, i: int, k: int)
    requires IsNearest(ts, gtfs, dist, i) && IsNearest(ts, gtfs, dist, k)
    ensures i == k
  {
  }

  /** The match chosen for `ts` is the earliest GTFS stop at minimum
      distance, provided that distance is below TOLERANCE; there is none
      exactly when no GTFS stop is within tolerance. */
  lemma BestIdIsNearest(ts: TranslocStop, gtfs: seq<GtfsStop>, dist: Distance)
    ensures BestId(ts, gtfs, dist).None? <==> Unmatched(ts, gtfs, dist)
    ensures forall g :: BestId(ts, gtfs, dist) == Some(g) <==> MatchedTo(ts, gtfs, dist, g)
    ensures BestId(ts, gtfs, dist).Some? ==>
              exists i :: IsNearest(ts, gtfs, dist, i) && Ranked(ts, gtfs, dist)[0] == CandidateFor(ts, gtfs[i], dist)
  {
    var s := Candidates(ts, gtfs, dist);
    CandidatesOnePerStop(ts, gtfs, dist);
    RankedHead(s);
    if Ranked(ts, gtfs, dist) != [] {
      var i :| IsFirstNearest(s, i) && s[i].distance < TOLERANCE && Ranked(ts, gtfs, dist)[0] == s[i];
      assert IsNearest(ts, gtfs, dist, i);
      forall g | MatchedTo(ts, gtfs, dist, g) ensures BestId(ts, gtfs, dist) == Some(g) {
        var k :| IsNearest(ts, gtfs, dist, k) && gtfs[k].id == g;
        NearestUnique(ts, gtfs, dist, i, k);
      }
    } else {
      assert Unmatched(ts, gtfs, dist);
    }
  }

  // ----- The whole call -----

  /** The run fails exactly when some TransLoc stop has no GTFS stop
      strictly within tolerance; it never skips such a stop. */
  lemma FailsIffSomeStopUnmatched(gtfs: seq<GtfsStop>, live: seq<TranslocStop>, dist: Distance)
    ensures Reconciled(gtfs, live, dist).Failure? <==>
              exists k :: 0 <= k < |live| && Unmatched(live[k], gtfs, dist)
  {
    var claims := Claims(gtfs, live, dist);
    AssembleFailsIff(live, claims);
    forall k | 0 <= k < |live| ensures claims[k].None? <==> Unmatched(live[k], gtfs, dist) {
      BestIdIsNearest(live[k], gtfs, dist);
    }
  }

  /** Every key `g` of the map is the nearest GTFS stop, strictly within
      tolerance, of some TransLoc stop; its value is the id of the last
      TransLoc stop, in input order, matched to `g`. */
  lemma MapEntriesAreLastNearestMatches(gtfs: seq<GtfsStop>, live: seq<TranslocStop>, dist: Distance)
    requires Reconciled(gtfs, live, dist).Success?
    ensures var m := Reconciled(gtfs, live, dist).value;
            forall g :: g in m <==> exists k :: 0 <= k < |live| && MatchedTo(live[k], gtfs, dist, g)
    ensures var m := Reconciled(gtfs, live, dist).value;
            forall g :: g in m ==>
              exists k :: && 0 <= k < |live| && MatchedTo(live[k], gtfs, dist, g) && m[g] == live[k].stopId
                          && forall k' :: k < k' < |live| ==> !MatchedTo(live[k'], gtfs, dist, g)
  {
    var claims := Claims(gtfs, live, dist);
    var m := Reconciled(gtfs, live, dist).value;
    KeysAreClaims(live, claims);
    LastWriterWins(live, claims);
    forall k | 0 <= k < |live|
      ensures forall g :: claims[k] == Some(g) <==> MatchedTo(live[k], gtfs, dist, g)
    {
      BestIdIsNearest(live[k], gtfs, dist);
    }
    forall g | g in m
      ensures exists k :: && 0 <= k < |live| && MatchedTo(live[k], gtfs, dist, g) && m[g] == live[k].stopId
                          && forall k' :: k < k' < |live| ==> !MatchedTo(live[k'], gtfs, dist, g)
    {
      var k :| IsLastClaim(claims, k, g) && m[g] == live[k].stopId;
    }
  }

  /** Keys are GTFS ids, values are TransLoc ids, there are no more entries
      than TransLoc stops, and no TransLoc stops give the empty map. */
  lemma MapBounds(gtfs: seq<GtfsStop>, live: seq<TranslocStop>, dist: Distance)
    requires Reconciled(gtfs, live, dist).Success?
    ensures var m := Reconciled(gtfs, live, dist).value;
            && m.Keys <= (set s | s in gtfs :: s.id)
            && m.Values <= (set t | t in live :: t.stopId)
            && |m| <= |live|
            && (live == [] ==> m == map[])
  {
    var m := Reconciled(gtfs, live, dist).value;
    MapEntriesAreLastNearestMatches(gtfs, live, dist);
    AssembleSize(live, Claims(gtfs, live, dist));
    forall g | g in m ensures g in (set s | s in gtfs :: s.id) && m[g] in (set t | t in live :: t.stopId) {
      var k :| 0 <= k < |live| && MatchedTo(live[k], gtfs, dist, g) && m[g] == live[k].stopId;
      var i :| IsNearest(live[k], gtfs, dist, i) && gtfs[i].id == g;
      assert gtfs[i] in gtfs;
      assert live[k] in live;
    }
  }

  /** The diagnostic has no effect on the map: two distance functions that
      match every TransLoc stop to the same GTFS id, however they differ on
      the runners-up, give the same outcome. */
  lemma MapIgnoresRunnersUp(gtfs: seq<GtfsStop>, live: seq<TranslocStop>, d1: Distance, d2: Distance)
    requires forall k, g :: 0 <= k < |live| ==> (MatchedTo(live[k], gtfs, d1, g) <==> MatchedTo(live[k], gtfs, d2, g))
    ensures Reconciled(gtfs, live, d1) == Reconciled(gtfs, live, d2)
  {
    forall k | 0 <= k < |live| ensures BestId(live[k], gtfs, d1) == BestId(live[k], gtfs, d2) {
      BestIdIsNearest(live[k], gtfs, d1);
      BestIdIsNearest(live[k], gtfs, d2);
    }
    assert Claims(gtfs, live, d1) == Claims(gtfs, live, d2);
  }

  // ----- The "other possibilities" diagnostic -----

  /** The number of GTFS stops strictly within both the tolerance and `bound`. */
  function NearCount(ts: TranslocStop, gtfs: seq<GtfsStop>, dist: Distance, bound: real): nat
  {
    if gtfs == [] then 0
    else
      (if dist(ts, gtfs[0]) < TOLERANCE && dist(ts, gtfs[0]) < bound then 1 else 0) +
      NearCount(ts, gtfs[1..], dist, bound)
  }

  lemma {:induction false} NearCountIsFilteredCount(ts: TranslocStop, gtfs: seq<GtfsStop>, dist: Distance, b: real)
    ensures |CloserThan(CloserThan(Candidates(ts, gtfs, dist), TOLERANCE), b)| == NearCount(ts, gtfs, dist, b)
  {
    if gtfs != [] {
      NearCountIsFilteredCount(ts, gtfs[1..], dist, b);
      var x := CandidateFor(ts, gtfs[0], dist);
      var rest := Candidates(ts, gtfs[1..], dist);
      assert ([x] + rest)[1..] == rest;
      if x.distance < TOLERANCE {
        var f := CloserThan(rest, TOLERANCE);
        assert ([x] + f)[1..] == f;
      }
    }
  }

  /** The ranked list is ascending. */
  lemma RankedAscending(ts: TranslocStop, gtfs: seq<GtfsStop>, dist: Distance)
    ensures Ascending(Ranked(ts, gtfs, dist))
  {
    SortIsOrderedPermutation(CloserThan(Candidates(ts, gtfs, dist), TOLERANCE));
  }

  /** For a non-negative distance, the ranked list has no negative entry. */
  lemma RankedNonNegative(ts: TranslocStop, gtfs: seq<GtfsStop>, dist: Distance)
    requires NonNegative(ts, gtfs, dist)
    ensures forall c :: c in Ranked(ts, gtfs, dist) ==> 0.0 <= c.distance
  {
    var cands := Candidates(ts, gtfs, dist);
    var f := CloserThan(cands, TOLERANCE);
    var ranked := Ranked(ts, gtfs, dist);
    SortIsOrderedPermutation(f);
    CloserThanMembers(cands, TOLERANCE);
    CandidatesOnePerStop(ts, gtfs, dist);
    forall c | c in ranked ensures 0.0 <= c.distance {
      assert c in multiset(ranked);
      var j :| 0 <= j < |cands| && cands[j] == c;
    }
  }

  /** The "other possibilities" diagnostic for `ts`, whose nearest GTFS stop
      is `i`: it fires exactly when at least two GTFS stops lie strictly
      within both the tolerance and ten times the nearest distance, it
      reports exactly that number (the nearest stop included), and it never
      fires when the nearest distance is 0. */
  lemma OtherPossibilitiesReport(ts: TranslocStop, gtfs: seq<GtfsStop>, dist: Distance, i: int)
    requires IsNearest(ts, gtfs, dist, i)
    ensures Ranked(ts, gtfs, dist) != []
    ensures var ranked := Ranked(ts, gtfs, dist);
            var t := dist(ts, gtfs[i]) * OTHER_POSSIBILITY_FACTOR;
            && (Ambiguity(ranked).Some? <==> NearCount(ts, gtfs, dist, t) >= 2)
            && (Ambiguity(ranked).Some? ==> Ambiguity(ranked) == Some(OtherPossibilities(NearCount(ts, gtfs, dist, t), t)))
            && (dist(ts, gtfs[i]) == 0.0 ==> Ambiguity(ranked).None?)
  {
    var ranked := Ranked(ts, gtfs, dist);
    var t := dist(ts, gtfs[i]) * OTHER_POSSIBILITY_FACTOR;
    RankedHeadIsNearest(ts, gtfs, dist, i);
    assert (Ambiguity(ranked).Some? <==> |CloserThan(ranked, t)| >= 2)
        && (Ambiguity(ranked).Some? ==> Ambiguity(ranked) == Some(OtherPossibilities(|CloserThan(ranked, t)|, t)))
        && (ranked[0].distance == 0.0 ==> Ambiguity(ranked).None?) by {
      RankedAscending(ts, gtfs, dist);
      AmbiguityFires(ranked);
    }
    RankedCount(ts, gtfs, dist, t);
  }

  /** The head of the ranked list lies at the distance of the nearest GTFS stop. */
  lemma RankedHeadIsNearest(ts: TranslocStop, gtfs: seq<GtfsStop>, dist: Distance, i: int)
    requires IsNearest(ts, gtfs, dist, i)
    ensures Ranked(ts, gtfs, dist) != [] && Ranked(ts, gtfs, dist)[0].distance == dist(ts, gtfs[i])
  {
    BestIdIsNearest(ts, gtfs, dist);
    assert MatchedTo(ts, gtfs, dist, gtfs[i].id);
    var i' :| IsNearest(ts, gtfs, dist, i') && Ranked(ts, gtfs, dist)[0] == CandidateFor(ts, gtfs[i'], dist);
    NearestUnique(ts, gtfs, dist, i, i');
  }

  /** Counting below a bound in the ranked list counts GTFS stops. */
  lemma RankedCount(ts: TranslocStop, gtfs: seq<GtfsStop>, dist: Distance, t: real)
    ensures |CloserThan(Ranked(ts, gtfs, dist), t)| == NearCount(ts, gtfs, dist, t)
  {
    SortCountsCloser(CloserThan(Candidates(ts, gtfs, dist), TOLERANCE), t);
    NearCountIsFilteredCount(ts, gtfs, dist, t);
  }

  /** A TransLoc stop placed exactly at a GTFS stop, with every earlier GTFS
      stop strictly farther, is matched to it, and no other possibilities
      are reported. */
  lemma ExactLocationWins(ts: TranslocStop, gtfs: seq<GtfsStop>, dist: Distance, i: int)
    requires 0 <= i < |gtfs| && NonNegative(ts, gtfs, dist)
    requires dist(ts, gtfs[i]) == 0.0
    requires forall j :: 0 <= j < i ==> 0.0 < dist(ts, gtfs[j])
    ensures BestId(ts, gtfs, dist) == Some(gtfs[i].id)
    ensures Ranked(ts, gtfs, dist) != [] && Ambiguity(Ranked(ts, gtfs, dist)).None?
  {
    assert IsNearest(ts, gtfs, dist, i);
    BestIdIsNearest(ts, gtfs, dist);
    OtherPossibilitiesReport(ts, gtfs, dist, i);
  }
}
