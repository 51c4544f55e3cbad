/** The records the matcher reads, its two tuning constants, the per-pair
    candidate record and the diagnostics it reports. */
module Stops {

  /** Filter radius in metres: a GTFS stop at this distance or farther is never a match. */
  const TOLERANCE: real := 30.0

  /** Multiplier on the best distance under which other candidates are flagged. */
  const OTHER_POSSIBILITY_FACTOR: real := 10.0

  datatype Option<+T> = None | Some(value: T)

  /** Latitude and longitude in decimal degrees. */
  datatype Location = Location(lat: real, lng: real)

  /** A stop of the GTFS feed, reduced to the fields the matcher reads. */
  datatype GtfsStop = GtfsStop(id: string, name: string, loc: Location)

  /** A stop as listed by the TransLoc API. */
  datatype TranslocStop = TranslocStop(stopId: string, name: string, location: Location)

  /** Distance in metres between a TransLoc stop and a GTFS stop. The model
      never looks inside it: the matcher only compares distances, sorts by
      them and scales the best one. */
  type Distance = (TranslocStop, GtfsStop) -> real

  /** One entry of the per-stop `matches` list: a GTFS stop and its distance. */
  datatype Candidate = Candidate(distance: real, gtfsId: string, name: string, loc: Location)

  /** What the matcher reports while it runs, without the text. */
  datatype Event =
    | Attempting(stopId: string, name: string)
    | BestMatch(name: string, distance: real, gtfsId: string)
    | OtherPossibilities(count: nat, threshold: real)

  /** The candidate record for one (TransLoc stop, GTFS stop) pair. */
  function CandidateFor(ts: TranslocStop, gs: GtfsStop, dist: Distance): Candidate
  {
    Candidate(dist(ts, gs), gs.id, gs.name, gs.loc)
  }

  /** The unfiltered candidate list for one TransLoc stop: one entry per GTFS
      stop, in GTFS order. */
  function Candidates(ts: TranslocStop, gtfs: seq<GtfsStop>, dist: Distance): seq<Candidate>
  {
    if gtfs == [] then [] else [CandidateFor(ts, gtfs[0], dist)] + Candidates(ts, gtfs[1..], dist)
  }

  lemma {:induction false} CandidatesOnePerStop(ts: TranslocStop, gtfs: seq<GtfsStop>, dist: Distance)
    ensures |Candidates(ts, gtfs, dist)| == |gtfs|
    ensures forall j :: 0 <= j < |gtfs| ==> Candidates(ts, gtfs, dist)[j] == CandidateFor(ts, gtfs[j], dist)
  {
    if gtfs != [] {
      CandidatesOnePerStop(ts, gtfs[1..], dist);
      forall j | 0 < j < |gtfs| ensures Candidates(ts, gtfs, dist)[j] == CandidateFor(ts, gtfs[j], dist) {
        assert gtfs[1..][j - 1] == gtfs[j];
      }
    }
  }

  /** Every distance from `ts` to a GTFS stop is non-negative, as any metric's is. */
  ghost predicate NonNegative(ts: TranslocStop, gtfs: seq<GtfsStop>, dist: Distance)
  {
    forall j :: 0 <= j < |gtfs| ==> 0.0 <= dist(ts, gtfs[j])
  }
}
