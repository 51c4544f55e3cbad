# TransLoc/GTFS stop reconciliation, modelled in Dafny

The rectifier gives the stops of an agency's GTFS feed the stop ids used by the
TransLoc live API. Its one piece of logic is `reconcileStops`. This function is a
nearest-neighbour matcher. It handles each TransLoc stop in input order, as follows:

- it builds one candidate per GTFS stop, holding that stop's distance;
- it keeps the candidates strictly closer than `TOLERANCE` (30 m);
- it sorts them by distance with Python's stable `sorted`;
- it takes the first as the best match;
- it may print an "other possibilities" warning, using `OTHER_POSSIBILITY_FACTOR` (10);
- it writes `best gtfs id -> TransLoc stop id` into a dictionary. A later write to the same key wins.

The project has three modules:

- `stops.dfy` (module `Stops`) holds the records, the two constants and the
  candidate record. It also holds the diagnostics, modelled as `Event` values
  without their text. The distance between a TransLoc stop and a GTFS stop is a
  parameter `dist: (TranslocStop, GtfsStop) -> real`. The matcher only compares
  distances, sorts by them and multiplies the best one by 10, so nothing about
  the distance is assumed. Two lemmas assume distances are non-negative
  (`Stops.NonNegative`), as haversine distances are: `ExactLocationWins` and
  `RankedNonNegative`.
- `ranking.dfy` (module `Ranking`) covers the tolerance filter and the stable sort.
  - The filter is `CloserThan`.
  - The sort is `SortedByDistance`, an insertion sort. It is specified as
    ascending, a permutation, and order-preserving among entries at the same
    distance.
  - The warning is `Ambiguity`.
- `reconciliation.dfy` (module `Reconciliation`) holds two specification
  functions and the imperative members.
  - `Reconciled` gives the outcome of the whole call. `Log` gives the
    diagnostics in order.
  - The imperative members are `BuildCandidates`, `RankCandidates`,
    `ReportStop` and `ReconcileStops`.
    - `BuildCandidates` is the inner `append` loop.
    - `RankCandidates` filters and sorts the candidates.
    - `ReportStop` emits one stop's diagnostics.
    - `ReconcileStops` is the outer loop over the TransLoc stops, which writes
      the map.
  - The lemmas state the matcher's guarantees.

The code fails on a TransLoc stop that has no GTFS stop within tolerance. The
model follows the code as written:

- **Where the code fails.** `matches[0]` at line 73 indexes an empty list,
  which raises and aborts the whole call. No map is returned.
- **What the code evidently intended.** The comment at line 14 says only that
  "a stop will not be found". The `elif` at lines 81-82 prints "No matching
  stops" for such a stop. Both suggest the stop was meant to be skipped.
- **Why the message can never print.** The `elif` is reached only after line
  73 has succeeded, which means `matches` is not empty. The branch is kept
  inside `Ranking.Ambiguity` as an `assert false` branch.
- **What the model returns.** `Failure(IndexOutOfRange)` for the whole call.

The tolerance and the factor are fixed at module level (lines 15 and 18), at 30
and 10, and the model uses the same values.

## Model

| member | source | states |
|---|---|---|
| Stops.CandidatesOnePerStop | recitfy_gtfs.py:56-66 | the unfiltered candidate list has exactly one entry per GTFS stop, in GTFS order, and entry j holds GTFS stop j's id, name, location and distance |
| Reconciliation.BuildCandidates | recitfy_gtfs.py:56-66 | the inner loop returns one candidate per GTFS stop, in input order, with that stop's id and distance |
| Ranking.CloserThanKeeps | recitfy_gtfs.py:69-69 | the filter keeps an entry if and only if it is in the input and its distance is strictly below the bound; the result is never longer than the input; and the kept entries stay in input order with their multiplicity, because filtering any split of the input and concatenating gives the filtered input |
| Ranking.CloserThanAppend | recitfy_gtfs.py:69-69 | filtering a concatenation is the concatenation of the filtered parts, which together with the one-entry cases pins the comprehension down completely |
| Ranking.SortIsOrderedPermutation | recitfy_gtfs.py:71-71 | the sort returns its input reordered: the result is ascending by distance, has the same multiset of entries, and has the same length |
| Ranking.SortAscending | recitfy_gtfs.py:71-71 | the sorted list is in ascending order of distance |
| Ranking.SortPermutes | recitfy_gtfs.py:71-71 | the sorted list is a permutation of its input |
| Ranking.InsertAscending | recitfy_gtfs.py:71-71 | inserting into an ascending list keeps it ascending |
| Ranking.InsertPermutes | recitfy_gtfs.py:71-71 | insertion adds exactly the inserted entry and loses nothing |
| Ranking.SortKeepsTies | recitfy_gtfs.py:71-71 | the sort is stable: for every distance d, the entries at distance d appear in the same relative order as in the input |
| Ranking.InsertKeepsTies | recitfy_gtfs.py:71-71 | an inserted entry goes before the existing entries at its own distance |
| Ranking.SortedHead | recitfy_gtfs.py:71-73 | the head of the sorted list of a non-empty list is the earliest of the entries at minimum distance |
| Ranking.FilterKeepsFirstNearest | recitfy_gtfs.py:69-69 | an entry that is earliest at minimum distance and lies within tolerance is still earliest at minimum distance after filtering |
| Ranking.RankedHead | recitfy_gtfs.py:69-73 | the filtered and sorted list is empty exactly when no entry is within tolerance; otherwise its head is the earliest entry at minimum distance, which lies within tolerance |
| Ranking.SortCountsCloser | recitfy_gtfs.py:71-78 | sorting does not change how many entries lie below a bound |
| Ranking.AmbiguityFires | recitfy_gtfs.py:76-79 | on any ascending list, the warning fires exactly when at least two entries lie below best distance times 10; it then reports that count, which includes the best match and the runner-up; it never fires when the best distance is 0 |
| Ranking.AtLeastTwoCloser | recitfy_gtfs.py:77-78 | in an ascending list, at least two entries lie below t exactly when there is a second entry and it lies below t |
| Reconciliation.RankCandidates | recitfy_gtfs.py:56-71 | the per-stop `matches` list is the filtered, stably sorted candidate list |
| Reconciliation.ReportStop | recitfy_gtfs.py:54-79 | the diagnostics for one stop: the attempt, then, when `matches` is non-empty, the best match and the warning if it fires |
| Reconciliation.ReconcileStops | recitfy_gtfs.py:38-86 | the loop returns exactly the outcome of the specification fold `Reconciled` and reports exactly the diagnostics of `Log`, stopping at the first TransLoc stop that has no match |
| Reconciliation.Step | recitfy_gtfs.py:53-84 | one more TransLoc stop either fails the call (empty `matches`) or writes its best match's id over the map, and adds exactly that stop's diagnostics |
| Reconciliation.FailureIsFinal | recitfy_gtfs.py:73-73 | once a prefix of the TransLoc stops has failed, the whole call fails and nothing more is reported |
| Reconciliation.BestIdIsNearest | recitfy_gtfs.py:57-73 | a TransLoc stop gets no match exactly when every GTFS stop is at distance 30 or more; it is matched to g exactly when g is the id of the earliest GTFS stop at minimum distance and that distance is below 30 |
| Reconciliation.RankedHeadIsNearest | recitfy_gtfs.py:73-76 | when GTFS stop i is nearest within tolerance, the best match lies at exactly stop i's distance |
| Reconciliation.FailsIffSomeStopUnmatched | recitfy_gtfs.py:73-82 | the call fails if and only if some TransLoc stop has no GTFS stop strictly within tolerance; such a stop is never skipped |
| Reconciliation.KeysAreClaims | recitfy_gtfs.py:53-84 | g is a key of the assembled map exactly when some TransLoc stop's decision names g |
| Reconciliation.LastWriterWins | recitfy_gtfs.py:53-84 | each key maps to the TransLoc stop of the last decision that names it; earlier claims are overwritten |
| Reconciliation.AssembleSize | recitfy_gtfs.py:51-84 | the map never has more entries than there are TransLoc stops |
| Reconciliation.MapEntriesAreLastNearestMatches | recitfy_gtfs.py:53-84 | g is a key if and only if g is the nearest in-tolerance GTFS stop of some TransLoc stop; its value is the stop id of the last such TransLoc stop in input order |
| Reconciliation.MapBounds | recitfy_gtfs.py:51-86 | keys are input GTFS ids, values are input TransLoc stop ids, there are at most as many entries as TransLoc stops, and no TransLoc stops give the empty map |
| Reconciliation.MapIgnoresRunnersUp | recitfy_gtfs.py:76-84 | the outcome depends only on which GTFS stop each TransLoc stop is matched to: two distance functions that agree on that give the same outcome, whatever the warning does |
| Reconciliation.RankedAscending | recitfy_gtfs.py:69-71 | the per-stop `matches` list is ascending by distance, for any distance function |
| Reconciliation.RankedNonNegative | recitfy_gtfs.py:59-71 | when every distance is non-negative, as haversine's are, no entry of `matches` has a negative distance |
| Reconciliation.RankedCount | recitfy_gtfs.py:78-78 | counting the entries of `matches` below a bound counts the GTFS stops strictly within both the tolerance and that bound |
| Reconciliation.OtherPossibilitiesReport | recitfy_gtfs.py:76-79 | for a TransLoc stop whose nearest GTFS stop is i, the warning fires exactly when at least two GTFS stops lie strictly within both 30 and ten times stop i's distance; it reports that number, and never fires when that distance is 0 |
| Reconciliation.ExactLocationWins | recitfy_gtfs.py:57-79 | a TransLoc stop at distance 0 from GTFS stop i, with every earlier GTFS stop farther, is matched to stop i, and no warning is printed |

## Left out

- Distance is a parameter. This covers haversine (line 59) and the `* 1000`
  conversion to metres. The docstring's "in km" (line 47) is out of date, since
  line 59 converts to metres.
- Floating point is not modelled. Distances and the threshold are exact reals,
  so rounding in haversine and in `distance * 10` is not captured.
- Coordinate parsing is not modelled. This is the `float(...)` coercion of GTFS
  fields (line 58). GTFS coordinates are modelled as already-parsed reals, so
  a malformed coordinate cannot occur in the model.
- `getTransLocStops` (lines 88-100) is not part of this model. It is an HTTP
  request with JSON decoding.
- `main` (lines 20-36) is not part of this model. It reads and writes the feed
  archive, and its stop-id rewrite at lines 26-27 calls the GTFS library.
- The command-line entry point is not part of this model.
- The text of the printed messages is not modelled, including the `%d`
  truncation of distances and threshold. Diagnostics are `Event` values, in order.
- Python's `sorted` is modelled as an insertion sort. The contracts capture what
  the sort guarantees: it is ascending, a permutation, and stable. They do not
  capture the algorithm the interpreter uses.
- Reconciliation.ExactLocationWins: assumes non-negative distances. Without them,
  a later GTFS stop at a negative distance would be nearer than the stop at
  distance 0. Haversine distances are never negative.
