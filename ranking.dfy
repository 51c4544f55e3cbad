/** Ranking the candidates of one TransLoc stop: the tolerance filter, the
    stable sort by distance and the "other possibilities" diagnostic. */
module Ranking {
  import opened Stops

  /** The candidates strictly closer than `bound`, in their original order
      (the list comprehensions filtering `matches`). */
  function CloserThan(ms: seq<Candidate>, bound: real): seq<Candidate>
  {
    if ms == [] then []
    else if ms[0].distance < bound then [ms[0]] + CloserThan(ms[1..], bound)
    else CloserThan(ms[1..], bound)
  }

  /** The filter keeps exactly the entries below the bound, nothing else, in
      their input order and with their multiplicity: filtering any split of
      the input and concatenating gives the filtered input. */
  lemma {:induction false} CloserThanKeeps(ms: seq<Candidate>, bound: real)
    ensures |CloserThan(ms, bound)| <= |ms|
    ensures forall c :: c in CloserThan(ms, bound) <==> c in ms && c.distance < bound
    ensures forall k :: 0 <= k <= |ms| ==>
              CloserThan(ms, bound) == CloserThan(ms[..k], bound) + CloserThan(ms[k..], bound)
  {
    CloserThanMembers(ms, bound);
    forall k | 0 <= k <= |ms|
      ensures CloserThan(ms, bound) == CloserThan(ms[..k], bound) + CloserThan(ms[k..], bound)
    {
      CloserThanAppend(ms[..k], ms[k..], bound);
      assert ms[..k] + ms[k..] == ms;
    }
  }

  lemma {:induction false} CloserThanMembers(ms: seq<Candidate>, bound: real)
    ensures |CloserThan(ms, bound)| <= |ms|
    ensures forall c :: c in CloserThan(ms, bound) <==> c in ms && c.distance < bound
  {
    if ms != [] {
      CloserThanMembers(ms[1..], bound);
      assert ms == [ms[0]] + ms[1..];
    }
  }

  /** Filtering a concatenation filters each part in turn. */
  lemma {:induction false} CloserThanAppend(a: seq<Candidate>, b: seq<Candidate>, bound: real)
    ensures CloserThan(a + b, bound) == CloserThan(a, bound) + CloserThan(b, bound)
  {
    if a == [] {
      assert a + b == b;
    } else {
      var ab := a + b;
      assert ab != [] && ab[0] == a[0] && ab[1..] == a[1..] + b;
      CloserThanAppend(a[1..], b, bound);
      var head := if a[0].distance < bound then [a[0]] else [];
      assert CloserThan(ab, bound) == head + CloserThan(a[1..] + b, bound);
      assert CloserThan(a, bound) == head + CloserThan(a[1..], bound);
    }
  }

  ghost predicate Ascending(s: seq<Candidate>)
  {
    forall i, j :: 0 <= i < j < |s| ==> s[i].distance <= s[j].distance
  }

  /** Puts `c` in front of the first entry that is not strictly closer, so
      that `c` precedes the entries of `s` at the same distance. */
  function Insert(c: Candidate, s: seq<Candidate>): seq<Candidate>
  {
    if s == [] || c.distance <= s[0].distance then [c] + s
    else [s[0]] + Insert(c, s[1..])
  }

  /** Insertion adds one entry; the new head is `c` when `c` is no farther
      than the old head, and the old head otherwise. */
  lemma {:induction false} InsertShape(c: Candidate, s: seq<Candidate>)
    ensures |Insert(c, s)| == |s| + 1
    ensures Insert(c, s)[0] == if s == [] || c.distance <= s[0].distance then c else s[0]
  {
    if !(s == [] || c.distance <= s[0].distance) {
      InsertShape(c, s[1..]);
    }
  }

  /** Insertion adds `c` and loses nothing. */
  lemma {:induction false} InsertPermutes(c: Candidate, s: seq<Candidate>)
    ensures multiset(Insert(c, s)) == multiset(s) + multiset{c}
  {
    if !(s == [] || c.distance <= s[0].distance) {
      InsertPermutes(c, s[1..]);
      assert s == [s[0]] + s[1..];
    }
  }

  /** Insertion into an ascending list gives an ascending list. */
  lemma {:induction false} InsertAscending(c: Candidate, s: seq<Candidate>)
    requires Ascending(s)
    ensures Ascending(Insert(c, s))
  {
    if s == [] || c.distance <= s[0].distance {
      AscendingCons(c, s);
    } else {
      AscendingTail(s);
      InsertAscending(c, s[1..]);
      InsertShape(c, s[1..]);
      AscendingCons(s[0], Insert(c, s[1..]));
    }
  }

  lemma AscendingTail(s: seq<Candidate>)
    requires s != [] && Ascending(s)
    ensures Ascending(s[1..]) && (|s| > 1 ==> s[0].distance <= s[1].distance)
  {
  }

  lemma AscendingCons(a: Candidate, s: seq<Candidate>)
    requires Ascending(s) && (s != [] ==> a.distance <= s[0].distance)
    ensures Ascending([a] + s)
  {
  }

  /** Python's `sorted` keyed on the distance: a stable sort, here insertion sort. */
  function SortedByDistance(s: seq<Candidate>): seq<Candidate>
  {
    if s == [] then [] else Insert(s[0], SortedByDistance(s[1..]))
  }

  lemma {:induction false} SortAscending(s: seq<Candidate>)
    ensures Ascending(SortedByDistance(s))
  {
    if s != [] {
      SortAscending(s[1..]);
      InsertAscending(s[0], SortedByDistance(s[1..]));
    }
  }

  lemma {:induction false} SortPermutes(s: seq<Candidate>)
    ensures multiset(SortedByDistance(s)) == multiset(s)
  {
    if s != [] {
      SortPermutes(s[1..]);
      InsertPermutes(s[0], SortedByDistance(s[1..]));
      assert s == [s[0]] + s[1..];
    }
  }

  /** The sort returns its input in ascending order of distance. */
  lemma SortIsOrderedPermutation(s: seq<Candidate>)
    ensures Ascending(SortedByDistance(s))
    ensures multiset(SortedByDistance(s)) == multiset(s)
    ensures |SortedByDistance(s)| == |s|
  {
    SortAscending(s);
    SortPermutes(s);
    assert |multiset(SortedByDistance(s))| == |multiset(s)|;
  }

  /** The entries of `s` at exactly distance `d`, in order. */
  function AtDistance(s: seq<Candidate>, d: real): seq<Candidate>
  {
    if s == [] then []
    else (if s[0].distance == d then [s[0]] else []) + AtDistance(s[1..], d)
  }

  lemma {:induction false} InsertKeepsTies(c: Candidate, s: seq<Candidate>, d: real)
    ensures AtDistance(Insert(c, s), d) == (if c.distance == d then [c] else []) + AtDistance(s, d)
  {
    var tie := if c.distance == d then [c] else [];
    if s == [] || c.distance <= s[0].distance {
      var r := [c] + s;
      assert Insert(c, s) == r;
      assert r[0] == c && r[1..] == s;
      assert AtDistance(r, d) == tie + AtDistance(s, d);
    } else {
      var rest := Insert(c, s[1..]);
      var r := [s[0]] + rest;
      var head := if s[0].distance == d then [s[0]] else [];
      assert Insert(c, s) == r;
      assert r[0] == s[0] && r[1..] == rest;
      InsertKeepsTies(c, s[1..], d);
      assert AtDistance(r, d) == head + (tie + AtDistance(s[1..], d));
      assert AtDistance(s, d) == head + AtDistance(s[1..], d);
      if c.distance == d {
        assert head == [];
      } else {
        assert tie == [];
      }
    }
  }

  /** Stability: entries at equal distance keep their relative input order.
      Together with `Ascending` and the multiset equality this pins the
      result down completely. */
  lemma {:induction false} SortKeepsTies(s: seq<Candidate>, d: real)
    ensures AtDistance(SortedByDistance(s), d) == AtDistance(s, d)
  {
    if s != [] {
      SortKeepsTies(s[1..], d);
      InsertKeepsTies(s[0], SortedByDistance(s[1..]), d);
    }
  }

  /** `s[i]` is nearest of all, and every earlier entry is strictly farther. */
  ghost predicate IsFirstNearest(s: seq<Candidate>, i: int)
  {
    && 0 <= i < |s|
    && (forall j :: 0 <= j < |s| ==> s[i].distance <= s[j].distance)
    && (forall j :: 0 <= j < i ==> s[i].distance < s[j].distance)
  }

  lemma FirstNearestUnique(s: seq<Candidate>, i: int, k: int)
    requires IsFirstNearest(s, i) && IsFirstNearest(s, k)
    ensures i == k
  {
    assert s[i].distance <= s[k].distance && s[k].distance <= s[i].distance;
  }

  /** The head of the stable sort is the earliest of the nearest entries. */
  lemma {:induction false} SortedHead(s: seq<Candidate>)
    requires s != []
    ensures SortedByDistance(s) != []
    ensures exists i :: IsFirstNearest(s, i) && SortedByDistance(s)[0] == s[i]
  {
    var t := SortedByDistance(s[1..]);
    InsertShape(s[0], t);
    if |s| == 1 {
      assert IsFirstNearest(s, 0);
    } else {
      SortedHead(s[1..]);
      var k :| IsFirstNearest(s[1..], k) && t[0] == s[1..][k];
      FirstNearestCons(s, k);
    }
  }

  /** Extending a sequence at the front keeps the first-nearest entry, or
      makes the new front entry first-nearest when it is at least as near. */
  lemma FirstNearestCons(s: seq<Candidate>, k: int)
    requires |s| > 1 && IsFirstNearest(s[1..], k)
    ensures s[0].distance <= s[k + 1].distance ==> IsFirstNearest(s, 0)
    ensures s[0].distance > s[k + 1].distance ==> IsFirstNearest(s, k + 1)
  {
  }

  /** The tolerance filter keeps a first-nearest entry that lies within tolerance. */
  lemma {:induction false} FilterKeepsFirstNearest(s: seq<Candidate>, i: int)
    requires IsFirstNearest(s, i) && s[i].distance < TOLERANCE
    ensures exists k :: IsFirstNearest(CloserThan(s, TOLERANCE), k) && CloserThan(s, TOLERANCE)[k] == s[i]
  {
    var f := CloserThan(s, TOLERANCE);
    var rest := CloserThan(s[1..], TOLERANCE);
    CloserThanMembers(s[1..], TOLERANCE);
    if i == 0 {
      assert f == [s[0]] + rest;
      forall c | c in rest ensures s[0].distance <= c.distance {
        var j :| 0 <= j < |s[1..]| && s[1..][j] == c;
        assert s[j + 1] == c;
      }
      NearestInFront(s[0], rest);
    } else {
      FirstNearestTail(s, i);
      FilterKeepsFirstNearest(s[1..], i - 1);
      var k :| IsFirstNearest(rest, k) && rest[k] == s[1..][i - 1];
      if s[0].distance < TOLERANCE {
        assert f == [s[0]] + rest;
        FirstNearestPrepend(s[0], rest, k);
      } else {
        assert f == rest;
      }
    }
  }

  lemma FirstNearestTail(s: seq<Candidate>, i: int)
    requires IsFirstNearest(s, i) && i > 0
    ensures IsFirstNearest(s[1..], i - 1) && s[1..][i - 1] == s[i]
  {
  }

  lemma NearestInFront(a: Candidate, f: seq<Candidate>)
    requires forall c :: c in f ==> a.distance <= c.distance
    ensures IsFirstNearest([a] + f, 0)
  {
  }

  lemma FirstNearestPrepend(a: Candidate, f: seq<Candidate>, k: int)
    requires IsFirstNearest(f, k) && a.distance > f[k].distance
    ensures IsFirstNearest([a] + f, k + 1) && ([a] + f)[k + 1] == f[k]
  {
  }

  /** The filtered, sorted list is empty exactly when nothing is within
      tolerance; otherwise its head is the earliest nearest entry, which
      lies within tolerance. */
  lemma RankedHead(s: seq<Candidate>)
    ensures SortedByDistance(CloserThan(s, TOLERANCE)) == [] <==>
              forall j :: 0 <= j < |s| ==> s[j].distance >= TOLERANCE
    ensures SortedByDistance(CloserThan(s, TOLERANCE)) != [] ==>
              exists i :: IsFirstNearest(s, i) && s[i].distance < TOLERANCE &&
                          SortedByDistance(CloserThan(s, TOLERANCE))[0] == s[i]
  {
    var f := CloserThan(s, TOLERANCE);
    var r := SortedByDistance(f);
    CloserThanMembers(s, TOLERANCE);
    SortIsOrderedPermutation(f);
    if f == [] {
      assert r == [];
      forall j | 0 <= j < |s| ensures s[j].distance >= TOLERANCE {
        assert s[j] in s;
      }
    } else {
      assert f[0] in s;
      SortedHead(s);
      var i :| IsFirstNearest(s, i) && SortedByDistance(s)[0] == s[i];
      var j0 :| 0 <= j0 < |s| && s[j0] == f[0];
      assert s[i].distance <= s[j0].distance;
      FilterKeepsFirstNearest(s, i);
      var k :| IsFirstNearest(f, k) && f[k] == s[i];
      SortedHead(f);
      var k' :| IsFirstNearest(f, k') && r[0] == f[k'];
      FirstNearestUnique(f, k, k');
    }
  }

  lemma {:induction false} InsertCountsCloser(c: Candidate, s: seq<Candidate>, b: real)
    ensures |CloserThan(Insert(c, s), b)| == |CloserThan(s, b)| + (if c.distance < b then 1 else 0)
  {
    if s == [] || c.distance <= s[0].distance {
      assert ([c] + s)[1..] == s;
    } else {
      var rest := Insert(c, s[1..]);
      assert ([s[0]] + rest)[1..] == rest;
      InsertCountsCloser(c, s[1..], b);
    }
  }

  /** Sorting does not change how many entries lie below a bound. */
  lemma {:induction false} SortCountsCloser(s: seq<Candidate>, b: real)
    ensures |CloserThan(SortedByDistance(s), b)| == |CloserThan(s, b)|
  {
    if s != [] {
      SortCountsCloser(s[1..], b);
      InsertCountsCloser(s[0], SortedByDistance(s[1..]), b);
    }
  }

  /** The "other possibilities" diagnostic for a sorted, filtered, non-empty
      list; its head is the best match. */
  function Ambiguity(ranked: seq<Candidate>): Option<Event>
    requires ranked != []
  {
    var threshold := ranked[0].distance * OTHER_POSSIBILITY_FACTOR;
    if |ranked| > 1 && ranked[1].distance < threshold then
      Some(OtherPossibilities(|CloserThan(ranked, threshold)|, threshold))
    else if |ranked| == 0 then
      // the "no matching stops" branch: never reached, the list is non-empty here
      assert false; None
    else None
  }

  /** On an ascending list, the diagnostic fires exactly when at least two
      entries lie below the threshold; when it fires, the count includes the
      best match and the runner-up; at best distance 0 it never fires. */
  lemma {:induction false} AmbiguityFires(ranked: seq<Candidate>)
    requires ranked != [] && Ascending(ranked)
    ensures var t := ranked[0].distance * OTHER_POSSIBILITY_FACTOR;
            && (Ambiguity(ranked).Some? <==> |CloserThan(ranked, t)| >= 2)
            && (Ambiguity(ranked).Some? ==>
                  Ambiguity(ranked) == Some(OtherPossibilities(|CloserThan(ranked, t)|, t)) &&
                  ranked[0] in CloserThan(ranked, t) && ranked[1] in CloserThan(ranked, t))
            && (ranked[0].distance == 0.0 ==> Ambiguity(ranked).None?)
  {
    var t := ranked[0].distance * OTHER_POSSIBILITY_FACTOR;
    AtLeastTwoCloser(ranked, t);
    if |ranked| > 1 && ranked[1].distance < t {
      assert ranked[1] in ranked;
      assert ranked[0].distance < t;
    }
  }

  /** In an ascending list, two or more entries lie below `t` exactly when
      the second one does. */
  lemma AtLeastTwoCloser(s: seq<Candidate>, t: real)
    requires s != [] && Ascending(s)
    ensures |CloserThan(s, t)| >= 2 <==> |s| > 1 && s[1].distance < t
  {
    var tail := s[1..];
    assert s == [s[0]] + tail;
    if |s| > 1 && s[1].distance < t {
      assert tail[0] == s[1];
      assert CloserThan(tail, t) == [tail[0]] + CloserThan(tail[1..], t);
      assert CloserThan(s, t) == [s[0]] + CloserThan(tail, t);
    } else {
      forall j | 0 <= j < |tail| ensures t <= tail[j].distance {
        assert tail[j] == s[1 + j];
        assert s[1].distance <= s[1 + j].distance;
      }
      NoneCloser(tail, t);
    }
  }

  lemma {:induction false} NoneCloser(s: seq<Candidate>, t: real)
    requires forall j :: 0 <= j < |s| ==> t <= s[j].distance
    ensures CloserThan(s, t) == []
  {
    if s != [] {
      NoneCloser(s[1..], t);
    }
  }
}
