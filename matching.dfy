/** `run_matching_algorithm` and `run_simple_matching_algorithm` (matching.py)
    as the step-by-step procedures they are: loops that decrement the
    capacity table, record sessions in `session_assignments` and append to
    `matches`. Each loop is proved equal to its specification in module
    Allocation, and the runs' guarantees follow from the lemmas there. */
module Matching {
  import opened Schema
  import opened Bids
  import opened Allocation

  /** Builds `school_capacities` from the six capacity columns of each school. */
  method BuildCapacities(schools: seq<School>) returns (caps: seq<seq<int>>)
    ensures caps == InitialCapacities(schools)
  {
    caps := [];
    for i := 0 to |schools|
      invariant |caps| == i
      invariant forall k :: 0 <= k < i ==> caps[k] == schools[k].CapacityRow()
    {
      caps := caps + [schools[i].CapacityRow()];
    }
  }

  /** One iteration of the bid loop: skip a student holding six sessions,
      otherwise try sessions 1..6 in order and take the first one the student
      lacks and the school has a seat in. */
  method ProcessBid(caps: seq<seq<int>>, sessions: map<nat, set<nat>>, matches: seq<Match>, b: Bid)
    returns (caps': seq<seq<int>>, sessions': map<nat, set<nat>>, matches': seq<Match>)
    requires Shaped(caps) && b.school < |caps|
    ensures Run(caps', sessions', matches') == PlaceBid(Run(caps, sessions, matches), b)
  {
    caps', sessions', matches' := caps, sessions, matches;
    if b.student in sessions && |sessions[b.student]| >= 6 {
      return;
    }
    var n := 1;
    while n <= 6
      invariant 1 <= n <= 7
      invariant OpenSession(caps[b.school], HeldBy(sessions, b.student), n)
                == OpenSession(caps[b.school], HeldBy(sessions, b.student), 1)
    {
      if !(b.student in sessions && n in sessions[b.student]) && caps[b.school][n - 1] > 0 {
        caps' := caps[b.school := caps[b.school][n - 1 := caps[b.school][n - 1] - 1]];
        var held := if b.student in sessions then sessions[b.student] else {};
        sessions' := sessions[b.student := held + {n}];
        matches' := matches + [Match(b.student, b.school, n, b.points)];
        return;
      }
      n := n + 1;
    }
  }

  /** The bid loop over the sorted bids, from empty assignments. */
  method AssignBids(caps0: seq<seq<int>>, bids: seq<Bid>)
    returns (caps: seq<seq<int>>, sessions: map<nat, set<nat>>, matches: seq<Match>)
    requires Shaped(caps0) && forall b <- bids :: b.school < |caps0|
    ensures Run(caps, sessions, matches) == PlaceAll(Run(caps0, map[], []), bids)
  {
    caps, sessions, matches := caps0, map[], [];
    for i := 0 to |bids|
      invariant Run(caps, sessions, matches) == PlaceAll(Run(caps0, map[], []), bids[..i])
    {
      assert bids[..i + 1][..i] == bids[..i];
      caps, sessions, matches := ProcessBid(caps, sessions, matches, bids[i]);
    }
    assert bids[..|bids|] == bids;
  }

  /** One pass of the fallback `while` body: sessions 1..6 in order, and for
      the first one the student lacks, schools in table order. */
  method FindFallbackSeat(caps: seq<seq<int>>, held: set<nat>) returns (pick: Option<(nat, nat)>)
    requires Shaped(caps)
    ensures pick == FallbackPick(caps, held, 1)
  {
    var n := 1;
    while n <= 6
      invariant 1 <= n <= 7
      invariant FallbackPick(caps, held, n) == FallbackPick(caps, held, 1)
    {
      if n !in held {
        var sc := 0;
        while sc < |caps|
          invariant sc <= |caps|
          invariant SeatSchool(caps, n, sc) == SeatSchool(caps, n, 0)
        {
          if caps[sc][n - 1] > 0 {
            return Some((n, sc));
          }
          sc := sc + 1;
        }
      }
      n := n + 1;
    }
    return None;
  }

  /** The fallback `while` loop for one student: pick and take seats until
      six sessions are held. Where the source would loop forever (no pick
      left), this stops and reports `stuck`. */
  method FillOneStudent(caps: seq<seq<int>>, matches: seq<Match>, s: nat, held: set<nat>)
    returns (caps': seq<seq<int>>, matches': seq<Match>, held': set<nat>, stuck: bool)
    requires Shaped(caps)
    ensures Fill(caps', matches', held', stuck) == FillStudent(caps, matches, s, held)
  {
    caps', matches', held', stuck := caps, matches, held, false;
    while |held'| < 6
      invariant Shaped(caps')
      invariant FillStudent(caps', matches', s, held') == FillStudent(caps, matches, s, held)
      decreases 6 - |held'|
    {
      var pick := FindFallbackSeat(caps', held');
      if pick.None? {
        stuck := true;
        return;
      }
      var (n, sc) := pick.value;
      ghost var next := FillStudent(Seat(caps', sc, n), matches' + [Match(s, sc, n, 0)], s, held' + {n});
      assert FillStudent(caps', matches', s, held') == next;
      caps' := caps'[sc := caps'[sc][n - 1 := caps'[sc][n - 1] - 1]];
      matches' := matches' + [Match(s, sc, n, 0)];
      held' := held' + {n};
    }
  }

  /** The fallback loop over students 0 .. nStudents-1. A student with a key
      in `session_assignments` has that key's set updated; a student whose
      loop finds no seat for a missing session is reported in `short`. */
  method FillMissing(nStudents: nat, caps0: seq<seq<int>>, sessions0: map<nat, set<nat>>, matches0: seq<Match>)
    returns (caps: seq<seq<int>>, sessions: map<nat, set<nat>>, matches: seq<Match>, short: seq<nat>)
    requires Shaped(caps0)
    ensures Outcome(Run(caps, sessions, matches), short) == FillUpTo(Run(caps0, sessions0, matches0), nStudents)
  {
    caps, sessions, matches, short := caps0, sessions0, matches0, [];
    for s := 0 to nStudents
      invariant Shaped(caps)
      invariant Outcome(Run(caps, sessions, matches), short) == FillUpTo(Run(caps0, sessions0, matches0), s)
    {
      ghost var before := Outcome(Run(caps, sessions, matches), short);
      var held := if s in sessions then sessions[s] else {};
      assert held == HeldBy(sessions, s);
      var stuck;
      caps, matches, held, stuck := FillOneStudent(caps, matches, s, held);
      ghost var f := Fill(caps, matches, held, stuck);
      assert FillNext(before, s) == Outcome(Run(f.caps, if s in before.run.sessions then before.run.sessions[s := f.held] else before.run.sessions, f.matches),
                                            before.short + (if f.stuck then [s] else []));
      if s in sessions {
        sessions := sessions[s := held];
      }
      if stuck {
        short := short + [s];
      }
      assert Outcome(Run(caps, sessions, matches), short) == FillNext(before, s);
    }
  }

  // ---------------------------------------------------------------------
  // Statistics (matching.py:156-177, 388-409).

  /** `average_preference_score`: the score total over the number of matches,
      0 without matches. */
  function AverageScore(ms: seq<Match>): (q: Quotient)
    ensures q == Zero <==> |ms| == 0
  {
    if |ms| == 0 then Zero else Ratio(ScoreSum(ms), |ms|)
  }

  /** When every score lies in lo..hi, the total lies between lo and hi
      times the number of matches. */
  lemma {:induction false} ScoreSumBounds(ms: seq<Match>, lo: int, hi: int)
    requires forall m <- ms :: lo <= m.score <= hi
    ensures lo * |ms| <= ScoreSum(ms) <= hi * |ms|
  {
    if |ms| > 0 {
      var init := ms[..|ms| - 1];
      assert forall m <- init :: m in ms;
      ScoreSumBounds(init, lo, hi);
      assert ms[|ms| - 1] in ms;
      MulSucc(lo, |init|);
      MulSucc(hi, |init|);
    }
  }

  lemma MulSucc(c: int, k: nat)
    ensures c * (k + 1) == c * k + c
  {
  }

  /** When every score lies in lo..hi, so does the average. */
  lemma AverageScoreBounds(ms: seq<Match>, lo: int, hi: int)
    requires forall m <- ms :: lo <= m.score <= hi
    ensures AverageScore(ms).Ratio? ==> lo * AverageScore(ms).den <= AverageScore(ms).num <= hi * AverageScore(ms).den
  {
    ScoreSumBounds(ms, lo, hi);
  }

  /** A fill rate: matches at the school over the sum of a row of
      capacities, 0 when that sum is not positive. The source divides by the
      row of capacities REMAINING after the run; the intended row is the
      school's initial capacities. */
  function FillRate(capacity: seq<int>, filled: nat): (q: Quotient)
    requires |capacity| == 6
    ensures q.Ratio? <==> RowSum(capacity) > 0
  {
    if RowSum(capacity) > 0 then Ratio(filled, RowSum(capacity)) else Zero
  }

  /** With every session number in 1..6, the matches at a school are the sum
      of its matches per session. */
  lemma {:induction false} AtSchoolSplit(ms: seq<Match>, sc: nat)
    requires forall m <- ms :: IsSession(m.session)
    ensures AtSchool(ms, sc) == CountAt(ms, sc, 1) + CountAt(ms, sc, 2) + CountAt(ms, sc, 3)
                                + CountAt(ms, sc, 4) + CountAt(ms, sc, 5) + CountAt(ms, sc, 6)
  {
    if |ms| > 0 {
      var init, m := ms[..|ms| - 1], ms[|ms| - 1];
      assert ms == init + [m];
      assert m in ms;
      assert forall x <- init :: x in ms;
      AtSchoolSplit(init, sc);
      AppendMatch(init, m);
    }
  }

  /** The divisor the source uses is the initial capacity minus the seats
      filled, not the capacity. */
  lemma FillRateDivisorAsWritten(caps0: seq<seq<int>>, caps: seq<seq<int>>, ms: seq<Match>, sc: nat)
    requires Accounted(caps0, caps, ms) && sc < |caps0|
    ensures RowSum(caps[sc]) == RowSum(caps0[sc]) - AtSchool(ms, sc)
  {
    AtSchoolSplit(ms, sc);
    assert IsSession(1) && IsSession(2) && IsSession(3) && IsSession(4) && IsSession(5) && IsSession(6);
  }

  /** A school that is booked out (no seat left in any session) after
      receiving matches is reported by the source with fill rate 0, while
      the intended rate is all seats filled. */
  lemma FillRateAsWrittenMissesFullSchool(caps0: seq<seq<int>>, caps: seq<seq<int>>, ms: seq<Match>, sc: nat)
    requires Accounted(caps0, caps, ms) && sc < |caps0|
    requires forall n :: IsSession(n) ==> caps[sc][n - 1] == 0
    requires AtSchool(ms, sc) > 0
    ensures FillRate(caps[sc], AtSchool(ms, sc)) == Zero
    ensures FillRate(caps0[sc], AtSchool(ms, sc)) == Ratio(AtSchool(ms, sc), AtSchool(ms, sc))
  {
    FillRateDivisorAsWritten(caps0, caps, ms, sc);
    assert IsSession(1) && IsSession(2) && IsSession(3) && IsSession(4) && IsSession(5) && IsSession(6);
  }

  /** With non-negative capacities a school never has more matches than its
      total capacity, so the intended fill rate is at most one (and a school
      without capacity has no matches). */
  lemma FillRateAtMostOne(caps0: seq<seq<int>>, caps: seq<seq<int>>, ms: seq<Match>, sc: nat)
    requires Accounted(caps0, caps, ms) && sc < |caps0|
    requires forall n :: IsSession(n) ==> caps0[sc][n - 1] >= 0
    ensures AtSchool(ms, sc) <= RowSum(caps0[sc])
    ensures var q := FillRate(caps0[sc], AtSchool(ms, sc));
            (q.Ratio? ==> 0 <= q.num <= q.den) && (q.Zero? ==> AtSchool(ms, sc) == 0)
  {
    FillRateDivisorAsWritten(caps0, caps, ms, sc);
    assert IsSession(1) && IsSession(2) && IsSession(3) && IsSession(4) && IsSession(5) && IsSession(6);
  }

  /** The students that have at least one match. */
  function StudentsOf(ms: seq<Match>): set<nat> {
    set m | m in ms :: m.student
  }

  /** `session_assignments` has a key for exactly the students with a match. */
  lemma TrackedStudents(sessions: map<nat, set<nat>>, ms: seq<Match>)
    requires Tracks(sessions, ms)
    ensures sessions.Keys == StudentsOf(ms)
  {
    forall s | s in StudentsOf(ms)
      ensures s in sessions
    {
      var m :| m in ms && m.student == s;
      var i :| 0 <= i < |ms| && ms[i] == m;
      HeldMember(ms, s, m.session);
    }
    forall s | s in sessions
      ensures s in StudentsOf(ms)
    {
      var n :| n in Held(ms, s);
      HeldMember(ms, s, n);
      var i :| 0 <= i < |ms| && ms[i].student == s && ms[i].session == n;
      assert ms[i] in ms;
    }
  }

  /** A set of student numbers below n has at most n members. */
  lemma {:induction false} BoundedStudents(students: set<nat>, n: nat)
    requires forall s <- students :: s < n
    ensures |students| <= n
  {
    if n > 0 {
      BoundedStudents(students - {n - 1}, n - 1);
    } else {
      assert students == {};
    }
  }

  /** The `statistics` block of a run's result. */
  datatype Statistics = Statistics(
    totalStudents: nat, matchedStudents: nat, unmatchedStudents: int,
    averageScore: Quotient, fillRates: seq<Quotient>)

  /** Computes the statistics of a finished run: `matched_students` is the
      number of keys of `session_assignments`, and the fill rates divide by
      each school's initial capacity. */
  method ComputeStatistics(nStudents: nat, caps0: seq<seq<int>>, sessions: map<nat, set<nat>>, matches: seq<Match>)
    returns (stats: Statistics)
    requires Shaped(caps0)
    ensures stats.totalStudents == nStudents && stats.matchedStudents == |sessions.Keys|
    ensures stats.unmatchedStudents == nStudents - |sessions.Keys|
    ensures stats.averageScore == AverageScore(matches)
    ensures |stats.fillRates| == |caps0|
    ensures forall sc :: 0 <= sc < |caps0| ==> stats.fillRates[sc] == FillRate(caps0[sc], AtSchool(matches, sc))
  {
    var rates: seq<Quotient> := [];
    for sc := 0 to |caps0|
      invariant |rates| == sc
      invariant forall k :: 0 <= k < sc ==> rates[k] == FillRate(caps0[k], AtSchool(matches, k))
    {
      rates := rates + [FillRate(caps0[sc], AtSchool(matches, sc))];
    }
    var matched := |sessions.Keys|;
    stats := Statistics(nStudents, matched, nStudents - matched, AverageScore(matches), rates);
  }

  // ---------------------------------------------------------------------
  // The two runs.

  /** No more matches than the (non-negative part of the) capacity. */
  function SeatsOf(capacity: int): nat {
    if capacity > 0 then capacity else 0
  }

  /** The bid phase from fresh capacities keeps the ledger and the
      bookkeeping, and its matches come from the bids. */
  lemma BidPhase(caps0: seq<seq<int>>, bids: seq<Bid>)
    requires Shaped(caps0) && forall b <- bids :: b.school < |caps0|
    ensures var r := PlaceAll(Run(caps0, map[], []), bids);
            Accounted(caps0, r.caps, r.matches) && OneSessionEach(r.matches) && Tracks(r.sessions, r.matches)
            && FromBids(r.matches, bids)
            && (OneBidPerPair(bids) ==> NoRepeatedSchool(r.matches))
  {
    AccountedInitially(caps0);
    PlaceAllKeeps(caps0, Run(caps0, map[], []), bids);
    PlaceAllFromBids(Run(caps0, map[], []), bids);
  }

  /** The bids of `run_matching_algorithm`, sorted, and what they promise:
      every bid is for a known student and school and carries that pair's
      positive points and tiebreak key, every such pair has its bid, and no
      pair has two bids. */
  method SortedBids(nStudents: nat, schools: seq<School>, prefs: seq<Preference>, tiebreak: (nat, nat) -> int)
    returns (sorted: seq<Bid>)
    ensures SortedByKey(sorted) && OneBidPerPair(sorted)
    ensures forall b <- sorted :: b.student < nStudents && b.school < |schools|
              && b.points == PointsFor(prefs, b.student, b.school) > 0
              && b.tiebreak == tiebreak(b.student, b.school)
    ensures forall s: nat, sc: nat :: s < nStudents && sc < |schools| && PointsFor(prefs, s, sc) > 0 ==>
              Bid(s, sc, PointsFor(prefs, s, sc), tiebreak(s, sc)) in sorted
  {
    var table := IndexPoints(prefs);
    var bids := BuildBids(nStudents, |schools|, table, tiebreak);
    sorted := SortBids(bids);
    SortKeepsOneBidPerPair(bids);
    forall b | b in sorted
      ensures b in bids
    {
      assert b in multiset(sorted);
    }
    forall s: nat, sc: nat | s < nStudents && sc < |schools| && PointsFor(prefs, s, sc) > 0
      ensures Bid(s, sc, PointsFor(prefs, s, sc), tiebreak(s, sc)) in sorted
    {
      var b := Bid(s, sc, Lookup(table, s, sc), tiebreak(s, sc));
      assert b in bids;
      assert b in multiset(bids);
      assert b in sorted;
    }
  }

  /** A student the fallback leaves short lacks a session that is booked
      out at every school: each school has as many matches there as it had
      seats. */
  lemma ShortBookedOut(schools: seq<School>, caps0: seq<seq<int>>, r: Run, o: Outcome, n: nat)
    requires caps0 == InitialCapacities(schools) && FallbackInv(caps0, r, o, n)
    ensures forall s <- o.short :: exists k :: (IsSession(k) && k !in Held(o.run.matches, s)
              && forall sc :: 0 <= sc < |schools| ==> CountAt(o.run.matches, sc, k) == SeatsOf(schools[sc].Capacity(k)))
  {
    forall s | s in o.short
      ensures exists k :: (IsSession(k) && k !in Held(o.run.matches, s)
                && forall sc :: 0 <= sc < |schools| ==> CountAt(o.run.matches, sc, k) == SeatsOf(schools[sc].Capacity(k)))
    {
      var k :| IsSession(k) && k !in Held(o.run.matches, s) && NoSeat(o.run.caps, k);
      forall sc | 0 <= sc < |schools|
        ensures CountAt(o.run.matches, sc, k) == SeatsOf(schools[sc].Capacity(k))
      {
        NeverOverbooked(caps0, o.run.caps, o.run.matches, sc, k);
      }
    }
  }

  /** `run_matching_algorithm`: bids, bid phase, fallback fill and statistics.
      `sorted` is the sorted bid list; the matches are the bid phase's over it
      (the first `bidPhase` of them) followed by the fallback's. */
  method RunMatchingAlgorithm(nStudents: nat, schools: seq<School>, prefs: seq<Preference>, tiebreak: (nat, nat) -> int)
    returns (matches: seq<Match>, stats: Statistics, short: seq<nat>, ghost sorted: seq<Bid>, ghost bidPhase: nat)
    ensures SortedByKey(sorted) && OneBidPerPair(sorted)
    ensures forall b <- sorted :: b.student < nStudents && b.school < |schools|
              && b.points == PointsFor(prefs, b.student, b.school) > 0
              && b.tiebreak == tiebreak(b.student, b.school)
    ensures forall s: nat, sc: nat :: s < nStudents && sc < |schools| && PointsFor(prefs, s, sc) > 0 ==>
              Bid(s, sc, PointsFor(prefs, s, sc), tiebreak(s, sc)) in sorted
    ensures var placed := PlaceAll(Run(InitialCapacities(schools), map[], []), sorted);
            var o := FillUpTo(placed, nStudents);
            bidPhase == |placed.matches| && matches == o.run.matches && short == o.short
    ensures forall s <- short :: exists n :: (IsSession(n) && n !in Held(matches, s)
              && forall sc :: 0 <= sc < |schools| ==> CountAt(matches, sc, n) == SeatsOf(schools[sc].Capacity(n)))
    ensures bidPhase <= |matches|
    ensures forall m <- matches :: m.student < nStudents && m.school < |schools| && IsSession(m.session)
    ensures forall sc, n :: 0 <= sc < |schools| && IsSession(n) ==>
              CountAt(matches, sc, n) <= SeatsOf(schools[sc].Capacity(n))
    ensures OneSessionEach(matches)
    ensures forall s :: CountOf(matches, s) <= 6
    ensures forall s <- short :: s < nStudents
    ensures forall s: nat :: s < nStudents && s !in short ==> CountOf(matches, s) == 6
    ensures forall i :: 0 <= i < bidPhase ==>
              matches[i].score == PointsFor(prefs, matches[i].student, matches[i].school) > 0
    ensures NoRepeatedSchool(matches[..bidPhase])
    ensures forall i :: bidPhase <= i < |matches| ==> matches[i].score == 0
    ensures stats.totalStudents == nStudents
    ensures stats.matchedStudents == |StudentsOf(matches[..bidPhase])|
    ensures stats.unmatchedStudents == nStudents - stats.matchedStudents >= 0
    ensures stats.averageScore == AverageScore(matches)
    ensures |stats.fillRates| == |schools|
    ensures forall sc :: 0 <= sc < |schools| ==>
              stats.fillRates[sc] == FillRate(schools[sc].CapacityRow(), AtSchool(matches, sc))
  {
    var bids := SortedBids(nStudents, schools, prefs, tiebreak);
    sorted := bids;
    var caps0 := BuildCapacities(schools);
    var caps, sessions, placed := AssignBids(caps0, bids);
    BidPhase(caps0, bids);
    var r := Run(caps, sessions, placed);
    bidPhase := |placed|;
    TrackedStudents(sessions, placed);

    var caps', sessions', short' := caps, sessions, [];
    caps', sessions', matches, short' := FillMissing(nStudents, caps, sessions, placed);
    short := short';
    FillUpToKeeps(caps0, r, nStudents);
    var o := FillUpTo(r, nStudents);
    assert o.run.matches == matches && o.short == short && o.run.sessions == sessions';
    ShortBookedOut(schools, caps0, r, o, nStudents);

    // The ledger, one session each and at most six each.
    forall sc, n | 0 <= sc < |schools| && IsSession(n)
      ensures CountAt(matches, sc, n) <= SeatsOf(schools[sc].Capacity(n))
    {
      NeverOverbooked(caps0, caps', matches, sc, n);
    }
    forall s
      ensures CountOf(matches, s) <= 6
    {
      AtMostSixEach(matches, s);
    }
    forall s: nat | s < nStudents && s !in short
      ensures CountOf(matches, s) == 6
    {
      AtMostSixEach(matches, s);
    }

    // The two phases.
    assert matches[..bidPhase] == placed;
    forall i | 0 <= i < bidPhase
      ensures matches[i].score == PointsFor(prefs, matches[i].student, matches[i].school) > 0
    {
      assert placed[i] in placed;
    }
    forall m | m in matches
      ensures m.student < nStudents
    {
      var i :| 0 <= i < |matches| && matches[i] == m;
      if i < bidPhase {
        assert placed[i] in placed;
      }
    }

    // Statistics.
    stats := ComputeStatistics(nStudents, caps0, sessions', matches);
    forall s | s in sessions'.Keys
      ensures s < nStudents
    {
      var m :| m in placed && m.student == s;
    }
    BoundedStudents(sessions'.Keys, nStudents);
  }

  /** `run_simple_matching_algorithm`: each student's first six sorted bids,
      the bid phase over them, and statistics; there is no fallback. */
  method RunSimpleMatchingAlgorithm(nStudents: nat, schools: seq<School>, prefs: seq<Preference>, tiebreak: (nat, nat) -> int)
    returns (matches: seq<Match>, stats: Statistics, ghost sorted: seq<Bid>)
    ensures SortedByKey(sorted) && OneBidPerPair(sorted)
    ensures forall b <- sorted :: b.student < nStudents && b.school < |schools|
              && b.points == PointsFor(prefs, b.student, b.school) > 0
              && b.tiebreak == tiebreak(b.student, b.school)
    ensures forall s: nat, sc: nat :: s < nStudents && sc < |schools| && PointsFor(prefs, s, sc) > 0 ==>
              Bid(s, sc, PointsFor(prefs, s, sc), tiebreak(s, sc)) in sorted
    ensures matches == PlaceAll(Run(InitialCapacities(schools), map[], []), TopSix(sorted)).matches
    ensures forall m <- matches :: m.student < nStudents && m.school < |schools| && IsSession(m.session)
    ensures forall sc, n :: 0 <= sc < |schools| && IsSession(n) ==>
              CountAt(matches, sc, n) <= SeatsOf(schools[sc].Capacity(n))
    ensures OneSessionEach(matches) && NoRepeatedSchool(matches)
    ensures forall s :: CountOf(matches, s) <= 6
    ensures forall m <- matches :: m.score == PointsFor(prefs, m.student, m.school) > 0
    ensures stats.totalStudents == nStudents
    ensures stats.matchedStudents == |StudentsOf(matches)|
    ensures stats.unmatchedStudents == nStudents - stats.matchedStudents >= 0
    ensures stats.averageScore == AverageScore(matches)
    ensures |stats.fillRates| == |schools|
    ensures forall sc :: 0 <= sc < |schools| ==>
              stats.fillRates[sc] == FillRate(schools[sc].CapacityRow(), AtSchool(matches, sc))
  {
    var bids := SortedBids(nStudents, schools, prefs, tiebreak);
    sorted := bids;
    var kept := KeepTopSix(bids);
    TopSixSubsequence(bids);
    var caps0 := BuildCapacities(schools);
    var caps, sessions;
    caps, sessions, matches := AssignBids(caps0, kept);
    BidPhase(caps0, kept);
    TrackedStudents(sessions, matches);
    forall sc, n | 0 <= sc < |schools| && IsSession(n)
      ensures CountAt(matches, sc, n) <= SeatsOf(schools[sc].Capacity(n))
    {
      NeverOverbooked(caps0, caps, matches, sc, n);
    }
    forall s
      ensures CountOf(matches, s) <= 6
    {
      AtMostSixEach(matches, s);
    }
    stats := ComputeStatistics(nStudents, caps0, sessions, matches);
    BoundedStudents(sessions.Keys, nStudents);
  }
}
