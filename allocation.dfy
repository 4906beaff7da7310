/** The seat allocation of `run_matching_algorithm` (matching.py) as functions
    over a run state: the bid phase, the fallback fill, and the invariants
    both phases keep. The methods that perform them step by step are in
    module Matching and are proved equal to these functions. */
module Allocation {
  import opened Schema
  import opened Bids

  /** One entry of the `matches` list; `score` is its `preference_score`. */
  datatype Match = Match(student: nat, school: nat, session: nat, score: int)

  /** Every school row of a capacity table has six sessions. */
  predicate Shaped(caps: seq<seq<int>>) {
    forall sc :: 0 <= sc < |caps| ==> |caps[sc]| == 6
  }

  /** `school_capacities`: the remaining seats of school `sc` in session n are
      `caps[sc][n - 1]`, starting from the school's six capacity columns. */
  function InitialCapacities(schools: seq<School>): (caps: seq<seq<int>>)
    ensures |caps| == |schools| && Shaped(caps)
    ensures forall sc, n :: 0 <= sc < |schools| && IsSession(n) ==> caps[sc][n - 1] == schools[sc].Capacity(n)
  {
    seq(|schools|, sc requires 0 <= sc < |schools| => schools[sc].CapacityRow())
  }

  /** Takes one seat of school `sc` in session `n`. */
  function Seat(caps: seq<seq<int>>, sc: nat, n: nat): (r: seq<seq<int>>)
    requires Shaped(caps) && sc < |caps| && IsSession(n)
    ensures |r| == |caps| && Shaped(r)
  {
    caps[sc := caps[sc][n - 1 := caps[sc][n - 1] - 1]]
  }

  // Summaries of a match list, each defined on its last element.

  /** Matches at school `sc` in session `n`. */
  function CountAt(ms: seq<Match>, sc: nat, n: nat): nat {
    if |ms| == 0 then 0
    else CountAt(ms[..|ms| - 1], sc, n) + (if ms[|ms| - 1].school == sc && ms[|ms| - 1].session == n then 1 else 0)
  }

  /** Matches of student `s`. */
  function CountOf(ms: seq<Match>, s: nat): nat {
    if |ms| == 0 then 0
    else CountOf(ms[..|ms| - 1], s) + (if ms[|ms| - 1].student == s then 1 else 0)
  }

  /** Matches at school `sc` (`filled_slots`). */
  function AtSchool(ms: seq<Match>, sc: nat): nat {
    if |ms| == 0 then 0
    else AtSchool(ms[..|ms| - 1], sc) + (if ms[|ms| - 1].school == sc then 1 else 0)
  }

  /** The session numbers student `s` is matched in. */
  function Held(ms: seq<Match>, s: nat): set<nat> {
    if |ms| == 0 then {}
    else Held(ms[..|ms| - 1], s) + (if ms[|ms| - 1].student == s then {ms[|ms| - 1].session} else {})
  }

  /** Sum of the `preference_score`s. */
  function ScoreSum(ms: seq<Match>): int {
    if |ms| == 0 then 0 else ScoreSum(ms[..|ms| - 1]) + ms[|ms| - 1].score
  }

  /** Appending one match changes each summary by that match alone. */
  lemma AppendMatch(ms: seq<Match>, m: Match)
    ensures forall sc, n :: CountAt(ms + [m], sc, n) == CountAt(ms, sc, n) + (if m.school == sc && m.session == n then 1 else 0)
    ensures forall s :: CountOf(ms + [m], s) == CountOf(ms, s) + (if m.student == s then 1 else 0)
    ensures forall sc :: AtSchool(ms + [m], sc) == AtSchool(ms, sc) + (if m.school == sc then 1 else 0)
    ensures forall s :: Held(ms + [m], s) == Held(ms, s) + (if m.student == s then {m.session} else {})
    ensures ScoreSum(ms + [m]) == ScoreSum(ms) + m.score
  {
    assert (ms + [m])[..|ms|] == ms;
  }

  /** A session is held exactly when some match of the student is in it. */
  lemma {:induction false} HeldMember(ms: seq<Match>, s: nat, n: nat)
    ensures n in Held(ms, s) <==> exists i :: 0 <= i < |ms| && ms[i].student == s && ms[i].session == n
  {
    if |ms| > 0 {
      var init := ms[..|ms| - 1];
      HeldMember(init, s, n);
      if n in Held(init, s) {
        var i :| 0 <= i < |init| && init[i].student == s && init[i].session == n;
        assert ms[i] == init[i];
      }
      if exists i :: 0 <= i < |ms| && ms[i].student == s && ms[i].session == n {
        var i :| 0 <= i < |ms| && ms[i].student == s && ms[i].session == n;
        if i < |init| {
          assert init[i] == ms[i];
        }
      }
    }
  }

  /** No student has two matches in the same session. */
  predicate OneSessionEach(ms: seq<Match>) {
    forall i, j :: 0 <= i < j < |ms| && ms[i].student == ms[j].student ==> ms[i].session != ms[j].session
  }

  /** No student has two matches at the same school. */
  predicate NoRepeatedSchool(ms: seq<Match>) {
    forall i, j :: 0 <= i < j < |ms| && ms[i].student == ms[j].student ==> ms[i].school != ms[j].school
  }

  /** A match in a session the student does not yet hold keeps OneSessionEach. */
  lemma OneSessionEachAppend(ms: seq<Match>, m: Match)
    requires OneSessionEach(ms) && m.session !in Held(ms, m.student)
    ensures OneSessionEach(ms + [m])
  {
    forall i | 0 <= i < |ms| && ms[i].student == m.student
      ensures ms[i].session != m.session
    {
      HeldMember(ms, m.student, ms[i].session);
    }
  }

  /** With one match per session, a student's match count is the number of
      sessions held. */
  lemma {:induction false} CountOfHeld(ms: seq<Match>, s: nat)
    requires OneSessionEach(ms)
    ensures CountOf(ms, s) == |Held(ms, s)|
  {
    if |ms| > 0 {
      var init, m := ms[..|ms| - 1], ms[|ms| - 1];
      assert ms == init + [m];
      CountOfHeld(init, s);
      AppendMatch(init, m);
      if m.student == s {
        HeldMember(init, s, m.session);
      }
    }
  }

  /** When every match is in a session 1..6, so is every held session. */
  lemma {:induction false} HeldSessions(ms: seq<Match>, s: nat)
    requires forall m <- ms :: IsSession(m.session)
    ensures Held(ms, s) <= AllSessions
  {
    if |ms| > 0 {
      assert ms[|ms| - 1] in ms;
      HeldSessions(ms[..|ms| - 1], s);
    }
  }

  /** Every student has at most six matches, one per session. */
  lemma AtMostSixEach(ms: seq<Match>, s: nat)
    requires OneSessionEach(ms) && forall m <- ms :: IsSession(m.session)
    ensures CountOf(ms, s) <= 6
    ensures CountOf(ms, s) == 6 <==> Held(ms, s) == AllSessions
  {
    CountOfHeld(ms, s);
    HeldSessions(ms, s);
    SessionSetSize(Held(ms, s));
  }

  /** The seat ledger: each remaining capacity is the initial one minus the
      matches taken there, and a seat was only ever taken while one was left,
      so a remaining capacity is negative only if it started negative and was
      never touched. */
  ghost predicate Accounted(caps0: seq<seq<int>>, caps: seq<seq<int>>, ms: seq<Match>) {
    Shaped(caps0) && |caps| == |caps0| && Shaped(caps)
    && (forall m <- ms :: m.school < |caps0| && IsSession(m.session))
    && (forall sc, n :: 0 <= sc < |caps0| && IsSession(n) ==>
          caps[sc][n - 1] == caps0[sc][n - 1] - CountAt(ms, sc, n)
          && (CountAt(ms, sc, n) == 0 || caps[sc][n - 1] >= 0))
  }

  /** The ledger holds at the start of a run. */
  lemma AccountedInitially(caps0: seq<seq<int>>)
    requires Shaped(caps0)
    ensures Accounted(caps0, caps0, [])
  {
  }

  /** Taking a seat that is still free, and recording the match, keeps the ledger. */
  lemma SeatKeepsAccounted(caps0: seq<seq<int>>, caps: seq<seq<int>>, ms: seq<Match>, m: Match)
    requires Accounted(caps0, caps, ms)
    requires m.school < |caps| && IsSession(m.session) && caps[m.school][m.session - 1] > 0
    ensures Accounted(caps0, Seat(caps, m.school, m.session), ms + [m])
  {
    AppendMatch(ms, m);
  }

  /** No (school, session) ever has more matches than its initial capacity
      (none at all when that capacity is not positive). */
  lemma NeverOverbooked(caps0: seq<seq<int>>, caps: seq<seq<int>>, ms: seq<Match>, sc: nat, n: nat)
    requires Accounted(caps0, caps, ms) && sc < |caps0| && IsSession(n)
    ensures CountAt(ms, sc, n) <= if caps0[sc][n - 1] > 0 then caps0[sc][n - 1] else 0
    ensures caps0[sc][n - 1] >= 0 ==> caps[sc][n - 1] >= 0
  {
  }

  // ---------------------------------------------------------------------
  // The bid phase (matching.py:62-103).

  /** The run state: remaining capacities, `session_assignments` and `matches`. */
  datatype Run = Run(caps: seq<seq<int>>, sessions: map<nat, set<nat>>, matches: seq<Match>)

  /** `session_assignments.get(student, set())`. */
  function HeldBy(sessions: map<nat, set<nat>>, s: nat): set<nat> {
    if s in sessions then sessions[s] else {}
  }

  /** The lowest session from `from` on that the student does not hold and
      in which the school (capacity row `row`) has a seat. */
  function OpenSession(row: seq<int>, held: set<nat>, from: nat): (r: Option<nat>)
    requires |row| == 6 && 1 <= from <= 7
    ensures r.Some? ==> from <= r.value <= 6 && r.value !in held && row[r.value - 1] > 0
    decreases 7 - from
  {
    if from == 7 then None
    else if from !in held && row[from - 1] > 0 then Some(from)
    else OpenSession(row, held, from + 1)
  }

  /** The session found is the lowest free one with a seat; none is found
      exactly when every free session from `from` on is full. */
  lemma {:induction false} OpenSessionLowest(row: seq<int>, held: set<nat>, from: nat)
    requires |row| == 6 && 1 <= from <= 7
    ensures var r := OpenSession(row, held, from);
            (r.Some? ==> forall n :: from <= n < r.value ==> n in held || row[n - 1] <= 0)
            && (r.None? <==> forall n :: from <= n <= 6 ==> n in held || row[n - 1] <= 0)
    decreases 7 - from
  {
    if from < 7 && !(from !in held && row[from - 1] > 0) {
      OpenSessionLowest(row, held, from + 1);
    }
  }

  /** One bid: skipped when the student holds six sessions; otherwise placed
      in the lowest free session the school has a seat in, if any. */
  function PlaceBid(r: Run, b: Bid): (r': Run)
    requires Shaped(r.caps) && b.school < |r.caps|
    ensures |r'.caps| == |r.caps| && Shaped(r'.caps)
  {
    var held := HeldBy(r.sessions, b.student);
    if b.student in r.sessions && |held| >= 6 then r
    else match OpenSession(r.caps[b.school], held, 1)
      case None => r
      case Some(n) =>
        Run(Seat(r.caps, b.school, n), r.sessions[b.student := held + {n}],
            r.matches + [Match(b.student, b.school, n, b.points)])
  }

  /** The bids processed in order. */
  function PlaceAll(r: Run, bids: seq<Bid>): (r': Run)
    requires Shaped(r.caps) && forall b <- bids :: b.school < |r.caps|
    ensures |r'.caps| == |r.caps| && Shaped(r'.caps)
  {
    if |bids| == 0 then r
    else PlaceBid(PlaceAll(r, bids[..|bids| - 1]), bids[|bids| - 1])
  }

  /** What one bid does: nothing when the student already holds six
      sessions; otherwise one match in the lowest-numbered session the student
      lacks and the school still has a seat in, scored with the bid's points,
      with exactly that seat taken; nothing when there is no such session. */
  lemma PlaceBidLowestSession(r: Run, b: Bid)
    requires Shaped(r.caps) && b.school < |r.caps|
    ensures var held := HeldBy(r.sessions, b.student);
            var r' := PlaceBid(r, b);
            if b.student in r.sessions && |held| >= 6 then r' == r
            else if forall n :: IsSession(n) && n !in held ==> r.caps[b.school][n - 1] <= 0 then r' == r
            else (exists n :: IsSession(n) && n !in held && r.caps[b.school][n - 1] > 0
                    && (forall n' :: 1 <= n' < n && n' !in held ==> r.caps[b.school][n' - 1] <= 0)
                    && r'.matches == r.matches + [Match(b.student, b.school, n, b.points)]
                    && r'.caps == Seat(r.caps, b.school, n)
                    && r'.sessions == r.sessions[b.student := held + {n}])
  {
    OpenSessionLowest(r.caps[b.school], HeldBy(r.sessions, b.student), 1);
  }

  /** `session_assignments` records exactly the sessions of each student's
      matches, and has a key for exactly the students with a match. */
  ghost predicate Tracks(sessions: map<nat, set<nat>>, ms: seq<Match>) {
    forall s :: HeldBy(sessions, s) == Held(ms, s) && (s in sessions <==> Held(ms, s) != {})
  }

  /** One bid keeps the ledger, one match per session, and the bookkeeping. */
  lemma PlaceBidKeeps(caps0: seq<seq<int>>, r: Run, b: Bid)
    requires Accounted(caps0, r.caps, r.matches) && OneSessionEach(r.matches) && Tracks(r.sessions, r.matches)
    requires b.school < |r.caps|
    ensures var r' := PlaceBid(r, b);
            Accounted(caps0, r'.caps, r'.matches) && OneSessionEach(r'.matches) && Tracks(r'.sessions, r'.matches)
  {
    var held := HeldBy(r.sessions, b.student);
    if !(b.student in r.sessions && |held| >= 6) {
      var open := OpenSession(r.caps[b.school], held, 1);
      if open.Some? {
        var m := Match(b.student, b.school, open.value, b.points);
        SeatKeepsAccounted(caps0, r.caps, r.matches, m);
        OneSessionEachAppend(r.matches, m);
        TracksAppend(r.sessions, r.matches, m);
      }
    }
  }

  /** Recording a match's session under its student keeps the bookkeeping. */
  lemma TracksAppend(sessions: map<nat, set<nat>>, ms: seq<Match>, m: Match)
    requires Tracks(sessions, ms)
    ensures Tracks(sessions[m.student := HeldBy(sessions, m.student) + {m.session}], ms + [m])
  {
    AppendMatch(ms, m);
    var sessions' := sessions[m.student := HeldBy(sessions, m.student) + {m.session}];
    forall s
      ensures HeldBy(sessions', s) == Held(ms + [m], s) && (s in sessions' <==> Held(ms + [m], s) != {})
    {
      if s == m.student {
        assert m.session in Held(ms + [m], s);
      }
    }
  }

  /** The bid phase keeps the ledger, one match per session, and the bookkeeping. */
  lemma {:induction false} PlaceAllKeeps(caps0: seq<seq<int>>, r: Run, bids: seq<Bid>)
    requires Accounted(caps0, r.caps, r.matches) && OneSessionEach(r.matches) && Tracks(r.sessions, r.matches)
    requires forall b <- bids :: b.school < |r.caps|
    ensures var r' := PlaceAll(r, bids);
            Accounted(caps0, r'.caps, r'.matches) && OneSessionEach(r'.matches) && Tracks(r'.sessions, r'.matches)
  {
    if |bids| > 0 {
      PlaceAllKeeps(caps0, r, bids[..|bids| - 1]);
      PlaceBidKeeps(caps0, PlaceAll(r, bids[..|bids| - 1]), bids[|bids| - 1]);
    }
  }

  /** Every match comes from a bid with the same student and school, and its
      score is that bid's points. */
  predicate FromBids(ms: seq<Match>, bids: seq<Bid>) {
    forall m <- ms :: exists b <- bids :: b.student == m.student && b.school == m.school && b.points == m.score
  }

  /** Starting from no matches, the bid phase's matches each come from a bid;
      each bid yields at most one, so with one bid per (student, school) pair
      no student gets the same school twice in this phase. */
  lemma {:induction false} PlaceAllFromBids(r: Run, bids: seq<Bid>)
    requires Shaped(r.caps) && forall b <- bids :: b.school < |r.caps|
    requires r.matches == []
    ensures FromBids(PlaceAll(r, bids).matches, bids)
    ensures OneBidPerPair(bids) ==> NoRepeatedSchool(PlaceAll(r, bids).matches)
  {
    if |bids| > 0 {
      var init, b := bids[..|bids| - 1], bids[|bids| - 1];
      PlaceAllFromBids(r, init);
      var p := PlaceAll(r, init);
      var ms := PlaceBid(p, b).matches;
      forall m <- p.matches
        ensures exists b' <- bids :: b'.student == m.student && b'.school == m.school && b'.points == m.score
      {
        var b' :| b' in init && b'.student == m.student && b'.school == m.school && b'.points == m.score;
        var j :| 0 <= j < |init| && init[j] == b';
        assert bids[j] == b';
      }
      assert b in bids;
      if ms != p.matches {
        assert ms == p.matches + [ms[|ms| - 1]];
        if OneBidPerPair(bids) {
          forall i, j | 0 <= i < j < |ms| && ms[i].student == ms[j].student
            ensures ms[i].school != ms[j].school
          {
            if j == |ms| - 1 {
              var m := ms[i];
              assert m in p.matches;
              var b' :| b' in init && b'.student == m.student && b'.school == m.school && b'.points == m.score;
              var k :| 0 <= k < |init| && init[k] == b';
              assert bids[k] == b';
            } else {
              assert ms[i] == p.matches[i] && ms[j] == p.matches[j];
            }
          }
        }
      }
    }
  }

  // ---------------------------------------------------------------------
  // The fallback phase (matching.py:105-151).

  /** The first school, from position `from` on, with a seat left in session n. */
  function SeatSchool(caps: seq<seq<int>>, n: nat, from: nat): (r: Option<nat>)
    requires Shaped(caps) && IsSession(n) && from <= |caps|
    ensures r.Some? ==> from <= r.value < |caps| && caps[r.value][n - 1] > 0
    decreases |caps| - from
  {
    if from == |caps| then None
    else if caps[from][n - 1] > 0 then Some(from)
    else SeatSchool(caps, n, from + 1)
  }

  /** The school found is the first with a seat; none is found exactly when
      no school from `from` on has one. */
  lemma {:induction false} SeatSchoolFirst(caps: seq<seq<int>>, n: nat, from: nat)
    requires Shaped(caps) && IsSession(n) && from <= |caps|
    ensures var r := SeatSchool(caps, n, from);
            (r.Some? ==> forall sc :: from <= sc < r.value ==> caps[sc][n - 1] <= 0)
            && (r.None? <==> forall sc :: from <= sc < |caps| ==> caps[sc][n - 1] <= 0)
    decreases |caps| - from
  {
    if from < |caps| && caps[from][n - 1] <= 0 {
      SeatSchoolFirst(caps, n, from + 1);
    }
  }

  /** No school has a seat left in session n. */
  predicate NoSeat(caps: seq<seq<int>>, n: nat)
    requires Shaped(caps) && IsSession(n)
  {
    forall sc :: 0 <= sc < |caps| ==> caps[sc][n - 1] <= 0
  }

  /** One pass of the fallback `while` body: the lowest session from `from`
      on that the student lacks and some school has a seat in, with the first
      such school. */
  function FallbackPick(caps: seq<seq<int>>, held: set<nat>, from: nat): (r: Option<(nat, nat)>)
    requires Shaped(caps) && 1 <= from <= 7
    ensures r.Some? ==> from <= r.value.0 <= 6 && r.value.0 !in held
                        && r.value.1 < |caps| && caps[r.value.1][r.value.0 - 1] > 0
    decreases 7 - from
  {
    if from == 7 then None
    else if from !in held then
      match SeatSchool(caps, from, 0)
      case Some(sc) => Some((from, sc))
      case None => FallbackPick(caps, held, from + 1)
    else FallbackPick(caps, held, from + 1)
  }

  /** A pick (n0, sc0) is the lowest missing session any school has a seat
      in, at the first school in table order with a seat there. */
  lemma {:induction false} FallbackPickFirst(caps: seq<seq<int>>, held: set<nat>, from: nat, n0: nat, sc0: nat)
    requires Shaped(caps) && 1 <= from <= 7 && FallbackPick(caps, held, from) == Some((n0, sc0))
    ensures forall sc :: 0 <= sc < sc0 ==> caps[sc][n0 - 1] <= 0
    ensures forall n :: from <= n < n0 && n !in held ==> NoSeat(caps, n)
    decreases 7 - from
  {
    if from !in held && SeatSchool(caps, from, 0).Some? {
      SeatSchoolFirst(caps, from, 0);
    } else {
      assert FallbackPick(caps, held, from) == FallbackPick(caps, held, from + 1);
      FallbackPickFirst(caps, held, from + 1, n0, sc0);
      if from !in held {
        SeatSchoolFirst(caps, from, 0);
      }
    }
  }

  /** There is no pick exactly when no missing session from `from` on has a
      seat anywhere. */
  lemma {:induction false} FallbackPickNone(caps: seq<seq<int>>, held: set<nat>, from: nat)
    requires Shaped(caps) && 1 <= from <= 7
    ensures FallbackPick(caps, held, from).None? <==> forall n :: from <= n <= 6 && n !in held ==> NoSeat(caps, n)
    decreases 7 - from
  {
    if from < 7 {
      FallbackPickNone(caps, held, from + 1);
      if from !in held {
        SeatSchoolFirst(caps, from, 0);
      }
    }
  }

  /** The pick is the lowest missing session any school has a seat in, at
      the first school in table order with a seat there; there is no pick
      exactly when no missing session from `from` on has a seat anywhere. */
  lemma FallbackPickLowest(caps: seq<seq<int>>, held: set<nat>, from: nat)
    requires Shaped(caps) && 1 <= from <= 7
    ensures var r := FallbackPick(caps, held, from);
            (r.Some? ==> (forall sc :: 0 <= sc < r.value.1 ==> caps[sc][r.value.0 - 1] <= 0)
                         && forall n :: from <= n < r.value.0 && n !in held ==> NoSeat(caps, n))
            && (r.None? <==> forall n :: from <= n <= 6 && n !in held ==> NoSeat(caps, n))
  {
    var r := FallbackPick(caps, held, from);
    if r.Some? {
      FallbackPickFirst(caps, held, from, r.value.0, r.value.1);
    }
    FallbackPickNone(caps, held, from);
  }

  /** What filling one student produced; `stuck` marks a student left short
      because a missing session has no seat anywhere. */
  datatype Fill = Fill(caps: seq<seq<int>>, matches: seq<Match>, held: set<nat>, stuck: bool)

  /** The fallback `while` loop for student `s` holding `held`: repeat the pick
      until six sessions are held. Where the source's loop would spin forever
      (no pick and fewer than six sessions), this stops with `stuck`. */
  function FillStudent(caps: seq<seq<int>>, ms: seq<Match>, s: nat, held: set<nat>): (f: Fill)
    requires Shaped(caps)
    ensures |f.caps| == |caps| && Shaped(f.caps)
    decreases AllSessions - held
  {
    if |held| >= 6 then Fill(caps, ms, held, false)
    else match FallbackPick(caps, held, 1)
      case None => Fill(caps, ms, held, true)
      case Some((n, sc)) =>
        assert n in AllSessions;
        FillStudent(Seat(caps, sc, n), ms + [Match(s, sc, n, 0)], s, held + {n})
  }

  /** The source's loop body as written: when no pick exists the state is
      left as it was, so with fewer than six sessions held the `while`
      condition stays true and the loop repeats forever. */
  function FallbackIterationAsWritten(caps: seq<seq<int>>, ms: seq<Match>, s: nat, held: set<nat>): (r: (seq<seq<int>>, seq<Match>, set<nat>))
    requires Shaped(caps)
  {
    match FallbackPick(caps, held, 1)
    case None => (caps, ms, held)
    case Some((n, sc)) => (Seat(caps, sc, n), ms + [Match(s, sc, n, 0)], held + {n})
  }

  /** When no session the student lacks has a seat at any school, one pass
      of the source's loop body changes nothing and the guard still holds,
      so the loop never leaves. (With some lacking sessions still seatable
      the loop first fills those and then reaches this state:
      FillStudentStuckIff.) */
  lemma FallbackLoopDiverges(caps: seq<seq<int>>, ms: seq<Match>, s: nat, held: set<nat>, n: nat)
    requires Shaped(caps) && held <= AllSessions && IsSession(n) && n !in held
    requires forall n' :: IsSession(n') && n' !in held ==> NoSeat(caps, n')
    ensures FallbackIterationAsWritten(caps, ms, s, held) == (caps, ms, held)
    ensures |held| < 6
  {
    SessionSetSize(held);
    FallbackPickLowest(caps, held, 1);
  }

  /** A concrete run of the stuck loop: one school with no seats at all and a
      student with no sessions. */
  lemma FallbackLoopDivergesExample()
    ensures var caps := [[0, 0, 0, 0, 0, 0]];
            FallbackIterationAsWritten(caps, [], 0, {}) == (caps, [], {})
  {
    var caps := [[0, 0, 0, 0, 0, 0]];
    assert forall n :: IsSession(n) ==> NoSeat(caps, n);
    FallbackPickLowest(caps, {}, 1);
  }

  /** How the fallback loop for one student ends: with six sessions, or
      stuck with fewer and no pick left. */
  lemma {:induction false} FillStudentEnds(caps: seq<seq<int>>, ms: seq<Match>, s: nat, held: set<nat>)
    requires Shaped(caps)
    ensures var f := FillStudent(caps, ms, s, held);
            (!f.stuck ==> |f.held| >= 6)
            && (f.stuck ==> |f.held| < 6 && FallbackPick(f.caps, f.held, 1).None?)
    decreases AllSessions - held
  {
    if |held| < 6 {
      var pick := FallbackPick(caps, held, 1);
      if pick.Some? {
        var (n, sc) := pick.value;
        assert n in AllSessions;
        FillStudentEnds(Seat(caps, sc, n), ms + [Match(s, sc, n, 0)], s, held + {n});
      }
    }
  }

  /** `ms'` is `ms` followed by matches of student `s` with score 0 only. */
  predicate ExtendsWithFallback(ms: seq<Match>, ms': seq<Match>, s: nat) {
    |ms| <= |ms'| && ms'[..|ms|] == ms
    && forall i :: |ms| <= i < |ms'| ==> ms'[i].student == s && ms'[i].score == 0
  }

  lemma ExtendsWithFallbackStep(ms: seq<Match>, m: Match, ms': seq<Match>)
    requires m.score == 0 && ExtendsWithFallback(ms + [m], ms', m.student)
    ensures ExtendsWithFallback(ms, ms', m.student)
  {
    assert ms'[..|ms| + 1][..|ms|] == ms'[..|ms|];
    assert ms'[|ms|] == (ms + [m])[|ms|];
  }

  /** The fallback for one student only appends matches of that student with
      score 0. */
  lemma {:induction false} FillStudentAppends(caps: seq<seq<int>>, ms: seq<Match>, s: nat, held: set<nat>)
    requires Shaped(caps)
    ensures ExtendsWithFallback(ms, FillStudent(caps, ms, s, held).matches, s)
    decreases AllSessions - held
  {
    if |held| < 6 {
      var pick := FallbackPick(caps, held, 1);
      if pick.Some? {
        var (n, sc) := pick.value;
        assert n in AllSessions;
        var m := Match(s, sc, n, 0);
        FillStudentAppends(Seat(caps, sc, n), ms + [m], s, held + {n});
        assert FillStudent(caps, ms, s, held) == FillStudent(Seat(caps, sc, n), ms + [m], s, held + {n});
        ExtendsWithFallbackStep(ms, m, FillStudent(caps, ms, s, held).matches);
      }
    }
  }

  /** The fallback for one student keeps the ledger and one match per
      session, and its set of held sessions stays that of the match list. */
  lemma {:induction false} FillStudentLedger(caps0: seq<seq<int>>, caps: seq<seq<int>>, ms: seq<Match>, s: nat, held: set<nat>)
    requires Accounted(caps0, caps, ms) && OneSessionEach(ms) && held == Held(ms, s)
    ensures var f := FillStudent(caps, ms, s, held);
            Accounted(caps0, f.caps, f.matches) && OneSessionEach(f.matches) && f.held == Held(f.matches, s)
            && forall t :: t != s ==> Held(f.matches, t) == Held(ms, t)
    decreases AllSessions - held
  {
    if |held| < 6 {
      var pick := FallbackPick(caps, held, 1);
      if pick.Some? {
        var (n, sc) := pick.value;
        var m := Match(s, sc, n, 0);
        assert n in AllSessions;
        SeatKeepsAccounted(caps0, caps, ms, m);
        OneSessionEachAppend(ms, m);
        AppendMatch(ms, m);
        FillStudentLedger(caps0, Seat(caps, sc, n), ms + [m], s, held + {n});
      }
    }
  }

  /** The fallback only ever adds sessions 1..6 to the held set. */
  lemma {:induction false} FillStudentSessions(caps: seq<seq<int>>, ms: seq<Match>, s: nat, held: set<nat>)
    requires Shaped(caps) && held <= AllSessions
    ensures FillStudent(caps, ms, s, held).held <= AllSessions
    decreases AllSessions - held
  {
    if |held| < 6 {
      var pick := FallbackPick(caps, held, 1);
      if pick.Some? {
        var (n, sc) := pick.value;
        assert n in AllSessions;
        FillStudentSessions(Seat(caps, sc, n), ms + [Match(s, sc, n, 0)], s, held + {n});
      }
    }
  }

  /** The fallback loop for one student ends with all six sessions held,
      unless it is stuck, in which case some session the student lacks has no
      seat left at any school. */
  lemma FillStudentOutcome(caps: seq<seq<int>>, ms: seq<Match>, s: nat, held: set<nat>)
    requires Shaped(caps) && held <= AllSessions
    ensures var f := FillStudent(caps, ms, s, held);
            (!f.stuck ==> f.held == AllSessions)
            && (f.stuck ==> exists n :: IsSession(n) && n !in f.held && NoSeat(f.caps, n))
  {
    var f := FillStudent(caps, ms, s, held);
    FillStudentEnds(caps, ms, s, held);
    FillStudentSessions(caps, ms, s, held);
    SessionSetSize(f.held);
    if f.stuck {
      FallbackPickLowest(f.caps, f.held, 1);
      var n :| n in AllSessions && n !in f.held;
      assert IsSession(n);
    }
  }

  /** Taking a seat in session n0, where one is left, changes only column n0
      and leaves every session without seats without seats. */
  lemma SeatColumns(caps: seq<seq<int>>, sc0: nat, n0: nat)
    requires Shaped(caps) && sc0 < |caps| && IsSession(n0) && caps[sc0][n0 - 1] > 0
    ensures forall n, sc :: IsSession(n) && n != n0 && 0 <= sc < |caps| ==> Seat(caps, sc0, n0)[sc][n - 1] == caps[sc][n - 1]
    ensures forall n :: IsSession(n) && NoSeat(caps, n) ==> n != n0 && NoSeat(Seat(caps, sc0, n0), n)
  {
    forall n | IsSession(n) && NoSeat(caps, n)
      ensures n != n0 && NoSeat(Seat(caps, sc0, n0), n)
    {
      assert caps[sc0][n - 1] <= 0;
    }
  }

  /** The fallback loop for one student never loses a held session and
      leaves the capacity columns of the sessions it does not fill untouched. */
  lemma {:induction false} FillStudentColumns(caps: seq<seq<int>>, ms: seq<Match>, s: nat, held: set<nat>)
    requires Shaped(caps)
    ensures var f := FillStudent(caps, ms, s, held);
            held <= f.held
            && forall n, sc :: IsSession(n) && n !in f.held && 0 <= sc < |caps| ==> f.caps[sc][n - 1] == caps[sc][n - 1]
    decreases AllSessions - held
  {
    if |held| < 6 {
      var pick := FallbackPick(caps, held, 1);
      if pick.Some? {
        var (n0, sc0) := pick.value;
        assert n0 in AllSessions;
        var caps' := Seat(caps, sc0, n0);
        var ms' := ms + [Match(s, sc0, n0, 0)];
        var f := FillStudent(caps', ms', s, held + {n0});
        assert FillStudent(caps, ms, s, held) == f;
        FillStudentColumns(caps', ms', s, held + {n0});
        SeatColumns(caps, sc0, n0);
        forall n, sc | IsSession(n) && n !in f.held && 0 <= sc < |caps|
          ensures f.caps[sc][n - 1] == caps[sc][n - 1]
        {
          assert f.caps[sc][n - 1] == caps'[sc][n - 1];
        }
      }
    }
  }

  /** The fallback loop for one student never fills, or frees a seat in, a
      session in which no school has a seat. */
  lemma {:induction false} FillStudentNoSeat(caps: seq<seq<int>>, ms: seq<Match>, s: nat, held: set<nat>)
    requires Shaped(caps)
    ensures var f := FillStudent(caps, ms, s, held);
            forall n :: IsSession(n) && NoSeat(caps, n) ==> NoSeat(f.caps, n) && (n !in held ==> n !in f.held)
    decreases AllSessions - held
  {
    if |held| < 6 {
      var pick := FallbackPick(caps, held, 1);
      if pick.Some? {
        var (n0, sc0) := pick.value;
        assert n0 in AllSessions;
        var caps' := Seat(caps, sc0, n0);
        var ms' := ms + [Match(s, sc0, n0, 0)];
        var f := FillStudent(caps', ms', s, held + {n0});
        assert FillStudent(caps, ms, s, held) == f;
        FillStudentNoSeat(caps', ms', s, held + {n0});
        SeatColumns(caps, sc0, n0);
        forall n | IsSession(n) && NoSeat(caps, n)
          ensures NoSeat(f.caps, n) && (n !in held ==> n !in f.held)
        {
          assert NoSeat(caps', n) && n != n0;
        }
      }
    }
  }

  /** The corrected loop for one student gets stuck exactly when, from the
      start, some session the student lacks has no seat at any school: the
      source's loop never exits for exactly those students. */
  lemma FillStudentStuckIff(caps: seq<seq<int>>, ms: seq<Match>, s: nat, held: set<nat>)
    requires Shaped(caps) && held <= AllSessions
    ensures FillStudent(caps, ms, s, held).stuck <==> exists n :: IsSession(n) && n !in held && NoSeat(caps, n)
  {
    var f := FillStudent(caps, ms, s, held);
    if f.stuck {
      FillStudentOutcome(caps, ms, s, held);
      var n :| IsSession(n) && n !in f.held && NoSeat(f.caps, n);
      assert n !in held && NoSeat(caps, n) by {
        FillStudentColumns(caps, ms, s, held);
        forall sc | 0 <= sc < |caps|
          ensures caps[sc][n - 1] <= 0
        {
          assert f.caps[sc][n - 1] == caps[sc][n - 1];
        }
      }
    } else {
      assert f.held == AllSessions by {
        FillStudentOutcome(caps, ms, s, held);
      }
      forall n | IsSession(n) && n !in held
        ensures !NoSeat(caps, n)
      {
        assert n in f.held;
        FillStudentNoSeat(caps, ms, s, held);
      }
    }
  }

  /** The result of the fallback over a prefix of the students: the run state
      and the students left short. */
  datatype Outcome = Outcome(run: Run, short: seq<nat>)

  /** The fallback for student `s`: the `while` loop on the student's set
      of held sessions. A student with a key in `session_assignments` has that
      set updated in place; for any other student the filled set is a fresh
      one the map never sees. A stuck student is reported short. */
  function FillNext(o: Outcome, s: nat): (o': Outcome)
    requires Shaped(o.run.caps)
    ensures |o'.run.caps| == |o.run.caps| && Shaped(o'.run.caps)
  {
    var f := FillStudent(o.run.caps, o.run.matches, s, HeldBy(o.run.sessions, s));
    Outcome(Run(f.caps, if s in o.run.sessions then o.run.sessions[s := f.held] else o.run.sessions, f.matches),
            o.short + (if f.stuck then [s] else []))
  }

  /** The fallback applied to students 0 .. n-1 in order. */
  function FillUpTo(r: Run, n: nat): (o: Outcome)
    requires Shaped(r.caps)
    ensures |o.run.caps| == |r.caps| && Shaped(o.run.caps)
  {
    if n == 0 then Outcome(r, [])
    else FillNext(FillUpTo(r, n - 1), n - 1)
  }

  /** `ms'` is `ms` followed by score-0 matches of students below `n` only. */
  predicate FallbackSuffix(ms: seq<Match>, ms': seq<Match>, n: nat) {
    |ms| <= |ms'| && ms'[..|ms|] == ms
    && forall i :: |ms| <= i < |ms'| ==> ms'[i].student < n && ms'[i].score == 0
  }

  lemma FallbackSuffixStep(a: seq<Match>, b: seq<Match>, c: seq<Match>, s: nat)
    requires FallbackSuffix(a, b, s) && ExtendsWithFallback(b, c, s)
    ensures FallbackSuffix(a, c, s + 1)
  {
    assert c[..|b|][..|a|] == c[..|a|];
  }

  /** The bookkeeping part of the fallback invariant after students
      0 .. n-1: the ledger and one match per session are kept, no key is
      added to `session_assignments`, each recorded set is its student's
      sessions, and the students not yet reached are untouched. */
  ghost predicate FallbackLedger(caps0: seq<seq<int>>, r: Run, o: Outcome, n: nat) {
    Accounted(caps0, o.run.caps, o.run.matches) && OneSessionEach(o.run.matches)
    && o.run.sessions.Keys == r.sessions.Keys
    && (forall s: nat :: s in o.run.sessions ==> o.run.sessions[s] == Held(o.run.matches, s))
    && (forall s: nat :: s >= n ==> Held(o.run.matches, s) == Held(r.matches, s))
  }

  /** Every student walked so far holds all six sessions unless reported
      short, and a student reported short lacks a session in which no school
      has a seat left. */
  ghost predicate FallbackComplete(o: Outcome, n: nat) {
    (forall s: nat :: s < n && s !in o.short ==> Held(o.run.matches, s) == AllSessions)
    && (forall s <- o.short :: s < n)
    && Shaped(o.run.caps)
    && (forall s <- o.short :: exists k :: IsSession(k) && k !in Held(o.run.matches, s) && NoSeat(o.run.caps, k))
  }

  /** What holds once the fallback has walked students 0 .. n-1 from the
      bid phase's state `r`. */
  ghost predicate FallbackInv(caps0: seq<seq<int>>, r: Run, o: Outcome, n: nat) {
    FallbackLedger(caps0, r, o, n) && FallbackComplete(o, n) && FallbackSuffix(r.matches, o.run.matches, n)
  }

  /** The fallback invariant holds before any student is walked. */
  lemma FallbackInvInitially(caps0: seq<seq<int>>, r: Run)
    requires Accounted(caps0, r.caps, r.matches) && OneSessionEach(r.matches) && Tracks(r.sessions, r.matches)
    ensures FallbackInv(caps0, r, Outcome(r, []), 0)
  {
    assert r.matches[..|r.matches|] == r.matches;
  }

  /** Student n's held set as the fallback finds it is that student's sessions. */
  lemma FallbackStartsFromHeld(caps0: seq<seq<int>>, r: Run, o: Outcome, n: nat)
    requires Tracks(r.sessions, r.matches) && FallbackLedger(caps0, r, o, n)
    ensures HeldBy(o.run.sessions, n) == Held(o.run.matches, n)
  {
    if n !in o.run.sessions {
      assert Held(r.matches, n) == {};
    }
  }

  /** The ledger step for one student, given what filling that student did. */
  lemma LedgerAfterFill(caps0: seq<seq<int>>, r: Run, o: Outcome, n: nat, f: Fill, o': Outcome)
    requires FallbackLedger(caps0, r, o, n)
    requires Accounted(caps0, f.caps, f.matches) && OneSessionEach(f.matches) && f.held == Held(f.matches, n)
    requires forall t :: t != n ==> Held(f.matches, t) == Held(o.run.matches, t)
    requires o'.run == Run(f.caps, if n in o.run.sessions then o.run.sessions[n := f.held] else o.run.sessions, f.matches)
    ensures FallbackLedger(caps0, r, o', n + 1)
  {
    forall s: nat | s in o'.run.sessions
      ensures o'.run.sessions[s] == Held(o'.run.matches, s)
    {
      if s != n {
        assert o'.run.sessions[s] == o.run.sessions[s];
      }
    }
  }

  lemma FillNextLedger(caps0: seq<seq<int>>, r: Run, o: Outcome, n: nat)
    requires Tracks(r.sessions, r.matches) && FallbackLedger(caps0, r, o, n)
    ensures FallbackLedger(caps0, r, FillNext(o, n), n + 1)
  {
    FallbackStartsFromHeld(caps0, r, o, n);
    var held := HeldBy(o.run.sessions, n);
    FillStudentLedger(caps0, o.run.caps, o.run.matches, n, held);
    LedgerAfterFill(caps0, r, o, n, FillStudent(o.run.caps, o.run.matches, n, held), FillNext(o, n));
  }

  lemma FillNextComplete(caps0: seq<seq<int>>, r: Run, o: Outcome, n: nat)
    requires Tracks(r.sessions, r.matches) && FallbackLedger(caps0, r, o, n) && FallbackComplete(o, n)
    ensures FallbackComplete(FillNext(o, n), n + 1)
  {
    FallbackStartsFromHeld(caps0, r, o, n);
    var held := HeldBy(o.run.sessions, n);
    FillStudentLedger(caps0, o.run.caps, o.run.matches, n, held);
    HeldSessions(o.run.matches, n);
    FillStudentOutcome(o.run.caps, o.run.matches, n, held);
    FillNextShort(caps0, r, o, n);
  }

  /** A student reported short after one more student still lacks a session
      without seats: the new short student by FillStudentOutcome, the earlier
      ones because their sessions and the empty columns stay as they were. */
  lemma FillNextShort(caps0: seq<seq<int>>, r: Run, o: Outcome, n: nat)
    requires Tracks(r.sessions, r.matches) && FallbackLedger(caps0, r, o, n) && FallbackComplete(o, n)
    ensures var o' := FillNext(o, n);
            forall s <- o'.short :: exists k :: IsSession(k) && k !in Held(o'.run.matches, s) && NoSeat(o'.run.caps, k)
  {
    FallbackStartsFromHeld(caps0, r, o, n);
    var held := HeldBy(o.run.sessions, n);
    var f := FillStudent(o.run.caps, o.run.matches, n, held);
    FillStudentLedger(caps0, o.run.caps, o.run.matches, n, held);
    FillStudentNoSeat(o.run.caps, o.run.matches, n, held);
    var o' := FillNext(o, n);
    assert o'.run.caps == f.caps && o'.run.matches == f.matches;
    assert o'.short == o.short + (if f.stuck then [n] else []);
    forall s | s in o'.short
      ensures exists k :: IsSession(k) && k !in Held(f.matches, s) && NoSeat(f.caps, k)
    {
      if s in o.short {
        var k :| IsSession(k) && k !in Held(o.run.matches, s) && NoSeat(o.run.caps, k);
        assert s != n;
        assert Held(f.matches, s) == Held(o.run.matches, s);
        assert NoSeat(f.caps, k);
      } else {
        assert s == n && f.stuck;
        HeldSessions(o.run.matches, n);
        FillStudentOutcome(o.run.caps, o.run.matches, n, held);
      }
    }
  }

  lemma FillNextSuffix(r: Run, o: Outcome, n: nat)
    requires Shaped(o.run.caps) && FallbackSuffix(r.matches, o.run.matches, n)
    ensures FallbackSuffix(r.matches, FillNext(o, n).run.matches, n + 1)
  {
    var held := HeldBy(o.run.sessions, n);
    FillStudentAppends(o.run.caps, o.run.matches, n, held);
    FallbackSuffixStep(r.matches, o.run.matches, FillNext(o, n).run.matches, n);
  }

  /** Walking one more student keeps the fallback invariant. */
  lemma FillNextKeeps(caps0: seq<seq<int>>, r: Run, n: nat)
    requires Shaped(r.caps) && Tracks(r.sessions, r.matches) && FallbackInv(caps0, r, FillUpTo(r, n), n)
    ensures FallbackInv(caps0, r, FillUpTo(r, n + 1), n + 1)
  {
    var o := FillUpTo(r, n);
    FillNextLedger(caps0, r, o, n);
    FillNextComplete(caps0, r, o, n);
    FillNextSuffix(r, o, n);
    assert FillUpTo(r, n + 1) == FillNext(o, n);
  }

  /** The fallback over students 0 .. n-1 keeps the fallback invariant. */
  lemma FillUpToKeeps(caps0: seq<seq<int>>, r: Run, n: nat)
    requires Accounted(caps0, r.caps, r.matches) && OneSessionEach(r.matches) && Tracks(r.sessions, r.matches)
    ensures FallbackInv(caps0, r, FillUpTo(r, n), n)
  {
    FallbackInvInitially(caps0, r);
    var i := 0;
    while i < n
      invariant i <= n && FallbackInv(caps0, r, FillUpTo(r, i), i)
    {
      FillNextKeeps(caps0, r, i);
      i := i + 1;
    }
  }
}
