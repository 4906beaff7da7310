/** The aggregation of `get_analytics` (app.py): per-student best-rank
    buckets, per-school and per-session tallies of the stored match rows,
    and the averages and fill rates derived from them. The route groups the
    rows by student; every tally is proved equal to a sum over the rows in
    their stored order, so the grouping changes nothing. */
module Analytics {
  import opened Schema
  import opened Bids
  import opened Ranks

  /** The route's outcome: the report, or the error response its `except`
      branch returns. */
  datatype Result<T> = Ok(value: T) | Err

  // ---------------------------------------------------------------------
  // Scores.

  /** `Preference.query.filter_by(student_id=s, school_id=sc).first().points`,
      None where the query finds no row. */
  function FirstPoints(prefs: seq<Preference>, s: nat, sc: nat): Option<int> {
    if |prefs| == 0 then None
    else if prefs[0].student == s && prefs[0].school == sc then Some(prefs[0].points)
    else FirstPoints(prefs[1..], s, sc)
  }

  /** The query finds a row exactly when the pair has one, and the points it
      returns are that of the first such row. */
  lemma {:induction false} FirstPointsFound(prefs: seq<Preference>, s: nat, sc: nat)
    ensures FirstPoints(prefs, s, sc).Some? ==>
              exists i :: 0 <= i < |prefs| && prefs[i] == Preference(s, sc, FirstPoints(prefs, s, sc).value)
                          && forall j :: 0 <= j < i ==> prefs[j].student != s || prefs[j].school != sc
    ensures FirstPoints(prefs, s, sc).None? ==>
              forall i :: 0 <= i < |prefs| ==> prefs[i].student != s || prefs[i].school != sc
  {
    if |prefs| > 0 && !(prefs[0].student == s && prefs[0].school == sc) {
      var rest := prefs[1..];
      FirstPointsFound(rest, s, sc);
      assert forall i :: 1 <= i < |prefs| ==> prefs[i] == rest[i - 1];
      if FirstPoints(rest, s, sc).Some? {
        var i :| 0 <= i < |rest| && rest[i] == Preference(s, sc, FirstPoints(rest, s, sc).value)
                 && forall j :: 0 <= j < i ==> rest[j].student != s || rest[j].school != sc;
        assert prefs[i + 1] == rest[i];
      }
    }
  }

  /** With one row per (student, school) pair, as the table's unique
      constraint guarantees, the score analytics reads is the points the
      matcher gave that pair's bid. */
  lemma FirstPointsIsPointsFor(prefs: seq<Preference>, i: nat)
    requires i < |prefs|
    requires forall a, b :: 0 <= a < b < |prefs| ==>
               (prefs[a].student, prefs[a].school) != (prefs[b].student, prefs[b].school)
    ensures FirstPoints(prefs, prefs[i].student, prefs[i].school)
            == Some(PointsFor(prefs, prefs[i].student, prefs[i].school))
  {
    PointsForUniqueRow(prefs, i);
    FirstPointsFound(prefs, prefs[i].student, prefs[i].school);
    var p := FirstPoints(prefs, prefs[i].student, prefs[i].school);
    var j :| 0 <= j < |prefs| && prefs[j] == Preference(prefs[i].student, prefs[i].school, p.value);
    assert j == i;
  }

  /** A row the route can score: its school exists and the student has a
      preference row for it. */
  predicate Known(schools: seq<School>, prefs: seq<Preference>, m: MatchRow) {
    m.school < |schools| && FirstPoints(prefs, m.student, m.school).Some?
  }

  /** The `preference_score` of a row (0 for a row the route cannot score). */
  function Score(prefs: seq<Preference>, m: MatchRow): int {
    match FirstPoints(prefs, m.student, m.school)
    case Some(p) => p
    case None => 0
  }

  /** The row's school is among its student's three best-ranked. */
  predicate InTopThree(prefs: seq<Preference>, m: MatchRow) {
    m.school in TopThree(Ranking(prefs, m.student))
  }

  // ---------------------------------------------------------------------
  // Sums over match rows.

  /** How rows are grouped: by school or by session number. */
  datatype Key = BySchool | BySession

  function KeyOf(key: Key, m: MatchRow): int {
    match key
    case BySchool => m.school
    case BySession => m.session
  }

  /** What a row contributes to a tally. */
  datatype Weight =
    | RowsWith(key: Key, k: int)        // 1 for a row whose key is k
    | ScoreWith(key: Key, k: int)       // the row's score, for a row whose key is k
    | TopThreeAt(school: int)           // 1 for a row at the school its student ranked top three
    | AllScores                         // every row's score

  function WeightOf(prefs: seq<Preference>, w: Weight, m: MatchRow): int {
    match w
    case RowsWith(key, k) => if KeyOf(key, m) == k then 1 else 0
    case ScoreWith(key, k) => if KeyOf(key, m) == k then Score(prefs, m) else 0
    case TopThreeAt(sc) => if m.school == sc && InTopThree(prefs, m) then 1 else 0
    case AllScores => Score(prefs, m)
  }

  /** Sum of a weight over the rows. */
  function SumBy(prefs: seq<Preference>, ms: seq<MatchRow>, w: Weight): int {
    if |ms| == 0 then 0 else SumBy(prefs, ms[..|ms| - 1], w) + WeightOf(prefs, w, ms[|ms| - 1])
  }

  lemma {:induction false} SumByConcat(prefs: seq<Preference>, a: seq<MatchRow>, b: seq<MatchRow>, w: Weight)
    ensures SumBy(prefs, a + b, w) == SumBy(prefs, a, w) + SumBy(prefs, b, w)
  {
    if |b| > 0 {
      SumByConcat(prefs, a, b[..|b| - 1], w);
      assert (a + b)[..|a + b| - 1] == a + b[..|b| - 1];
    } else {
      assert a + b == a;
    }
  }

  /** Taking one row out of the middle takes its weight out of the sum. */
  lemma SumByRemove(prefs: seq<Preference>, b: seq<MatchRow>, k: nat, w: Weight)
    requires k < |b|
    ensures SumBy(prefs, b, w) == SumBy(prefs, b[..k] + b[k + 1..], w) + WeightOf(prefs, w, b[k])
  {
    var front := b[..k] + [b[k]];
    assert b == front + b[k + 1..];
    SumByConcat(prefs, front, b[k + 1..], w);
    SumByConcat(prefs, b[..k], b[k + 1..], w);
    assert front[..k] == b[..k];
  }

  /** The last row of `a` sits somewhere in its permutation `b`, and the
      rest of `a` is a permutation of `b` without it. */
  lemma MatchLast(a: seq<MatchRow>, b: seq<MatchRow>) returns (k: nat)
    requires |a| > 0 && multiset(a) == multiset(b)
    ensures k < |b| && b[k] == a[|a| - 1]
    ensures multiset(a[..|a| - 1]) == multiset(b[..k] + b[k + 1..])
  {
    var init, x := a[..|a| - 1], a[|a| - 1];
    assert a == init + [x];
    assert x in multiset(b);
    k :| 0 <= k < |b| && b[k] == x;
    assert b == b[..k] + [x] + b[k + 1..];
    calc {
      multiset(init);
      multiset(a) - multiset{x};
      multiset(b) - multiset{x};
      multiset(b[..k] + b[k + 1..]);
    }
  }

  /** A sum does not depend on the order of the rows. */
  lemma {:induction false} SumByPermutation(prefs: seq<Preference>, a: seq<MatchRow>, b: seq<MatchRow>, w: Weight)
    requires multiset(a) == multiset(b)
    ensures SumBy(prefs, a, w) == SumBy(prefs, b, w)
    decreases |a|
  {
    if |a| > 0 {
      var k := MatchLast(a, b);
      SumByPermutation(prefs, a[..|a| - 1], b[..k] + b[k + 1..], w);
      SumByRemove(prefs, b, k, w);
    } else {
      assert |b| == |multiset(b)| == 0;
    }
  }

  /** A weight that vanishes on every row sums to 0. */
  lemma {:induction false} SumByZero(prefs: seq<Preference>, ms: seq<MatchRow>, w: Weight)
    requires forall m <- ms :: WeightOf(prefs, w, m) == 0
    ensures SumBy(prefs, ms, w) == 0
  {
    if |ms| > 0 {
      assert forall m <- ms[..|ms| - 1] :: m in ms;
      SumByZero(prefs, ms[..|ms| - 1], w);
    }
  }

  /** Sum of the row counts of the keys listed. */
  function CountsOver(ms: seq<MatchRow>, key: Key, keys: seq<int>): int {
    if |keys| == 0 then 0
    else CountsOver(ms, key, keys[..|keys| - 1]) + SumBy([], ms, RowsWith(key, keys[|keys| - 1]))
  }

  lemma {:induction false} CountsOverAppend(ms: seq<MatchRow>, m: MatchRow, key: Key, keys: seq<int>)
    requires forall i, j :: 0 <= i < j < |keys| ==> keys[i] != keys[j]
    ensures CountsOver(ms + [m], key, keys) == CountsOver(ms, key, keys) + (if KeyOf(key, m) in keys then 1 else 0)
  {
    assert (ms + [m])[..|ms|] == ms;
    if |keys| > 0 {
      var init := keys[..|keys| - 1];
      CountsOverAppend(ms, m, key, init);
      assert keys == init + [keys[|keys| - 1]];
    }
  }

  lemma {:induction false} CountsOverEmpty(key: Key, keys: seq<int>)
    ensures CountsOver([], key, keys) == 0
  {
    if |keys| > 0 {
      CountsOverEmpty(key, keys[..|keys| - 1]);
    }
  }

  /** With each key listed once, the per-key row counts add up to the
      number of rows: the per-school and the per-session `total_matches`
      each sum to the overall `total_matches`. */
  lemma {:induction false} CountsAddUp(ms: seq<MatchRow>, key: Key, keys: seq<int>)
    requires forall i, j :: 0 <= i < j < |keys| ==> keys[i] != keys[j]
    requires forall m <- ms :: KeyOf(key, m) in keys
    ensures CountsOver(ms, key, keys) == |ms|
  {
    if |ms| == 0 {
      CountsOverEmpty(key, keys);
    } else {
      var init, m := ms[..|ms| - 1], ms[|ms| - 1];
      assert ms == init + [m];
      assert forall x <- init :: x in ms;
      CountsAddUp(init, key, keys);
      CountsOverAppend(init, m, key, keys);
    }
  }

  /** `top_3_applications` never exceeds the school's `total_matches`. */
  lemma {:induction false} TopThreeAtMostMatches(prefs: seq<Preference>, ms: seq<MatchRow>, sc: nat)
    ensures 0 <= SumBy(prefs, ms, TopThreeAt(sc)) <= SumBy(prefs, ms, RowsWith(BySchool, sc))
  {
    if |ms| > 0 {
      TopThreeAtMostMatches(prefs, ms[..|ms| - 1], sc);
    }
  }

  // ---------------------------------------------------------------------
  // Tallies and the report.

  /** An entry of `school_stats` before the final division. */
  datatype SchoolTally = SchoolTally(name: string, totalMatches: int, totalCapacity: int, scoreSum: int, topThreeApplications: int)

  /** An entry of `session_stats` before the final division. */
  datatype SessionTally = SessionTally(totalMatches: int, scoreSum: int)

  /** One more match row, with score `points`, counted into a school entry. */
  function AddToSchool(t: SchoolTally, points: int, top: bool): (r: SchoolTally)
    ensures r.name == t.name && r.totalCapacity == t.totalCapacity
    ensures r.totalMatches == t.totalMatches + 1 && r.scoreSum == t.scoreSum + points
    ensures r.topThreeApplications == t.topThreeApplications + (if top then 1 else 0)
  {
    t.(totalMatches := t.totalMatches + 1, scoreSum := t.scoreSum + points,
       topThreeApplications := t.topThreeApplications + (if top then 1 else 0))
  }

  /** One more match row counted into a session entry. */
  function AddToSession(t: SessionTally, points: int): (r: SessionTally)
    ensures r.totalMatches == t.totalMatches + 1 && r.scoreSum == t.scoreSum + points
  {
    SessionTally(t.totalMatches + 1, t.scoreSum + points)
  }

  /** School `sc`'s entry over rows `ms`: its rows, the sum of its six
      capacities, their scores, and those of them ranked top three. */
  function SchoolTallyOf(schools: seq<School>, prefs: seq<Preference>, ms: seq<MatchRow>, sc: nat): SchoolTally
    requires sc < |schools|
  {
    SchoolTally(schools[sc].name, SumBy(prefs, ms, RowsWith(BySchool, sc)), schools[sc].TotalCapacity(),
                SumBy(prefs, ms, ScoreWith(BySchool, sc)), SumBy(prefs, ms, TopThreeAt(sc)))
  }

  /** Session `n`'s entry over rows `ms`. */
  function SessionTallyOf(prefs: seq<Preference>, ms: seq<MatchRow>, n: int): SessionTally {
    SessionTally(SumBy(prefs, ms, RowsWith(BySession, n)), SumBy(prefs, ms, ScoreWith(BySession, n)))
  }

  datatype SchoolReport = SchoolReport(
    name: string, totalMatches: int, totalCapacity: int,
    averageScore: Quotient, fillRate: Quotient, topThreeApplications: int)

  datatype SessionReport = SessionReport(totalMatches: int, averageScore: Quotient)

  /** The final division of a school entry: the average score over its
      matches, and the fill rate as a percentage, `total_matches * 100`
      over the total capacity, 0 when that capacity is not positive. */
  function FinishSchool(t: SchoolTally): (r: SchoolReport)
    ensures r.name == t.name && r.totalMatches == t.totalMatches && r.totalCapacity == t.totalCapacity
    ensures r.topThreeApplications == t.topThreeApplications
    ensures r.fillRate.Ratio? <==> t.totalMatches > 0 && t.totalCapacity > 0
    ensures r.fillRate.Ratio? ==> r.fillRate.num == 100 * t.totalMatches && r.fillRate.den == t.totalCapacity
    ensures r.averageScore.Ratio? <==> t.totalMatches > 0
    ensures r.averageScore.Ratio? ==> r.averageScore.den == t.totalMatches && r.averageScore.num == t.scoreSum
  {
    if t.totalMatches > 0 then
      SchoolReport(t.name, t.totalMatches, t.totalCapacity, Ratio(t.scoreSum, t.totalMatches),
                   if t.totalCapacity > 0 then Ratio(100 * t.totalMatches, t.totalCapacity) else Zero,
                   t.topThreeApplications)
    else
      SchoolReport(t.name, t.totalMatches, t.totalCapacity, Zero, Zero, t.topThreeApplications)
  }

  function FinishSession(t: SessionTally): (r: SessionReport)
    ensures r.totalMatches == t.totalMatches
    ensures r.averageScore.Ratio? <==> t.totalMatches > 0
  {
    if t.totalMatches > 0 then SessionReport(t.totalMatches, Ratio(t.scoreSum, t.totalMatches))
    else SessionReport(t.totalMatches, Zero)
  }

  /** The final division of every `school_stats` entry. */
  function FinishSchools(tally: map<nat, SchoolTally>): (r: map<nat, SchoolReport>)
    ensures r.Keys == tally.Keys && forall sc :: sc in r ==> r[sc] == FinishSchool(tally[sc])
  {
    map sc | sc in tally :: FinishSchool(tally[sc])
  }

  /** The final division of every `session_stats` entry. */
  function FinishSessions(tally: map<int, SessionTally>): (r: map<int, SessionReport>)
    ensures r.Keys == tally.Keys && forall n :: n in r ==> r[n] == FinishSession(tally[n])
  {
    map n | n in tally :: FinishSession(tally[n])
  }

  /** The `top_choices` block. */
  datatype TopChoices = TopChoices(first: nat, second: nat, third: nat, other: nat, totalStudents: nat, withTopThree: nat)

  /** The whole `analytics` object. */
  datatype Report = Report(
    top: TopChoices, schools: map<nat, SchoolReport>, sessions: map<int, SessionReport>,
    totalMatches: int, averageScore: Quotient, studentsWithTopThree: int)

  // ---------------------------------------------------------------------
  // Students and their buckets.

  /** The matched students in order of first appearance; the route walks
      the set of student ids, and no value it reports depends on that order. */
  function Students(ms: seq<MatchRow>): (d: seq<nat>)
    ensures forall i, j :: 0 <= i < j < |d| ==> d[i] != d[j]
  {
    if |ms| == 0 then []
    else
      var d := Students(ms[..|ms| - 1]);
      if ms[|ms| - 1].student in d then d else d + [ms[|ms| - 1].student]
  }

  /** A student is listed exactly when some row is theirs. */
  lemma {:induction false} StudentsMember(ms: seq<MatchRow>, s: nat)
    ensures s in Students(ms) <==> exists m <- ms :: m.student == s
  {
    if |ms| > 0 {
      var init := ms[..|ms| - 1];
      StudentsMember(init, s);
      assert ms == init + [ms[|ms| - 1]];
      assert forall m <- init :: m in ms;
    }
  }

  /** `total_students` is `len(set(student ids))`: the number of students listed. */
  lemma {:induction false} StudentsCount(ms: seq<MatchRow>)
    ensures |Students(ms)| == |set m | m in ms :: m.student|
  {
    if |ms| > 0 {
      var init, last := ms[..|ms| - 1], ms[|ms| - 1];
      StudentsCount(init);
      assert ms == init + [last];
      StudentsMember(init, last.student);
      var before := set m | m in init :: m.student;
      var after := set m | m in ms :: m.student;
      assert after == before + {last.student};
      if last.student in Students(init) {
        var w :| w in init && w.student == last.student;
        assert last.student in before;
        assert Students(ms) == Students(init);
        assert after == before;
      } else {
        assert last.student !in before;
      }
    }
  }

  /** A best rank of 1, 2 or 3. */
  predicate RankedTopThree(best: Option<nat>) {
    best == Some(1) || best == Some(2) || best == Some(3)
  }

  /** The best rank among student `s`'s rows. */
  function StudentBest(prefs: seq<Preference>, ms: seq<MatchRow>, s: nat): Option<nat> {
    BestRank(Ranking(prefs, s), StudentRows(ms, s))
  }

  /** Students of `d` whose best rank is `k`. */
  function CountBest(prefs: seq<Preference>, ms: seq<MatchRow>, d: seq<nat>, k: nat): nat {
    if |d| == 0 then 0
    else CountBest(prefs, ms, d[..|d| - 1], k) + (if StudentBest(prefs, ms, d[|d| - 1]) == Some(k) then 1 else 0)
  }

  /** Students of `d` whose best rank is not 1, 2 or 3 (including unranked). */
  function CountOther(prefs: seq<Preference>, ms: seq<MatchRow>, d: seq<nat>): nat {
    if |d| == 0 then 0
    else CountOther(prefs, ms, d[..|d| - 1]) + (if RankedTopThree(StudentBest(prefs, ms, d[|d| - 1])) then 0 else 1)
  }

  /** Students of `d` that got one of their three best-ranked schools, in
      the sense of the report of students without a top-3 pick. */
  function CountGotTopThree(prefs: seq<Preference>, ms: seq<MatchRow>, d: seq<nat>): nat {
    if |d| == 0 then 0
    else CountGotTopThree(prefs, ms, d[..|d| - 1]) + (if MissedTopThree(prefs, ms, d[|d| - 1]) then 0 else 1)
  }

  /** A student is in the first, second or third bucket exactly when the
      top-3 report does not list them. */
  lemma BucketAgreesWithReport(prefs: seq<Preference>, ms: seq<MatchRow>, s: nat)
    ensures !MissedTopThree(prefs, ms, s) <==> RankedTopThree(StudentBest(prefs, ms, s))
  {
    var ranking, rows := Ranking(prefs, s), StudentRows(ms, s);
    GotTopThreeIffBestRank(ranking, rows);
    BestRankIsMinimum(ranking, rows);
  }

  /** Every student lands in exactly one bucket, and the students with at
      least one top-3 school are the first three buckets. */
  lemma {:induction false} BucketsPartition(prefs: seq<Preference>, ms: seq<MatchRow>, d: seq<nat>)
    ensures CountBest(prefs, ms, d, 1) + CountBest(prefs, ms, d, 2) + CountBest(prefs, ms, d, 3)
            + CountOther(prefs, ms, d) == |d|
    ensures CountGotTopThree(prefs, ms, d)
            == CountBest(prefs, ms, d, 1) + CountBest(prefs, ms, d, 2) + CountBest(prefs, ms, d, 3)
  {
    if |d| > 0 {
      BucketsPartition(prefs, ms, d[..|d| - 1]);
      BucketAgreesWithReport(prefs, ms, d[|d| - 1]);
    }
  }

  // ---------------------------------------------------------------------
  // Grouping the rows by student.

  /** The rows of the students of `d`, student by student. */
  function Grouped(ms: seq<MatchRow>, d: seq<nat>): seq<MatchRow> {
    if |d| == 0 then [] else Grouped(ms, d[..|d| - 1]) + StudentRows(ms, d[|d| - 1])
  }

  /** The rows of `ms` whose student is listed in `d`. */
  function RowsAmong(ms: seq<MatchRow>, d: seq<nat>): seq<MatchRow> {
    if |ms| == 0 then []
    else RowsAmong(ms[..|ms| - 1], d) + (if ms[|ms| - 1].student in d then [ms[|ms| - 1]] else [])
  }

  lemma {:induction false} GroupedAppend(ms: seq<MatchRow>, m: MatchRow, d: seq<nat>)
    requires forall i, j :: 0 <= i < j < |d| ==> d[i] != d[j]
    ensures multiset(Grouped(ms + [m], d)) == multiset(Grouped(ms, d)) + (if m.student in d then multiset{m} else multiset{})
  {
    assert (ms + [m])[..|ms|] == ms;
    if |d| > 0 {
      var init := d[..|d| - 1];
      GroupedAppend(ms, m, init);
      assert d == init + [d[|d| - 1]];
    }
  }

  lemma {:induction false} GroupedIsRowsAmong(ms: seq<MatchRow>, d: seq<nat>)
    requires forall i, j :: 0 <= i < j < |d| ==> d[i] != d[j]
    ensures multiset(Grouped(ms, d)) == multiset(RowsAmong(ms, d))
  {
    if |ms| == 0 {
      GroupedEmpty(d);
    } else {
      var init, m := ms[..|ms| - 1], ms[|ms| - 1];
      assert ms == init + [m];
      GroupedIsRowsAmong(init, d);
      GroupedAppend(init, m, d);
    }
  }

  lemma {:induction false} GroupedEmpty(d: seq<nat>)
    ensures Grouped([], d) == []
  {
    if |d| > 0 {
      GroupedEmpty(d[..|d| - 1]);
    }
  }

  lemma {:induction false} RowsAmongAll(ms: seq<MatchRow>, d: seq<nat>)
    requires forall m <- ms :: m.student in d
    ensures RowsAmong(ms, d) == ms
  {
    if |ms| > 0 {
      var init := ms[..|ms| - 1];
      assert forall m <- init :: m in ms;
      RowsAmongAll(init, d);
      assert ms == init + [ms[|ms| - 1]];
    }
  }

  /** Walking the rows student by student visits each row exactly once. */
  lemma GroupedIsPermutation(ms: seq<MatchRow>)
    ensures multiset(Grouped(ms, Students(ms))) == multiset(ms)
  {
    var d := Students(ms);
    forall m | m in ms
      ensures m.student in d
    {
      StudentsMember(ms, m.student);
    }
    GroupedIsRowsAmong(ms, d);
    RowsAmongAll(ms, d);
  }

  // ---------------------------------------------------------------------
  // The route.

  /** The entries of `school_stats` are the tallies of the rows seen so far. */
  ghost predicate SchoolsTallied(schools: seq<School>, prefs: seq<Preference>, done: seq<MatchRow>,
                                 tally: map<nat, SchoolTally>) {
    && tally.Keys == (set m | m in done :: m.school)
    && forall sc :: sc in tally ==> sc < |schools| && tally[sc] == SchoolTallyOf(schools, prefs, done, sc)
  }

  /** The entries of `session_stats` are the tallies of the rows seen so far. */
  ghost predicate SessionsTallied(prefs: seq<Preference>, done: seq<MatchRow>, tally: map<int, SessionTally>) {
    && tally.Keys == (set m | m in done :: m.session)
    && forall n :: n in tally ==> tally[n] == SessionTallyOf(prefs, done, n)
  }

  /** Appending a row adds its weight to a sum. */
  lemma SumByLast(prefs: seq<Preference>, done: seq<MatchRow>, m: MatchRow, w: Weight)
    ensures SumBy(prefs, done + [m], w) == SumBy(prefs, done, w) + WeightOf(prefs, w, m)
  {
    assert (done + [m])[..|done|] == done;
  }

  /** A key no row carries has zero sums. */
  lemma UnseenSums(prefs: seq<Preference>, done: seq<MatchRow>, key: Key, k: int)
    requires forall x <- done :: KeyOf(key, x) != k
    ensures SumBy(prefs, done, RowsWith(key, k)) == 0 && SumBy(prefs, done, ScoreWith(key, k)) == 0
    ensures key == BySchool ==> SumBy(prefs, done, TopThreeAt(k)) == 0
  {
    SumByZero(prefs, done, RowsWith(key, k));
    SumByZero(prefs, done, ScoreWith(key, k));
    if key == BySchool {
      SumByZero(prefs, done, TopThreeAt(k));
    }
  }

  /** One school's entry after one more row: the row's school gains the
      row, every other school keeps its entry. */
  lemma SchoolEntryStep(schools: seq<School>, prefs: seq<Preference>, done: seq<MatchRow>, m: MatchRow,
                        sc: nat, t: SchoolTally)
    requires sc < |schools| && t == SchoolTallyOf(schools, prefs, done, sc)
    ensures SchoolTallyOf(schools, prefs, done + [m], sc)
            == if sc == m.school then AddToSchool(t, Score(prefs, m), InTopThree(prefs, m)) else t
  {
    SumByLast(prefs, done, m, RowsWith(BySchool, sc));
    SumByLast(prefs, done, m, ScoreWith(BySchool, sc));
    SumByLast(prefs, done, m, TopThreeAt(sc));
  }

  /** Counting one known row into `school_stats`. */
  lemma SchoolStep(schools: seq<School>, prefs: seq<Preference>, done: seq<MatchRow>,
                   tally: map<nat, SchoolTally>, m: MatchRow, t: SchoolTally)
    requires SchoolsTallied(schools, prefs, done, tally) && Known(schools, prefs, m)
    requires t == if m.school in tally then tally[m.school]
                  else SchoolTally(schools[m.school].name, 0, schools[m.school].TotalCapacity(), 0, 0)
    ensures SchoolsTallied(schools, prefs, done + [m], tally[m.school := AddToSchool(t, Score(prefs, m), InTopThree(prefs, m))])
  {
    var done' := done + [m];
    var tally' := tally[m.school := AddToSchool(t, Score(prefs, m), InTopThree(prefs, m))];
    forall sc | sc in tally'
      ensures sc < |schools| && tally'[sc] == SchoolTallyOf(schools, prefs, done', sc)
    {
      if sc == m.school {
        if sc !in tally {
          forall x <- done
            ensures KeyOf(BySchool, x) != sc
          {
            assert x.school in tally;
          }
          UnseenSums(prefs, done, BySchool, sc);
        }
        SchoolEntryStep(schools, prefs, done, m, sc, t);
      } else {
        SchoolEntryStep(schools, prefs, done, m, sc, tally[sc]);
      }
    }
    assert tally'.Keys == (set x | x in done' :: x.school);
  }

  /** Counting one row into `session_stats`. */
  lemma SessionStep(prefs: seq<Preference>, done: seq<MatchRow>, tally: map<int, SessionTally>,
                    m: MatchRow, t: SessionTally)
    requires SessionsTallied(prefs, done, tally)
    requires t == if m.session in tally then tally[m.session] else SessionTally(0, 0)
    ensures SessionsTallied(prefs, done + [m], tally[m.session := AddToSession(t, Score(prefs, m))])
  {
    var done' := done + [m];
    var tally' := tally[m.session := AddToSession(t, Score(prefs, m))];
    forall n | n in tally'
      ensures tally'[n] == SessionTallyOf(prefs, done', n)
    {
      SumByLast(prefs, done, m, RowsWith(BySession, n));
      SumByLast(prefs, done, m, ScoreWith(BySession, n));
      if n == m.session && n !in tally {
        forall x <- done
          ensures KeyOf(BySession, x) != n
        {
          assert x.session in tally;
        }
        UnseenSums(prefs, done, BySession, n);
      }
    }
    assert tally'.Keys == (set x | x in done' :: x.session);
  }

  /** The top-choice counts over the students of `d`. */
  function TopChoicesOver(prefs: seq<Preference>, ms: seq<MatchRow>, d: seq<nat>, total: nat): TopChoices {
    TopChoices(CountBest(prefs, ms, d, 1), CountBest(prefs, ms, d, 2), CountBest(prefs, ms, d, 3),
               CountOther(prefs, ms, d), total, CountGotTopThree(prefs, ms, d))
  }

  /** One more student counted into the top-choice buckets: the `if`
      chain over the student's best rank. */
  function AddToBuckets(top: TopChoices, best: Option<nat>): (r: TopChoices)
    ensures r.first == top.first + (if best == Some(1) then 1 else 0)
    ensures r.second == top.second + (if best == Some(2) then 1 else 0)
    ensures r.third == top.third + (if best == Some(3) then 1 else 0)
    ensures r.other == top.other + (if RankedTopThree(best) then 0 else 1)
    ensures r.first + r.second + r.third + r.other == top.first + top.second + top.third + top.other + 1
    ensures r.withTopThree == top.withTopThree + (if RankedTopThree(best) then 1 else 0)
    ensures r.totalStudents == top.totalStudents
  {
    if best == Some(1) then top.(first := top.first + 1, withTopThree := top.withTopThree + 1)
    else if best == Some(2) then top.(second := top.second + 1, withTopThree := top.withTopThree + 1)
    else if best == Some(3) then top.(third := top.third + 1, withTopThree := top.withTopThree + 1)
    else top.(other := top.other + 1)
  }

  /** Counting the students of `d` and then `s` is counting `s` into the
      counts of `d`. */
  lemma TopChoicesStep(prefs: seq<Preference>, ms: seq<MatchRow>, d: seq<nat>, s: nat, total: nat)
    ensures TopChoicesOver(prefs, ms, d + [s], total)
            == AddToBuckets(TopChoicesOver(prefs, ms, d, total), StudentBest(prefs, ms, s))
  {
    assert (d + [s])[..|d|] == d;
    BucketAgreesWithReport(prefs, ms, s);
  }

  /** The route's running state: `school_stats`, `session_stats` and the
      sum of every row's score. */
  datatype Tallies = Tallies(schools: map<nat, SchoolTally>, sessions: map<int, SessionTally>, scoreSum: int)

  /** Every school in `school_stats` exists. */
  predicate SchoolsExist(schools: seq<School>, t: Tallies) {
    forall sc :: sc in t.schools ==> sc < |schools|
  }

  /** Counting one row into the tallies; a row the route cannot score
      leaves them as they are (the route has failed by then). */
  function CountRow(schools: seq<School>, prefs: seq<Preference>, t: Tallies, m: MatchRow): Tallies {
    if !Known(schools, prefs, m) then t
    else
      var st := if m.school in t.schools then t.schools[m.school]
                else SchoolTally(schools[m.school].name, 0, schools[m.school].TotalCapacity(), 0, 0);
      var se := if m.session in t.sessions then t.sessions[m.session] else SessionTally(0, 0);
      var p := Score(prefs, m);
      Tallies(t.schools[m.school := AddToSchool(st, p, InTopThree(prefs, m))],
              t.sessions[m.session := AddToSession(se, p)],
              t.scoreSum + p)
  }

  /** Counting rows `ms` in order, starting from `t`. */
  function CountRows(schools: seq<School>, prefs: seq<Preference>, t: Tallies, ms: seq<MatchRow>): Tallies {
    if |ms| == 0 then t else CountRow(schools, prefs, CountRows(schools, prefs, t, ms[..|ms| - 1]), ms[|ms| - 1])
  }

  lemma {:induction false} CountRowsConcat(schools: seq<School>, prefs: seq<Preference>, t: Tallies,
                                           a: seq<MatchRow>, b: seq<MatchRow>)
    ensures CountRows(schools, prefs, t, a + b) == CountRows(schools, prefs, CountRows(schools, prefs, t, a), b)
  {
    if |b| > 0 {
      CountRowsConcat(schools, prefs, t, a, b[..|b| - 1]);
      assert (a + b)[..|a + b| - 1] == a + b[..|b| - 1];
    } else {
      assert a + b == a;
    }
  }

  /** When every row can be scored, counting them from empty tallies sums
      the scores of all rows. */
  lemma {:induction false} CountRowsScoreSum(schools: seq<School>, prefs: seq<Preference>, ms: seq<MatchRow>)
    requires forall m <- ms :: Known(schools, prefs, m)
    ensures CountRows(schools, prefs, Tallies(map[], map[], 0), ms).scoreSum == SumBy(prefs, ms, AllScores)
  {
    if |ms| > 0 {
      var init, m := ms[..|ms| - 1], ms[|ms| - 1];
      assert forall x <- init :: x in ms;
      CountRowsScoreSum(schools, prefs, init);
      var t := CountRows(schools, prefs, Tallies(map[], map[], 0), init);
      assert Known(schools, prefs, m);
      assert CountRows(schools, prefs, Tallies(map[], map[], 0), ms) == CountRow(schools, prefs, t, m);
      assert WeightOf(prefs, AllScores, m) == Score(prefs, m);
    } else {
      assert SumBy(prefs, ms, AllScores) == 0;
    }
  }

  /** When every row can be scored, counting them from empty tallies gives
      each school and session seen the tallies of its rows, and the score
      sum of all rows. */
  lemma {:induction false} CountRowsMeaning(schools: seq<School>, prefs: seq<Preference>, ms: seq<MatchRow>)
    requires forall m <- ms :: Known(schools, prefs, m)
    ensures SchoolsTallied(schools, prefs, ms, CountRows(schools, prefs, Tallies(map[], map[], 0), ms).schools)
    ensures SessionsTallied(prefs, ms, CountRows(schools, prefs, Tallies(map[], map[], 0), ms).sessions)
    ensures CountRows(schools, prefs, Tallies(map[], map[], 0), ms).scoreSum == SumBy(prefs, ms, AllScores)
  {
    if |ms| > 0 {
      var init, m := ms[..|ms| - 1], ms[|ms| - 1];
      assert forall x <- init :: x in ms;
      assert ms == init + [m];
      CountRowsMeaning(schools, prefs, init);
      var t := CountRows(schools, prefs, Tallies(map[], map[], 0), init);
      assert Known(schools, prefs, m);
      var st := if m.school in t.schools then t.schools[m.school]
                else SchoolTally(schools[m.school].name, 0, schools[m.school].TotalCapacity(), 0, 0);
      var se := if m.session in t.sessions then t.sessions[m.session] else SessionTally(0, 0);
      assert CountRows(schools, prefs, Tallies(map[], map[], 0), ms) == CountRow(schools, prefs, t, m);
      SchoolStep(schools, prefs, init, t.schools, m, st);
      SessionStep(prefs, init, t.sessions, m, se);
    }
    CountRowsScoreSum(schools, prefs, ms);
  }

  /** The body of the route's inner loop for one match row: fails when the
      row names an unknown school or has no preference row, and otherwise
      counts the row into `school_stats`, `session_stats` and the score sum. */
  method TallyRow(schools: seq<School>, prefs: seq<Preference>, m: MatchRow, inTop: bool, t0: Tallies)
    returns (ok: bool, t: Tallies)
    requires inTop == InTopThree(prefs, m)
    requires SchoolsExist(schools, t0)
    ensures ok <==> Known(schools, prefs, m)
    ensures ok ==> t == CountRow(schools, prefs, t0, m) && SchoolsExist(schools, t)
  {
    var st: SchoolTally;
    if m.school in t0.schools {
      st := t0.schools[m.school];
    } else {
      if m.school >= |schools| {
        return false, t0;
      }
      var school := schools[m.school];
      st := SchoolTally(school.name, 0, school.TotalCapacity(), 0, 0);
    }
    var found := FirstPoints(prefs, m.student, m.school);
    if found.None? {
      return false, t0;
    }
    var points := found.value;
    var se := if m.session in t0.sessions then t0.sessions[m.session] else SessionTally(0, 0);
    var schoolTally := t0.schools[m.school := AddToSchool(st, points, inTop)];
    var sessionTally := t0.sessions[m.session := AddToSession(se, points)];
    ok, t := true, Tallies(schoolTally, sessionTally, t0.scoreSum + points);
  }

  /** The route's inner loop over one student's rows, in order; fails at the
      first row that names an unknown school or has no preference row. */
  method TallyStudent(schools: seq<School>, prefs: seq<Preference>, rows: seq<MatchRow>, topThree: seq<nat>, t0: Tallies)
    returns (ok: bool, t: Tallies)
    requires forall m <- rows :: topThree == TopThree(Ranking(prefs, m.student))
    requires SchoolsExist(schools, t0)
    ensures !ok <==> exists m <- rows :: !Known(schools, prefs, m)
    ensures ok ==> t == CountRows(schools, prefs, t0, rows) && SchoolsExist(schools, t)
  {
    t := t0;
    for j := 0 to |rows|
      invariant forall m <- rows[..j] :: Known(schools, prefs, m)
      invariant t == CountRows(schools, prefs, t0, rows[..j]) && SchoolsExist(schools, t)
    {
      var m := rows[j];
      assert m in rows;
      assert rows[..j + 1][..j] == rows[..j];
      var rowOk;
      rowOk, t := TallyRow(schools, prefs, m, m.school in topThree, t);
      if !rowOk {
        return false, t;
      }
    }
    assert rows[..|rows|] == rows;
    ok := true;
  }

  /** The route's outer loop: each matched student, in order of first
      appearance, is counted into the bucket of their best rank, then their
      rows into the tallies; fails at the first row that cannot be scored. */
  method TallyStudents(schools: seq<School>, prefs: seq<Preference>, ms: seq<MatchRow>)
    returns (ok: bool, top: TopChoices, t: Tallies)
    ensures !ok ==> exists m <- ms :: !Known(schools, prefs, m)
    ensures ok ==> && top == TopChoicesOver(prefs, ms, Students(ms), |Students(ms)|)
                   && t == CountRows(schools, prefs, Tallies(map[], map[], 0), Grouped(ms, Students(ms)))
                   && forall m <- Grouped(ms, Students(ms)) :: Known(schools, prefs, m)
  {
    var students := Students(ms);
    top := TopChoices(0, 0, 0, 0, |students|, 0);
    t := Tallies(map[], map[], 0);
    ghost var done: seq<MatchRow> := [];
    for i := 0 to |students|
      invariant done == Grouped(ms, students[..i])
      invariant forall m <- done :: Known(schools, prefs, m)
      invariant top == TopChoicesOver(prefs, ms, students[..i], |students|)
      invariant t == CountRows(schools, prefs, Tallies(map[], map[], 0), done) && SchoolsExist(schools, t)
    {
      var s := students[i];
      assert students[..i + 1] == students[..i] + [s];
      var rows := StudentRows(ms, s);
      var ranking := Ranking(prefs, s);
      var best := BestRankOf(ranking, rows);
      assert best == StudentBest(prefs, ms, s);
      TopChoicesStep(prefs, ms, students[..i], s, |students|);
      top := AddToBuckets(top, best);
      var rowsOk;
      rowsOk, t := TallyStudent(schools, prefs, rows, TopThree(ranking), t);
      if !rowsOk {
        return false, top, t;
      }
      CountRowsConcat(schools, prefs, Tallies(map[], map[], 0), done, rows);
      done := done + rows;
    }
    assert students[..|students|] == students;
    ok := true;
  }

  /** `get_analytics` over the stored rows `ms`. The route fails (its
      `except` branch) exactly when some row names an unknown school or
      has no preference row to score it. Otherwise each school and session
      seen gets the tallies of all its rows, the top-choice buckets count
      the matched students by best rank, and the averages divide by the
      number of rows. */
  method GetAnalytics(schools: seq<School>, prefs: seq<Preference>, ms: seq<MatchRow>)
    returns (result: Result<Report>)
    ensures result.Err? <==> exists m <- ms :: !Known(schools, prefs, m)
    ensures result.Ok? ==>
      var r := result.value;
      && r.totalMatches == |ms|
      && r.top == TopChoicesOver(prefs, ms, Students(ms), |set m | m in ms :: m.student|)
      && r.schools.Keys == (set m | m in ms :: m.school)
      && (forall sc :: sc in r.schools ==>
            sc < |schools| && r.schools[sc] == FinishSchool(SchoolTallyOf(schools, prefs, ms, sc)))
      && r.sessions.Keys == (set m | m in ms :: m.session)
      && (forall n :: n in r.sessions ==> r.sessions[n] == FinishSession(SessionTallyOf(prefs, ms, n)))
      && r.averageScore == (if |ms| > 0 then Ratio(SumBy(prefs, ms, AllScores), |ms|) else Zero)
      && r.studentsWithTopThree == (if |ms| > 0 then r.top.withTopThree else 0)
  {
    var ok, top, t := TallyStudents(schools, prefs, ms);
    if !ok {
      return Err;
    }
    StudentsCount(ms);
    GroupedTallies(schools, prefs, ms, t);
    var schoolReports := FinishSchools(t.schools);
    var sessionReports := FinishSessions(t.sessions);
    var average := if |ms| > 0 then Ratio(t.scoreSum, |ms|) else Zero;
    var withTopThree := if |ms| > 0 then top.withTopThree else 0;
    result := Ok(Report(top, schoolReports, sessionReports, |ms|, average, withTopThree));
  }

  /** A school's entry does not depend on the order of the rows. */
  lemma SchoolTallyPermutation(schools: seq<School>, prefs: seq<Preference>, a: seq<MatchRow>, b: seq<MatchRow>, sc: nat)
    requires sc < |schools| && multiset(a) == multiset(b)
    ensures SchoolTallyOf(schools, prefs, a, sc) == SchoolTallyOf(schools, prefs, b, sc)
  {
    SumByPermutation(prefs, a, b, RowsWith(BySchool, sc));
    SumByPermutation(prefs, a, b, ScoreWith(BySchool, sc));
    SumByPermutation(prefs, a, b, TopThreeAt(sc));
  }

  /** A session's entry does not depend on the order of the rows. */
  lemma SessionTallyPermutation(prefs: seq<Preference>, a: seq<MatchRow>, b: seq<MatchRow>, n: int)
    requires multiset(a) == multiset(b)
    ensures SessionTallyOf(prefs, a, n) == SessionTallyOf(prefs, b, n)
  {
    SumByPermutation(prefs, a, b, RowsWith(BySession, n));
    SumByPermutation(prefs, a, b, ScoreWith(BySession, n));
  }

  /** Counting the rows student by student gives the tallies of the rows in
      their stored order. */
  lemma GroupedTallies(schools: seq<School>, prefs: seq<Preference>, ms: seq<MatchRow>, t: Tallies)
    requires forall m <- Grouped(ms, Students(ms)) :: Known(schools, prefs, m)
    requires t == CountRows(schools, prefs, Tallies(map[], map[], 0), Grouped(ms, Students(ms)))
    ensures forall m <- ms :: Known(schools, prefs, m)
    ensures t.schools.Keys == (set m | m in ms :: m.school)
    ensures forall sc :: sc in t.schools ==> sc < |schools| && t.schools[sc] == SchoolTallyOf(schools, prefs, ms, sc)
    ensures t.sessions.Keys == (set m | m in ms :: m.session)
    ensures forall n :: n in t.sessions ==> t.sessions[n] == SessionTallyOf(prefs, ms, n)
    ensures t.scoreSum == SumBy(prefs, ms, AllScores)
  {
    var done := Grouped(ms, Students(ms));
    CountRowsMeaning(schools, prefs, done);
    GroupedIsPermutation(ms);
    SameRows(done, ms);
    SchoolsTalliedPermutation(schools, prefs, done, ms, t.schools);
    SessionsTalliedPermutation(prefs, done, ms, t.sessions);
    SumByPermutation(prefs, done, ms, AllScores);
  }

  /** Rows that are a permutation of each other hold the same rows. */
  lemma SameRows(a: seq<MatchRow>, b: seq<MatchRow>)
    requires multiset(a) == multiset(b)
    ensures |a| == |b| && forall m :: m in a <==> m in b
  {
    forall m
      ensures m in a <==> m in b
    {
      assert m in a <==> m in multiset(a);
    }
    assert |a| == |multiset(a)| == |b|;
  }

  /** The `school_stats` of rows hold for any permutation of them. */
  lemma SchoolsTalliedPermutation(schools: seq<School>, prefs: seq<Preference>, a: seq<MatchRow>, b: seq<MatchRow>,
                                  tally: map<nat, SchoolTally>)
    requires multiset(a) == multiset(b) && SchoolsTallied(schools, prefs, a, tally)
    ensures SchoolsTallied(schools, prefs, b, tally)
  {
    SameRows(a, b);
    forall sc | sc in tally
      ensures tally[sc] == SchoolTallyOf(schools, prefs, b, sc)
    {
      SchoolTallyPermutation(schools, prefs, a, b, sc);
    }
  }

  /** The `session_stats` of rows hold for any permutation of them. */
  lemma SessionsTalliedPermutation(prefs: seq<Preference>, a: seq<MatchRow>, b: seq<MatchRow>,
                                   tally: map<int, SessionTally>)
    requires multiset(a) == multiset(b) && SessionsTallied(prefs, a, tally)
    ensures SessionsTallied(prefs, b, tally)
  {
    SameRows(a, b);
    forall n | n in tally
      ensures tally[n] == SessionTallyOf(prefs, b, n)
    {
      SessionTallyPermutation(prefs, a, b, n);
    }
  }
}
