/** How a student's preferences rank schools — the preference query ordered
    by points, highest first — and the report of students who did not get
    one of their three best-ranked schools (`get_students_without_top_3_picks`,
    matching.py). */
module Ranks {
  import opened Schema
  import opened Bids

  /** Student `s`'s preference rows in table order, each as a bid whose
      tiebreak is the row's position in the table. */
  function RowsOf(prefs: seq<Preference>, s: nat): seq<Bid> {
    if |prefs| == 0 then []
    else
      var p := prefs[|prefs| - 1];
      RowsOf(prefs[..|prefs| - 1], s) + (if p.student == s then [Bid(s, p.school, p.points, |prefs| - 1)] else [])
  }

  /** The rows taken are exactly the student's preference rows. */
  lemma {:induction false} RowsOfMember(prefs: seq<Preference>, s: nat, b: Bid)
    ensures b in RowsOf(prefs, s) <==>
              exists i :: 0 <= i < |prefs| && prefs[i].student == s && b == Bid(s, prefs[i].school, prefs[i].points, i)
  {
    if |prefs| > 0 {
      var init := prefs[..|prefs| - 1];
      RowsOfMember(init, s, b);
      if exists i :: 0 <= i < |init| && init[i].student == s && b == Bid(s, init[i].school, init[i].points, i) {
        var i :| 0 <= i < |init| && init[i].student == s && b == Bid(s, init[i].school, init[i].points, i);
        assert prefs[i] == init[i];
      }
      if exists i :: 0 <= i < |prefs| && prefs[i].student == s && b == Bid(s, prefs[i].school, prefs[i].points, i) {
        var i :| 0 <= i < |prefs| && prefs[i].student == s && b == Bid(s, prefs[i].school, prefs[i].points, i);
        if i < |init| {
          assert init[i] == prefs[i];
        }
      }
    }
  }

  /** `Preference.query.filter_by(student_id=s).order_by(points.desc())`:
      the student's rows, highest points first; rows with equal points stay
      in table order. */
  function RankedRows(prefs: seq<Preference>, s: nat): (r: seq<Bid>)
    ensures forall i, j :: 0 <= i < j < |r| ==> r[i].points >= r[j].points
    ensures multiset(r) == multiset(RowsOf(prefs, s))
  {
    var r := SortBids(RowsOf(prefs, s));
    assert forall i, j :: 0 <= i < j < |r| ==> !Ahead(r[j], r[i]);
    r
  }

  /** The school ids of the ranked rows: position i holds the student's
      (i+1)-th choice. */
  function Ranking(prefs: seq<Preference>, s: nat): (ranking: seq<nat>)
    ensures |ranking| == |RankedRows(prefs, s)|
  {
    BidSchools(RankedRows(prefs, s))
  }

  function BidSchools(r: seq<Bid>): (schools: seq<nat>)
    ensures |schools| == |r| && forall i :: 0 <= i < |r| ==> schools[i] == r[i].school
  {
    if |r| == 0 then [] else BidSchools(r[..|r| - 1]) + [r[|r| - 1].school]
  }

  /** A school is ranked exactly when the student has a preference row for
      it, and a school ranked before another has at least as many points. */
  lemma RankingIsPreferences(prefs: seq<Preference>, s: nat)
    ensures forall sc :: sc in Ranking(prefs, s) <==>
              exists i :: 0 <= i < |prefs| && prefs[i].student == s && prefs[i].school == sc
    ensures forall i, j :: 0 <= i < j < |Ranking(prefs, s)| ==>
              RankedRows(prefs, s)[i].school == Ranking(prefs, s)[i]
              && RankedRows(prefs, s)[i].points >= RankedRows(prefs, s)[j].points
  {
    var r := RankedRows(prefs, s);
    var ranking := Ranking(prefs, s);
    forall sc
      ensures sc in ranking <==> exists i :: 0 <= i < |prefs| && prefs[i].student == s && prefs[i].school == sc
    {
      if sc in ranking {
        var k :| 0 <= k < |ranking| && ranking[k] == sc;
        assert r[k] in multiset(RowsOf(prefs, s));
        RowsOfMember(prefs, s, r[k]);
      }
      if exists i :: 0 <= i < |prefs| && prefs[i].student == s && prefs[i].school == sc {
        var i :| 0 <= i < |prefs| && prefs[i].student == s && prefs[i].school == sc;
        var b := Bid(s, sc, prefs[i].points, i);
        RowsOfMember(prefs, s, b);
        assert b in multiset(r);
        var k :| 0 <= k < |r| && r[k] == b;
        assert ranking[k] == sc;
      }
    }
  }

  /** `preferences[:3]` / `.limit(3)`: the three best-ranked schools, or
      all of them when there are fewer. */
  function TopThree(ranking: seq<nat>): (top: seq<nat>)
    ensures |top| <= 3 && |top| <= |ranking| && top == ranking[..|top|]
    ensures |top| == 3 || top == ranking
  {
    if |ranking| <= 3 then ranking else ranking[..3]
  }

  /** The 1-based position of the first occurrence of `sc`, as the `enumerate`
      loop that breaks at the first hit finds it; None when it is not ranked. */
  function RankOf(ranking: seq<nat>, sc: nat): (k: Option<nat>)
    ensures k.Some? ==> 1 <= k.value <= |ranking| && ranking[k.value - 1] == sc
                        && forall i :: 0 <= i < k.value - 1 ==> ranking[i] != sc
    ensures k.None? ==> sc !in ranking
  {
    if |ranking| == 0 then None
    else if ranking[0] == sc then Some(1)
    else match RankOf(ranking[1..], sc)
      case None => None
      case Some(k) => Some(k + 1)
  }

  /** The smaller of two ranks, where None stands for `float('inf')`. */
  function MinRank(a: Option<nat>, b: Option<nat>): Option<nat> {
    match a
    case None => b
    case Some(x) => match b
      case None => a
      case Some(y) => if y < x then b else a
  }

  /** The best rank among the schools of `rows`. */
  function BestRank(ranking: seq<nat>, rows: seq<MatchRow>): Option<nat> {
    if |rows| == 0 then None
    else MinRank(BestRank(ranking, rows[..|rows| - 1]), RankOf(ranking, rows[|rows| - 1].school))
  }

  /** The best rank is attained by some row, and no ranked row beats it. */
  lemma {:induction false} BestRankIsMinimum(ranking: seq<nat>, rows: seq<MatchRow>)
    ensures BestRank(ranking, rows).Some? ==>
              exists m <- rows :: RankOf(ranking, m.school) == BestRank(ranking, rows)
    ensures forall m <- rows :: RankOf(ranking, m.school).Some? ==>
              BestRank(ranking, rows).Some? && BestRank(ranking, rows).value <= RankOf(ranking, m.school).value
  {
    if |rows| > 0 {
      var init, last := rows[..|rows| - 1], rows[|rows| - 1];
      BestRankIsMinimum(ranking, init);
      assert rows == init + [last];
      assert forall m <- init :: m in rows;
    }
  }

  /** The nested loop of `get_analytics` that finds a student's best rank. */
  method BestRankOf(ranking: seq<nat>, rows: seq<MatchRow>) returns (best: Option<nat>)
    ensures best == BestRank(ranking, rows)
  {
    best := None;
    for j := 0 to |rows|
      invariant best == BestRank(ranking, rows[..j])
    {
      assert rows[..j + 1][..j] == rows[..j];
      var sc := rows[j].school;
      var i := 0;
      while i < |ranking|
        invariant i <= |ranking|
        invariant forall k :: 0 <= k < i ==> ranking[k] != sc
      {
        if ranking[i] == sc {
          assert RankOf(ranking, sc) == Some(i + 1);
          best := MinRank(best, Some(i + 1));
          break;
        }
        i := i + 1;
      }
      if i == |ranking| {
        assert RankOf(ranking, sc) == None;
      }
    }
    assert rows[..|rows|] == rows;
  }

  /** The rows of student `s`, in order: `[m for m in matches if m.student_id == s]`. */
  function StudentRows(ms: seq<MatchRow>, s: nat): (rows: seq<MatchRow>)
    ensures forall m <- rows :: m in ms && m.student == s
  {
    if |ms| == 0 then []
    else
      var init := StudentRows(ms[..|ms| - 1], s);
      assert forall m <- init :: m in ms;
      init + (if ms[|ms| - 1].student == s then [ms[|ms| - 1]] else [])
  }

  /** Every row of `s` is among `s`'s rows. */
  lemma {:induction false} StudentRowsComplete(ms: seq<MatchRow>, s: nat)
    ensures forall m <- ms :: m.student == s ==> m in StudentRows(ms, s)
  {
    if |ms| > 0 {
      StudentRowsComplete(ms[..|ms| - 1], s);
      assert ms == ms[..|ms| - 1] + [ms[|ms| - 1]];
    }
  }

  /** The school ids of some rows, in order (`assigned_school_ids`). */
  function SchoolsOf(rows: seq<MatchRow>): (schools: seq<nat>)
    ensures |schools| == |rows|
  {
    seq(|rows|, i requires 0 <= i < |rows| => rows[i].school)
  }

  /** `any(school_id in assigned_school_ids for school_id in top_3_school_ids)`. */
  predicate GotTopThree(ranking: seq<nat>, given: seq<nat>) {
    exists sc <- TopThree(ranking) :: sc in given
  }

  /** A student got one of their three best-ranked schools exactly when the
      best rank of their matches is 1, 2 or 3: the report of students
      without a top-3 pick and the analytics buckets agree. */
  lemma GotTopThreeIffBestRank(ranking: seq<nat>, rows: seq<MatchRow>)
    ensures GotTopThree(ranking, SchoolsOf(rows)) <==>
              BestRank(ranking, rows).Some? && BestRank(ranking, rows).value <= 3
  {
    BestRankIsMinimum(ranking, rows);
    var top := TopThree(ranking);
    var given := SchoolsOf(rows);
    if GotTopThree(ranking, given) {
      var sc :| sc in top && sc in given;
      var k :| 0 <= k < |top| && top[k] == sc;
      var j :| 0 <= j < |given| && given[j] == sc;
      assert rows[j] in rows;
      assert ranking[k] == sc;
      var r := RankOf(ranking, sc);
      assert r.Some? && r.value <= k + 1;
    }
    if BestRank(ranking, rows).Some? && BestRank(ranking, rows).value <= 3 {
      var m :| m in rows && RankOf(ranking, m.school) == BestRank(ranking, rows);
      var j :| 0 <= j < |rows| && rows[j] == m;
      var k := BestRank(ranking, rows).value - 1;
      assert top[k] == m.school && top[k] in top;
      assert given[j] == m.school && given[j] in given;
    }
  }

  /** Student `s` has none of their three best-ranked schools among the
      schools of their stored match rows. */
  predicate MissedTopThree(prefs: seq<Preference>, results: seq<MatchRow>, s: nat) {
    !GotTopThree(Ranking(prefs, s), SchoolsOf(StudentRows(results, s)))
  }

  /** `get_students_without_top_3_picks`: the students 0 .. nStudents-1
      that missed their top three, in order. */
  method StudentsWithoutTopThree(nStudents: nat, prefs: seq<Preference>, results: seq<MatchRow>)
    returns (without: seq<nat>)
    ensures forall s: nat :: s in without <==> s < nStudents && MissedTopThree(prefs, results, s)
    ensures forall i, j :: 0 <= i < j < |without| ==> without[i] < without[j]
  {
    without := [];
    for s := 0 to nStudents
      invariant forall t: nat :: t in without <==> t < s && MissedTopThree(prefs, results, t)
      invariant forall i, j :: 0 <= i < j < |without| ==> without[i] < without[j]
      invariant forall i :: 0 <= i < |without| ==> without[i] < s
    {
      var got := !MissedTopThree(prefs, results, s);
      if !got {
        without := without + [s];
      }
    }
  }
}
