/** Building, ordering and filtering the bids of the matching run
    (matching.py, `run_matching_algorithm` and `run_simple_matching_algorithm`). */
module Bids {
  import opened Schema

  /** One (student, school) bid; `tiebreak` stands for the random key drawn for it. */
  datatype Bid = Bid(student: nat, school: nat, points: int, tiebreak: int)

  type PointsTable = map<(nat, nat), int>

  /** `student_preferences.get(student, {}).get(school, 0)`. */
  function Lookup(table: PointsTable, student: nat, school: nat): int {
    if (student, school) in table then table[(student, school)] else 0
  }

  /** Points of the last preference row for the pair, 0 when there is none. */
  function PointsFor(prefs: seq<Preference>, student: nat, school: nat): int {
    if |prefs| == 0 then 0
    else if prefs[|prefs| - 1].student == student && prefs[|prefs| - 1].school == school
    then prefs[|prefs| - 1].points
    else PointsFor(prefs[..|prefs| - 1], student, school)
  }

  /** Under the table's (student, school) uniqueness constraint, the points
      looked up for a pair are those of its one row. */
  lemma {:induction false} PointsForUniqueRow(prefs: seq<Preference>, i: nat)
    requires i < |prefs|
    requires forall a, b :: 0 <= a < b < |prefs| ==>
               (prefs[a].student, prefs[a].school) != (prefs[b].student, prefs[b].school)
    ensures PointsFor(prefs, prefs[i].student, prefs[i].school) == prefs[i].points
  {
    if i < |prefs| - 1 {
      PointsForUniqueRow(prefs[..|prefs| - 1], i);
    }
  }

  /** Builds the `student_preferences` dictionary: every pair that has a row
      is a key, and its value is the points of the pair's last row. */
  method IndexPoints(prefs: seq<Preference>) returns (table: PointsTable)
    ensures forall key :: key in table <==>
              exists i :: 0 <= i < |prefs| && (prefs[i].student, prefs[i].school) == key
    ensures forall s: nat, sc: nat :: Lookup(table, s, sc) == PointsFor(prefs, s, sc)
  {
    table := map[];
    for i := 0 to |prefs|
      invariant forall key :: key in table <==>
                  exists j :: 0 <= j < i && (prefs[j].student, prefs[j].school) == key
      invariant forall s: nat, sc: nat :: Lookup(table, s, sc) == PointsFor(prefs[..i], s, sc)
    {
      assert prefs[..i + 1][..i] == prefs[..i];
      table := table[(prefs[i].student, prefs[i].school) := prefs[i].points];
    }
    assert prefs[..|prefs|] == prefs;
  }

  /** Strict (student, school) order, the order in which bids are created. */
  predicate PairBefore(a: Bid, b: Bid) {
    a.student < b.student || (a.student == b.student && a.school < b.school)
  }

  /** No two bids share a (student, school) pair. */
  predicate OneBidPerPair(bids: seq<Bid>) {
    forall i, j :: 0 <= i < j < |bids| ==>
      (bids[i].student, bids[i].school) != (bids[j].student, bids[j].school)
  }

  /** Creates one bid per (student, school) pair with positive points, students
      in order and, for each, schools in order. */
  method BuildBids(nStudents: nat, nSchools: nat, table: PointsTable, tiebreak: (nat, nat) -> int)
    returns (bids: seq<Bid>)
    ensures forall b <- bids :: b.student < nStudents && b.school < nSchools
              && b.points == Lookup(table, b.student, b.school) && b.points > 0
              && b.tiebreak == tiebreak(b.student, b.school)
    ensures forall s: nat, sc: nat :: s < nStudents && sc < nSchools && Lookup(table, s, sc) > 0 ==>
              Bid(s, sc, Lookup(table, s, sc), tiebreak(s, sc)) in bids
    ensures forall i, j :: 0 <= i < j < |bids| ==> PairBefore(bids[i], bids[j])
    ensures OneBidPerPair(bids)
  {
    bids := [];
    for s := 0 to nStudents
      invariant forall b <- bids :: b.student < s && b.school < nSchools
                  && b.points == Lookup(table, b.student, b.school) && b.points > 0
                  && b.tiebreak == tiebreak(b.student, b.school)
      invariant forall s': nat, sc: nat :: s' < s && sc < nSchools && Lookup(table, s', sc) > 0 ==>
                  Bid(s', sc, Lookup(table, s', sc), tiebreak(s', sc)) in bids
      invariant forall i, j :: 0 <= i < j < |bids| ==> PairBefore(bids[i], bids[j])
    {
      for sc := 0 to nSchools
        invariant forall b <- bids :: (b.student < s || (b.student == s && b.school < sc))
                    && b.school < nSchools
                    && b.points == Lookup(table, b.student, b.school) && b.points > 0
                    && b.tiebreak == tiebreak(b.student, b.school)
        invariant forall s': nat, sc': nat ::
                    (s' < s || (s' == s && sc' < sc)) && sc' < nSchools && Lookup(table, s', sc') > 0 ==>
                    Bid(s', sc', Lookup(table, s', sc'), tiebreak(s', sc')) in bids
        invariant forall i, j :: 0 <= i < j < |bids| ==> PairBefore(bids[i], bids[j])
      {
        var points := Lookup(table, s, sc);
        if points > 0 {
          bids := bids + [Bid(s, sc, points, tiebreak(s, sc))];
        }
      }
    }
  }

  /** Sort key (-points, tiebreak): `a` sorts strictly before `b`. */
  predicate Ahead(a: Bid, b: Bid) {
    a.points > b.points || (a.points == b.points && a.tiebreak < b.tiebreak)
  }

  /** Non-increasing points, ties by ascending tiebreak. */
  predicate SortedByKey(bids: seq<Bid>) {
    forall i, j :: 0 <= i < j < |bids| ==> !Ahead(bids[j], bids[i])
  }

  /** Where a stable insertion puts `x`: after every bid it does not sort
      strictly ahead of, before the first one it does. */
  function InsertionPoint(sorted: seq<Bid>, x: Bid): (k: nat)
    ensures k <= |sorted|
    ensures forall j :: 0 <= j < k ==> !Ahead(x, sorted[j])
    ensures k < |sorted| ==> Ahead(x, sorted[k])
  {
    if |sorted| == 0 || Ahead(x, sorted[0]) then 0
    else 1 + InsertionPoint(sorted[1..], x)
  }

  /** The element at each position of `a[..k] + [x] + a[k..]`. */
  lemma InsertedAt(a: seq<Bid>, x: Bid, k: nat, i: nat)
    requires k <= |a| && i <= |a|
    ensures (a[..k] + [x] + a[k..])[i] == if i < k then a[i] else if i == k then x else a[i - 1]
  {
  }

  lemma InsertPointSorted(sorted: seq<Bid>, x: Bid)
    requires SortedByKey(sorted)
    ensures var k := InsertionPoint(sorted, x);
            SortedByKey(sorted[..k] + [x] + sorted[k..])
  {
    var k := InsertionPoint(sorted, x);
    var r := sorted[..k] + [x] + sorted[k..];
    forall i, j | 0 <= i < j < |r|
      ensures !Ahead(r[j], r[i])
    {
      InsertedAt(sorted, x, k, i);
      InsertedAt(sorted, x, k, j);
      if i == k {
        assert !Ahead(sorted[j - 1], sorted[k]);
      }
    }
  }

  /** Inserting into a sorted sequence keeps it sorted and adds exactly `x`. */
  function Insert(sorted: seq<Bid>, x: Bid): (r: seq<Bid>)
    requires SortedByKey(sorted)
    ensures SortedByKey(r)
    ensures multiset(r) == multiset(sorted) + multiset{x}
  {
    var k := InsertionPoint(sorted, x);
    InsertPointSorted(sorted, x);
    assert sorted == sorted[..k] + sorted[k..];
    sorted[..k] + [x] + sorted[k..]
  }

  /** `all_bids.sort(key=lambda x: (-x['points'], x['tiebreaker']))`: a stable
      sort by key, here an insertion sort. */
  function SortBids(bids: seq<Bid>): (r: seq<Bid>)
    ensures SortedByKey(r)
    ensures multiset(r) == multiset(bids)
  {
    if |bids| == 0 then []
    else
      assert bids == bids[..|bids| - 1] + [bids[|bids| - 1]];
      Insert(SortBids(bids[..|bids| - 1]), bids[|bids| - 1])
  }

  lemma InsertKeepsOneBidPerPair(sorted: seq<Bid>, x: Bid)
    requires SortedByKey(sorted) && OneBidPerPair(sorted)
    requires forall y <- sorted :: (y.student, y.school) != (x.student, x.school)
    ensures OneBidPerPair(Insert(sorted, x))
  {
    var k := InsertionPoint(sorted, x);
    var r := Insert(sorted, x);
    forall i, j | 0 <= i < j < |r|
      ensures (r[i].student, r[i].school) != (r[j].student, r[j].school)
    {
      InsertedAt(sorted, x, k, i);
      InsertedAt(sorted, x, k, j);
      if i != k && j != k {
        var i' := if i < k then i else i - 1;
        var j' := if j < k then j else j - 1;
        assert i' < j';
      }
    }
  }

  /** Sorting keeps at most one bid per (student, school) pair. */
  lemma {:induction false} SortKeepsOneBidPerPair(bids: seq<Bid>)
    requires OneBidPerPair(bids)
    ensures OneBidPerPair(SortBids(bids))
  {
    if |bids| > 0 {
      var init, x := bids[..|bids| - 1], bids[|bids| - 1];
      SortKeepsOneBidPerPair(init);
      var sorted := SortBids(init);
      forall y | y in sorted
        ensures (y.student, y.school) != (x.student, x.school)
      {
        assert y in multiset(sorted);
        var idx :| 0 <= idx < |init| && init[idx] == y;
        assert bids[idx] == y;
      }
      InsertKeepsOneBidPerPair(sorted, x);
    }
  }

  /** Number of bids by `student`. */
  function CountFor(bids: seq<Bid>, student: nat): nat {
    if |bids| == 0 then 0
    else CountFor(bids[..|bids| - 1], student) + (if bids[|bids| - 1].student == student then 1 else 0)
  }

  /** Keeps a bid when its student has fewer than six bids kept so far;
      only input bids are kept. */
  function TopSix(bids: seq<Bid>): (kept: seq<Bid>)
    ensures forall b <- kept :: b in bids
  {
    if |bids| == 0 then []
    else
      var kept := TopSix(bids[..|bids| - 1]);
      var b := bids[|bids| - 1];
      if CountFor(kept, b.student) < 6 then kept + [b] else kept
  }

  lemma CountForAppend(bids: seq<Bid>, b: Bid, student: nat)
    ensures CountFor(bids + [b], student) == CountFor(bids, student) + (if b.student == student then 1 else 0)
  {
    assert (bids + [b])[..|bids|] == bids;
  }

  /** Each student keeps exactly their first min(6, n) bids: the number kept
      is the number bid, capped at six. */
  lemma {:induction false} TopSixCount(bids: seq<Bid>, student: nat)
    ensures CountFor(TopSix(bids), student) == if CountFor(bids, student) < 6 then CountFor(bids, student) else 6
  {
    if |bids| > 0 {
      var init, b := bids[..|bids| - 1], bids[|bids| - 1];
      TopSixCount(init, student);
      TopSixCount(init, b.student);
      var kept := TopSix(init);
      if CountFor(kept, b.student) < 6 {
        CountForAppend(kept, b, student);
      }
    }
  }

  /** The kept bids are the input bids in their original relative order, and
      a bid is kept exactly when fewer than six earlier bids of its student exist. */
  lemma {:induction false} TopSixIsPrefixFilter(bids: seq<Bid>, i: nat)
    requires i < |bids|
    ensures TopSix(bids[..i + 1]) == TopSix(bids[..i]) +
              (if CountFor(bids[..i], bids[i].student) < 6 then [bids[i]] else [])
  {
    assert bids[..i + 1][..i] == bids[..i];
    TopSixCount(bids[..i], bids[i].student);
  }

  /** Appending a bid for a new pair keeps one bid per pair. */
  lemma OneBidPerPairSnoc(bids: seq<Bid>, b: Bid)
    requires OneBidPerPair(bids)
    requires forall i :: 0 <= i < |bids| ==> (bids[i].student, bids[i].school) != (b.student, b.school)
    ensures OneBidPerPair(bids + [b])
  {
    var s := bids + [b];
    forall i, j | 0 <= i < j < |s|
      ensures (s[i].student, s[i].school) != (s[j].student, s[j].school)
    {
      assert s[i] == bids[i];
      if j < |bids| {
        assert s[j] == bids[j];
      }
    }
  }

  /** A prefix of bids with one bid per pair has one bid per pair. */
  lemma OneBidPerPairPrefix(bids: seq<Bid>, n: nat)
    requires n <= |bids| && OneBidPerPair(bids)
    ensures OneBidPerPair(bids[..n])
  {
    var p := bids[..n];
    forall i, j | 0 <= i < j < |p|
      ensures (p[i].student, p[i].school) != (p[j].student, p[j].school)
    {
      assert p[i] == bids[i];
      assert p[j] == bids[j];
    }
  }

  /** Dropping bids keeps one bid per pair. */
  lemma {:induction false} TopSixSubsequence(bids: seq<Bid>)
    ensures OneBidPerPair(bids) ==> OneBidPerPair(TopSix(bids))
  {
    if |bids| > 0 {
      var init, b := bids[..|bids| - 1], bids[|bids| - 1];
      TopSixSubsequence(init);
      var kept := TopSix(init);
      assert TopSix(bids) == if CountFor(kept, b.student) < 6 then kept + [b] else kept;
      assert forall x <- init :: x in bids;
      if OneBidPerPair(bids) {
        OneBidPerPairPrefix(bids, |bids| - 1);
        forall i | 0 <= i < |kept|
          ensures (kept[i].student, kept[i].school) != (b.student, b.school)
        {
          assert kept[i] in init;
          var j :| 0 <= j < |init| && init[j] == kept[i];
          assert bids[j] == kept[i];
        }
        OneBidPerPairSnoc(kept, b);
      }
    }
  }

  /** Keeps only each student's first six bids in the given order, counting
      them in `student_bid_counts`. */
  method KeepTopSix(bids: seq<Bid>) returns (filtered: seq<Bid>)
    ensures filtered == TopSix(bids)
    ensures forall s: nat :: CountFor(filtered, s) <= 6
  {
    var counts: map<nat, nat> := map[];
    filtered := [];
    for i := 0 to |bids|
      invariant filtered == TopSix(bids[..i])
      invariant forall s: nat :: (if s in counts then counts[s] else 0) == CountFor(filtered, s)
    {
      var b := bids[i];
      assert bids[..i + 1][..i] == bids[..i];
      if b.student !in counts {
        counts := counts[b.student := 0];
      }
      if counts[b.student] < 6 {
        forall s: nat ensures CountFor(filtered + [b], s) == CountFor(filtered, s) + (if b.student == s then 1 else 0) {
          CountForAppend(filtered, b, s);
        }
        filtered := filtered + [b];
        counts := counts[b.student := counts[b.student] + 1];
      }
    }
    assert bids[..|bids|] == bids;
    forall s: nat ensures CountFor(filtered, s) <= 6 {
      TopSixCount(bids, s);
    }
  }
}
