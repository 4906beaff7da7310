/** The persisted records (database.py) as values: schools with six per-session
    seat capacities, point-weighted preferences, and stored match rows.
    Students and schools are identified by their position in the input tables. */
module Schema {

  datatype Option<T> = None | Some(value: T)

  /** A breakout session number: the schema has exactly six session columns. */
  predicate IsSession(n: int) {
    1 <= n <= 6
  }

  const AllSessions: set<nat> := {1, 2, 3, 4, 5, 6}

  /** A set of session numbers has at most six members, and has six exactly
      when it holds every session. */
  lemma SessionSetSize(held: set<nat>)
    requires held <= AllSessions
    ensures |held| <= 6
    ensures |held| == 6 <==> held == AllSessions
  {
    assert AllSessions == held + (AllSessions - held);
  }

  /** A row of the `schools` table. */
  datatype School = School(
    name: string,
    session1: int, session2: int, session3: int,
    session4: int, session5: int, session6: int)
  {
    /** The `session<n>_capacity` column for session n. */
    function Capacity(n: int): int
      requires IsSession(n)
    {
      if n == 1 then session1
      else if n == 2 then session2
      else if n == 3 then session3
      else if n == 4 then session4
      else if n == 5 then session5
      else session6
    }

    /** This record with the capacity of session n replaced by c: exactly
        one column changes. */
    function WithCapacity(n: int, c: int): (r: School)
      requires IsSession(n)
      ensures r.name == name && r.Capacity(n) == c
      ensures forall m :: IsSession(m) && m != n ==> r.Capacity(m) == Capacity(m)
    {
      if n == 1 then this.(session1 := c)
      else if n == 2 then this.(session2 := c)
      else if n == 3 then this.(session3 := c)
      else if n == 4 then this.(session4 := c)
      else if n == 5 then this.(session5 := c)
      else this.(session6 := c)
    }

    /** Sum of the six session capacities. */
    function TotalCapacity(): int {
      session1 + session2 + session3 + session4 + session5 + session6
    }

    /** The capacities as a row indexed by session number minus one. */
    function CapacityRow(): (row: seq<int>)
      ensures |row| == 6
      ensures forall n :: IsSession(n) ==> row[n - 1] == Capacity(n)
    {
      [session1, session2, session3, session4, session5, session6]
    }
  }

  /** Sum of a six-session capacity row. */
  function RowSum(row: seq<int>): int
    requires |row| == 6
  {
    row[0] + row[1] + row[2] + row[3] + row[4] + row[5]
  }

  /** A row of the `preferences` table: points a student gave a school. */
  datatype Preference = Preference(student: nat, school: nat, points: int)

  /** A reported average or rate: the quotient `num / den` of a division
      made with `den > 0`, or the 0 the source reports when it does not divide. */
  datatype Quotient = Zero | Ratio(num: int, den: int)

  /** A row of the `matching_results` table. */
  datatype MatchRow = MatchRow(student: nat, school: nat, session: int)
}
