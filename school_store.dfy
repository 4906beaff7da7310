/** The `schools` table and the per-session capacity setter (update_school.py). */
module SchoolStore {
  import opened Schema

  /** Index of the first row named `name`, as `filter_by(...).first()` finds it. */
  function FindSchool(rows: seq<School>, name: string): (r: Option<nat>)
    ensures r.Some? ==> r.value < |rows| && rows[r.value].name == name
                        && forall j :: 0 <= j < r.value ==> rows[j].name != name
    ensures r.None? ==> forall j :: 0 <= j < |rows| ==> rows[j].name != name
  {
    if |rows| == 0 then None
    else if rows[0].name == name then Some(0)
    else match FindSchool(rows[1..], name)
      case None => None
      case Some(i) => Some(i + 1)
  }

  /** The stored schools, updated in place one column at a time. */
  class SchoolTable {
    var rows: seq<School>

    constructor (initial: seq<School>)
      ensures rows == initial
    {
      rows := initial;
    }

    /** Sets the capacity of one session of the named school. Fails, changing
        nothing, when no school has that name or the session is not 1..6. */
    method UpdateSchoolCapacity(schoolName: string, sessionNumber: int, newCapacity: int)
      returns (ok: bool)
      modifies this
      ensures ok <==> FindSchool(old(rows), schoolName).Some? && IsSession(sessionNumber)
      ensures !ok ==> rows == old(rows)
      ensures ok ==> var i := FindSchool(old(rows), schoolName).value;
                     rows == old(rows)[i := old(rows)[i].WithCapacity(sessionNumber, newCapacity)]
    {
      var found := FindSchool(rows, schoolName);
      if found.None? {
        return false;
      }
      var i := found.value;
      var school := rows[i];
      if sessionNumber == 1 {
        school := school.(session1 := newCapacity);
      } else if sessionNumber == 2 {
        school := school.(session2 := newCapacity);
      } else if sessionNumber == 3 {
        school := school.(session3 := newCapacity);
      } else if sessionNumber == 4 {
        school := school.(session4 := newCapacity);
      } else if sessionNumber == 5 {
        school := school.(session5 := newCapacity);
      } else if sessionNumber == 6 {
        school := school.(session6 := newCapacity);
      } else {
        return false;
      }
      rows := rows[i := school];
      return true;
    }
  }
}
