# MatchWZRD matching core in Dafny

MatchWZRD assigns MBA applicants to breakout sessions with business schools.
Each student spends points on schools. Each school offers six sessions, each
with its own seat capacity. This project models the logic that decides and
reports the assignment, and proves what it guarantees:

- **The seat allocator** (`run_matching_algorithm`,
  `run_simple_matching_algorithm` in matching.py).
  - One bid is built per (student, school) pair with positive points.
  - The bids are sorted by points, highest first, ties broken by a tiebreak key.
  - The bids are walked in that order. Each bid takes the lowest-numbered
    session the student lacks and the school still has a seat in.
  - The full variant then fills every missing session from the first school
    with a seat.
  - The simple variant first keeps each student's six best bids.
  - Both end with a statistics block.

  The loops are methods in module `Matching`. They work on a capacity table,
  the `session_assignments` map and an appended match list. Each method is
  proved equal to a specification function in module `Allocation`, where the
  invariants are proved: the seat ledger, one match per (student, session),
  and at most six sessions per student.
- **Top-choice reporting** (`get_students_without_top_3_picks` in
  matching.py, and the aggregation of the `get_analytics` route in app.py).
  - Module `Ranks` ranks a student's schools by points and finds the best rank
    a student obtained.
  - Module `Analytics` has the route's loops: best-rank buckets, per-school
    and per-session tallies, and the final divisions. They are proved equal
    to sums over the stored rows.
- **School-name cleaning** (`clean_school_name` in app.py).
  - Module `SchoolNames` has the printable filter, the whitespace
    normalisation and the first-keyword lookup.
  - Module `SchoolTable` holds the 23 keyword rules and the proof that every
    canonical name is claimed by its own rule. Cleaning is therefore
    idempotent.
- **The fallback delimited-text parser** of the two import routes (app.py).
  - Module `Delimited` has the delimiter choice, `str.split`, `str.strip`,
    `dict(zip(...))` and the loop that keeps the lines whose field count
    matches the header.
- **The capacity setter** (`update_school_capacity` in update_school.py).
  - Module `SchoolStore` holds the `schools` table as a class whose method
    replaces one session column of one record.

Module `Schema` holds the stored records of database.py as values.

Modelling choices:

- Students and schools are identified by their position in the input tables.
- The random tiebreaker is an input function `tiebreak(student, school)`.
- Averages and rates are `Quotient` values: a numerator over a positive
  denominator, or the 0 the source reports when it does not divide.
- A Python set of student ids is walked in first-appearance order. No
  reported value depends on that order, and `Analytics` proves it.
- The parser's lines are the lines `readlines()` returns, line break
  included; `strip` removes it with the other whitespace.

## Model

| member | source | states |
|---|---|---|
| Schema.SessionSetSize | matching.py:67-73 | a set of session numbers 1..6 has at most six members, and has six exactly when it is all of them |
| Schema.School.WithCapacity | update_school.py:12-23 | replacing one session's capacity sets that session to the new value and leaves the name and the other five sessions unchanged |
| SchoolStore.FindSchool | update_school.py:7-9 | the index found names a row with that name, with no earlier row of that name; None means no row has that name |
| SchoolStore.SchoolTable.UpdateSchoolCapacity | update_school.py:4-29 | returns true exactly when the school exists and the session is 1..6; on false the table is unchanged; on true only that session column of the first row with that name changes |
| Bids.PointsForUniqueRow | matching.py:20-25 | with one preference row per (student, school) pair, the points looked up for a pair are those of its row |
| Bids.IndexPoints | matching.py:21-25 | the `student_preferences` dictionary has a key for exactly the pairs that have a row, and each lookup (0 when missing) gives the points of the pair's last row |
| Bids.BuildBids | matching.py:40-53 | every bid is for a known pair with its positive points and its tiebreak key; every pair with positive points has a bid; bids are in (student, school) order, so no pair has two |
| Bids.InsertionPoint | matching.py:56 | a stable insertion goes after every bid the new one does not sort strictly ahead of, and before the first one it does |
| Bids.Insert | matching.py:56 | inserting into a sorted sequence keeps it sorted and adds exactly the new bid |
| Bids.SortBids | matching.py:56 | the result is sorted by points descending, then tiebreak ascending, and is a permutation of the input |
| Bids.SortKeepsOneBidPerPair | matching.py:56 | sorting keeps at most one bid per (student, school) pair |
| Bids.TopSixCount | matching.py:327-336 | each student keeps min(6, number of bids) bids |
| Bids.TopSixIsPrefixFilter | matching.py:329-336 | a bid is kept exactly when its student has fewer than six earlier input bids (by TopSixCount, the same as fewer than six kept), and kept bids stay in order |
| Bids.TopSix | matching.py:327-336 | only input bids are kept |
| Bids.TopSixSubsequence | matching.py:327-336 | one bid per pair survives the filter |
| Bids.KeepTopSix | matching.py:327-336 | the `student_bid_counts` loop computes the top-six filter, and no student keeps more than six bids |
| Ranks.RowsOfMember | app.py:535-536 | the rows taken for a student are exactly that student's preference rows |
| Ranks.RankedRows | app.py:535-536 | the student's preference rows ordered by points, highest first, as a permutation of those rows |
| Ranks.RankingIsPreferences | matching.py:433-436 | a school is ranked exactly when the student has a preference row for it, and ranks follow non-increasing points |
| Ranks.TopThree | matching.py:433-436 | the first three ranked schools, or all of them when there are fewer |
| Ranks.RankOf | app.py:541-544 | the 1-based position of the first occurrence of the school in the ranking, None when it is not ranked |
| Ranks.BestRankIsMinimum | app.py:539-544 | the best rank is attained by one of the student's rows, and no ranked row has a better one |
| Ranks.BestRankOf | app.py:539-544 | the nested loop computes the best rank of the student's rows |
| Ranks.StudentRows | app.py:532 | the student's rows are rows of the match list belonging to that student |
| Ranks.StudentRowsComplete | app.py:532 | every row of the student is among the student's rows |
| Ranks.GotTopThreeIffBestRank | matching.py:443 | a student has one of their three best-ranked schools exactly when the best rank of their matches is 1, 2 or 3 |
| Ranks.StudentsWithoutTopThree | matching.py:422-451 | a student is listed exactly when none of their three best-ranked schools is among their assigned schools; the list is in student order |
| Allocation.InitialCapacities | matching.py:28-37 | the capacity table holds each school's six capacity columns, by session number |
| Allocation.HeldMember | matching.py:91-93 | a session is held by a student exactly when one of the student's matches is in it |
| Allocation.OneSessionEachAppend | matching.py:73 | a match in a session the student does not yet hold keeps one match per (student, session) |
| Allocation.CountOfHeld | matching.py:67 | with one match per session, a student's match count is the number of sessions held |
| Allocation.AtMostSixEach | matching.py:67 | every student has at most six matches, and has six exactly when all six sessions are held |
| Allocation.AccountedInitially | matching.py:28-37 | the seat ledger holds at the start of a run |
| Allocation.SeatKeepsAccounted | matching.py:77-90 | taking a seat that is still free, and recording the match, keeps the ledger (remaining = initial - matches there, never driven below 0) |
| Allocation.NeverOverbooked | matching.py:77-90 | no (school, session) gets more matches than its initial capacity, and a non-negative capacity never goes negative |
| Allocation.OpenSession | matching.py:71-77 | a session found is one the student lacks and the school has a seat in |
| Allocation.OpenSessionLowest | matching.py:71-77 | the session found is the lowest such one; none is found exactly when every lacking session is full at the school |
| Allocation.PlaceBidLowestSession | matching.py:62-103 | a bid does nothing for a student holding six sessions or when no lacking session has a seat; otherwise it adds one match in the lowest such session, scored with the bid's points, takes exactly that seat and records the session |
| Allocation.TracksAppend | matching.py:91-93 | recording a match's session under its student keeps `session_assignments` equal to the sessions of each student's matches |
| Allocation.PlaceBidKeeps | matching.py:62-103 | one bid keeps the ledger, one match per session and the bookkeeping |
| Allocation.PlaceAllKeeps | matching.py:62-103 | the bid phase keeps the ledger, one match per session and the bookkeeping |
| Allocation.PlaceAllFromBids | matching.py:62-103 | every bid-phase match comes from a bid with its points; with one bid per pair no student gets a school twice in this phase |
| Allocation.SeatSchool | matching.py:117-118 | a school found has a seat left in the session |
| Allocation.SeatSchoolFirst | matching.py:117-118 | the school found is the first in table order with a seat; none is found exactly when no school has one |
| Allocation.FallbackPick | matching.py:113-143 | a pick is a session the student lacks and a school with a seat in it |
| Allocation.FallbackPickFirst | matching.py:113-143 | a pick is the lowest lacking session that has a seat anywhere, at the first school with a seat there |
| Allocation.FallbackPickNone | matching.py:113-151 | there is no pick exactly when no lacking session has a seat anywhere |
| Allocation.FallbackPickLowest | matching.py:113-151 | the pick is the lowest lacking session that has a seat anywhere, at the first school with a seat there; there is no pick exactly when no lacking session has a seat anywhere |
| Allocation.FallbackLoopDiverges | matching.py:111-151 | when no lacking session has a seat at any school, one pass of the loop body as written changes nothing while fewer than six sessions are held, so the `while` never exits |
| Allocation.FallbackLoopDivergesExample | matching.py:111-151 | a concrete stuck state: one school without seats and a student without sessions |
| Allocation.FillStudentEnds | matching.py:111-151 | the corrected loop ends with six sessions, or stuck with fewer and no pick left |
| Allocation.FillStudentAppends | matching.py:120-128 | the fallback for a student only appends that student's matches, each with score 0 |
| Allocation.FillStudentLedger | matching.py:117-132 | the fallback for a student keeps the ledger and one match per session, and touches no other student's sessions |
| Allocation.FillStudentSessions | matching.py:113-132 | the fallback only adds sessions 1..6 |
| Allocation.FillStudentOutcome | matching.py:111-151 | a student ends with all six sessions unless stuck, and stuck means some lacking session has no seat at any school |
| Allocation.FillStudentColumns | matching.py:113-132 | the loop for a student never drops a held session and leaves the capacity of every session it does not fill untouched |
| Allocation.FillStudentNoSeat | matching.py:113-132 | the loop for a student never fills, or frees a seat in, a session no school has a seat in |
| Allocation.FillStudentStuckIff | matching.py:111-151 | the corrected loop is stuck exactly when, from the start, some lacking session has no seat at any school, which is exactly when the loop as written never exits |
| Allocation.FallbackInvInitially | matching.py:105-108 | the fallback invariant holds after the bid phase |
| Allocation.FallbackStartsFromHeld | matching.py:108 | the set the fallback starts from for a student is the sessions of the student's matches |
| Allocation.FillNextComplete | matching.py:106-151 | after one more student, every student reached holds six sessions unless reported short, and each student reported short lacks a session no school has a seat in |
| Allocation.FillNextLedger | matching.py:106-151 | one more student keeps the ledger, one match per session and the `session_assignments` keys |
| Allocation.FillNextShort | matching.py:106-151 | after one more student, each student reported short still lacks a session no school has a seat in |
| Allocation.FillNextSuffix | matching.py:106-151 | the fallback only appends score-0 matches of students already reached |
| Allocation.FillNextKeeps | matching.py:106-151 | one more student keeps the whole fallback invariant |
| Allocation.FillUpToKeeps | matching.py:106-151 | the fallback over the first n students keeps the whole fallback invariant |
| Matching.BuildCapacities | matching.py:28-37 | the loop builds the capacity table from the six capacity columns |
| Matching.ProcessBid | matching.py:62-103 | one iteration of the bid loop performs exactly the specified bid step |
| Matching.AssignBids | matching.py:62-103 | the bid loop performs the specified bid phase over the sorted bids |
| Matching.FindFallbackSeat | matching.py:113-143 | the nested session/school loops find the specified pick |
| Matching.FillOneStudent | matching.py:111-151 | the `while` loop for one student performs the corrected fallback, stopping when stuck |
| Matching.FillMissing | matching.py:106-151 | the loop over students performs the corrected fallback over all students and reports the short ones |
| Matching.AverageScore | matching.py:162-165 | the average is 0 exactly when there are no matches |
| Matching.ScoreSumBounds | matching.py:163 | with every score in lo..hi, the score total lies between lo and hi times the number of matches |
| Matching.AverageScoreBounds | matching.py:162-165 | with every score in lo..hi, so is the average |
| Matching.FillRate | matching.py:170-172 | a rate is a quotient exactly when the capacity row it divides by has a positive sum |
| Matching.AtSchoolSplit | matching.py:171 | a school's `filled_slots` is the sum of its matches per session |
| Matching.FillRateDivisorAsWritten | matching.py:170 | the source's divisor is the initial capacity minus the seats filled |
| Matching.FillRateAsWrittenMissesFullSchool | matching.py:169-172 | a booked-out school with matches gets rate 0 when divided by its remaining capacity, as the source does, while over its initial capacity the rate is all seats filled |
| Matching.FillRateAtMostOne | matching.py:169-172 | with non-negative capacities the intended rate is at most one, and a school without capacity has no matches |
| Matching.TrackedStudents | matching.py:158 | `session_assignments` has a key for exactly the students with a match |
| Matching.BoundedStudents | matching.py:157-159 | a set of student numbers below n has at most n members, so `unmatched_students` is not negative |
| Matching.ComputeStatistics | matching.py:156-177 | the statistics: total students, matched students as the number of keys of `session_assignments`, their difference, the average score, and one fill rate per school |
| Matching.BidPhase | matching.py:58-103 | the bid phase from fresh capacities keeps the ledger, one match per session and the bookkeeping; its matches come from bids and repeat no school |
| Matching.SortedBids | matching.py:20-56 | the sorted bids are sorted by key, one per pair, each for a known pair with its positive points and that pair's tiebreak, and every pair with positive points has exactly that bid |
| Matching.ShortBookedOut | matching.py:106-151 | after the fallback, every student reported short lacks a session in which every school's matches fill its whole capacity |
| Matching.RunMatchingAlgorithm | matching.py:7-188 | the matches and the short students are exactly the bid phase over the sorted bids followed by the corrected fallback over every student, and the bid phase's matches come first; each student reported short lacks a session booked out at every school; every match is for a known student and school in a session 1..6; no (school, session) exceeds its capacity; one match per (student, session) and at most six per student; every student not reported short holds six; bid-phase matches carry their pair's positive points and repeat no school; fallback matches score 0; `matched_students` is the number of students with a bid-phase match, the average is over all matches and each fill rate is over the school's initial capacity |
| Matching.RunSimpleMatchingAlgorithm | matching.py:276-420 | the matches are exactly the bid phase over the top-six filter of the sorted bids; every match is for a known student and school in a session 1..6; no (school, session) exceeds its capacity; one match per (student, session), at most six per student, and no school twice for a student; every match carries its pair's positive points; `matched_students` is the number of students with a match, the average is over all matches and each fill rate is over the school's initial capacity |
| Analytics.FirstPointsFound | app.py:583-586 | the score query finds a row exactly when the pair has one, and returns the points of the first such row |
| Analytics.FirstPointsIsPointsFor | app.py:583-586 | with one row per pair, the score analytics reads is the points the matcher used for that pair |
| Analytics.SumByPermutation | app.py:530-607 | a sum over rows does not depend on their order |
| Analytics.CountsAddUp | app.py:582-603 | with each key listed once, the per-school (and the per-session) `total_matches` add up to the number of rows |
| Analytics.TopThreeAtMostMatches | app.py:589-592 | `top_3_applications` is between 0 and the school's `total_matches` |
| Analytics.AddToSchool | app.py:581-592 | counting a row into a school entry adds one match, the row's score, and one top-3 application when ranked top three; name and capacity are kept |
| Analytics.AddToSession | app.py:602-604 | counting a row into a session entry adds one match and the row's score |
| Analytics.FinishSchool | app.py:615-618 | the school average is a ratio exactly when the school has matches, and then it is score sum over matches; the fill rate is `100 * total_matches` over the total capacity, 0 when there are no matches or no capacity |
| Analytics.FinishSession | app.py:621-623 | the session average is a ratio exactly when the session has matches |
| Analytics.FinishSchools | app.py:615-618 | every `school_stats` entry, and no other, gets its final division |
| Analytics.FinishSessions | app.py:621-623 | every `session_stats` entry, and no other, gets its final division |
| Analytics.Students | app.py:526 | the matched students are listed without repetition |
| Analytics.StudentsMember | app.py:526 | a student is listed exactly when some row is theirs |
| Analytics.StudentsCount | app.py:527 | `total_students` is the number of distinct student ids in the rows |
| Analytics.BucketAgreesWithReport | app.py:547-557 | a student lands in the first, second or third bucket exactly when the report of students without a top-3 pick does not list them |
| Analytics.BucketsPartition | app.py:546-557 | first + second + third + other is the number of students, and `students_with_at_least_one_top_3` is first + second + third |
| Analytics.GroupedIsPermutation | app.py:530-532 | walking the rows student by student visits each row exactly once |
| Analytics.SchoolEntryStep | app.py:560-592 | one more row changes only its own school's entry, by that row |
| Analytics.SchoolStep | app.py:560-592 | counting a known row (creating the entry with the six-capacity total when new) keeps `school_stats` equal to the tallies of the rows seen |
| Analytics.SessionStep | app.py:594-604 | counting a row keeps `session_stats` equal to the tallies of the rows seen |
| Analytics.AddToBuckets | app.py:546-557 | one more student adds one to `first_choice`, `second_choice` or `third_choice` when the best rank is 1, 2 or 3, and to `other_choice` otherwise, so exactly one bucket grows; `students_with_at_least_one_top_3` grows exactly when the best rank is 1..3 |
| Analytics.TopChoicesStep | app.py:530-557 | counting one more student is adding that student's best rank to the buckets |
| Analytics.CountRowsScoreSum | app.py:607 | counting scorable rows sums the scores of all rows |
| Analytics.CountRowsMeaning | app.py:559-607 | counting scorable rows gives each school and session seen the tallies of its rows, and the sum of all scores |
| Analytics.TallyRow | app.py:560-607 | the inner loop body fails exactly on a row with an unknown school or no preference row, and otherwise counts the row |
| Analytics.TallyStudent | app.py:560-607 | the loop over one student's rows fails exactly when one of them cannot be scored, and otherwise counts them in order |
| Analytics.TallyStudents | app.py:530-607 | the loop over students fills the buckets by best rank and counts every row, student by student |
| Analytics.GetAnalytics | app.py:500-634 | the route fails exactly when some row cannot be scored; otherwise the totals, buckets, per-school and per-session entries and averages are those of all rows |
| Analytics.SchoolTallyPermutation | app.py:530-592 | a school's entry does not depend on the order of the rows |
| Analytics.SessionTallyPermutation | app.py:594-604 | a session's entry does not depend on the order of the rows |
| Analytics.GroupedTallies | app.py:530-607 | counting the rows student by student gives the tallies of the rows in their stored order |
| Analytics.SchoolsTalliedPermutation | app.py:560-592 | the `school_stats` of some rows hold for any reordering of them |
| Analytics.SessionsTalliedPermutation | app.py:594-604 | the `session_stats` of some rows hold for any reordering of them |
| SchoolNames.SpaceIsPrintableSeparator | app.py:95-96 | the only whitespace character the printable filter keeps is the ASCII space |
| SchoolNames.Printable | app.py:95 | the filter keeps only printable characters, each taken from the input |
| SchoolNames.PrintableKeeps | app.py:95 | a string of printable characters passes the filter unchanged |
| SchoolNames.WordLength | app.py:96 | the first word runs up to the first whitespace character |
| SchoolNames.Words | app.py:96 | `split()` gives non-empty words without whitespace, built from the input's characters |
| SchoolNames.JoinTidy | app.py:96 | joining printable words with single spaces gives a tidy string |
| SchoolNames.TidyJoinsBack | app.py:96 | a tidy string is the join of its own words |
| SchoolNames.Normalize | app.py:94-96 | the normalised string is tidy: printable, with no leading, trailing or repeated whitespace |
| SchoolNames.TidyIsNormal | app.py:94-96 | a tidy string is left as it is by the normalisation |
| SchoolNames.NormalizeIdempotent | app.py:94-96 | normalising twice is normalising once |
| SchoolNames.FirstKeyword | app.py:99-144 | the rule found is the first one whose keyword occurs in the name; none is found exactly when no keyword occurs |
| SchoolNames.CleanSchoolName | app.py:86-146 | a non-string is returned unchanged; a string becomes the canonical name of the first keyword it contains, or else its tidy normalised form |
| SchoolNames.CanonicalFixed | app.py:99-144 | every canonical name is tidy and its first matching rule is its own |
| SchoolNames.CleanTidy | app.py:98-146 | a tidy name is only looked up: kept when no keyword occurs, replaced by the first rule's canonical name otherwise |
| SchoolNames.CleanIdempotent | app.py:86-146 | cleaning a cleaned name changes nothing |
| SchoolTable.Claimed | app.py:99-144 | the canonical name of rule i is neat, contains keyword i, and contains no earlier keyword |
| Delimited.ChooseDelimiter | app.py:231-239 | the delimiter is a comma if the first line has one, else a semicolon if it has one, else a tab if it has one, else a comma |
| Delimited.Split | app.py:242 | `split(d)` gives one more piece than there are delimiters |
| Delimited.SplitPiecesClean | app.py:242 | no piece of a split contains the delimiter |
| Delimited.SplitJoin | app.py:242 | joining the pieces with the delimiter gives the line back |
| Delimited.JoinSplit | app.py:242 | splitting a join of delimiter-free pieces gives the pieces back |
| Delimited.Strip | app.py:242 | the stripped string sits between whitespace-only ends of the input, and neither starts nor ends with whitespace |
| Delimited.StripIdempotent | app.py:247 | stripping twice is stripping once |
| Delimited.StripKeepsOut | app.py:247 | stripping adds no character |
| Delimited.Zip | app.py:249 | the row's keys are exactly the header names |
| Delimited.ZipLast | app.py:249 | a header name maps to the value at its last position in the header |
| Delimited.KeptRows | app.py:246-250 | there are never more rows than data lines |
| Delimited.KeptRowsShape | app.py:248-250 | every row is keyed by exactly the header names and comes from a data line whose field count is the header's |
| Delimited.RowField | app.py:247-249 | in a kept line's row, a header name maps to the stripped piece at its last position, and that value holds no delimiter |
| Delimited.KeptRowsConcat | app.py:246-250 | the rows of two blocks of lines are the rows of each in turn: each line is kept or dropped on its own, in order |
| Delimited.KeptRowsSingle | app.py:247-250 | a line is kept exactly when its field count is the header's |
| Delimited.ParseLines | app.py:227-250 | an empty file gives nothing; otherwise the header is the stripped pieces of the first line and the rows are the kept data lines |
| Delimited.HeaderWidth | app.py:231-242 | the header has one name more than the first line has delimiters, and one name when the line has no candidate delimiter |

## Left out

- Flask routes, request parsing, `jsonify`, file upload and file reading are I/O. The parser takes the lines as read.
- Encoding detection and the pandas and Excel readers are foreign library calls, and so is `pd.DataFrame`. The parser's result is its header and its rows.
- The database layer: queries are input sequences and maps, and `add`/`commit` are not modelled. Preference tables are assumed to have one row per (student, school) pair where a lemma says so, as the table's unique constraint guarantees.
- `random.random()` is not modelled. Each bid's tiebreak key is an input function.
- Float division: averages and rates are numerator/denominator pairs, and the percentage is `100 * matches` over capacity.
- Student and school names, and emails, in matches and reports are not modelled. Students and schools are identified by position.
- Bids.SortBids: Timsort is modelled by an insertion sort with the same result: stable, sorted by the key, a permutation.
- Ranks.RankedRows: the SQL `order_by(points.desc())` leaves ties unordered. The model orders tied rows by table position.
- Analytics.Students: Python set iteration order is replaced by first-appearance order. `Analytics` proves that no reported value depends on the order.
- Analytics.SessionTallyOf: session keys are the session numbers, not the strings `session_<n>`.
- Analytics.CountRow: a row whose school or preference row is missing raises in the source. Here the route returns `Err`, and the tallies are not used.
- SchoolNames.IsSpace, SchoolNames.IsPrintable: `str.isspace` and `str.isprintable` are approximated by explicit code-point classes. These are ASCII and Latin-1, plus the Unicode space, format and private-use ranges listed. Other unassigned or non-printable code points count as printable.
- SchoolNames.CleanSchoolName: a non-string cell is an opaque `NonText` value.
- Matching.FillMissing: a student whose loop would spin forever is reported in `short`, and the model moves on, while the source never returns. See Findings.
- Matching.ComputeStatistics: the fill rate divides by the initial capacity, the corrected form; the source divides by the remaining capacity. See Findings.
- The React front end and the helper scripts are not part of this model, and neither is `import_preferences_from_excel` in matching.py.
- The second copy of the fallback parser (app.py:384-407) is the same code as the first and is covered by module `Delimited`.

## Findings

| source | as written | input that shows it | evidently intended | confidence | as-written member | corrected member |
|---|---|---|---|---|---|---|
| matching.py:111-151 | the fallback `while len(student_sessions) < 6` loop only retries; when a missing session has no seat at any school, nothing changes and the loop never exits | one school with capacity 0 in every session, and one student with no bids | give up on (or report) a session no school can seat, and move on | high (not executed) | Allocation.FallbackLoopDiverges, Allocation.FallbackLoopDivergesExample | Allocation.FillStudentOutcome, Allocation.FillStudentStuckIff, Matching.FillMissing |
| matching.py:169-172 | `fill_rate` divides the matches at a school by its remaining capacity after the run, and is 0 when nothing remains (the same code is at matching.py:401-404) | a school with capacities [1,0,0,0,0,0] whose single seat is taken: the source reports 0 | matches over the school's initial total capacity (here 1/1) | high (not executed) | Matching.FillRateDivisorAsWritten, Matching.FillRateAsWrittenMissesFullSchool | Matching.FillRate, Matching.FillRateAtMostOne |
