/** The keyword table of `clean_school_name` (app.py) and the substring
    test it relies on, with the facts about each canonical name that make
    cleaning idempotent. */
module SchoolTable {
  // ---------------------------------------------------------------------
  // Substrings.

  /** `k` is the slice of `s` at offset `p`. */
  predicate SliceAt(s: string, k: string, p: nat)
    requires p <= |s| - |k|
  {
    s[p..p + |k|] == k
  }

  /** `k in s` on strings: `k` is the slice of `s` at some offset. */
  predicate Contains(s: string, k: string) {
    exists p: nat :: p <= |s| - |k| && SliceAt(s, k, p)
  }

  /** `k` does not occur in `s` when its character `k[t]` is missing from
      every position of `s` it would have to take. */
  lemma CharAbsent(s: string, k: string, t: nat)
    requires t < |k| && forall q :: t <= q <= |s| - |k| + t ==> s[q] != k[t]
    ensures !Contains(s, k)
  {
    forall p: nat | p <= |s| - |k|
      ensures !SliceAt(s, k, p)
    {
      assert s[p..p + |k|][t] == s[p + t] != k[t];
    }
  }

  /** A string starting with `k` contains it. */
  lemma StartsWithContains(s: string, k: string)
    requires |k| <= |s| && s[..|k|] == k
    ensures Contains(s, k)
  {
    assert SliceAt(s, k, 0);
  }

  /** A string of `k`'s character `k[t]` followed by `k[t + 1]` never at a
      place where `k` could start `t` characters earlier does not contain
      `k`. */
  lemma PairAbsent(s: string, k: string, t: nat)
    requires t + 1 < |k| && forall q :: t <= q <= |s| - |k| + t ==> !(s[q] == k[t] && s[q + 1] == k[t + 1])
    ensures !Contains(s, k)
  {
    forall p: nat | p <= |s| - |k|
      ensures !SliceAt(s, k, p)
    {
      assert s[p..p + |k|][t] == s[p + t] && s[p..p + |k|][t + 1] == s[p + t + 1];
    }
  }

  /** No character of `s` is `c`. */
  predicate Lacks(s: string, c: char) {
    forall q :: 0 <= q < |s| ==> s[q] != c
  }

  /** A string lacking one of `k`'s characters does not contain `k`. */
  lemma AbsentByChar(s: string, k: string, t: nat)
    requires t < |k| && Lacks(s, k[t])
    ensures !Contains(s, k)
  {
    CharAbsent(s, k, t);
  }

  // ---------------------------------------------------------------------
  // The keyword table.

  /** The keywords of the `if`/`elif` chain, in the order they are tested. */
  const Keywords: seq<string> := [
    "Northwestern",
    "Stanford",
    "University of Michigan",
    "New York University",
    "Carnegie Mellon",
    "Vanderbilt",
    "University of Chicago",
    "UCLA",
    "UNC",
    "University of Pennsylvania",
    "Duke",
    "Yale",
    "Cornell",
    "Emory",
    "Harvard",
    "UC Berkeley",
    "UT Austin",
    "London Business School",
    "MIT",
    "Columbia",
    "Dartmouth",
    "University of Virginia",
    "Georgetown"
  ]

  /** The replacement for a name containing `Keywords[i]`, at the same
      position `i`. */
  const Canonicals: seq<string> := [
    "Northwestern University (Kellogg)",
    "Stanford (GSB)",
    "University of Michigan (Ross)",
    "New York University (Stern)",
    "Carnegie Mellon University (Tepper)",
    "Vanderbilt University (Owen)",
    "University of Chicago (Booth)",
    "UCLA (Anderson)",
    "UNC (Kenan-Flagler)",
    "University of Pennsylvania (Wharton)",
    "Duke University (Fuqua)",
    "Yale University (SOM)",
    "Cornell University (Johnson)",
    "Emory University (Goizueta)",
    "Harvard University (HBS)",
    "UC Berkeley (Haas)",
    "UT Austin (McCombs)",
    "London Business School",
    "MIT (Sloan)",
    "Columbia University (CBS)",
    "Dartmouth University (Tuck)",
    "University of Virginia (Darden)",
    "Georgetown (McDonough)"
  ]

  /** Position `i` of `s` holds a printable ASCII character other than the
      space, or a single space between two such characters. */
  predicate NeatAt(s: string, i: nat)
    requires i < |s|
  {
    || 32 < s[i] as int <= 126
    || (s[i] == ' ' && 0 < i < |s| - 1 && s[i - 1] != ' ' && s[i + 1] != ' ')
  }

  /** A sufficient test for `Tidy` that is cheap to check on a literal. */
  predicate Neat(s: string) {
    forall i :: 0 <= i < |s| ==> NeatAt(s, i)
  }

  // Each canonical name is neat, contains its own keyword (at its start)
  // and none of the keywords before it: for each earlier keyword, a
  // character of it the name lacks, or one (or a pair of adjacent
  // characters) the name lacks where that keyword would have to sit.

  /** The first twelve keywords, position by position. */
  lemma EarlyKeywordsSpelled()
    ensures Keywords[0] == "Northwestern"
         && Keywords[1] == "Stanford"
         && Keywords[2] == "University of Michigan"
         && Keywords[3] == "New York University"
         && Keywords[4] == "Carnegie Mellon"
         && Keywords[5] == "Vanderbilt"
         && Keywords[6] == "University of Chicago"
         && Keywords[7] == "UCLA"
         && Keywords[8] == "UNC"
         && Keywords[9] == "University of Pennsylvania"
         && Keywords[10] == "Duke"
         && Keywords[11] == "Yale"
  {
  }

  /** The remaining keywords, position by position. */
  lemma LateKeywordsSpelled()
    ensures Keywords[12] == "Cornell"
         && Keywords[13] == "Emory"
         && Keywords[14] == "Harvard"
         && Keywords[15] == "UC Berkeley"
         && Keywords[16] == "UT Austin"
         && Keywords[17] == "London Business School"
         && Keywords[18] == "MIT"
         && Keywords[19] == "Columbia"
         && Keywords[20] == "Dartmouth"
         && Keywords[21] == "University of Virginia"
         && Keywords[22] == "Georgetown"
  {
  }

  // Northwestern University (Kellogg): position 0.

  lemma KelloggNeat()
    ensures Neat("Northwestern University (Kellogg)")
  {
  }

  lemma KelloggClaimed()
    ensures Neat(Canonicals[0]) && Contains(Canonicals[0], Keywords[0])
  {
    var s := "Northwestern University (Kellogg)";
    KelloggNeat();
    StartsWithContains(s, "Northwestern");
    EarlyKeywordsSpelled();
    assert Canonicals[0] == s;
  }

  // Stanford (GSB): position 1.

  lemma GsbNeat()
    ensures Neat("Stanford (GSB)")
  {
  }

  lemma GsbAvoids()
    ensures !Contains("Stanford (GSB)", "Northwestern")
  {
    var s := "Stanford (GSB)";
    assert Lacks(s, 'N');
    AbsentByChar(s, "Northwestern", 0);
  }

  lemma GsbClaimed()
    ensures Neat(Canonicals[1]) && Contains(Canonicals[1], Keywords[1])
    ensures forall j :: 0 <= j < 1 ==> !Contains(Canonicals[1], Keywords[j])
  {
    var s := "Stanford (GSB)";
    GsbNeat();
    StartsWithContains(s, "Stanford");
    GsbAvoids();
    EarlyKeywordsSpelled();
    assert Canonicals[1] == s;
  }

  // University of Michigan (Ross): position 2.

  lemma RossNeat()
    ensures Neat("University of Michigan (Ross)")
  {
  }

  lemma RossAvoids()
    ensures && !Contains("University of Michigan (Ross)", "Northwestern")
      && !Contains("University of Michigan (Ross)", "Stanford")
  {
    var s := "University of Michigan (Ross)";
    assert Lacks(s, 'N') && Lacks(s, 'S');
    AbsentByChar(s, "Northwestern", 0);
    AbsentByChar(s, "Stanford", 0);
  }

  lemma RossClaimed()
    ensures Neat(Canonicals[2]) && Contains(Canonicals[2], Keywords[2])
    ensures forall j :: 0 <= j < 2 ==> !Contains(Canonicals[2], Keywords[j])
  {
    var s := "University of Michigan (Ross)";
    RossNeat();
    StartsWithContains(s, "University of Michigan");
    RossAvoids();
    EarlyKeywordsSpelled();
    assert Canonicals[2] == s;
  }

  // New York University (Stern): position 3.

  lemma SternNeat()
    ensures Neat("New York University (Stern)")
  {
  }

  lemma SternAvoids()
    ensures && !Contains("New York University (Stern)", "Northwestern")
      && !Contains("New York University (Stern)", "Stanford")
      && !Contains("New York University (Stern)", "University of Michigan")
  {
    var s := "New York University (Stern)";
    assert Lacks(s, 'a') && Lacks(s, 'f') && Lacks(s, 'h');
    AbsentByChar(s, "Northwestern", 4);
    AbsentByChar(s, "Stanford", 2);
    AbsentByChar(s, "University of Michigan", 12);
  }

  lemma SternClaimed()
    ensures Neat(Canonicals[3]) && Contains(Canonicals[3], Keywords[3])
    ensures forall j :: 0 <= j < 3 ==> !Contains(Canonicals[3], Keywords[j])
  {
    var s := "New York University (Stern)";
    SternNeat();
    StartsWithContains(s, "New York University");
    SternAvoids();
    EarlyKeywordsSpelled();
    assert Canonicals[3] == s;
  }

  // Carnegie Mellon University (Tepper): position 4.

  lemma TepperNeat()
    ensures Neat("Carnegie Mellon University (Tepper)")
  {
  }

  lemma TepperAvoids()
    ensures && !Contains("Carnegie Mellon University (Tepper)", "Northwestern")
      && !Contains("Carnegie Mellon University (Tepper)", "Stanford")
      && !Contains("Carnegie Mellon University (Tepper)", "University of Michigan")
      && !Contains("Carnegie Mellon University (Tepper)", "New York University")
  {
    var s := "Carnegie Mellon University (Tepper)";
    assert Lacks(s, 'N') && Lacks(s, 'S') && Lacks(s, 'f');
    AbsentByChar(s, "Northwestern", 0);
    AbsentByChar(s, "Stanford", 0);
    AbsentByChar(s, "University of Michigan", 12);
    AbsentByChar(s, "New York University", 0);
  }

  lemma TepperClaimed()
    ensures Neat(Canonicals[4]) && Contains(Canonicals[4], Keywords[4])
    ensures forall j :: 0 <= j < 4 ==> !Contains(Canonicals[4], Keywords[j])
  {
    var s := "Carnegie Mellon University (Tepper)";
    TepperNeat();
    StartsWithContains(s, "Carnegie Mellon");
    TepperAvoids();
    EarlyKeywordsSpelled();
    assert Canonicals[4] == s;
  }

  // Vanderbilt University (Owen): position 5.

  lemma OwenNeat()
    ensures Neat("Vanderbilt University (Owen)")
  {
  }

  lemma OwenAvoids()
    ensures && !Contains("Vanderbilt University (Owen)", "Northwestern")
      && !Contains("Vanderbilt University (Owen)", "Stanford")
      && !Contains("Vanderbilt University (Owen)", "University of Michigan")
      && !Contains("Vanderbilt University (Owen)", "New York University")
      && !Contains("Vanderbilt University (Owen)", "Carnegie Mellon")
  {
    var s := "Vanderbilt University (Owen)";
    assert Lacks(s, 'C') && Lacks(s, 'N') && Lacks(s, 'S') && Lacks(s, 'o');
    AbsentByChar(s, "Northwestern", 0);
    AbsentByChar(s, "Stanford", 0);
    AbsentByChar(s, "University of Michigan", 11);
    AbsentByChar(s, "New York University", 0);
    AbsentByChar(s, "Carnegie Mellon", 0);
  }

  lemma OwenClaimed()
    ensures Neat(Canonicals[5]) && Contains(Canonicals[5], Keywords[5])
    ensures forall j :: 0 <= j < 5 ==> !Contains(Canonicals[5], Keywords[j])
  {
    var s := "Vanderbilt University (Owen)";
    OwenNeat();
    StartsWithContains(s, "Vanderbilt");
    OwenAvoids();
    EarlyKeywordsSpelled();
    assert Canonicals[5] == s;
  }

  // University of Chicago (Booth): position 6.

  lemma BoothNeat()
    ensures Neat("University of Chicago (Booth)")
  {
  }

  lemma BoothAvoids()
    ensures && !Contains("University of Chicago (Booth)", "Northwestern")
      && !Contains("University of Chicago (Booth)", "Stanford")
      && !Contains("University of Chicago (Booth)", "University of Michigan")
      && !Contains("University of Chicago (Booth)", "New York University")
      && !Contains("University of Chicago (Booth)", "Carnegie Mellon")
      && !Contains("University of Chicago (Booth)", "Vanderbilt")
  {
    var s := "University of Chicago (Booth)";
    assert Lacks(s, 'M') && Lacks(s, 'N') && Lacks(s, 'S') && Lacks(s, 'V');
    AbsentByChar(s, "Northwestern", 0);
    AbsentByChar(s, "Stanford", 0);
    AbsentByChar(s, "University of Michigan", 14);
    AbsentByChar(s, "New York University", 0);
    AbsentByChar(s, "Carnegie Mellon", 9);
    AbsentByChar(s, "Vanderbilt", 0);
  }

  lemma BoothClaimed()
    ensures Neat(Canonicals[6]) && Contains(Canonicals[6], Keywords[6])
    ensures forall j :: 0 <= j < 6 ==> !Contains(Canonicals[6], Keywords[j])
  {
    var s := "University of Chicago (Booth)";
    BoothNeat();
    StartsWithContains(s, "University of Chicago");
    BoothAvoids();
    EarlyKeywordsSpelled();
    assert Canonicals[6] == s;
  }

  // UCLA (Anderson): position 7.

  lemma AndersonNeat()
    ensures Neat("UCLA (Anderson)")
  {
  }

  lemma AndersonAvoids()
    ensures && !Contains("UCLA (Anderson)", "Northwestern")
      && !Contains("UCLA (Anderson)", "Stanford")
      && !Contains("UCLA (Anderson)", "University of Michigan")
      && !Contains("UCLA (Anderson)", "New York University")
      && !Contains("UCLA (Anderson)", "Carnegie Mellon")
      && !Contains("UCLA (Anderson)", "Vanderbilt")
      && !Contains("UCLA (Anderson)", "University of Chicago")
  {
    var s := "UCLA (Anderson)";
    assert Lacks(s, 'N') && Lacks(s, 'S') && Lacks(s, 'V') && Lacks(s, 'a') && Lacks(s, 'i');
    AbsentByChar(s, "Northwestern", 0);
    AbsentByChar(s, "Stanford", 0);
    AbsentByChar(s, "University of Michigan", 2);
    AbsentByChar(s, "New York University", 0);
    AbsentByChar(s, "Carnegie Mellon", 1);
    AbsentByChar(s, "Vanderbilt", 0);
    AbsentByChar(s, "University of Chicago", 2);
  }

  lemma AndersonClaimed()
    ensures Neat(Canonicals[7]) && Contains(Canonicals[7], Keywords[7])
    ensures forall j :: 0 <= j < 7 ==> !Contains(Canonicals[7], Keywords[j])
  {
    var s := "UCLA (Anderson)";
    AndersonNeat();
    StartsWithContains(s, "UCLA");
    AndersonAvoids();
    EarlyKeywordsSpelled();
    assert Canonicals[7] == s;
  }

  // UNC (Kenan-Flagler): position 8.

  lemma KenanFlaglerNeat()
    ensures Neat("UNC (Kenan-Flagler)")
  {
  }

  lemma KenanFlaglerAvoids1()
    ensures && !Contains("UNC (Kenan-Flagler)", "Northwestern")
      && !Contains("UNC (Kenan-Flagler)", "Stanford")
      && !Contains("UNC (Kenan-Flagler)", "University of Michigan")
      && !Contains("UNC (Kenan-Flagler)", "New York University")
  {
    var s := "UNC (Kenan-Flagler)";
    assert Lacks(s, 'S') && Lacks(s, 'i') && Lacks(s, 'o') && Lacks(s, 'w');
    AbsentByChar(s, "Northwestern", 1);
    AbsentByChar(s, "Stanford", 0);
    AbsentByChar(s, "University of Michigan", 2);
    AbsentByChar(s, "New York University", 2);
  }

  lemma KenanFlaglerAvoids2()
    ensures && !Contains("UNC (Kenan-Flagler)", "Carnegie Mellon")
      && !Contains("UNC (Kenan-Flagler)", "Vanderbilt")
      && !Contains("UNC (Kenan-Flagler)", "University of Chicago")
      && !Contains("UNC (Kenan-Flagler)", "UCLA")
  {
    var s := "UNC (Kenan-Flagler)";
    assert Lacks(s, 'L') && Lacks(s, 'V') && Lacks(s, 'i');
    AbsentByChar(s, "Carnegie Mellon", 6);
    AbsentByChar(s, "Vanderbilt", 0);
    AbsentByChar(s, "University of Chicago", 2);
    AbsentByChar(s, "UCLA", 2);
  }

  lemma KenanFlaglerClaimed()
    ensures Neat(Canonicals[8]) && Contains(Canonicals[8], Keywords[8])
    ensures forall j :: 0 <= j < 8 ==> !Contains(Canonicals[8], Keywords[j])
  {
    var s := "UNC (Kenan-Flagler)";
    KenanFlaglerNeat();
    StartsWithContains(s, "UNC");
    KenanFlaglerAvoids1();
    KenanFlaglerAvoids2();
    EarlyKeywordsSpelled();
    assert Canonicals[8] == s;
  }

  // University of Pennsylvania (Wharton): position 9.

  lemma WhartonNeat()
    ensures Neat("University of Pennsylvania (Wharton)")
  {
  }

  lemma WhartonAvoids1()
    ensures && !Contains("University of Pennsylvania (Wharton)", "Northwestern")
      && !Contains("University of Pennsylvania (Wharton)", "Stanford")
      && !Contains("University of Pennsylvania (Wharton)", "University of Michigan")
      && !Contains("University of Pennsylvania (Wharton)", "New York University")
      && !Contains("University of Pennsylvania (Wharton)", "Carnegie Mellon")
  {
    var s := "University of Pennsylvania (Wharton)";
    assert Lacks(s, 'C') && Lacks(s, 'M') && Lacks(s, 'N') && Lacks(s, 'S');
    AbsentByChar(s, "Northwestern", 0);
    AbsentByChar(s, "Stanford", 0);
    AbsentByChar(s, "University of Michigan", 14);
    AbsentByChar(s, "New York University", 0);
    AbsentByChar(s, "Carnegie Mellon", 0);
  }

  lemma WhartonAvoids2()
    ensures && !Contains("University of Pennsylvania (Wharton)", "Vanderbilt")
      && !Contains("University of Pennsylvania (Wharton)", "University of Chicago")
      && !Contains("University of Pennsylvania (Wharton)", "UCLA")
      && !Contains("University of Pennsylvania (Wharton)", "UNC")
  {
    var s := "University of Pennsylvania (Wharton)";
    assert Lacks(s, 'C') && Lacks(s, 'N') && Lacks(s, 'V');
    AbsentByChar(s, "Vanderbilt", 0);
    AbsentByChar(s, "University of Chicago", 14);
    AbsentByChar(s, "UCLA", 1);
    AbsentByChar(s, "UNC", 1);
  }

  lemma WhartonClaimed()
    ensures Neat(Canonicals[9]) && Contains(Canonicals[9], Keywords[9])
    ensures forall j :: 0 <= j < 9 ==> !Contains(Canonicals[9], Keywords[j])
  {
    var s := "University of Pennsylvania (Wharton)";
    WhartonNeat();
    StartsWithContains(s, "University of Pennsylvania");
    WhartonAvoids1();
    WhartonAvoids2();
    EarlyKeywordsSpelled();
    assert Canonicals[9] == s;
  }

  // Duke University (Fuqua): position 10.

  lemma FuquaNeat()
    ensures Neat("Duke University (Fuqua)")
  {
  }

  lemma FuquaAvoids1()
    ensures && !Contains("Duke University (Fuqua)", "Northwestern")
      && !Contains("Duke University (Fuqua)", "Stanford")
      && !Contains("Duke University (Fuqua)", "University of Michigan")
      && !Contains("Duke University (Fuqua)", "New York University")
      && !Contains("Duke University (Fuqua)", "Carnegie Mellon")
  {
    var s := "Duke University (Fuqua)";
    assert Lacks(s, 'C') && Lacks(s, 'N') && Lacks(s, 'S') && Lacks(s, 'o');
    AbsentByChar(s, "Northwestern", 0);
    AbsentByChar(s, "Stanford", 0);
    AbsentByChar(s, "University of Michigan", 11);
    AbsentByChar(s, "New York University", 0);
    AbsentByChar(s, "Carnegie Mellon", 0);
  }

  lemma FuquaAvoids2()
    ensures && !Contains("Duke University (Fuqua)", "Vanderbilt")
      && !Contains("Duke University (Fuqua)", "University of Chicago")
      && !Contains("Duke University (Fuqua)", "UCLA")
      && !Contains("Duke University (Fuqua)", "UNC")
      && !Contains("Duke University (Fuqua)", "University of Pennsylvania")
  {
    var s := "Duke University (Fuqua)";
    assert Lacks(s, 'C') && Lacks(s, 'N') && Lacks(s, 'V') && Lacks(s, 'o');
    AbsentByChar(s, "Vanderbilt", 0);
    AbsentByChar(s, "University of Chicago", 11);
    AbsentByChar(s, "UCLA", 1);
    AbsentByChar(s, "UNC", 1);
    AbsentByChar(s, "University of Pennsylvania", 11);
  }

  lemma FuquaClaimed()
    ensures Neat(Canonicals[10]) && Contains(Canonicals[10], Keywords[10])
    ensures forall j :: 0 <= j < 10 ==> !Contains(Canonicals[10], Keywords[j])
  {
    var s := "Duke University (Fuqua)";
    FuquaNeat();
    StartsWithContains(s, "Duke");
    FuquaAvoids1();
    FuquaAvoids2();
    EarlyKeywordsSpelled();
    assert Canonicals[10] == s;
  }

  // Yale University (SOM): position 11.

  lemma SomNeat()
    ensures Neat("Yale University (SOM)")
  {
  }

  lemma SomAvoids1()
    ensures && !Contains("Yale University (SOM)", "Northwestern")
      && !Contains("Yale University (SOM)", "Stanford")
      && !Contains("Yale University (SOM)", "University of Michigan")
      && !Contains("Yale University (SOM)", "New York University")
      && !Contains("Yale University (SOM)", "Carnegie Mellon")
      && !Contains("Yale University (SOM)", "Vanderbilt")
  {
    var s := "Yale University (SOM)";
    assert Lacks(s, 'C') && Lacks(s, 'N') && Lacks(s, 'V') && Lacks(s, 'f') && Lacks(s, 'o');
    AbsentByChar(s, "Northwestern", 0);
    AbsentByChar(s, "Stanford", 4);
    AbsentByChar(s, "University of Michigan", 11);
    AbsentByChar(s, "New York University", 0);
    AbsentByChar(s, "Carnegie Mellon", 0);
    AbsentByChar(s, "Vanderbilt", 0);
  }

  lemma SomAvoids2()
    ensures && !Contains("Yale University (SOM)", "University of Chicago")
      && !Contains("Yale University (SOM)", "UCLA")
      && !Contains("Yale University (SOM)", "UNC")
      && !Contains("Yale University (SOM)", "University of Pennsylvania")
      && !Contains("Yale University (SOM)", "Duke")
  {
    var s := "Yale University (SOM)";
    assert Lacks(s, 'C') && Lacks(s, 'D') && Lacks(s, 'N') && Lacks(s, 'o');
    AbsentByChar(s, "University of Chicago", 11);
    AbsentByChar(s, "UCLA", 1);
    AbsentByChar(s, "UNC", 1);
    AbsentByChar(s, "University of Pennsylvania", 11);
    AbsentByChar(s, "Duke", 0);
  }

  lemma SomClaimed()
    ensures Neat(Canonicals[11]) && Contains(Canonicals[11], Keywords[11])
    ensures forall j :: 0 <= j < 11 ==> !Contains(Canonicals[11], Keywords[j])
  {
    var s := "Yale University (SOM)";
    SomNeat();
    StartsWithContains(s, "Yale");
    SomAvoids1();
    SomAvoids2();
    EarlyKeywordsSpelled();
    assert Canonicals[11] == s;
  }

  // Cornell University (Johnson): position 12.

  lemma JohnsonNeat()
    ensures Neat("Cornell University (Johnson)")
  {
  }

  lemma JohnsonAvoids1()
    ensures && !Contains("Cornell University (Johnson)", "Northwestern")
      && !Contains("Cornell University (Johnson)", "Stanford")
      && !Contains("Cornell University (Johnson)", "University of Michigan")
      && !Contains("Cornell University (Johnson)", "New York University")
      && !Contains("Cornell University (Johnson)", "Carnegie Mellon")
      && !Contains("Cornell University (Johnson)", "Vanderbilt")
  {
    var s := "Cornell University (Johnson)";
    assert Lacks(s, 'N') && Lacks(s, 'S') && Lacks(s, 'V') && Lacks(s, 'a') && Lacks(s, 'f');
    AbsentByChar(s, "Northwestern", 0);
    AbsentByChar(s, "Stanford", 0);
    AbsentByChar(s, "University of Michigan", 12);
    AbsentByChar(s, "New York University", 0);
    AbsentByChar(s, "Carnegie Mellon", 1);
    AbsentByChar(s, "Vanderbilt", 0);
  }

  lemma JohnsonAvoids2()
    ensures && !Contains("Cornell University (Johnson)", "University of Chicago")
      && !Contains("Cornell University (Johnson)", "UCLA")
      && !Contains("Cornell University (Johnson)", "UNC")
      && !Contains("Cornell University (Johnson)", "University of Pennsylvania")
      && !Contains("Cornell University (Johnson)", "Duke")
      && !Contains("Cornell University (Johnson)", "Yale")
  {
    var s := "Cornell University (Johnson)";
    assert Lacks(s, 'D') && Lacks(s, 'L') && Lacks(s, 'N') && Lacks(s, 'Y') && Lacks(s, 'f');
    AbsentByChar(s, "University of Chicago", 12);
    AbsentByChar(s, "UCLA", 2);
    AbsentByChar(s, "UNC", 1);
    AbsentByChar(s, "University of Pennsylvania", 12);
    AbsentByChar(s, "Duke", 0);
    AbsentByChar(s, "Yale", 0);
  }

  lemma JohnsonClaimed()
    ensures Neat(Canonicals[12]) && Contains(Canonicals[12], Keywords[12])
    ensures forall j :: 0 <= j < 12 ==> !Contains(Canonicals[12], Keywords[j])
  {
    var s := "Cornell University (Johnson)";
    JohnsonNeat();
    StartsWithContains(s, "Cornell");
    JohnsonAvoids1();
    JohnsonAvoids2();
    EarlyKeywordsSpelled();
    LateKeywordsSpelled();
    assert Canonicals[12] == s;
  }

  // Emory University (Goizueta): position 13.

  lemma GoizuetaNeat()
    ensures Neat("Emory University (Goizueta)")
  {
  }

  lemma GoizuetaAvoids1()
    ensures && !Contains("Emory University (Goizueta)", "Northwestern")
      && !Contains("Emory University (Goizueta)", "Stanford")
      && !Contains("Emory University (Goizueta)", "University of Michigan")
      && !Contains("Emory University (Goizueta)", "New York University")
      && !Contains("Emory University (Goizueta)", "Carnegie Mellon")
      && !Contains("Emory University (Goizueta)", "Vanderbilt")
      && !Contains("Emory University (Goizueta)", "University of Chicago")
  {
    var s := "Emory University (Goizueta)";
    assert Lacks(s, 'C') && Lacks(s, 'N') && Lacks(s, 'S') && Lacks(s, 'V') && Lacks(s, 'f');
    AbsentByChar(s, "Northwestern", 0);
    AbsentByChar(s, "Stanford", 0);
    AbsentByChar(s, "University of Michigan", 12);
    AbsentByChar(s, "New York University", 0);
    AbsentByChar(s, "Carnegie Mellon", 0);
    AbsentByChar(s, "Vanderbilt", 0);
    AbsentByChar(s, "University of Chicago", 12);
  }

  lemma GoizuetaAvoids2()
    ensures && !Contains("Emory University (Goizueta)", "UCLA")
      && !Contains("Emory University (Goizueta)", "UNC")
      && !Contains("Emory University (Goizueta)", "University of Pennsylvania")
      && !Contains("Emory University (Goizueta)", "Duke")
      && !Contains("Emory University (Goizueta)", "Yale")
      && !Contains("Emory University (Goizueta)", "Cornell")
  {
    var s := "Emory University (Goizueta)";
    assert Lacks(s, 'C') && Lacks(s, 'D') && Lacks(s, 'N') && Lacks(s, 'Y') && Lacks(s, 'f');
    AbsentByChar(s, "UCLA", 1);
    AbsentByChar(s, "UNC", 1);
    AbsentByChar(s, "University of Pennsylvania", 12);
    AbsentByChar(s, "Duke", 0);
    AbsentByChar(s, "Yale", 0);
    AbsentByChar(s, "Cornell", 0);
  }

  lemma GoizuetaClaimed()
    ensures Neat(Canonicals[13]) && Contains(Canonicals[13], Keywords[13])
    ensures forall j :: 0 <= j < 13 ==> !Contains(Canonicals[13], Keywords[j])
  {
    var s := "Emory University (Goizueta)";
    GoizuetaNeat();
    StartsWithContains(s, "Emory");
    GoizuetaAvoids1();
    GoizuetaAvoids2();
    EarlyKeywordsSpelled();
    LateKeywordsSpelled();
    assert Canonicals[13] == s;
  }

  // Harvard University (HBS): position 14.

  lemma HbsNeat()
    ensures Neat("Harvard University (HBS)")
  {
  }

  lemma HbsAvoids1()
    ensures && !Contains("Harvard University (HBS)", "Northwestern")
      && !Contains("Harvard University (HBS)", "Stanford")
      && !Contains("Harvard University (HBS)", "University of Michigan")
      && !Contains("Harvard University (HBS)", "New York University")
      && !Contains("Harvard University (HBS)", "Carnegie Mellon")
      && !Contains("Harvard University (HBS)", "Vanderbilt")
      && !Contains("Harvard University (HBS)", "University of Chicago")
  {
    var s := "Harvard University (HBS)";
    assert Lacks(s, 'C') && Lacks(s, 'N') && Lacks(s, 'V') && Lacks(s, 'f') && Lacks(s, 'o');
    AbsentByChar(s, "Northwestern", 0);
    AbsentByChar(s, "Stanford", 4);
    AbsentByChar(s, "University of Michigan", 11);
    AbsentByChar(s, "New York University", 0);
    AbsentByChar(s, "Carnegie Mellon", 0);
    AbsentByChar(s, "Vanderbilt", 0);
    AbsentByChar(s, "University of Chicago", 11);
  }

  lemma HbsAvoids2()
    ensures && !Contains("Harvard University (HBS)", "UCLA")
      && !Contains("Harvard University (HBS)", "UNC")
      && !Contains("Harvard University (HBS)", "University of Pennsylvania")
      && !Contains("Harvard University (HBS)", "Duke")
      && !Contains("Harvard University (HBS)", "Yale")
      && !Contains("Harvard University (HBS)", "Cornell")
      && !Contains("Harvard University (HBS)", "Emory")
  {
    var s := "Harvard University (HBS)";
    assert Lacks(s, 'C') && Lacks(s, 'D') && Lacks(s, 'E') && Lacks(s, 'N') && Lacks(s, 'Y') && Lacks(s, 'o');
    AbsentByChar(s, "UCLA", 1);
    AbsentByChar(s, "UNC", 1);
    AbsentByChar(s, "University of Pennsylvania", 11);
    AbsentByChar(s, "Duke", 0);
    AbsentByChar(s, "Yale", 0);
    AbsentByChar(s, "Cornell", 0);
    AbsentByChar(s, "Emory", 0);
  }

  lemma HbsClaimed()
    ensures Neat(Canonicals[14]) && Contains(Canonicals[14], Keywords[14])
    ensures forall j :: 0 <= j < 14 ==> !Contains(Canonicals[14], Keywords[j])
  {
    var s := "Harvard University (HBS)";
    HbsNeat();
    StartsWithContains(s, "Harvard");
    HbsAvoids1();
    HbsAvoids2();
    EarlyKeywordsSpelled();
    LateKeywordsSpelled();
    assert Canonicals[14] == s;
  }

  // UC Berkeley (Haas): position 15.

  lemma HaasNeat()
    ensures Neat("UC Berkeley (Haas)")
  {
  }

  lemma HaasAvoids1()
    ensures && !Contains("UC Berkeley (Haas)", "Northwestern")
      && !Contains("UC Berkeley (Haas)", "Stanford")
      && !Contains("UC Berkeley (Haas)", "University of Michigan")
      && !Contains("UC Berkeley (Haas)", "New York University")
      && !Contains("UC Berkeley (Haas)", "Carnegie Mellon")
  {
    var s := "UC Berkeley (Haas)";
    assert Lacks(s, 'N') && Lacks(s, 'S') && Lacks(s, 'n');
    AbsentByChar(s, "Northwestern", 0);
    AbsentByChar(s, "Stanford", 0);
    AbsentByChar(s, "University of Michigan", 1);
    AbsentByChar(s, "New York University", 0);
    AbsentByChar(s, "Carnegie Mellon", 3);
  }

  lemma HaasAvoids2()
    ensures && !Contains("UC Berkeley (Haas)", "Vanderbilt")
      && !Contains("UC Berkeley (Haas)", "University of Chicago")
      && !Contains("UC Berkeley (Haas)", "UCLA")
      && !Contains("UC Berkeley (Haas)", "UNC")
      && !Contains("UC Berkeley (Haas)", "University of Pennsylvania")
  {
    var s := "UC Berkeley (Haas)";
    assert Lacks(s, 'L') && Lacks(s, 'N') && Lacks(s, 'V') && Lacks(s, 'n');
    AbsentByChar(s, "Vanderbilt", 0);
    AbsentByChar(s, "University of Chicago", 1);
    AbsentByChar(s, "UCLA", 2);
    AbsentByChar(s, "UNC", 1);
    AbsentByChar(s, "University of Pennsylvania", 1);
  }

  lemma HaasAvoids3()
    ensures && !Contains("UC Berkeley (Haas)", "Duke")
      && !Contains("UC Berkeley (Haas)", "Yale")
      && !Contains("UC Berkeley (Haas)", "Cornell")
      && !Contains("UC Berkeley (Haas)", "Emory")
      && !Contains("UC Berkeley (Haas)", "Harvard")
  {
    var s := "UC Berkeley (Haas)";
    assert Lacks(s, 'D') && Lacks(s, 'E') && Lacks(s, 'Y') && Lacks(s, 'o') && Lacks(s, 'v');
    AbsentByChar(s, "Duke", 0);
    AbsentByChar(s, "Yale", 0);
    AbsentByChar(s, "Cornell", 1);
    AbsentByChar(s, "Emory", 0);
    AbsentByChar(s, "Harvard", 3);
  }

  lemma HaasClaimed()
    ensures Neat(Canonicals[15]) && Contains(Canonicals[15], Keywords[15])
    ensures forall j :: 0 <= j < 15 ==> !Contains(Canonicals[15], Keywords[j])
  {
    var s := "UC Berkeley (Haas)";
    HaasNeat();
    StartsWithContains(s, "UC Berkeley");
    HaasAvoids1();
    HaasAvoids2();
    HaasAvoids3();
    EarlyKeywordsSpelled();
    LateKeywordsSpelled();
    assert Canonicals[15] == s;
  }

  // UT Austin (McCombs): position 16.

  lemma McCombsNeat()
    ensures Neat("UT Austin (McCombs)")
  {
  }

  lemma McCombsAvoids1()
    ensures && !Contains("UT Austin (McCombs)", "Northwestern")
      && !Contains("UT Austin (McCombs)", "Stanford")
      && !Contains("UT Austin (McCombs)", "University of Michigan")
      && !Contains("UT Austin (McCombs)", "New York University")
      && !Contains("UT Austin (McCombs)", "Carnegie Mellon")
      && !Contains("UT Austin (McCombs)", "Vanderbilt")
  {
    var s := "UT Austin (McCombs)";
    assert Lacks(s, 'N') && Lacks(s, 'S') && Lacks(s, 'V') && Lacks(s, 'a') && Lacks(s, 'v');
    AbsentByChar(s, "Northwestern", 0);
    AbsentByChar(s, "Stanford", 0);
    AbsentByChar(s, "University of Michigan", 3);
    AbsentByChar(s, "New York University", 0);
    AbsentByChar(s, "Carnegie Mellon", 1);
    AbsentByChar(s, "Vanderbilt", 0);
  }

  lemma McCombsAvoids2()
    ensures && !Contains("UT Austin (McCombs)", "University of Chicago")
      && !Contains("UT Austin (McCombs)", "UCLA")
      && !Contains("UT Austin (McCombs)", "UNC")
      && !Contains("UT Austin (McCombs)", "University of Pennsylvania")
      && !Contains("UT Austin (McCombs)", "Duke")
  {
    var s := "UT Austin (McCombs)";
    assert Lacks(s, 'D') && Lacks(s, 'L') && Lacks(s, 'N') && Lacks(s, 'v');
    AbsentByChar(s, "University of Chicago", 3);
    AbsentByChar(s, "UCLA", 2);
    AbsentByChar(s, "UNC", 1);
    AbsentByChar(s, "University of Pennsylvania", 3);
    AbsentByChar(s, "Duke", 0);
  }

  lemma McCombsAvoids3()
    ensures && !Contains("UT Austin (McCombs)", "Yale")
      && !Contains("UT Austin (McCombs)", "Cornell")
      && !Contains("UT Austin (McCombs)", "Emory")
      && !Contains("UT Austin (McCombs)", "Harvard")
      && !Contains("UT Austin (McCombs)", "UC Berkeley")
  {
    var s := "UT Austin (McCombs)";
    assert Lacks(s, 'B') && Lacks(s, 'E') && Lacks(s, 'H') && Lacks(s, 'Y') && Lacks(s, 'r');
    AbsentByChar(s, "Yale", 0);
    AbsentByChar(s, "Cornell", 2);
    AbsentByChar(s, "Emory", 0);
    AbsentByChar(s, "Harvard", 0);
    AbsentByChar(s, "UC Berkeley", 3);
  }

  lemma McCombsClaimed()
    ensures Neat(Canonicals[16]) && Contains(Canonicals[16], Keywords[16])
    ensures forall j :: 0 <= j < 16 ==> !Contains(Canonicals[16], Keywords[j])
  {
    var s := "UT Austin (McCombs)";
    McCombsNeat();
    StartsWithContains(s, "UT Austin");
    McCombsAvoids1();
    McCombsAvoids2();
    McCombsAvoids3();
    EarlyKeywordsSpelled();
    LateKeywordsSpelled();
    assert Canonicals[16] == s;
  }

  // London Business School: position 17.

  lemma LbsNeat()
    ensures Neat("London Business School")
  {
  }

  lemma LbsAvoids1()
    ensures && !Contains("London Business School", "Northwestern")
      && !Contains("London Business School", "Stanford")
      && !Contains("London Business School", "University of Michigan")
      && !Contains("London Business School", "New York University")
      && !Contains("London Business School", "Carnegie Mellon")
      && !Contains("London Business School", "Vanderbilt")
  {
    var s := "London Business School";
    assert Lacks(s, 'C') && Lacks(s, 'N') && Lacks(s, 'U') && Lacks(s, 'V') && Lacks(s, 't');
    AbsentByChar(s, "Northwestern", 0);
    AbsentByChar(s, "Stanford", 1);
    AbsentByChar(s, "University of Michigan", 0);
    AbsentByChar(s, "New York University", 0);
    AbsentByChar(s, "Carnegie Mellon", 0);
    AbsentByChar(s, "Vanderbilt", 0);
  }

  lemma LbsAvoids2()
    ensures && !Contains("London Business School", "University of Chicago")
      && !Contains("London Business School", "UCLA")
      && !Contains("London Business School", "UNC")
      && !Contains("London Business School", "University of Pennsylvania")
      && !Contains("London Business School", "Duke")
      && !Contains("London Business School", "Yale")
  {
    var s := "London Business School";
    assert Lacks(s, 'D') && Lacks(s, 'U') && Lacks(s, 'Y');
    AbsentByChar(s, "University of Chicago", 0);
    AbsentByChar(s, "UCLA", 0);
    AbsentByChar(s, "UNC", 0);
    AbsentByChar(s, "University of Pennsylvania", 0);
    AbsentByChar(s, "Duke", 0);
    AbsentByChar(s, "Yale", 0);
  }

  lemma LbsAvoids3()
    ensures && !Contains("London Business School", "Cornell")
      && !Contains("London Business School", "Emory")
      && !Contains("London Business School", "Harvard")
      && !Contains("London Business School", "UC Berkeley")
      && !Contains("London Business School", "UT Austin")
  {
    var s := "London Business School";
    assert Lacks(s, 'C') && Lacks(s, 'E') && Lacks(s, 'H') && Lacks(s, 'U');
    AbsentByChar(s, "Cornell", 0);
    AbsentByChar(s, "Emory", 0);
    AbsentByChar(s, "Harvard", 0);
    AbsentByChar(s, "UC Berkeley", 0);
    AbsentByChar(s, "UT Austin", 0);
  }

  lemma LbsClaimed()
    ensures Neat(Canonicals[17]) && Contains(Canonicals[17], Keywords[17])
    ensures forall j :: 0 <= j < 17 ==> !Contains(Canonicals[17], Keywords[j])
  {
    var s := "London Business School";
    LbsNeat();
    StartsWithContains(s, "London Business School");
    LbsAvoids1();
    LbsAvoids2();
    LbsAvoids3();
    EarlyKeywordsSpelled();
    LateKeywordsSpelled();
    assert Canonicals[17] == s;
  }

  // MIT (Sloan): position 18.

  lemma SloanNeat()
    ensures Neat("MIT (Sloan)")
  {
  }

  lemma SloanAvoids1()
    ensures && !Contains("MIT (Sloan)", "Northwestern")
      && !Contains("MIT (Sloan)", "Stanford")
      && !Contains("MIT (Sloan)", "University of Michigan")
      && !Contains("MIT (Sloan)", "New York University")
      && !Contains("MIT (Sloan)", "Carnegie Mellon")
      && !Contains("MIT (Sloan)", "Vanderbilt")
  {
    var s := "MIT (Sloan)";
    assert Lacks(s, 'C') && Lacks(s, 'N') && Lacks(s, 'U') && Lacks(s, 'V') && Lacks(s, 't');
    AbsentByChar(s, "Northwestern", 0);
    AbsentByChar(s, "Stanford", 1);
    AbsentByChar(s, "University of Michigan", 0);
    AbsentByChar(s, "New York University", 0);
    AbsentByChar(s, "Carnegie Mellon", 0);
    AbsentByChar(s, "Vanderbilt", 0);
  }

  lemma SloanAvoids2()
    ensures && !Contains("MIT (Sloan)", "University of Chicago")
      && !Contains("MIT (Sloan)", "UCLA")
      && !Contains("MIT (Sloan)", "UNC")
      && !Contains("MIT (Sloan)", "University of Pennsylvania")
      && !Contains("MIT (Sloan)", "Duke")
      && !Contains("MIT (Sloan)", "Yale")
  {
    var s := "MIT (Sloan)";
    assert Lacks(s, 'D') && Lacks(s, 'U') && Lacks(s, 'Y');
    AbsentByChar(s, "University of Chicago", 0);
    AbsentByChar(s, "UCLA", 0);
    AbsentByChar(s, "UNC", 0);
    AbsentByChar(s, "University of Pennsylvania", 0);
    AbsentByChar(s, "Duke", 0);
    AbsentByChar(s, "Yale", 0);
  }

  lemma SloanAvoids3()
    ensures && !Contains("MIT (Sloan)", "Cornell")
      && !Contains("MIT (Sloan)", "Emory")
      && !Contains("MIT (Sloan)", "Harvard")
      && !Contains("MIT (Sloan)", "UC Berkeley")
      && !Contains("MIT (Sloan)", "UT Austin")
      && !Contains("MIT (Sloan)", "London Business School")
  {
    var s := "MIT (Sloan)";
    assert Lacks(s, 'C') && Lacks(s, 'E') && Lacks(s, 'H') && Lacks(s, 'L') && Lacks(s, 'U');
    AbsentByChar(s, "Cornell", 0);
    AbsentByChar(s, "Emory", 0);
    AbsentByChar(s, "Harvard", 0);
    AbsentByChar(s, "UC Berkeley", 0);
    AbsentByChar(s, "UT Austin", 0);
    AbsentByChar(s, "London Business School", 0);
  }

  lemma SloanClaimed()
    ensures Neat(Canonicals[18]) && Contains(Canonicals[18], Keywords[18])
    ensures forall j :: 0 <= j < 18 ==> !Contains(Canonicals[18], Keywords[j])
  {
    var s := "MIT (Sloan)";
    SloanNeat();
    StartsWithContains(s, "MIT");
    SloanAvoids1();
    SloanAvoids2();
    SloanAvoids3();
    EarlyKeywordsSpelled();
    LateKeywordsSpelled();
    assert Canonicals[18] == s;
  }

  // Columbia University (CBS): position 19.

  lemma CbsNeat()
    ensures Neat("Columbia University (CBS)")
  {
  }

  lemma CbsAvoids1()
    ensures && !Contains("Columbia University (CBS)", "Northwestern")
      && !Contains("Columbia University (CBS)", "Stanford")
      && !Contains("Columbia University (CBS)", "University of Michigan")
      && !Contains("Columbia University (CBS)", "New York University")
      && !Contains("Columbia University (CBS)", "Carnegie Mellon")
      && !Contains("Columbia University (CBS)", "Vanderbilt")
      && !Contains("Columbia University (CBS)", "University of Chicago")
  {
    var s := "Columbia University (CBS)";
    assert Lacks(s, 'N') && Lacks(s, 'V') && Lacks(s, 'f') && Lacks(s, 'g');
    AbsentByChar(s, "Northwestern", 0);
    AbsentByChar(s, "Stanford", 4);
    AbsentByChar(s, "University of Michigan", 12);
    AbsentByChar(s, "New York University", 0);
    AbsentByChar(s, "Carnegie Mellon", 5);
    AbsentByChar(s, "Vanderbilt", 0);
    AbsentByChar(s, "University of Chicago", 12);
  }

  lemma CbsAvoids2()
    ensures && !Contains("Columbia University (CBS)", "UCLA")
      && !Contains("Columbia University (CBS)", "UNC")
      && !Contains("Columbia University (CBS)", "University of Pennsylvania")
      && !Contains("Columbia University (CBS)", "Duke")
      && !Contains("Columbia University (CBS)", "Yale")
      && !Contains("Columbia University (CBS)", "Cornell")
  {
    var s := "Columbia University (CBS)";
    assert Lacks(s, 'D') && Lacks(s, 'L') && Lacks(s, 'N') && Lacks(s, 'Y') && Lacks(s, 'f');
    AbsentByChar(s, "UCLA", 2);
    AbsentByChar(s, "UNC", 1);
    AbsentByChar(s, "University of Pennsylvania", 12);
    AbsentByChar(s, "Duke", 0);
    AbsentByChar(s, "Yale", 0);
    CharAbsent(s, "Cornell", 5);
  }

  lemma CbsAvoids3()
    ensures && !Contains("Columbia University (CBS)", "Emory")
      && !Contains("Columbia University (CBS)", "Harvard")
      && !Contains("Columbia University (CBS)", "UC Berkeley")
      && !Contains("Columbia University (CBS)", "UT Austin")
      && !Contains("Columbia University (CBS)", "London Business School")
      && !Contains("Columbia University (CBS)", "MIT")
  {
    var s := "Columbia University (CBS)";
    assert Lacks(s, 'E') && Lacks(s, 'H') && Lacks(s, 'L') && Lacks(s, 'M') && Lacks(s, 'T') && Lacks(s, 'k');
    AbsentByChar(s, "Emory", 0);
    AbsentByChar(s, "Harvard", 0);
    AbsentByChar(s, "UC Berkeley", 6);
    AbsentByChar(s, "UT Austin", 1);
    AbsentByChar(s, "London Business School", 0);
    AbsentByChar(s, "MIT", 0);
  }

  lemma CbsClaimed()
    ensures Neat(Canonicals[19]) && Contains(Canonicals[19], Keywords[19])
    ensures forall j :: 0 <= j < 19 ==> !Contains(Canonicals[19], Keywords[j])
  {
    var s := "Columbia University (CBS)";
    CbsNeat();
    StartsWithContains(s, "Columbia");
    CbsAvoids1();
    CbsAvoids2();
    CbsAvoids3();
    EarlyKeywordsSpelled();
    LateKeywordsSpelled();
    assert Canonicals[19] == s;
  }

  // Dartmouth University (Tuck): position 20.

  lemma TuckNeat()
    ensures Neat("Dartmouth University (Tuck)")
  {
  }

  lemma TuckAvoids1()
    ensures && !Contains("Dartmouth University (Tuck)", "Northwestern")
      && !Contains("Dartmouth University (Tuck)", "Stanford")
      && !Contains("Dartmouth University (Tuck)", "University of Michigan")
      && !Contains("Dartmouth University (Tuck)", "New York University")
      && !Contains("Dartmouth University (Tuck)", "Carnegie Mellon")
      && !Contains("Dartmouth University (Tuck)", "Vanderbilt")
      && !Contains("Dartmouth University (Tuck)", "University of Chicago")
  {
    var s := "Dartmouth University (Tuck)";
    assert Lacks(s, 'C') && Lacks(s, 'N') && Lacks(s, 'S') && Lacks(s, 'V') && Lacks(s, 'f');
    AbsentByChar(s, "Northwestern", 0);
    AbsentByChar(s, "Stanford", 0);
    AbsentByChar(s, "University of Michigan", 12);
    AbsentByChar(s, "New York University", 0);
    AbsentByChar(s, "Carnegie Mellon", 0);
    AbsentByChar(s, "Vanderbilt", 0);
    AbsentByChar(s, "University of Chicago", 12);
  }

  lemma TuckAvoids2()
    ensures && !Contains("Dartmouth University (Tuck)", "UCLA")
      && !Contains("Dartmouth University (Tuck)", "UNC")
      && !Contains("Dartmouth University (Tuck)", "University of Pennsylvania")
      && !Contains("Dartmouth University (Tuck)", "Duke")
      && !Contains("Dartmouth University (Tuck)", "Yale")
      && !Contains("Dartmouth University (Tuck)", "Cornell")
      && !Contains("Dartmouth University (Tuck)", "Emory")
  {
    var s := "Dartmouth University (Tuck)";
    assert Lacks(s, 'C') && Lacks(s, 'E') && Lacks(s, 'N') && Lacks(s, 'Y') && Lacks(s, 'f');
    AbsentByChar(s, "UCLA", 1);
    AbsentByChar(s, "UNC", 1);
    AbsentByChar(s, "University of Pennsylvania", 12);
    PairAbsent(s, "Duke", 0);
    AbsentByChar(s, "Yale", 0);
    AbsentByChar(s, "Cornell", 0);
    AbsentByChar(s, "Emory", 0);
  }

  lemma TuckAvoids3()
    ensures && !Contains("Dartmouth University (Tuck)", "Harvard")
      && !Contains("Dartmouth University (Tuck)", "UC Berkeley")
      && !Contains("Dartmouth University (Tuck)", "UT Austin")
      && !Contains("Dartmouth University (Tuck)", "London Business School")
      && !Contains("Dartmouth University (Tuck)", "MIT")
      && !Contains("Dartmouth University (Tuck)", "Columbia")
  {
    var s := "Dartmouth University (Tuck)";
    assert Lacks(s, 'A') && Lacks(s, 'C') && Lacks(s, 'H') && Lacks(s, 'L') && Lacks(s, 'M');
    AbsentByChar(s, "Harvard", 0);
    AbsentByChar(s, "UC Berkeley", 1);
    AbsentByChar(s, "UT Austin", 3);
    AbsentByChar(s, "London Business School", 0);
    AbsentByChar(s, "MIT", 0);
    AbsentByChar(s, "Columbia", 0);
  }

  lemma TuckClaimed()
    ensures Neat(Canonicals[20]) && Contains(Canonicals[20], Keywords[20])
    ensures forall j :: 0 <= j < 20 ==> !Contains(Canonicals[20], Keywords[j])
  {
    var s := "Dartmouth University (Tuck)";
    TuckNeat();
    StartsWithContains(s, "Dartmouth");
    TuckAvoids1();
    TuckAvoids2();
    TuckAvoids3();
    EarlyKeywordsSpelled();
    LateKeywordsSpelled();
    assert Canonicals[20] == s;
  }

  // University of Virginia (Darden): position 21.

  lemma DardenNeat()
    ensures Neat("University of Virginia (Darden)")
  {
  }

  lemma DardenAvoids1()
    ensures && !Contains("University of Virginia (Darden)", "Northwestern")
      && !Contains("University of Virginia (Darden)", "Stanford")
      && !Contains("University of Virginia (Darden)", "University of Michigan")
      && !Contains("University of Virginia (Darden)", "New York University")
      && !Contains("University of Virginia (Darden)", "Carnegie Mellon")
      && !Contains("University of Virginia (Darden)", "Vanderbilt")
      && !Contains("University of Virginia (Darden)", "University of Chicago")
  {
    var s := "University of Virginia (Darden)";
    assert Lacks(s, 'C') && Lacks(s, 'M') && Lacks(s, 'N') && Lacks(s, 'S') && Lacks(s, 'b');
    AbsentByChar(s, "Northwestern", 0);
    AbsentByChar(s, "Stanford", 0);
    AbsentByChar(s, "University of Michigan", 14);
    AbsentByChar(s, "New York University", 0);
    AbsentByChar(s, "Carnegie Mellon", 0);
    AbsentByChar(s, "Vanderbilt", 6);
    AbsentByChar(s, "University of Chicago", 14);
  }

  lemma DardenAvoids2()
    ensures && !Contains("University of Virginia (Darden)", "UCLA")
      && !Contains("University of Virginia (Darden)", "UNC")
      && !Contains("University of Virginia (Darden)", "University of Pennsylvania")
      && !Contains("University of Virginia (Darden)", "Duke")
      && !Contains("University of Virginia (Darden)", "Yale")
      && !Contains("University of Virginia (Darden)", "Cornell")
      && !Contains("University of Virginia (Darden)", "Emory")
  {
    var s := "University of Virginia (Darden)";
    assert Lacks(s, 'C') && Lacks(s, 'E') && Lacks(s, 'N') && Lacks(s, 'P') && Lacks(s, 'Y') && Lacks(s, 'u');
    AbsentByChar(s, "UCLA", 1);
    AbsentByChar(s, "UNC", 1);
    AbsentByChar(s, "University of Pennsylvania", 14);
    AbsentByChar(s, "Duke", 1);
    AbsentByChar(s, "Yale", 0);
    AbsentByChar(s, "Cornell", 0);
    AbsentByChar(s, "Emory", 0);
  }

  lemma DardenAvoids3()
    ensures && !Contains("University of Virginia (Darden)", "Harvard")
      && !Contains("University of Virginia (Darden)", "UC Berkeley")
      && !Contains("University of Virginia (Darden)", "UT Austin")
      && !Contains("University of Virginia (Darden)", "London Business School")
      && !Contains("University of Virginia (Darden)", "MIT")
      && !Contains("University of Virginia (Darden)", "Columbia")
      && !Contains("University of Virginia (Darden)", "Dartmouth")
  {
    var s := "University of Virginia (Darden)";
    assert Lacks(s, 'C') && Lacks(s, 'H') && Lacks(s, 'L') && Lacks(s, 'M') && Lacks(s, 'T') && Lacks(s, 'm');
    AbsentByChar(s, "Harvard", 0);
    AbsentByChar(s, "UC Berkeley", 1);
    AbsentByChar(s, "UT Austin", 1);
    AbsentByChar(s, "London Business School", 0);
    AbsentByChar(s, "MIT", 0);
    AbsentByChar(s, "Columbia", 0);
    AbsentByChar(s, "Dartmouth", 4);
  }

  lemma DardenClaimed()
    ensures Neat(Canonicals[21]) && Contains(Canonicals[21], Keywords[21])
    ensures forall j :: 0 <= j < 21 ==> !Contains(Canonicals[21], Keywords[j])
  {
    var s := "University of Virginia (Darden)";
    DardenNeat();
    StartsWithContains(s, "University of Virginia");
    DardenAvoids1();
    DardenAvoids2();
    DardenAvoids3();
    EarlyKeywordsSpelled();
    LateKeywordsSpelled();
    assert Canonicals[21] == s;
  }

  // Georgetown (McDonough): position 22.

  lemma McDonoughNeat()
    ensures Neat("Georgetown (McDonough)")
  {
  }

  lemma McDonoughAvoids1()
    ensures && !Contains("Georgetown (McDonough)", "Northwestern")
      && !Contains("Georgetown (McDonough)", "Stanford")
      && !Contains("Georgetown (McDonough)", "University of Michigan")
      && !Contains("Georgetown (McDonough)", "New York University")
      && !Contains("Georgetown (McDonough)", "Carnegie Mellon")
      && !Contains("Georgetown (McDonough)", "Vanderbilt")
  {
    var s := "Georgetown (McDonough)";
    assert Lacks(s, 'C') && Lacks(s, 'N') && Lacks(s, 'S') && Lacks(s, 'U') && Lacks(s, 'V');
    AbsentByChar(s, "Northwestern", 0);
    AbsentByChar(s, "Stanford", 0);
    AbsentByChar(s, "University of Michigan", 0);
    AbsentByChar(s, "New York University", 0);
    AbsentByChar(s, "Carnegie Mellon", 0);
    AbsentByChar(s, "Vanderbilt", 0);
  }

  lemma McDonoughAvoids2()
    ensures && !Contains("Georgetown (McDonough)", "University of Chicago")
      && !Contains("Georgetown (McDonough)", "UCLA")
      && !Contains("Georgetown (McDonough)", "UNC")
      && !Contains("Georgetown (McDonough)", "University of Pennsylvania")
      && !Contains("Georgetown (McDonough)", "Duke")
      && !Contains("Georgetown (McDonough)", "Yale")
  {
    var s := "Georgetown (McDonough)";
    assert Lacks(s, 'U') && Lacks(s, 'Y') && Lacks(s, 'k');
    AbsentByChar(s, "University of Chicago", 0);
    AbsentByChar(s, "UCLA", 0);
    AbsentByChar(s, "UNC", 0);
    AbsentByChar(s, "University of Pennsylvania", 0);
    AbsentByChar(s, "Duke", 2);
    AbsentByChar(s, "Yale", 0);
  }

  lemma McDonoughAvoids3()
    ensures && !Contains("Georgetown (McDonough)", "Cornell")
      && !Contains("Georgetown (McDonough)", "Emory")
      && !Contains("Georgetown (McDonough)", "Harvard")
      && !Contains("Georgetown (McDonough)", "UC Berkeley")
      && !Contains("Georgetown (McDonough)", "UT Austin")
  {
    var s := "Georgetown (McDonough)";
    assert Lacks(s, 'C') && Lacks(s, 'E') && Lacks(s, 'H') && Lacks(s, 'U');
    AbsentByChar(s, "Cornell", 0);
    AbsentByChar(s, "Emory", 0);
    AbsentByChar(s, "Harvard", 0);
    AbsentByChar(s, "UC Berkeley", 0);
    AbsentByChar(s, "UT Austin", 0);
  }

  lemma McDonoughAvoids4()
    ensures && !Contains("Georgetown (McDonough)", "London Business School")
      && !Contains("Georgetown (McDonough)", "MIT")
      && !Contains("Georgetown (McDonough)", "Columbia")
      && !Contains("Georgetown (McDonough)", "Dartmouth")
      && !Contains("Georgetown (McDonough)", "University of Virginia")
  {
    var s := "Georgetown (McDonough)";
    assert Lacks(s, 'C') && Lacks(s, 'I') && Lacks(s, 'L') && Lacks(s, 'U') && Lacks(s, 'a');
    AbsentByChar(s, "London Business School", 0);
    AbsentByChar(s, "MIT", 1);
    AbsentByChar(s, "Columbia", 0);
    AbsentByChar(s, "Dartmouth", 1);
    AbsentByChar(s, "University of Virginia", 0);
  }

  lemma McDonoughClaimed()
    ensures Neat(Canonicals[22]) && Contains(Canonicals[22], Keywords[22])
    ensures forall j :: 0 <= j < 22 ==> !Contains(Canonicals[22], Keywords[j])
  {
    var s := "Georgetown (McDonough)";
    McDonoughNeat();
    StartsWithContains(s, "Georgetown");
    McDonoughAvoids1();
    McDonoughAvoids2();
    McDonoughAvoids3();
    McDonoughAvoids4();
    EarlyKeywordsSpelled();
    LateKeywordsSpelled();
    assert Canonicals[22] == s;
  }

  /** Every canonical name is neat, contains its own keyword and none of
      the keywords tested before it. */
  lemma Claimed(i: nat)
    requires i < |Canonicals|
    ensures Neat(Canonicals[i]) && Contains(Canonicals[i], Keywords[i])
    ensures forall j :: 0 <= j < i ==> !Contains(Canonicals[i], Keywords[j])
  {
    if i == 0 {
      KelloggClaimed();
    } else if i == 1 {
      GsbClaimed();
    } else if i == 2 {
      RossClaimed();
    } else if i == 3 {
      SternClaimed();
    } else if i == 4 {
      TepperClaimed();
    } else if i == 5 {
      OwenClaimed();
    } else if i == 6 {
      BoothClaimed();
    } else if i == 7 {
      AndersonClaimed();
    } else if i == 8 {
      KenanFlaglerClaimed();
    } else if i == 9 {
      WhartonClaimed();
    } else if i == 10 {
      FuquaClaimed();
    } else if i == 11 {
      SomClaimed();
    } else if i == 12 {
      JohnsonClaimed();
    } else if i == 13 {
      GoizuetaClaimed();
    } else if i == 14 {
      HbsClaimed();
    } else if i == 15 {
      HaasClaimed();
    } else if i == 16 {
      McCombsClaimed();
    } else if i == 17 {
      LbsClaimed();
    } else if i == 18 {
      SloanClaimed();
    } else if i == 19 {
      CbsClaimed();
    } else if i == 20 {
      TuckClaimed();
    } else if i == 21 {
      DardenClaimed();
    } else {
      McDonoughClaimed();
    }
  }
}
