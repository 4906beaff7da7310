/** `clean_school_name` (app.py): the printable-character filter, the
    whitespace normalisation of `' '.join(s.split())`, and the ordered
    keyword table that maps a name to its canonical form. */
module SchoolNames {
  import opened Schema
  import opened SchoolTable

  /** A spreadsheet cell: a string, or any other value (a number, a missing
      value), carried as an opaque code. */
  datatype Cell = Text(text: string) | NonText(code: int)

  // ---------------------------------------------------------------------
  // Characters.

  /** `str.isspace()`, the separators `str.split()` splits on. */
  predicate IsSpace(c: char) {
    var n := c as int;
    || 9 <= n <= 13 || 28 <= n <= 32 || n == 0x85 || n == 0xa0 || n == 0x1680
    || 0x2000 <= n <= 0x200a || n == 0x2028 || n == 0x2029 || n == 0x202f || n == 0x205f || n == 0x3000
  }

  /** `str.isprintable()` for one character: false for control, format,
      private-use and separator characters, except the ASCII space. */
  predicate IsPrintable(c: char) {
    var n := c as int;
    || n == 32
    || !(|| n < 32 || 0x7f <= n <= 0xa0 || n == 0xad || IsSpace(c)
         || 0x200b <= n <= 0x200f || 0x202a <= n <= 0x202e || 0x2060 <= n <= 0x206f
         || 0xd800 <= n <= 0xf8ff || n == 0xfeff || 0xfff9 <= n <= 0xfffb || n >= 0xf0000)
  }

  lemma SpaceIsPrintableSeparator(c: char)
    requires IsSpace(c) && IsPrintable(c)
    ensures c == ' '
  {
  }

  // ---------------------------------------------------------------------
  // Normalisation.

  /** `''.join(c for c in s if c.isprintable())`. */
  function Printable(s: string): (r: string)
    ensures forall i :: 0 <= i < |r| ==> IsPrintable(r[i])
    ensures multiset(r) <= multiset(s)
  {
    if |s| == 0 then ""
    else
      var init := Printable(s[..|s| - 1]);
      assert s == s[..|s| - 1] + [s[|s| - 1]];
      if IsPrintable(s[|s| - 1]) then init + [s[|s| - 1]] else init
  }

  /** A string of printable characters passes the filter unchanged. */
  lemma {:induction false} PrintableKeeps(s: string)
    requires forall i :: 0 <= i < |s| ==> IsPrintable(s[i])
    ensures Printable(s) == s
  {
    if |s| > 0 {
      PrintableKeeps(s[..|s| - 1]);
      assert s == s[..|s| - 1] + [s[|s| - 1]];
    }
  }

  /** The length of the run of non-whitespace characters `s` starts with. */
  function WordLength(s: string): (n: nat)
    ensures n <= |s| && (forall i :: 0 <= i < n ==> !IsSpace(s[i])) && (n < |s| ==> IsSpace(s[n]))
  {
    if |s| == 0 || IsSpace(s[0]) then 0 else 1 + WordLength(s[1..])
  }

  /** `s.split()`: the maximal runs of non-whitespace characters, in order. */
  function Words(s: string): (ws: seq<string>)
    ensures forall w <- ws :: |w| > 0 && forall i :: 0 <= i < |w| ==> !IsSpace(w[i]) && w[i] in s
    decreases |s|
  {
    if |s| == 0 then []
    else if IsSpace(s[0]) then
      var ws := Words(s[1..]);
      assert forall c <- s[1..] :: c in s;
      ws
    else
      var n := WordLength(s);
      var ws := Words(s[n..]);
      assert forall c <- s[n..] :: c in s;
      assert forall c <- s[..n] :: c in s;
      [s[..n]] + ws
  }

  /** `' '.join(ws)`. */
  function Join(ws: seq<string>): string {
    if |ws| == 0 then "" else if |ws| == 1 then ws[0] else ws[0] + " " + Join(ws[1..])
  }

  /** A normalised name: only printable characters, and every whitespace
      character is a single space between two other characters. */
  predicate Tidy(r: string) {
    && (forall i :: 0 <= i < |r| ==> IsPrintable(r[i]))
    && (forall i :: 0 <= i < |r| && IsSpace(r[i]) ==>
          0 < i < |r| - 1 && r[i] == ' ' && !IsSpace(r[i - 1]) && !IsSpace(r[i + 1]))
  }

  /** A printable word without whitespace. */
  predicate Solid(w: string) {
    |w| > 0 && forall i :: 0 <= i < |w| ==> !IsSpace(w[i]) && IsPrintable(w[i])
  }

  /** A solid word, a space and a non-empty tidy string make a tidy string. */
  lemma TidyCons(w: string, j: string)
    requires Solid(w) && |j| > 0 && Tidy(j)
    ensures Tidy(w + " " + j)
  {
    var r := w + " " + j;
    assert forall i :: 0 <= i < |w| ==> r[i] == w[i];
    assert forall i :: |w| < i < |r| ==> r[i] == j[i - |w| - 1];
    forall i | 0 <= i < |r| && IsSpace(r[i])
      ensures 0 < i < |r| - 1 && r[i] == ' ' && !IsSpace(r[i - 1]) && !IsSpace(r[i + 1])
    {
      if i > |w| {
        var k := i - |w| - 1;
        assert IsSpace(j[k]);
        assert r[i - 1] == j[k - 1] && r[i + 1] == j[k + 1];
      } else if i == |w| {
        assert r[i - 1] == w[|w| - 1] && r[i + 1] == j[0];
      }
    }
  }

  /** Joining printable words with single spaces gives a tidy string. */
  lemma {:induction false} JoinTidy(ws: seq<string>)
    requires forall w <- ws :: Solid(w)
    ensures Tidy(Join(ws))
    ensures |ws| > 0 ==> |Join(ws)| > 0
  {
    if |ws| > 1 {
      var rest := ws[1..];
      assert forall w <- rest :: w in ws;
      JoinTidy(rest);
      TidyCons(ws[0], Join(rest));
    } else if |ws| == 1 {
      assert ws[0] in ws;
    }
  }

  /** What follows a space of a tidy string is tidy. */
  lemma TidyAfterSpace(r: string, n: nat)
    requires Tidy(r) && n < |r| && r[n] == ' '
    ensures Tidy(r[n + 1..])
  {
    var rest := r[n + 1..];
    forall i | 0 <= i < |rest| && IsSpace(rest[i])
      ensures 0 < i < |rest| - 1 && !IsSpace(rest[i - 1]) && !IsSpace(rest[i + 1])
    {
      assert rest[i] == r[n + 1 + i];
      assert rest[i + 1] == r[n + 2 + i] && rest[i - 1] == r[n + i];
    }
  }

  /** A string is its part before position `n`, the space at `n`, and the
      rest. */
  lemma SplitAtSpace(r: string, n: nat)
    requires n < |r| && r[n] == ' '
    ensures r == r[..n] + " " + r[n + 1..]
  {
    assert r[..n] + " " == r[..n + 1];
  }

  /** The words of a string whose first word is followed by a space are
      that word and the words after the space. */
  lemma WordsAtSpace(r: string)
    requires |r| > 0 && !IsSpace(r[0]) && WordLength(r) < |r|
    ensures Words(r) == [r[..WordLength(r)]] + Words(r[WordLength(r) + 1..])
  {
    var n := WordLength(r);
    assert r[n..][1..] == r[n + 1..];
  }

  lemma {:induction false} TidyJoinsBack(r: string)
    requires Tidy(r)
    ensures Join(Words(r)) == r
    ensures |r| > 0 ==> |Words(r)| > 0
    decreases |r|
  {
    if |r| > 0 {
      assert !IsSpace(r[0]);
      var n := WordLength(r);
      if n < |r| {
        var rest := r[n + 1..];
        assert r[n] == ' ' && !IsSpace(r[n + 1]);
        WordsAtSpace(r);
        TidyAfterSpace(r, n);
        TidyJoinsBack(rest);
        SplitAtSpace(r, n);
      } else {
        assert r[..n] == r;
        assert Words(r[n..]) == [];
      }
    }
  }

  /** `' '.join(''.join(printable characters of s).split())`. */
  function Normalize(s: string): (r: string)
    ensures Tidy(r)
  {
    var ws := Words(Printable(s));
    JoinTidy(ws);
    Join(ws)
  }

  /** A tidy string is left as it is by the normalisation. */
  lemma TidyIsNormal(r: string)
    requires Tidy(r)
    ensures Normalize(r) == r
  {
    PrintableKeeps(r);
    TidyJoinsBack(r);
  }

  /** The normalisation is idempotent. */
  lemma NormalizeIdempotent(s: string)
    ensures Normalize(Normalize(s)) == Normalize(s)
  {
    TidyIsNormal(Normalize(s));
  }

  /** The position of the first keyword that occurs in `s`. */
  function FirstKeyword(s: string, keywords: seq<string>): (k: Option<nat>)
    ensures k.Some? ==> k.value < |keywords| && Contains(s, keywords[k.value])
                        && forall j :: 0 <= j < k.value ==> !Contains(s, keywords[j])
    ensures k.None? ==> forall j :: 0 <= j < |keywords| ==> !Contains(s, keywords[j])
  {
    if |keywords| == 0 then None
    else if Contains(s, keywords[0]) then Some(0)
    else
      var k := FirstKeyword(s, keywords[1..]);
      assert forall j :: 1 <= j < |keywords| ==> keywords[j] == keywords[1..][j - 1];
      match k
      case None => None
      case Some(i) => Some(i + 1)
  }

  /** `clean_school_name`: a non-string is returned unchanged; a string is
      normalised, then replaced by the canonical name of the first keyword
      it contains, if any. */
  function CleanSchoolName(cell: Cell): (r: Cell)
    ensures cell.NonText? ==> r == cell
    ensures cell.Text? ==> r.Text? && Tidy(r.text)
    ensures cell.Text? ==> match FirstKeyword(Normalize(cell.text), Keywords)
                           case Some(k) => r.text == Canonicals[k]
                           case None => r.text == Normalize(cell.text)
  {
    match cell
    case NonText(_) => cell
    case Text(s) =>
      var cleaned := Normalize(s);
      match FirstKeyword(cleaned, Keywords)
      case Some(k) => CanonicalFixed(k); Text(Canonicals[k])
      case None => Text(cleaned)
  }

  /** A printable ASCII character other than the space is printable and
      not whitespace. */
  lemma VisibleAscii(c: char)
    requires 32 < c as int <= 126
    ensures IsPrintable(c) && !IsSpace(c)
  {
  }

  /** `Neat`, the test the canonical names are checked against, implies
      `Tidy`. */
  lemma NeatIsTidy(s: string)
    requires Neat(s)
    ensures Tidy(s)
  {
    forall i | 0 <= i < |s|
      ensures IsPrintable(s[i])
    {
      assert NeatAt(s, i);
      if s[i] != ' ' {
        VisibleAscii(s[i]);
      }
    }
    forall i | 0 <= i < |s| && IsSpace(s[i])
      ensures 0 < i < |s| - 1 && s[i] == ' ' && !IsSpace(s[i - 1]) && !IsSpace(s[i + 1])
    {
      assert NeatAt(s, i);
      if s[i] == ' ' {
        assert NeatAt(s, i - 1) && NeatAt(s, i + 1);
        VisibleAscii(s[i - 1]);
        VisibleAscii(s[i + 1]);
      }
    }
  }

  /** Every canonical name is tidy and is claimed by its own keyword and by
      no earlier one, so cleaning it gives it back. */
  lemma CanonicalFixed(i: nat)
    requires i < |Canonicals|
    ensures Tidy(Canonicals[i])
    ensures FirstKeyword(Canonicals[i], Keywords) == Some(i)
  {
    Claimed(i);
    NeatIsTidy(Canonicals[i]);
  }

  /** A tidy name is only looked up again: cleaning keeps it when no
      keyword occurs in it and gives the canonical name of the first one
      that does otherwise. */
  lemma CleanTidy(r: string)
    requires Tidy(r)
    ensures CleanSchoolName(Text(r)) == match FirstKeyword(r, Keywords)
                                        case Some(k) => Text(Canonicals[k])
                                        case None => Text(r)
  {
    TidyIsNormal(r);
  }

  /** Cleaning a cleaned name changes nothing: stored names can be cleaned
      again safely. */
  lemma CleanIdempotent(cell: Cell)
    ensures CleanSchoolName(CleanSchoolName(cell)) == CleanSchoolName(cell)
  {
    if cell.Text? {
      var r := CleanSchoolName(cell).text;
      CleanTidy(r);
      match FirstKeyword(Normalize(cell.text), Keywords)
      case Some(k) =>
        CanonicalFixed(k);
      case None =>
    }
  }
}
