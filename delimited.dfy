/** The manual parser both import routes of app.py fall back on when no
    spreadsheet reader accepts an upload: the delimiter is guessed from the
    first line, the first line is the header, and every later line with as
    many fields as the header becomes a row keyed by the header's names. */
module Delimited {
  import opened Schema
  import opened SchoolNames

  // ---------------------------------------------------------------------
  // The delimiter.

  /** The delimiter for a file whose first line is `first`: a comma if the
      line has one, else a semicolon, else a tab, else a comma. */
  function ChooseDelimiter(first: string): (d: char)
    ensures d == ',' || d == ';' || d == '\t'
    ensures d in first || (',' !in first && ';' !in first && '\t' !in first && d == ',')
    ensures d != ',' ==> ',' !in first
    ensures d == '\t' ==> ';' !in first
  {
    if ',' in first then ','
    else if ';' in first then ';'
    else if '\t' in first then '\t'
    else ','
  }

  // ---------------------------------------------------------------------
  // Splitting and joining.

  /** How many times `d` occurs in `s`. */
  function Occurrences(s: string, d: char): nat {
    if |s| == 0 then 0 else (if s[0] == d then 1 else 0) + Occurrences(s[1..], d)
  }

  /** `s.split(d)`: the pieces of `s` between occurrences of `d`, empty
      pieces included; there is one more piece than there are `d`s. */
  function Split(s: string, d: char): (fs: seq<string>)
    ensures |fs| == Occurrences(s, d) + 1
  {
    if |s| == 0 then [""]
    else
      var rest := Split(s[1..], d);
      if s[0] == d then [""] + rest else [[s[0]] + rest[0]] + rest[1..]
  }

  /** `d.join(fs)`. */
  function JoinWith(fs: seq<string>, d: char): string {
    if |fs| == 0 then "" else if |fs| == 1 then fs[0] else fs[0] + [d] + JoinWith(fs[1..], d)
  }

  /** No piece of `fs` contains `d`. */
  predicate Undelimited(fs: seq<string>, d: char) {
    forall i :: 0 <= i < |fs| ==> d !in fs[i]
  }

  /** No piece of a split contains the delimiter. */
  lemma {:induction false} SplitPiecesClean(s: string, d: char)
    ensures Undelimited(Split(s, d), d)
  {
    if |s| > 0 {
      SplitPiecesClean(s[1..], d);
    }
  }

  /** Joining pieces whose first is not empty puts its first character in
      front of the join with that character taken off. */
  lemma JoinHead(fs: seq<string>, d: char)
    requires |fs| > 0 && |fs[0]| > 0
    ensures JoinWith(fs, d) == [fs[0][0]] + JoinWith([fs[0][1..]] + fs[1..], d)
  {
    var g := [fs[0][1..]] + fs[1..];
    assert fs[0] == [fs[0][0]] + fs[0][1..];
    if |fs| > 1 {
      assert g[1..] == fs[1..];
    }
  }

  /** Joining pieces whose first is empty starts with the delimiter. */
  lemma JoinEmptyHead(fs: seq<string>, d: char)
    requires |fs| > 1 && fs[0] == ""
    ensures JoinWith(fs, d) == [d] + JoinWith(fs[1..], d)
  {
  }

  /** Joining the pieces of a split gives the line back. */
  lemma {:induction false} SplitJoin(s: string, d: char)
    ensures JoinWith(Split(s, d), d) == s
  {
    if |s| > 0 {
      var rest := Split(s[1..], d);
      if s[0] == d {
        assert ([""] + rest)[1..] == rest;
        JoinEmptyHead([""] + rest, d);
      } else {
        var fs := [[s[0]] + rest[0]] + rest[1..];
        assert [fs[0][1..]] + fs[1..] == rest;
        JoinHead(fs, d);
      }
      SplitJoin(s[1..], d);
      assert s == [s[0]] + s[1..];
    }
  }

  /** Splitting a join of delimiter-free pieces gives the pieces back: on
      such pieces `split` and `join` are inverse. */
  lemma {:induction false} JoinSplit(fs: seq<string>, d: char)
    requires |fs| > 0 && Undelimited(fs, d)
    ensures Split(JoinWith(fs, d), d) == fs
    decreases |fs|, |fs[0]|
  {
    if |fs[0]| > 0 {
      var c := fs[0][0];
      var g := [fs[0][1..]] + fs[1..];
      assert d !in fs[0];
      assert Undelimited(g, d) by {
        forall i | 0 <= i < |g| ensures d !in g[i] {
          if i > 0 {
            assert g[i] == fs[i];
          }
        }
      }
      JoinHead(fs, d);
      var j := JoinWith(g, d);
      assert ([c] + j)[1..] == j;
      JoinSplit(g, d);
      assert fs[0] == [c] + g[0];
      assert fs[1..] == g[1..];
      assert fs == [fs[0]] + fs[1..];
    } else if |fs| > 1 {
      var j := JoinWith(fs[1..], d);
      assert Undelimited(fs[1..], d) by {
        forall i | 0 <= i < |fs| - 1 ensures d !in fs[1..][i] {
          assert fs[1..][i] == fs[i + 1];
        }
      }
      JoinEmptyHead(fs, d);
      assert ([d] + j)[1..] == j;
      JoinSplit(fs[1..], d);
      assert fs == [""] + fs[1..];
    }
  }

  // ---------------------------------------------------------------------
  // Stripping.

  // The trimming helpers take the whitespace test as a parameter, so that
  // their proofs never look inside `IsSpace`.

  /** Every character of `s` passes `space`. */
  predicate AllSpace(s: string, space: char -> bool) {
    forall i :: 0 <= i < |s| ==> space(s[i])
  }

  /** The number of characters passing `space` that `s` starts with. */
  function LeadingSpace(s: string, space: char -> bool): (k: nat)
    ensures k <= |s| && AllSpace(s[..k], space)
    ensures k < |s| ==> !space(s[k])
  {
    if |s| > 0 && space(s[0]) then
      var k := 1 + LeadingSpace(s[1..], space);
      assert forall i :: 1 <= i < k ==> s[..k][i] == s[1..][..k - 1][i - 1];
      k
    else 0
  }

  /** Where the run of characters passing `space` that `s` ends with
      begins. */
  function TrailingSpace(s: string, space: char -> bool): (k: nat)
    ensures k <= |s| && AllSpace(s[k..], space)
    ensures 0 < k ==> !space(s[k - 1])
  {
    if |s| > 0 && space(s[|s| - 1]) then
      var k := TrailingSpace(s[..|s| - 1], space);
      assert forall i :: 0 <= i < |s| - 1 - k ==> s[k..][i] == s[..|s| - 1][k..][i];
      k
    else |s|
  }

  /** `s` with the characters passing `space` cut off both ends. */
  function StripBy(s: string, space: char -> bool): (r: string)
    ensures |r| > 0 ==> !space(r[0]) && !space(r[|r| - 1])
    ensures exists a :: 0 <= a <= |s| - |r| && s[a..a + |r|] == r && AllSpace(s[..a], space) && AllSpace(s[a + |r|..], space)
  {
    var a := LeadingSpace(s, space);
    var b := TrailingSpace(s[a..], space);
    SuffixOfSuffix(s, a, b);
    assert s[a..a + b] == s[a..][..b];
    s[a..][..b]
  }

  /** `s.strip()`: `s` is whitespace, then the result, then whitespace, and
      the result neither starts nor ends with whitespace. */
  function Strip(s: string): (r: string)
    ensures |r| > 0 ==> !IsSpace(r[0]) && !IsSpace(r[|r| - 1])
    ensures exists a :: 0 <= a <= |s| - |r| && s[a..a + |r|] == r && AllSpace(s[..a], IsSpace) && AllSpace(s[a + |r|..], IsSpace)
  {
    StripBy(s, IsSpace)
  }

  /** Stripping twice strips no more than once. */
  lemma StripIdempotent(s: string)
    ensures Strip(Strip(s)) == Strip(s)
  {
    var r := Strip(s);
    if |r| > 0 {
      assert LeadingSpace(r, IsSpace) == 0;
      assert TrailingSpace(r, IsSpace) == |r|;
      assert r[0..][..|r|] == r;
    }
  }

  lemma SuffixOfSuffix(s: string, a: nat, b: nat)
    requires a + b <= |s|
    ensures s[a + b..] == s[a..][b..]
  {
  }

  // ---------------------------------------------------------------------
  // Rows.

  /** `[val.strip() for val in line.split(d)]`. */
  function Fields(line: string, d: char): (fs: seq<string>)
    ensures |fs| == |Split(line, d)|
    ensures forall i :: 0 <= i < |fs| ==> fs[i] == Strip(Split(line, d)[i])
  {
    var pieces := Split(line, d);
    seq(|pieces|, i requires 0 <= i < |pieces| => Strip(pieces[i]))
  }

  /** No later key equals `keys[i]`. */
  predicate LastAt(keys: seq<string>, i: nat)
    requires i < |keys|
  {
    forall j :: i < j < |keys| ==> keys[j] != keys[i]
  }

  /** `dict(zip(keys, values))` on equally long lists: exactly the listed
      keys. */
  function Zip(keys: seq<string>, values: seq<string>): (m: map<string, string>)
    requires |keys| == |values|
    ensures m.Keys == set k | k in keys
  {
    if |keys| == 0 then map[]
    else
      var n := |keys| - 1;
      assert keys == keys[..n] + [keys[n]];
      Zip(keys[..n], values[..n])[keys[n] := values[n]]
  }

  /** A key listed more than once keeps the value at its last position. */
  lemma {:induction false} ZipLast(keys: seq<string>, values: seq<string>, i: nat)
    requires |keys| == |values| && i < |keys| && LastAt(keys, i)
    ensures keys[i] in Zip(keys, values) && Zip(keys, values)[keys[i]] == values[i]
  {
    var n := |keys| - 1;
    if i < n {
      assert LastAt(keys[..n], i);
      ZipLast(keys[..n], values[..n], i);
    }
  }

  /** The rows the loop appends for the lines after the header: each line
      whose field count is the header's, as a dictionary on the header. */
  function KeptRows(header: seq<string>, d: char, lines: seq<string>): (rows: seq<map<string, string>>)
    ensures |rows| <= |lines|
  {
    if |lines| == 0 then []
    else
      var rows := KeptRows(header, d, lines[..|lines| - 1]);
      var values := Fields(lines[|lines| - 1], d);
      if |values| == |header| then rows + [Zip(header, values)] else rows
  }

  /** Every row is keyed by exactly the header's names, and a name keeps the
      stripped field at its last position in the header. */
  lemma {:induction false} KeptRowsShape(header: seq<string>, d: char, lines: seq<string>, k: nat)
    requires k < |KeptRows(header, d, lines)|
    ensures KeptRows(header, d, lines)[k].Keys == set h | h in header
    ensures exists l :: 0 <= l < |lines| && |Fields(lines[l], d)| == |header| && KeptRows(header, d, lines)[k] == Zip(header, Fields(lines[l], d))
  {
    var n := |lines| - 1;
    var rows := KeptRows(header, d, lines[..n]);
    if k < |rows| {
      KeptRowsShape(header, d, lines[..n], k);
      var l :| 0 <= l < n && |Fields(lines[..n][l], d)| == |header| && rows[k] == Zip(header, Fields(lines[..n][l], d));
      assert lines[..n][l] == lines[l];
    } else {
      assert KeptRows(header, d, lines)[k] == Zip(header, Fields(lines[n], d));
    }
  }

  /** In the row of a kept line, a header name maps to the stripped piece
      of the line at the name's last position, which holds no delimiter. */
  lemma RowField(header: seq<string>, d: char, line: string, i: nat)
    requires |Fields(line, d)| == |header| && i < |header| && LastAt(header, i)
    ensures var v := Zip(header, Fields(line, d))[header[i]];
            v == Strip(Split(line, d)[i]) && d !in v
  {
    ZipLast(header, Fields(line, d), i);
    var piece := Split(line, d)[i];
    SplitPiecesClean(line, d);
    StripKeepsOut(piece, d);
  }

  /** Stripping adds no character. */
  lemma StripKeepsOut(s: string, c: char)
    requires c !in s
    ensures c !in Strip(s)
  {
    StripByKeepsOut(s, c, IsSpace);
  }

  lemma StripByKeepsOut(s: string, c: char, space: char -> bool)
    requires c !in s
    ensures c !in StripBy(s, space)
  {
    var a := LeadingSpace(s, space);
    var b := TrailingSpace(s[a..], space);
    assert forall q :: 0 <= q < b ==> s[a..][..b][q] == s[a + q];
  }

  /** The rows of consecutive blocks of lines are the rows of each block in
      turn: every line is kept or dropped on its own, and kept lines keep
      their order. */
  lemma {:induction false} KeptRowsConcat(header: seq<string>, d: char, a: seq<string>, b: seq<string>)
    ensures KeptRows(header, d, a + b) == KeptRows(header, d, a) + KeptRows(header, d, b)
    decreases |b|
  {
    if |b| == 0 {
      assert a + b == a;
    } else {
      var b' := b[..|b| - 1];
      var ab := a + b;
      assert ab[..|ab| - 1] == a + b';
      assert ab[|ab| - 1] == b[|b| - 1];
      KeptRowsLast(header, d, ab);
      KeptRowsLast(header, d, b);
      KeptRowsConcat(header, d, a, b');
    }
  }

  /** A single line is kept exactly when it has as many fields as the
      header, and its row maps each header name to a stripped field. */
  lemma KeptRowsSingle(header: seq<string>, d: char, line: string)
    ensures var values := Fields(line, d);
            KeptRows(header, d, [line]) == if |values| == |header| then [Zip(header, values)] else []
  {
    assert [line][..0] == [];
  }

  // ---------------------------------------------------------------------
  // The parser.

  /** What the fallback parser produces: the header names and the rows. */
  datatype Parsed = Parsed(header: seq<string>, rows: seq<map<string, string>>)

  /** The fallback parser over the lines of a file (each with its line
      break): nothing for an empty file; otherwise the stripped pieces of the
      first line as header, and the kept rows of the remaining lines. */
  method ParseLines(lines: seq<string>) returns (p: Option<Parsed>)
    ensures p.None? <==> |lines| == 0
    ensures p.Some? ==>
              var d := ChooseDelimiter(lines[0]);
              && p.value.header == Fields(lines[0], d)
              && p.value.rows == KeptRows(p.value.header, d, lines[1..])
  {
    if |lines| == 0 {
      return None;
    }
    var first := lines[0];
    var d := ChooseDelimiter(first);
    var header := Fields(first, d);
    var data: seq<map<string, string>> := [];
    for i := 1 to |lines|
      invariant data == KeptRows(header, d, lines[1..i])
    {
      var values := Fields(lines[i], d);
      KeptRowsStep(header, d, lines, i);
      if |values| == |header| {
        data := data + [Zip(header, values)];
      }
    }
    assert lines[1..|lines|] == lines[1..];
    return Some(Parsed(header, data));
  }

  /** Taking in one more line after the header adds that line's row if it
      is kept. */
  lemma KeptRowsStep(header: seq<string>, d: char, lines: seq<string>, i: nat)
    requires 1 <= i < |lines|
    ensures var values := Fields(lines[i], d);
            KeptRows(header, d, lines[1..i + 1])
            == KeptRows(header, d, lines[1..i]) + if |values| == |header| then [Zip(header, values)] else []
  {
    var ls := lines[1..i + 1];
    assert ls[..|ls| - 1] == lines[1..i];
    assert ls[|ls| - 1] == lines[i];
    KeptRowsLast(header, d, ls);
  }

  lemma KeptRowsLast(header: seq<string>, d: char, ls: seq<string>)
    requires |ls| > 0
    ensures var values := Fields(ls[|ls| - 1], d);
            KeptRows(header, d, ls)
            == KeptRows(header, d, ls[..|ls| - 1]) + if |values| == |header| then [Zip(header, values)] else []
  {
  }

  /** The header has one name more than the first line has delimiters, so
      a first line without any candidate delimiter gives a one-column
      header. */
  lemma HeaderWidth(first: string)
    ensures |Fields(first, ChooseDelimiter(first))| == Occurrences(first, ChooseDelimiter(first)) + 1
    ensures (',' !in first && ';' !in first && '\t' !in first) ==> |Fields(first, ChooseDelimiter(first))| == 1
  {
    var d := ChooseDelimiter(first);
    if d !in first {
      OccurrencesAbsent(first, d);
    }
  }

  lemma {:induction false} OccurrencesAbsent(s: string, d: char)
    requires d !in s
    ensures Occurrences(s, d) == 0
  {
    if |s| > 0 {
      assert s[0] in s;
      assert forall c <- s[1..] :: c in s;
      OccurrencesAbsent(s[1..], d);
    }
  }
}
