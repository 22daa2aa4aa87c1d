/** The two text helpers of the reference fetcher: applying a replacement
    table and cleaning the whitespace and trailing punctuation of a
    citation. */
module Tools {
  import opened PyStr

  // ---------------------------------------------------------------------
  // replaceAll
  // ---------------------------------------------------------------------

  /** The replacement table applied pair by pair, in the table's order, each
      pair to the output of the previous one.  A Python dict iterates in
      insertion order, so the table is a sequence of (key, value) pairs. */
  function ReplacedInTurn(text: string, table: seq<(string, string)>): string
    decreases |table|
  {
    if table == [] then text
    else ReplacedInTurn(Replace(text, table[0].0, table[0].1), table[1..])
  }

  /** `replaceAll(text, replace_dict)` */
  method ReplaceAll(text: string, replaceDict: seq<(string, string)>) returns (r: string)
    ensures r == ReplacedInTurn(text, replaceDict)
    ensures replaceDict == [] ==> r == text
  {
    r := text;
    for k := 0 to |replaceDict|
      invariant ReplacedInTurn(r, replaceDict[k..]) == ReplacedInTurn(text, replaceDict)
    {
      r := Replace(r, replaceDict[k].0, replaceDict[k].1);
    }
  }

  /** Every key and every value of the table is a single character. */
  predicate SingleChars(table: seq<(string, string)>) {
    forall k :: 0 <= k < |table| ==> |table[k].0| == 1 && |table[k].1| == 1
  }

  /** `c` is the (first) character of some key of the table. */
  predicate IsKey(table: seq<(string, string)>, c: char) {
    exists k :: 0 <= k < |table| && |table[k].0| > 0 && table[k].0[0] == c
  }

  /** With single-character keys and values the table keeps the length of
      the text and leaves alone every position whose character is no key. */
  lemma {:induction false} ReplacedInTurnCharwise(text: string, table: seq<(string, string)>)
    requires SingleChars(table)
    ensures |ReplacedInTurn(text, table)| == |text|
    ensures forall i :: 0 <= i < |text| && !IsKey(table, text[i]) ==> ReplacedInTurn(text, table)[i] == text[i]
    decreases |table|
  {
    if table != [] {
      var (c, d) := (table[0].0[0], table[0].1[0]);
      assert table[0].0 == [c] && table[0].1 == [d];
      ReplaceCharPointwise(text, c, d);
      var next := Replace(text, [c], [d]);
      ReplacedInTurnCharwise(next, table[1..]);
      forall i | 0 <= i < |text| && !IsKey(table, text[i])
        ensures ReplacedInTurn(text, table)[i] == text[i]
      {
        assert text[i] != table[0].0[0];
        assert next[i] == text[i];
        forall k | 0 <= k < |table[1..]|
          ensures !(|table[1..][k].0| > 0 && table[1..][k].0[0] == next[i])
        {
          assert table[1..][k] == table[k + 1];
        }
      }
    }
  }

  /** The table `{'.': 'A', '-': '0'}` of the DOI length repair. */
  const DotDashTable: seq<(string, string)> := [(".", "A"), ("-", "0")]

  /** After that table no `.` and no `-` is left, and every other
      character stays where it was. */
  lemma DotDashTableClears(text: string)
    ensures |ReplacedInTurn(text, DotDashTable)| == |text|
    ensures forall i :: 0 <= i < |text| ==>
      ReplacedInTurn(text, DotDashTable)[i] ==
        if text[i] == '.' then 'A' else if text[i] == '-' then '0' else text[i]
    ensures '.' !in ReplacedInTurn(text, DotDashTable)
    ensures '-' !in ReplacedInTurn(text, DotDashTable)
  {
    var step := Replace(text, ".", "A");
    ReplaceCharPointwise(text, '.', 'A');
    ReplaceCharPointwise(step, '-', '0');
    assert ReplacedInTurn(text, DotDashTable) == Replace(step, "-", "0");
  }

  // ---------------------------------------------------------------------
  // clean_whitespaces
  // ---------------------------------------------------------------------

  /** No leading or trailing whitespace, no whitespace other than ' ',
      and never two spaces in a row. */
  predicate Normalized(r: string) {
    && (r == [] || (!IsSpace(r[0]) && !IsSpace(r[|r| - 1])))
    && (forall i :: 0 <= i < |r| && IsSpace(r[i]) ==> r[i] == ' ')
    && (forall i :: 0 <= i < |r| - 1 && r[i] == ' ' ==> r[i + 1] != ' ')
  }

  /** Joining non-empty words free of whitespace gives normalized text. */
  lemma {:induction false} JoinNormalized(ws: seq<string>)
    requires forall k :: 0 <= k < |ws| ==> ws[k] != [] && NoSpace(ws[k])
    ensures Normalized(JoinSpace(ws))
    ensures ws != [] ==> JoinSpace(ws) != []
  {
    if |ws| > 1 {
      var w, rest := ws[0], JoinSpace(ws[1..]);
      JoinNormalized(ws[1..]);
      var r := JoinSpace(ws);
      assert r == w + " " + rest;
      assert forall i :: 0 <= i < |w| ==> r[i] == w[i];
      assert r[|w|] == ' ';
      assert forall i :: |w| < i < |r| ==> r[i] == rest[i - |w| - 1];
    }
  }

  /** `clean_whitespaces(text)`: strip, drop the trailing run of `.` and
      `,`, then collapse every whitespace run to one space. */
  function CleanWhitespaces(text: string): (r: string)
    ensures Normalized(r)
  {
    var words := SplitWords(RStrip(Strip(text), {'.', ','}));
    JoinNormalized(words);
    JoinSpace(words)
  }

  /** The cleaned text has exactly the words of the text once trimmed and
      stripped of its trailing dots and commas. */
  lemma CleanKeepsWords(text: string)
    ensures SplitWords(CleanWhitespaces(text)) == SplitWords(RStrip(Strip(text), {'.', ','}))
  {
    SplitJoin(SplitWords(RStrip(Strip(text), {'.', ','})));
  }

  lemma SplitNoSpace(s: string)
    requires NoSpace(s)
    ensures SplitWords(s) == if s == [] then [] else [s]
  {
    if s != [] {
      assert !IsSpace(s[0]);
      assert WordLength(s) == |s|;
      assert s[..|s|] == s;
      assert s[|s|..] == [];
      assert SplitWords(s) == [s] + SplitWords([]);
    }
  }

  /** On text without whitespace the cleaning only removes the trailing
      run of `.` and `,`, and cleaning that result again changes nothing. */
  lemma CleanNoSpace(text: string)
    requires NoSpace(text)
    ensures CleanWhitespaces(text) == RStrip(text, {'.', ','})
    ensures CleanWhitespaces(CleanWhitespaces(text)) == CleanWhitespaces(text)
  {
    var r := RStrip(text, {'.', ','});
    assert Strip(text) == text;
    SplitNoSpace(r);
    assert Strip(r) == r;
    assert RStrip(r, {'.', ','}) == r;
  }

  lemma RStripRefExample()
    ensures RStrip("ref.,.", {'.', ','}) == "ref"
  {
    assert "ref.,."[..5] == "ref.," && "ref.,"[..4] == "ref." && "ref."[..3] == "ref";
  }

  /** The whole trailing run goes, not just one character. */
  lemma CleanDropsWholeRun()
    ensures CleanWhitespaces("ref.,.") == "ref"
  {
    CleanNoSpace("ref.,.");
    RStripRefExample();
  }

  lemma CleanSpacedDotsExample()
    ensures CleanWhitespaces("a. .") == "a."
  {
    var cs := {'.', ','};
    assert "a. ."[1..] == ". ." && "a. ."[..3] == "a. ";
    assert LeadingSpace("a. .") == 0 && "a. ."[0..] == "a. .";
    assert StripRight("a. .") == "a. .";
    assert RStrip("a. .", cs) == "a. ";
    assert "a. "[1..] == ". " && ". "[1..] == " " && " "[1..] == "";
    assert WordLength("a. ") == 2;
    assert "a. "[..2] == "a." && "a. "[2..] == " ";
    assert SplitWords("a. ") == ["a."];
  }

  /** Cleaning is not idempotent: a space inside the trailing punctuation
      hides the run beyond it from the first pass. */
  lemma CleanNotIdempotent()
    ensures CleanWhitespaces("a. .") == "a."
    ensures CleanWhitespaces("a.") == "a"
  {
    CleanSpacedDotsExample();
    CleanNoSpace("a.");
    RStripDotExample();
  }

  lemma RStripDotExample()
    ensures RStrip("a.", {'.', ','}) == "a"
  {
    assert "a."[..1] == "a";
  }
}
