/** The `mo2mar` conversion, which rewrites a file of marginals (one line of
    numbers per variable) as a MAR file, and the MAR reader of the
    distance command, its inverse. Numbers are kept as the tokens they are
    written as; the `%.7f` formatting of a parsed number is the parameter
    `fmt7`. */
module MarFormat {
  import opened Results
  import opened Text
  import opened Runs

  /** The rows of a marginals file: the fields of each non-empty line. */
  function Rows(lines: seq<string>): (rows: seq<seq<string>>)
    ensures |rows| == |NonEmpty(lines)|
    ensures forall i :: 0 <= i < |rows| ==> rows[i] == Fields(NonEmpty(lines)[i])
  {
    var ls := NonEmpty(lines);
    seq(|ls|, i requires 0 <= i < |ls| => Fields(ls[i]))
  }

  /** A row as written: its length, then each value formatted. */
  function RowTokens(row: seq<string>, fmt7: string -> string): (toks: seq<string>)
    ensures |toks| == 1 + |row| && toks[0] == Itoa(|row|)
  {
    [Itoa(|row|)] + seq(|row|, j requires 0 <= j < |row| => fmt7(row[j]))
  }

  /** `writeMoToMar`: the line `MAR`, then a single line with the number of
      rows and every row's tokens, each followed by a space. */
  function MoToMar(lines: seq<string>, fmt7: string -> string): (out: seq<string>)
    ensures |out| == 2 && out[0] == "MAR"
  {
    var rows := Rows(lines);
    ["MAR", Spaced([Itoa(|rows|)] + Concat(seq(|rows|, i requires 0 <= i < |rows| => RowTokens(rows[i], fmt7))))]
  }

  // Reading it back

  /** A row at the head of the tokens: its length `k`, then `k` values. */
  function ReadRow(toks: seq<string>): (r: Option<(seq<string>, nat)>)
    ensures r.Some? ==> r.value.1 == 1 + |r.value.0| <= |toks|
  {
    if |toks| == 0 then None
    else
      var k :- Atoi(toks[0]);
      if k < 0 || |toks| < 1 + k then None else Some((toks[1..1 + k], 1 + k))
  }

  /** The white-space separated tokens of the lines, one line after
      another: the stream that successive `Fscanf` verbs take numbers
      from. */
  function LineTokens(lines: seq<string>): (toks: seq<string>)
    ensures forall k :: 0 <= k < |toks| ==> IsWord(toks[k])
    decreases |lines|
  {
    if |lines| == 0 then [] else Fields(lines[0]) + LineTokens(lines[1..])
  }

  /** `readMarFile`: after the first line, the tokens of the lines that
      follow give the number of rows `n` and then `n` rows, each preceded by
      its length, however the rows are spread over lines. Tokens after the
      last row are not read. */
  function ReadMar(lines: seq<string>): (r: Option<seq<seq<string>>>)
    ensures r.Some? ==>
      && 1 <= |lines| && 0 < |LineTokens(lines[1..])|
      && Atoi(LineTokens(lines[1..])[0]) == Some(|r.value|)
  {
    if |lines| == 0 then None
    else
      var toks := LineTokens(lines[1..]);
      if |toks| == 0 then None
      else
        var n :- Atoi(toks[0]);
        if n < 0 then None else ReadRuns(toks[1..], n, ReadRow)
  }

  /** A written row followed by anything reads back as its values. */
  lemma RowRead(row: seq<string>, fmt7: string -> string, rest: seq<string>)
    ensures var toks := RowTokens(row, fmt7);
      ReadRow(toks + rest) == Some((toks[1..], |toks|))
  {
    var toks := RowTokens(row, fmt7);
    AtoiItoa(|row|);
    assert (toks + rest)[0] == Itoa(|row|);
    assert (toks + rest)[1..1 + |row|] == toks[1..];
  }

  /** Every written token is a single word when every formatted value is. */
  lemma TokensAreWords(rows: seq<seq<string>>, fmt7: string -> string, blocks: seq<seq<string>>, toks: seq<string>)
    requires forall t :: IsWord(fmt7(t))
    requires blocks == seq(|rows|, i requires 0 <= i < |rows| => RowTokens(rows[i], fmt7))
    requires toks == [Itoa(|rows|)] + Concat(blocks)
    ensures forall k :: 0 <= k < |toks| ==> IsWord(toks[k])
  {
    var n := |rows|;
    forall k | 0 <= k < |toks| ensures IsWord(toks[k]) {
      if k == 0 {
        ItoaIsToken(n);
      } else {
        assert toks[k] in Concat(blocks);
        ConcatIn(blocks, toks[k]);
        var i, j :| 0 <= i < n && 0 <= j < |blocks[i]| && blocks[i][j] == toks[k];
        if j == 0 { ItoaIsToken(|rows[i]|); }
      }
    }
  }

  /** The rows' values as formatted. */
  function Formatted(rows: seq<seq<string>>, fmt7: string -> string): seq<seq<string>> {
    seq(|rows|, i requires 0 <= i < |rows| => seq(|rows[i]|, j requires 0 <= j < |rows[i]| => fmt7(rows[i][j])))
  }

  /** The written rows, one block of tokens per row. */
  function RowBlocks(rows: seq<seq<string>>, fmt7: string -> string): seq<seq<string>> {
    seq(|rows|, i requires 0 <= i < |rows| => RowTokens(rows[i], fmt7))
  }

  /** The written rows, back to back, read back as the formatted rows. */
  lemma RowBlocksRead(rows: seq<seq<string>>, fmt7: string -> string)
    ensures ReadRuns(Concat(RowBlocks(rows, fmt7)), |rows|, ReadRow) == Some(Formatted(rows, fmt7))
  {
    var n := |rows|;
    var blocks := RowBlocks(rows, fmt7);
    var us := Formatted(rows, fmt7);
    forall i | 0 <= i < n ensures ReadRow(Concat(blocks[i..])) == Some((us[i], |blocks[i]|)) {
      ConcatFrom(blocks, i);
      RowRead(rows[i], fmt7, Concat(blocks[i + 1..]));
      assert blocks[i][1..] == us[i];
    }
    ReadRunsConcat(blocks, ReadRow, us);
  }

  /** Reading a written MAR file gives back every row, in order, with each
      value as formatted, when a formatted value is a single word: the row
      count is the number of non-empty lines and each row's length is the
      number of fields on its line. */
  lemma MarRoundTrip(lines: seq<string>, fmt7: string -> string)
    requires forall t :: IsWord(fmt7(t))
    ensures var rows := Rows(lines);
      ReadMar(MoToMar(lines, fmt7))
        == Some(seq(|rows|, i requires 0 <= i < |rows| => seq(|rows[i]|, j requires 0 <= j < |rows[i]| => fmt7(rows[i][j]))))
    ensures var r := ReadMar(MoToMar(lines, fmt7)).value;
      && |r| == |NonEmpty(lines)|
      && forall i :: 0 <= i < |r| ==> |r[i]| == |Fields(NonEmpty(lines)[i])|
  {
    var rows := Rows(lines);
    var n := |rows|;
    var blocks := RowBlocks(rows, fmt7);
    var toks := [Itoa(n)] + Concat(blocks);
    var out := MoToMar(lines, fmt7);
    assert LineTokens(out[1..]) == toks by {
      assert out[1..] == [Spaced(toks)];
      assert LineTokens(out[1..]) == Fields(Spaced(toks)) + LineTokens([]);
      TokensAreWords(rows, fmt7, blocks, toks);
      FieldsOfSpaced(toks);
    }
    assert toks[1..] == Concat(blocks);
    RowBlocksRead(rows, fmt7);
    AtoiItoa(n);
  }

  /** Lines of words joined by single spaces give the words, line after line. */
  lemma {:induction false} LineTokensJoined(blocks: seq<seq<string>>)
    requires forall i, j :: 0 <= i < |blocks| && 0 <= j < |blocks[i]| ==> IsWord(blocks[i][j])
    ensures LineTokens(seq(|blocks|, i requires 0 <= i < |blocks| => Join(blocks[i], " "))) == Concat(blocks)
    decreases |blocks|
  {
    var ls := seq(|blocks|, i requires 0 <= i < |blocks| => Join(blocks[i], " "));
    if |blocks| > 0 {
      FieldsOfJoined(blocks[0]);
      LineTokensJoined(blocks[1..]);
      assert ls[1..] == seq(|blocks[1..]|, i requires 0 <= i < |blocks[1..]| => Join(blocks[1..][i], " "));
    }
  }

  /** A MAR file laid out with the row count on its own line and then one
      row per line, its tokens separated by single spaces, reads back as the
      rows: the reader does not care how the rows are spread over lines. */
  lemma MarRowsPerLine(rows: seq<seq<string>>, fmt7: string -> string)
    requires forall t :: IsWord(fmt7(t))
    ensures var blocks := RowBlocks(rows, fmt7);
      ReadMar(["MAR", Itoa(|rows|)] + seq(|rows|, i requires 0 <= i < |rows| => Join(blocks[i], " ")))
        == Some(Formatted(rows, fmt7))
  {
    var n := |rows|;
    var blocks := RowBlocks(rows, fmt7);
    var ls := seq(n, i requires 0 <= i < n => Join(blocks[i], " "));
    var lines := ["MAR", Itoa(n)] + ls;
    assert LineTokens(lines[1..]) == [Itoa(n)] + Concat(blocks) by {
      assert lines[1..] == [Itoa(n)] + ls;
      assert ([Itoa(n)] + ls)[1..] == ls;
      ItoaIsToken(n);
      FieldsOfJoined([Itoa(n)]);
      forall i, j | 0 <= i < n && 0 <= j < |blocks[i]| ensures IsWord(blocks[i][j]) {
        if j == 0 { ItoaIsToken(|rows[i]|); }
      }
      LineTokensJoined(blocks);
    }
    assert ([Itoa(n)] + Concat(blocks))[1..] == Concat(blocks);
    RowBlocksRead(rows, fmt7);
    AtoiItoa(n);
  }
}
