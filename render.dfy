/**
 * The text of a board (Board.toString and Board.look, src/minesweeper/Board.java:152-155,
 * 268-281): rows 0..rows-1 joined by "\n", each row's squares 0..cols-1 joined by " ",
 * with no separator after the last row or the last square.
 */
module Rendering {
  import opened Points
  import opened Squares
  import opened Grids

  /** parts joined by sep: nothing before the first part or after the last. */
  function Join(parts: seq<string>, sep: string): string {
    if |parts| == 0 then ""
    else if |parts| == 1 then parts[0]
    else Join(parts[..|parts| - 1], sep) + sep + parts[|parts| - 1]
  }

  /** The tokens of row i, column by column. */
  function RowTokens(g: Grid, i: int, cols: nat): seq<string>
    requires forall j :: 0 <= j < cols ==> Point(i, j) in g
  {
    seq(cols, j requires 0 <= j < cols => g[Point(i, j)].ToString())
  }

  function RowText(g: Grid, i: int, cols: nat): string
    requires forall j :: 0 <= j < cols ==> Point(i, j) in g
  {
    Join(RowTokens(g, i, cols), " ")
  }

  function RowTexts(g: Grid, rows: nat, cols: nat): seq<string>
    requires Covers(g, rows, cols)
  {
    seq(rows, i requires 0 <= i < rows => RowText(g, i, cols))
  }

  /** The board's text. With no columns the source's loop appends nothing at all, not even
      the newlines, so the text is empty. */
  function Render(g: Grid, rows: nat, cols: nat): string
    requires Covers(g, rows, cols)
  {
    if cols == 0 then "" else Join(RowTexts(g, rows, cols), "\n")
  }

  /** Joining one more part: the first part alone, or the separator and the new part after
      the parts before it. */
  lemma JoinStep(parts: seq<string>, sep: string, k: nat)
    requires k < |parts|
    ensures Join(parts[..k + 1], sep) == if k == 0 then parts[0] else Join(parts[..k], sep) + sep + parts[k]
  {
    assert parts[..k + 1][..k] == parts[..k];
  }

  /** What the source's inner loop has appended after j of a row's tokens: the tokens joined
      by " ", then " " while tokens remain, and after the last token "\n" unless the row is
      the last one. */
  ghost function RowSoFar(tokens: seq<string>, j: nat, lastRow: bool): string
    requires j <= |tokens|
  {
    if j == 0 then ""
    else Join(tokens[..j], " ") + (if j < |tokens| then " " else if lastRow then "" else "\n")
  }

  /** One pass of the inner loop, after any text `prefix`, appends the token, then " "
      unless it is the row's last, then "\n" if it is the row's last but the row is not. */
  lemma RowSoFarStep(prefix: string, tokens: seq<string>, j: nat, lastRow: bool)
    requires j < |tokens|
    ensures j < |tokens| - 1 ==>
      prefix + RowSoFar(tokens, j + 1, lastRow) == prefix + RowSoFar(tokens, j, lastRow) + tokens[j] + " "
    ensures j == |tokens| - 1 && lastRow ==>
      prefix + RowSoFar(tokens, j + 1, lastRow) == prefix + RowSoFar(tokens, j, lastRow) + tokens[j]
    ensures j == |tokens| - 1 && !lastRow ==>
      prefix + RowSoFar(tokens, j + 1, lastRow) == prefix + RowSoFar(tokens, j, lastRow) + tokens[j] + "\n"
  {
    JoinStep(tokens, " ", j);
    var joined := Join(tokens[..j + 1], " ");
    var tail := if j + 1 < |tokens| then " " else if lastRow then "" else "\n";
    assert RowSoFar(tokens, j + 1, lastRow) == joined + tail;
    if j == 0 {
      assert joined == tokens[0];
      assert RowSoFar(tokens, j, lastRow) == "";
    } else {
      var front := RowSoFar(tokens, j, lastRow);
      assert front == Join(tokens[..j], " ") + " ";
      assert joined == front + tokens[j];
    }
  }

  /** What the source's outer loop has appended after i rows: the rows joined by "\n", and
      one more "\n" while rows remain. */
  ghost function TextSoFar(texts: seq<string>, i: nat): string
    requires i <= |texts|
  {
    if i == 0 then "" else Join(texts[..i], "\n") + (if i < |texts| then "\n" else "")
  }

  /** A whole row appended by the inner loop extends the text by one row. */
  lemma TextSoFarStep(texts: seq<string>, i: nat, tokens: seq<string>)
    requires i < |texts| && 0 < |tokens| && texts[i] == Join(tokens, " ")
    ensures TextSoFar(texts, i + 1) == TextSoFar(texts, i) + RowSoFar(tokens, |tokens|, i == |texts| - 1)
  {
    var lastRow := i == |texts| - 1;
    var tail := if lastRow then "" else "\n";
    var row := RowSoFar(tokens, |tokens|, lastRow);
    assert tokens[..|tokens|] == tokens;
    assert row == texts[i] + tail;
    JoinStep(texts, "\n", i);
    var joined := Join(texts[..i + 1], "\n");
    assert TextSoFar(texts, i + 1) == joined + tail;
    if i == 0 {
      assert joined == texts[0];
      assert TextSoFar(texts, 0) + row == row;
    } else {
      var front := TextSoFar(texts, i);
      assert front == Join(texts[..i], "\n") + "\n";
      assert joined == front + texts[i];
      assert (front + texts[i]) + tail == front + (texts[i] + tail);
    }
  }

  lemma {:induction false} JoinWithin(parts: seq<string>, sep: string, cs: set<char>)
    requires forall m, t :: 0 <= m < |parts| && 0 <= t < |parts[m]| ==> parts[m][t] in cs
    requires forall t :: 0 <= t < |sep| ==> sep[t] in cs
    ensures forall k :: 0 <= k < |Join(parts, sep)| ==> Join(parts, sep)[k] in cs
    decreases |parts|
  {
    if |parts| > 1 {
      var init := parts[..|parts| - 1];
      JoinWithin(init, sep, cs);
      var a, b := Join(init, sep) + sep, parts[|parts| - 1];
      assert forall k :: 0 <= k < |a| ==> a[k] in cs;
      assert forall k :: 0 <= k < |b| ==> b[k] in cs;
      assert Join(parts, sep) == a + b;
    }
  }

  /** Every part has w - 1 characters, so a part and the separator after it take w. */
  ghost predicate Uniform(parts: seq<string>, w: nat) {
    forall m :: 0 <= m < |parts| ==> |parts[m]| == w - 1
  }

  lemma {:induction false} JoinLength(parts: seq<string>, sep: string, w: nat)
    requires |sep| == 1 && 1 <= w && 1 <= |parts| && Uniform(parts, w)
    ensures |Join(parts, sep)| == RowStart(|parts|, w) - 1
    decreases |parts|
  {
    if |parts| > 1 {
      var init := parts[..|parts| - 1];
      assert Uniform(init, w);
      JoinLength(init, sep, w);
    }
  }

  /** Character t of part m stands at RowStart(m, w) + t of the joined text: after m parts
      and their separators, w characters each. */
  lemma {:induction false} JoinPart(parts: seq<string>, sep: string, w: nat, m: nat, t: nat)
    requires |sep| == 1 && 1 <= w && Uniform(parts, w) && m < |parts| && t < w - 1
    ensures RowStart(m, w) + t < |Join(parts, sep)|
    ensures Join(parts, sep)[RowStart(m, w) + t] == parts[m][t]
    decreases |parts|
  {
    var n := |parts|;
    JoinLength(parts, sep, w);
    RowStartMonotone(m, n, w);
    if n > 1 {
      var init := parts[..n - 1];
      assert Uniform(init, w);
      JoinLength(init, sep, w);
      assert Join(parts, sep) == Join(init, sep) + sep + parts[n - 1];
      if m < n - 1 {
        JoinPart(init, sep, w, m, t);
      }
    }
  }

  /** The separator follows every part but the last. */
  lemma {:induction false} JoinSeparator(parts: seq<string>, sep: string, w: nat, m: nat)
    requires |sep| == 1 && 1 <= w && Uniform(parts, w) && m < |parts| - 1
    ensures RowStart(m, w) + w - 1 < |Join(parts, sep)|
    ensures Join(parts, sep)[RowStart(m, w) + w - 1] == sep[0]
    decreases |parts|
  {
    var n := |parts|;
    var init := parts[..n - 1];
    assert Uniform(init, w);
    JoinLength(parts, sep, w);
    JoinLength(init, sep, w);
    RowStartMonotone(m + 1, n, w);
    assert Join(parts, sep) == Join(init, sep) + sep + parts[n - 1];
    if m < n - 2 {
      JoinSeparator(init, sep, w, m);
    }
  }

  /** Character c of part m and the character after it in the joined text: the next
      character of the part, or the separator when c ends a part that is not the last. */
  lemma JoinCell(parts: seq<string>, sep: string, w: nat, m: nat, c: nat)
    requires |sep| == 1 && 1 <= w && Uniform(parts, w) && m < |parts| && c < w - 1
    ensures RowStart(m, w) + c < |Join(parts, sep)|
    ensures Join(parts, sep)[RowStart(m, w) + c] == parts[m][c]
    ensures c < w - 2 ==>
      RowStart(m, w) + c + 1 < |Join(parts, sep)| && Join(parts, sep)[RowStart(m, w) + c + 1] == parts[m][c + 1]
    ensures c == w - 2 && m < |parts| - 1 ==>
      RowStart(m, w) + c + 1 < |Join(parts, sep)| && Join(parts, sep)[RowStart(m, w) + c + 1] == sep[0]
  {
    JoinPart(parts, sep, w, m, c);
    if c < w - 2 {
      JoinPart(parts, sep, w, m, c + 1);
    } else if m < |parts| - 1 {
      JoinSeparator(parts, sep, w, m);
    }
  }

  /** The characters a square of a defused board can show. */
  const TokenChars: set<char> := {'-', 'F', ' ', '1', '2', '3', '4', '5', '6', '7', '8'}

  lemma SquareTokenChar(s: Square)
    requires s.Dug? ==> !s.bomb && s.adjacentBombs <= 8
    ensures |s.ToString()| == 1 && s.ToString()[0] in TokenChars
  {
    if s.Dug? && s.adjacentBombs > 0 {
      var n := s.adjacentBombs;
      assert n == 1 || n == 2 || n == 3 || n == 4 || n == 5 || n == 6 || n == 7 || n == 8;
    }
  }

  /** Where the token of column j stands in the text of one row. */
  function ColumnIndex(j: int): int {
    2 * j
  }

  /** The tokens of a row of a defused board are one character each. */
  lemma RowTokensUniform(g: Grid, i: int, cols: nat)
    requires forall j :: 0 <= j < cols ==> Point(i, j) in g
    requires Defused(g)
    ensures Uniform(RowTokens(g, i, cols), 2)
    ensures forall j, t :: 0 <= j < cols && 0 <= t < |RowTokens(g, i, cols)[j]| ==>
      RowTokens(g, i, cols)[j][t] in TokenChars
  {
    forall j | 0 <= j < cols
      ensures |RowTokens(g, i, cols)[j]| == 1 && RowTokens(g, i, cols)[j][0] in TokenChars
    {
      SquareTokenChar(g[Point(i, j)]);
    }
  }

  /** Row i of a defused board has 2 * cols - 1 characters, the token of column j at 2 * j,
      and a space after every token but the last. */
  lemma RowTextAt(g: Grid, i: int, cols: nat, j: nat)
    requires forall j :: 0 <= j < cols ==> Point(i, j) in g
    requires Defused(g) && j < cols
    ensures |RowText(g, i, cols)| == 2 * cols - 1
    ensures RowText(g, i, cols)[ColumnIndex(j)] == g[Point(i, j)].ToString()[0]
    ensures j < cols - 1 ==> RowText(g, i, cols)[ColumnIndex(j) + 1] == ' '
  {
    var tokens := RowTokens(g, i, cols);
    RowTokensUniform(g, i, cols);
    JoinLength(tokens, " ", 2);
    RowStartIsProduct(cols, 2);
    RowStartIsProduct(j, 2);
    JoinPart(tokens, " ", 2, j, 0);
    if j < cols - 1 {
      JoinSeparator(tokens, " ", 2, j);
    }
  }

  /** Where the token of square (i, j) stands in the text of a board with `cols` columns:
      after i whole rows of 2 * cols characters (each with its "\n"), at column index 2 * j. */
  ghost function CellIndex(cols: nat, i: nat, j: nat): nat {
    RowStart(i, 2 * cols) + ColumnIndex(j)
  }

  /** CellIndex is the row-major position of (i, j), two characters per square. */
  lemma CellIndexIsRowMajor(cols: nat, i: nat, j: nat)
    ensures CellIndex(cols, i, j) == 2 * (i * cols + j)
  {
    RowStartIsProduct(i, 2 * cols);
  }

  /** The rows of a defused board's text all have 2 * cols - 1 characters. */
  lemma RowTextsUniform(g: Grid, rows: nat, cols: nat)
    requires Covers(g, rows, cols) && Defused(g) && 1 <= cols
    ensures Uniform(RowTexts(g, rows, cols), 2 * cols)
  {
    forall m | 0 <= m < rows ensures |RowTexts(g, rows, cols)[m]| == 2 * cols - 1 {
      RowTextAt(g, m, cols, 0);
    }
  }

  /** In the text of a defused board the token of square (i, j) stands at CellIndex(i, j). */
  lemma RenderToken(g: Grid, rows: nat, cols: nat, i: nat, j: nat)
    requires Covers(g, rows, cols) && Defused(g) && i < rows && j < cols
    ensures CellIndex(cols, i, j) < |Render(g, rows, cols)|
    ensures Render(g, rows, cols)[CellIndex(cols, i, j)] == g[Point(i, j)].ToString()[0]
  {
    var texts := RowTexts(g, rows, cols);
    var text := Render(g, rows, cols);
    var row := RowText(g, i, cols);
    var at := CellIndex(cols, i, j);
    RowTextsUniform(g, rows, cols);
    RowTextAt(g, i, cols, j);
    JoinCell(texts, "\n", 2 * cols, i, ColumnIndex(j));
    assert Join(texts, "\n")[RowStart(i, 2 * cols) + ColumnIndex(j)] == texts[i][ColumnIndex(j)];
    assert text == Join(texts, "\n");
    assert texts[i] == row;
    assert at == RowStart(i, 2 * cols) + ColumnIndex(j);
    assert text[at] == row[ColumnIndex(j)];
  }

  /** In the text of a defused board the token of square (i, j) is followed by " " inside a
      row and by "\n" at the end of every row but the last. */
  lemma RenderSeparator(g: Grid, rows: nat, cols: nat, i: nat, j: nat)
    requires Covers(g, rows, cols) && Defused(g) && i < rows && j < cols
    requires i < rows - 1 || j < cols - 1
    ensures CellIndex(cols, i, j) + 1 < |Render(g, rows, cols)|
    ensures Render(g, rows, cols)[CellIndex(cols, i, j) + 1] == if j < cols - 1 then ' ' else '\n'
  {
    var texts := RowTexts(g, rows, cols);
    var text := Render(g, rows, cols);
    var row := RowText(g, i, cols);
    var at := CellIndex(cols, i, j);
    RowTextsUniform(g, rows, cols);
    RowTextAt(g, i, cols, j);
    JoinCell(texts, "\n", 2 * cols, i, ColumnIndex(j));
    assert text == Join(texts, "\n");
    assert at == RowStart(i, 2 * cols) + ColumnIndex(j);
    if j < cols - 1 {
      assert texts[i] == row;
      assert Join(texts, "\n")[RowStart(i, 2 * cols) + ColumnIndex(j) + 1] == texts[i][ColumnIndex(j) + 1];
      assert text[at + 1] == row[ColumnIndex(j) + 1];
    } else {
      assert Join(texts, "\n")[RowStart(i, 2 * cols) + ColumnIndex(j) + 1] == "\n"[0];
      assert text[at + 1] == '\n';
    }
  }

  /** The shape of the text of a defused board: every square's token stands at its
      CellIndex, with " " after it inside a row and "\n" after it at the end of every row but
      the last; and every character is a square token or "\n". */
  lemma RenderShape(g: Grid, rows: nat, cols: nat)
    requires Covers(g, rows, cols) && Defused(g)
    ensures forall i, j :: 0 <= i < rows && 0 <= j < cols ==>
      CellIndex(cols, i, j) < |Render(g, rows, cols)| &&
      Render(g, rows, cols)[CellIndex(cols, i, j)] == g[Point(i, j)].ToString()[0]
    ensures forall i, j :: 0 <= i < rows && 0 <= j < cols && (i < rows - 1 || j < cols - 1) ==>
      CellIndex(cols, i, j) + 1 < |Render(g, rows, cols)| &&
      Render(g, rows, cols)[CellIndex(cols, i, j) + 1] == if j < cols - 1 then ' ' else '\n'
    ensures forall k :: 0 <= k < |Render(g, rows, cols)| ==>
      Render(g, rows, cols)[k] in TokenChars + {'\n'}
  {
    forall i: nat, j: nat | i < rows && j < cols
      ensures CellIndex(cols, i, j) < |Render(g, rows, cols)|
      ensures Render(g, rows, cols)[CellIndex(cols, i, j)] == g[Point(i, j)].ToString()[0]
      ensures i < rows - 1 || j < cols - 1 ==>
        CellIndex(cols, i, j) + 1 < |Render(g, rows, cols)| &&
        Render(g, rows, cols)[CellIndex(cols, i, j) + 1] == if j < cols - 1 then ' ' else '\n'
    {
      RenderToken(g, rows, cols, i, j);
      if i < rows - 1 || j < cols - 1 {
        RenderSeparator(g, rows, cols, i, j);
      }
    }
    if cols > 0 {
      var texts := RowTexts(g, rows, cols);
      forall m | 0 <= m < rows
        ensures forall k :: 0 <= k < |texts[m]| ==> texts[m][k] in TokenChars + {'\n'}
      {
        RowTokensUniform(g, m, cols);
        JoinWithin(RowTokens(g, m, cols), " ", TokenChars + {'\n'});
      }
      JoinWithin(texts, "\n", TokenChars + {'\n'});
    }
  }

  /** The text of a defused board with at least one row and one column has
      2 * rows * cols - 1 characters: one token per square, one separator after each but the
      last. */
  lemma RenderLength(g: Grid, rows: nat, cols: nat)
    requires Covers(g, rows, cols) && Defused(g) && 1 <= rows && 1 <= cols
    ensures |Render(g, rows, cols)| == 2 * rows * cols - 1
  {
    RowTextsUniform(g, rows, cols);
    JoinLength(RowTexts(g, rows, cols), "\n", 2 * cols);
    TextSize(rows, cols);
  }

  lemma TextSize(rows: nat, cols: nat)
    ensures RowStart(rows, 2 * cols) == 2 * rows * cols
  {
    RowStartIsProduct(rows, 2 * cols);
  }
}
