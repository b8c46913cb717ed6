/** The Markdown help formatter of the documentation generator: headings,
    usage blocks, re-indented help text and option tables, each appended to the
    formatter's buffer as one piece of text. */
module CliDocs {
  import opened Text

  const Backspace: char := '\U{8}'
  const Indent: string := "    "

  /** The text `write_heading` writes: a level-three Markdown heading. */
  function Heading(heading: string): (r: string)
    ensures |r| == |heading| + 5
    ensures r[..4] == "### " && r[4..|r| - 1] == heading && r[|r| - 1] == '\n'
  {
    "### " + heading + "\n"
  }

  /** The text `write_usage` writes: a fenced `bash` block holding the prefix,
      the program name and the arguments, separated by single spaces. */
  function Usage(prog: string, args: string, prefix: string): (r: string)
    ensures |r| == |prefix| + |prog| + |args| + 15
    ensures r[..8] == "```bash\n" && r[|r| - 5..] == "\n```\n"
    ensures r[8..|r| - 5] == prefix + " " + prog + " " + args
  {
    var line := prefix + " " + prog + " " + args;
    var r := "```bash\n" + line + "\n```\n";
    assert r[8..|r| - 5] == line;
    r
  }

  /** A row whose stripped form is empty. */
  predicate Blank(row: string) {
    forall i :: 0 <= i < |row| ==> IsSpace(row[i])
  }

  /** The row as `write_text` first sees it: four spaces in front while
      indenting. */
  function Indented(row: string, indent: bool): string {
    if indent then Indent + row else row
  }

  /** The row `write_text` keeps: the first backspace of the (indented) row removed. */
  function RowOut(row: string, indent: bool): string {
    var r := Indented(row, indent);
    if Backspace in r then RemoveFirst(r, Backspace) else r
  }

  /** Whether the next row is indented: a row holding a backspace turns
      indenting on, a blank row turns it off, any other row leaves it. */
  function IndentAfter(row: string, indent: bool): bool {
    var r := Indented(row, indent);
    if Backspace in r then true
    else if Strip(r) == [] then false
    else indent
  }

  /** The rows `write_text` has collected after reading `lines`, and whether
      the row after them is indented. */
  function Reindent(lines: seq<string>): (r: (seq<string>, bool))
    ensures |r.0| == |lines|
    decreases |lines|
  {
    if lines == [] then ([], false)
    else
      var prev := Reindent(lines[..|lines| - 1]);
      var last := lines[|lines| - 1];
      (prev.0 + [RowOut(last, prev.1)], IndentAfter(last, prev.1))
  }

  /** Whether row `k` is indented. */
  function IndentBefore(rows: seq<string>, k: nat): bool
    requires k <= |rows|
  {
    Reindent(rows[..k]).1
  }

  /** The rows `write_text` collects. */
  function Reindented(rows: seq<string>): seq<string> {
    Reindent(rows).0
  }

  /** The first row is not indented, and each row passes its switch on. */
  lemma IndentBeforeStep(rows: seq<string>, k: nat)
    requires k <= |rows|
    ensures k == 0 ==> !IndentBefore(rows, k)
    ensures k > 0 ==> IndentBefore(rows, k) == IndentAfter(rows[k - 1], IndentBefore(rows, k - 1))
  {
    if k > 0 {
      assert rows[..k][..k - 1] == rows[..k - 1];
      assert rows[..k][k - 1] == rows[k - 1];
    } else {
      assert rows[..k] == [];
    }
  }

  /** Row `k` as kept: read with the indenting switch that the rows before it leave. */
  lemma {:induction false} ReindentedAt(rows: seq<string>)
    ensures |Reindented(rows)| == |rows|
    ensures forall k :: 0 <= k < |rows| ==> Reindented(rows)[k] == RowOut(rows[k], IndentBefore(rows, k))
    decreases |rows|
  {
    if rows != [] {
      var n := |rows| - 1;
      var init := rows[..n];
      ReindentedAt(init);
      forall k | 0 <= k < |rows| ensures Reindented(rows)[k] == RowOut(rows[k], IndentBefore(rows, k)) {
        if k < n {
          assert Reindented(rows)[k] == Reindented(init)[k];
          assert init[..k] == rows[..k];
          assert init[k] == rows[k];
        } else {
          assert rows[..k] == init;
        }
      }
    }
  }

  /** The text `write_text` writes. */
  function ReindentedText(text: string): string {
    Join(Reindented(Split(text, '\n')), "\n") + "\n"
  }

  /** The four spaces change neither whether a row holds a backspace nor
      whether it is blank. */
  lemma IndentedKeeps(row: string, indent: bool)
    ensures Backspace in Indented(row, indent) <==> Backspace in row
    ensures Strip(Indented(row, indent)) == [] <==> Blank(row)
  {
    var r := Indented(row, indent);
    if indent {
      assert r == Indent + row;
      assert forall i :: 0 <= i < |row| ==> row[i] == r[i + 4];
      assert forall i :: 0 <= i < 4 ==> r[i] == ' ';
      assert Backspace in r ==> Backspace in row by {
        if Backspace in r {
          var i :| 0 <= i < |r| && r[i] == Backspace;
          assert r[i] == row[i - 4];
        }
      }
      assert Blank(row) ==> forall i :: 0 <= i < |r| ==> IsSpace(r[i]) by {
        if Blank(row) {
          forall i | 0 <= i < |r| ensures IsSpace(r[i]) {
            if i >= 4 {
              assert r[i] == row[i - 4];
            }
          }
        }
      }
    }
  }

  /** The indenting switch read on the row as given. */
  lemma IndentAfterOriginal(row: string, indent: bool)
    ensures IndentAfter(row, indent) ==
      (if Backspace in row then true else if Blank(row) then false else indent)
  {
    IndentedKeeps(row, indent);
  }

  /** Row `j` holds a backspace and no row after it, up to row `k`, is blank. */
  predicate OpenedAt(rows: seq<string>, j: nat, k: nat)
    requires k <= |rows|
  {
    j < k && Backspace in rows[j] && forall m :: j < m < k ==> !Blank(rows[m])
  }

  /** Some row before row `k` holds a backspace with no blank row after it. */
  predicate Opened(rows: seq<string>, k: nat)
    requires k <= |rows|
  {
    exists j :: 0 <= j < k && OpenedAt(rows, j, k)
  }

  /** A row is indented exactly when some earlier row holds a backspace and no
      blank row lies between that row and this one. */
  lemma {:induction false} IndentIff(rows: seq<string>, k: nat)
    requires k <= |rows|
    ensures IndentBefore(rows, k) == Opened(rows, k)
  {
    IndentBeforeStep(rows, k);
    if k > 0 {
      IndentIff(rows, k - 1);
      var row := rows[k - 1];
      IndentAfterOriginal(row, IndentBefore(rows, k - 1));
      if Backspace in row {
        assert OpenedAt(rows, k - 1, k);
      } else if Blank(row) {
        forall j | 0 <= j < k ensures !OpenedAt(rows, j, k) {
          if j < k - 1 {
            assert Blank(rows[k - 1]);
          }
        }
      } else {
        assert IndentBefore(rows, k) == IndentBefore(rows, k - 1);
        OpenedStep(rows, k);
      }
    }
  }

  /** A row that is neither blank nor holds a backspace passes the state on. */
  lemma OpenedStep(rows: seq<string>, k: nat)
    requires 0 < k <= |rows| && Backspace !in rows[k - 1] && !Blank(rows[k - 1])
    ensures Opened(rows, k) == Opened(rows, k - 1)
  {
    if Opened(rows, k - 1) {
      var j :| 0 <= j < k - 1 && OpenedAt(rows, j, k - 1);
      assert OpenedAt(rows, j, k);
    }
    if Opened(rows, k) {
      var j :| 0 <= j < k && OpenedAt(rows, j, k);
      assert OpenedAt(rows, j, k - 1);
    }
  }

  /** Removing the first backspace past four spaces removes it from the row. */
  lemma RemoveFirstAfterIndent(row: string)
    requires Backspace in row
    ensures Backspace in Indent + row
    ensures RemoveFirst(Indent + row, Backspace) == Indent + RemoveFirst(row, Backspace)
  {
    var r := Indent + row;
    var i := IndexOfChar(row, Backspace);
    assert r[i + 4] == Backspace;
    assert IndexOfChar(r, Backspace) == i + 4;
    assert r[..i + 4] == Indent + row[..i];
    assert r[i + 5..] == row[i + 1..];
  }

  /** Every kept row is the given row with its first backspace removed, behind
      four spaces when it is indented; the first row is never indented. */
  lemma RowShape(rows: seq<string>, k: nat)
    requires k < |rows|
    ensures Reindented(rows)[k] ==
      (if IndentBefore(rows, k) then Indent else "") + RemoveFirst(rows[k], Backspace)
    ensures k == 0 ==> Reindented(rows)[k] == RemoveFirst(rows[k], Backspace)
  {
    var row := rows[k];
    ReindentedAt(rows);
    IndentBeforeStep(rows, 0);
    IndentedKeeps(row, IndentBefore(rows, k));
    if IndentBefore(rows, k) {
      if Backspace in row {
        RemoveFirstAfterIndent(row);
      }
    } else {
      assert "" + RemoveFirst(row, Backspace) == RemoveFirst(row, Backspace);
    }
  }

  /** Text without a backspace is written back as it is, with a final newline. */
  lemma PlainTextUnchanged(text: string)
    requires Backspace !in text
    ensures ReindentedText(text) == text + "\n"
  {
    var rows := Split(text, '\n');
    JoinSplit(text, '\n');
    SplitPiecesIn(text, '\n');
    ReindentedAt(rows);
    forall k | 0 <= k < |rows| ensures Reindented(rows)[k] == rows[k] {
      assert Backspace !in rows[k];
      IndentIff(rows, k);
    }
    assert Reindented(rows) == rows;
  }

  /** One line of an option table: the term as code, a bar, the help text. */
  function DlLine(row: (string, string)): string {
    "`" + row.0 + "` | " + row.1 + "\n"
  }

  /** Where the term and the help sit in their line. */
  lemma DlLineParts(row: (string, string))
    ensures var r := DlLine(row);
      && |r| == |row.0| + |row.1| + 6
      && r[0] == '`' && r[1..|row.0| + 1] == row.0 && r[|row.0| + 1..|row.0| + 4] == "` |"
      && r[|row.0| + 4] == ' ' && r[|row.0| + 5..|r| - 1] == row.1 && r[|r| - 1] == '\n'
  {
    var r := DlLine(row);
    assert r[1..|row.0| + 1] == row.0;
    assert r[|row.0| + 5..|r| - 1] == row.1;
  }

  function DlLines(rows: seq<(string, string)>): (r: seq<string>)
    ensures |r| == |rows| && forall i :: 0 <= i < |rows| ==> r[i] == DlLine(rows[i])
    decreases |rows|
  {
    if rows == [] then []
    else DlLines(rows[..|rows| - 1]) + [DlLine(rows[|rows| - 1])]
  }

  /** The pieces `write_dl` writes: a blank line, the table header, one line
      per row and a blank line. */
  function Dl(rows: seq<(string, string)>): seq<string> {
    ["\n", "Flag | Help\n", "-----|-----\n"] + DlLines(rows) + ["\n"]
  }

  /** A line gives back its term and help when the term holds no backtick,
      as option names do not. */
  lemma DlLineInjective(x: (string, string), y: (string, string))
    requires '`' !in x.0 && '`' !in y.0
    requires DlLine(x) == DlLine(y)
    ensures x == y
  {
    var r := DlLine(x);
    DlLineParts(x);
    DlLineParts(y);
    assert r[1..][..|x.0|] == x.0 && r[1..][|x.0|] == '`';
    assert r[1..][..|y.0|] == y.0 && r[1..][|y.0|] == '`';
    assert IndexOfChar(r[1..], '`') == |x.0|;
    assert IndexOfChar(r[1..], '`') == |y.0|;
  }

  /** Two tables of backtick-free terms are written the same only for the same rows. */
  lemma DlInjective(a: seq<(string, string)>, b: seq<(string, string)>)
    requires forall i :: 0 <= i < |a| ==> '`' !in a[i].0
    requires forall i :: 0 <= i < |b| ==> '`' !in b[i].0
    requires Dl(a) == Dl(b)
    ensures a == b
  {
    assert |Dl(a)| == |a| + 4 && |Dl(b)| == |b| + 4;
    forall i | 0 <= i < |a| ensures a[i] == b[i] {
      assert Dl(a)[i + 3] == DlLines(a)[i];
      assert Dl(b)[i + 3] == DlLines(b)[i];
      DlLineInjective(a[i], b[i]);
    }
  }

  /** One turn of the `write_text` loop: the row to keep and whether the next
      row is indented. */
  method ReindentRow(line: string, shouldIndent: bool) returns (row: string, indentNext: bool)
    ensures row == RowOut(line, shouldIndent) && indentNext == IndentAfter(line, shouldIndent)
  {
    row := line;
    indentNext := shouldIndent;
    if shouldIndent {
      row := Indent + row;
    }
    if Backspace in row {
      row := RemoveFirst(row, Backspace);
      indentNext := true;
    } else if Strip(row) == [] {
      indentNext := false;
    }
  }

  /** The `write_text` loop over the lines of the text. */
  method ReindentRows(lines: seq<string>) returns (rows: seq<string>)
    ensures rows == Reindented(lines)
  {
    var shouldIndent := false;
    rows := [];
    var k := 0;
    while k < |lines|
      invariant 0 <= k <= |lines|
      invariant (rows, shouldIndent) == Reindent(lines[..k])
    {
      assert lines[..k + 1][..k] == lines[..k];
      var row;
      row, shouldIndent := ReindentRow(lines[k], shouldIndent);
      rows := rows + [row];
      k := k + 1;
    }
    assert lines[..k] == lines;
  }

  /** `MarkdownFormatter`: the pieces written so far, in order. */
  class MarkdownFormatter {
    var buffer: seq<string>

    constructor ()
      ensures buffer == []
    {
      buffer := [];
    }

    /** `write`: one piece appended. */
    method Write(s: string)
      modifies this
      ensures buffer == old(buffer) + [s]
    {
      buffer := buffer + [s];
    }

    method WriteHeading(heading: string)
      modifies this
      ensures buffer == old(buffer) + [Heading(heading)]
    {
      Write(Heading(heading));
    }

    /** `write_usage`; the script's defaults are `args = ""` and `prefix = "Usage: "`. */
    method WriteUsage(prog: string, args: string, prefix: string)
      modifies this
      ensures buffer == old(buffer) + [Usage(prog, args, prefix)]
    {
      Write(Usage(prog, args, prefix));
    }

    /** `write_text`: the lines of `text` re-indented after each backspace marker
        until the next blank line, and written as one piece. */
    method WriteText(text: string)
      modifies this
      ensures buffer == old(buffer) + [ReindentedText(text)]
    {
      var rows := ReindentRows(Split(text, '\n'));
      Write(Join(rows, "\n") + "\n");
    }

    /** `write_dl` for rows of two items each. */
    method WriteDl(rows: seq<(string, string)>)
      modifies this
      ensures buffer == old(buffer) + Dl(rows)
    {
      Write("\n");
      Write("Flag | Help\n");
      Write("-----|-----\n");
      ghost var header := buffer;
      var k := 0;
      while k < |rows|
        invariant 0 <= k <= |rows|
        invariant buffer == header + DlLines(rows[..k])
      {
        assert rows[..k + 1][..k] == rows[..k];
        Write(DlLine(rows[k]));
        assert buffer == header + (DlLines(rows[..k]) + [DlLine(rows[k])]);
        k := k + 1;
      }
      assert rows[..k] == rows;
      Write("\n");
    }
  }
}
