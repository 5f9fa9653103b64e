/** Report rendering (`TinyBot._write_comment`): a fixed-width text table inside a
    code fence, with a title naming the project directory and a net-lines summary.
    A pure function of the directory and the rows, so equal inputs give equal bodies,
    which is what the reconciliation's body comparison relies on. */
module Report {
  import opened Wrappers
  import opened Text
  import opened Diff

  const RuleWidth: nat := 60
  const NameWidth: nat := 38
  const AdditionsWidth: nat := 5
  const DeletionsWidth: nat := 15

  const TitleLead: string := "Changes made in `"
  const Fence: string := "```\n"
  const Rule: string := Repeat('-', RuleWidth) + "\n"
  const Header: string := "files" + Spaces(29) + "insertions       deletions\n"
  /** The summary names a fixed folder, whatever the configured directory is. */
  const SummaryLabel: string := "lines added in the tinygrad folder: "

  function Title(dir: string): string {
    TitleLead + dir + "`:\n"
  }

  /** One table row: the name left-justified to 38 columns, a space, the additions
      right-justified to 5, a space, the deletions right-justified to 15, a newline. */
  function FormatRow(row: Row): (line: string)
    ensures |line| >= NameWidth + AdditionsWidth + DeletionsWidth + 3 && |line| > |row.name|
    ensures line[..|row.name|] == row.name
    ensures line[|line| - 1] == '\n'
  {
    LeftJustify(row.name, NameWidth) + " "
      + RightJustify(NatToString(row.additions), AdditionsWidth) + " "
      + RightJustify(NatToString(row.deletions), DeletionsWidth) + "\n"
  }

  /** The text one loop iteration adds: a row named "total" is left out when the list
      has at most two entries and is preceded by an extra rule otherwise. */
  function RowText(row: Row, count: nat): (text: string)
    ensures text == "" <==> row.name == TotalName && count <= 2
    ensures text != "" ==> |text| >= |FormatRow(row)| && text[|text| - |FormatRow(row)|..] == FormatRow(row)
  {
    if row.name == TotalName then
      if count <= 2 then "" else Rule + FormatRow(row)
    else FormatRow(row)
  }

  /** The text the loop appends for `rows`, where `count` is the length of the whole list. */
  function RowsText(rows: Lines, count: nat): string {
    if rows == [] then ""
    else RowsText(rows[..|rows| - 1], count) + RowText(rows[|rows| - 1], count)
  }

  /** The value of `lines_added` after the loop has seen `rows`. */
  function NetLines(rows: Lines): (net: int)
    ensures net != 0 ==> exists k :: 0 <= k < |rows| && rows[k].name == TotalName && net == rows[k].additions - rows[k].deletions
  {
    if rows == [] then 0
    else
      var last := rows[|rows| - 1];
      if last.name == TotalName then last.additions - last.deletions
      else NetLines(rows[..|rows| - 1])
  }

  function Summary(net: int): string {
    SummaryLabel + IntToString(net) + "\n"
  }

  /** Everything between the title and the closing fence: the opening fence, the
      header between rules, the rows, a rule and the summary. */
  function Table(rows: Lines): string {
    Fence + Rule + Header + Rule + RowsText(rows, |rows|) + Rule + Summary(NetLines(rows))
  }

  /** The comment body for `rows`. */
  function Render(dir: string, rows: Lines): (comment: string)
    ensures StartsWith(comment, Title(dir))
    ensures comment[|TitleLead|..|TitleLead| + |dir|] == dir
    ensures |comment| >= |Fence| && comment[|comment| - |Fence|..] == Fence
  {
    var t := Table(rows);
    AppendAssoc(Title(dir), t, Fence);
    PrefixOf(Title(dir), t + Fence);
    PrefixOf(TitleLead, dir + "`:\n");
    Title(dir) + t + Fence
  }

  /** `_write_comment` as the source writes it: the preamble, one pass over the rows
      that appends text and updates `lines_added`, then the closing lines. */
  method WriteComment(dir: string, lines: Lines) returns (comment: string)
    ensures comment == Render(dir, lines)
  {
    comment := Title(dir);
    comment := comment + Fence;
    comment := comment + Rule;
    comment := comment + Header;
    comment := comment + Rule;
    var linesAdded;
    comment, linesAdded := AppendRows(comment, lines);
    RenderEnd(dir, lines, comment, linesAdded);
    comment := comment + Rule;
    comment := comment + Summary(linesAdded);
    comment := comment + Fence;
  }

  /** The loop of `_write_comment`: appends each row's text to `start` and tracks the
      net value of the last "total" row. */
  method AppendRows(start: string, lines: Lines) returns (comment: string, linesAdded: int)
    ensures comment == start + RowsText(lines, |lines|)
    ensures linesAdded == NetLines(lines)
  {
    comment, linesAdded := start, 0;
    assert lines[..0] == [];
    var i := 0;
    while i < |lines|
      invariant 0 <= i <= |lines|
      invariant comment == start + RowsText(lines[..i], |lines|)
      invariant linesAdded == NetLines(lines[..i])
    {
      var row := lines[i];
      LoopStep(start, lines, i);
      NetLinesStep(lines, i);
      if row.name == TotalName {
        linesAdded := row.additions - row.deletions;
        if |lines| <= 2 {
          i := i + 1;
          continue;
        }
        AppendAssoc(comment, Rule, FormatRow(row));
        comment := comment + Rule;
      }
      comment := comment + FormatRow(row);
      i := i + 1;
    }
    assert lines[..i] == lines;
  }

  lemma LoopStep(start: string, lines: Lines, i: nat)
    requires i < |lines|
    ensures start + RowsText(lines[..i + 1], |lines|)
      == start + RowsText(lines[..i], |lines|) + RowText(lines[i], |lines|)
  {
    RowsTextStep(lines, i, |lines|);
    AppendAssoc(start, RowsText(lines[..i], |lines|), RowText(lines[i], |lines|));
  }

  lemma RowsTextStep(lines: Lines, i: nat, count: nat)
    requires i < |lines|
    ensures RowsText(lines[..i + 1], count) == RowsText(lines[..i], count) + RowText(lines[i], count)
  {
    var p := lines[..i + 1];
    assert p[..|p| - 1] == lines[..i] && p[|p| - 1] == lines[i];
  }

  lemma NetLinesStep(lines: Lines, i: nat)
    requires i < |lines|
    ensures NetLines(lines[..i + 1]) ==
      if lines[i].name == TotalName then lines[i].additions - lines[i].deletions else NetLines(lines[..i])
  {
    assert lines[..i + 1][..i] == lines[..i];
  }

  lemma RenderEnd(dir: string, lines: Lines, comment: string, net: int)
    requires comment == Title(dir) + Fence + Rule + Header + Rule + RowsText(lines, |lines|)
    requires net == NetLines(lines)
    ensures comment + Rule + Summary(net) + Fence == Render(dir, lines)
  {
    var t, r := Title(dir), RowsText(lines, |lines|);
    AppendAssoc(t, Fence, Rule);
    AppendAssoc(t, Fence + Rule, Header);
    AppendAssoc(t, Fence + Rule + Header, Rule);
    AppendAssoc(t, Fence + Rule + Header + Rule, r);
    AppendAssoc(t, Fence + Rule + Header + Rule + r, Rule);
    AppendAssoc(t, Fence + Rule + Header + Rule + r + Rule, Summary(net));
  }

  // ---------------------------------------------------------------------------
  // Reading a row back

  /** Length of the leading run of non-space characters. */
  function WordLength(s: string): (n: nat)
    ensures n <= |s|
    ensures s != [] && s[0] != ' ' ==> n > 0
  {
    if s == [] || s[0] == ' ' then 0 else 1 + WordLength(s[1..])
  }

  /** The space-separated words of `s`, as `str.split(' ')` without empty pieces. */
  function Words(s: string): seq<string>
    decreases |s|
  {
    if s == [] then []
    else if s[0] == ' ' then Words(s[1..])
    else
      var n := WordLength(s);
      [s[..n]] + Words(s[n..])
  }

  /** Recovers a row from a rendered line: three words, the last two numerals. */
  function ParseRow(line: string): Option<Row> {
    if |line| == 0 || line[|line| - 1] != '\n' then None
    else
      var w := Words(line[..|line| - 1]);
      if |w| != 3 then None
      else
        match (ParseNat(w[1]), ParseNat(w[2]))
        case (Some(a), Some(d)) => Some(Row(w[0], a, d))
        case _ => None
  }

  predicate IsWord(w: string) {
    |w| > 0 && forall i :: 0 <= i < |w| ==> w[i] != ' '
  }

  lemma {:induction false} WordsAfterSpaces(k: nat, s: string)
    ensures Words(Spaces(k) + s) == Words(s)
  {
    if k > 0 {
      assert (Spaces(k) + s)[1..] == Spaces(k - 1) + s;
      WordsAfterSpaces(k - 1, s);
    } else {
      assert Spaces(k) + s == s;
    }
  }

  lemma {:induction false} WordLengthOfWord(w: string, t: string)
    requires IsWord(w) && (t == [] || t[0] == ' ')
    ensures WordLength(w + t) == |w|
    decreases |w|
  {
    assert (w + t)[1..] == w[1..] + t;
    if |w| > 1 {
      WordLengthOfWord(w[1..], t);
    }
  }

  lemma WordsOfWord(w: string, t: string)
    requires IsWord(w) && (t == [] || t[0] == ' ')
    ensures Words(w + t) == [w] + Words(t)
  {
    WordLengthOfWord(w, t);
    assert (w + t)[..|w|] == w;
    assert (w + t)[|w|..] == t;
  }

  lemma WordsAfterSpace(s: string)
    ensures Words(" " + s) == Words(s)
  {
    assert (" " + s)[1..] == s;
  }

  /** The words of three padded columns are the three column values. */
  lemma WordsOfColumns(name: string, a: string, d: string, p1: nat, p2: nat, p3: nat)
    requires IsWord(name) && IsWord(a) && IsWord(d)
    ensures Words(name + (Spaces(p1) + (" " + (Spaces(p2) + (a + (" " + (Spaces(p3) + d))))))) == [name, a, d]
  {
    var t3 := Spaces(p3) + d;
    WordsOfWord(d, []);
    assert d + [] == d;
    WordsAfterSpaces(p3, d);
    var u3 := " " + t3;
    WordsAfterSpace(t3);
    var t2 := a + u3;
    WordsOfWord(a, u3);
    var s2 := Spaces(p2) + t2;
    WordsAfterSpaces(p2, t2);
    var u2 := " " + s2;
    WordsAfterSpace(s2);
    var s1 := Spaces(p1) + u2;
    WordsAfterSpaces(p1, u2);
    assert s1[0] == ' ';
    WordsOfWord(name, s1);
  }

  /** The columns of a row, regrouped to the right. */
  lemma FormatRowColumns(row: Row)
    ensures var a, d := NatToString(row.additions), NatToString(row.deletions);
      FormatRow(row) == row.name + (Spaces(PadWidth(row.name, NameWidth)) + (" " + (Spaces(PadWidth(a, AdditionsWidth))
        + (a + (" " + (Spaces(PadWidth(d, DeletionsWidth)) + d)))))) + "\n"
  {
  }

  /** A rendered row reads back as the row it came from, provided the name is one word. */
  lemma RowRoundTrip(row: Row)
    requires IsWord(row.name)
    ensures ParseRow(FormatRow(row)) == Some(row)
  {
    var a, d := NatToString(row.additions), NatToString(row.deletions);
    var body := row.name + (Spaces(PadWidth(row.name, NameWidth)) + (" " + (Spaces(PadWidth(a, AdditionsWidth))
        + (a + (" " + (Spaces(PadWidth(d, DeletionsWidth)) + d))))));
    FormatRowColumns(row);
    PrefixOf(body, "\n");
    WordsOfColumns(row.name, a, d, PadWidth(row.name, NameWidth), PadWidth(a, AdditionsWidth), PadWidth(d, DeletionsWidth));
    NatToStringRoundTrip(row.additions);
    NatToStringRoundTrip(row.deletions);
  }

  /** With a name of at most 38 characters and counts that fit their columns,
      every row has the same width. */
  lemma FormatRowWidth(row: Row)
    ensures |FormatRow(row)| == NameWidth + AdditionsWidth + DeletionsWidth + 3
      <==> |row.name| <= NameWidth && row.additions < Pow10(AdditionsWidth) && row.deletions < Pow10(DeletionsWidth)
  {
    NatToStringWidth(row.additions, AdditionsWidth);
    NatToStringWidth(row.deletions, DeletionsWidth);
  }

  /** The summary reads back as the net value it was rendered from. */
  lemma SummaryRoundTrip(net: int)
    ensures var s := Summary(net);
      s[..|SummaryLabel|] == SummaryLabel && ParseInt(s[|SummaryLabel|..|s| - 1]) == Some(net)
  {
    var s := Summary(net);
    assert s[|SummaryLabel|..|s| - 1] == IntToString(net);
    IntToStringRoundTrip(net);
  }

  // ---------------------------------------------------------------------------
  // The net value

  /** `lines_added` ends as the additions minus deletions of the last row named "total". */
  lemma {:induction false} NetLinesIsLastTotal(rows: Lines, k: nat)
    requires k < |rows| && rows[k].name == TotalName
    requires forall j :: k < j < |rows| ==> rows[j].name != TotalName
    ensures NetLines(rows) == rows[k].additions - rows[k].deletions
  {
    if k < |rows| - 1 {
      var init := rows[..|rows| - 1];
      assert init[k] == rows[k];
      NetLinesIsLastTotal(init, k);
    }
  }

  /** ... and is 0 when no row is named "total". */
  lemma {:induction false} NetLinesWithoutTotal(rows: Lines)
    requires forall j :: 0 <= j < |rows| ==> rows[j].name != TotalName
    ensures NetLines(rows) == 0
  {
    if rows != [] {
      NetLinesWithoutTotal(rows[..|rows| - 1]);
    }
  }

  /** For the rows of one pull request the net value is the matched additions minus
      the matched deletions, and 0 when nothing matched. */
  lemma NetLinesOfDiff(files: seq<FileChange>, dir: string)
    ensures var m := MatchedRows(files, dir);
      NetLines(DiffRows(files, dir)) == SumAdditions(m) - SumDeletions(m)
  {
  }

  // ---------------------------------------------------------------------------
  // The table of a pull request's rows

  /** The rows printed one after another, with no special treatment of "total". */
  function PlainRows(rows: Lines): string {
    if rows == [] then "" else PlainRows(rows[..|rows| - 1]) + FormatRow(rows[|rows| - 1])
  }

  lemma {:induction false} RowsTextWithoutTotal(rows: Lines, count: nat)
    requires forall j :: 0 <= j < |rows| ==> rows[j].name != TotalName
    ensures RowsText(rows, count) == PlainRows(rows)
  {
    if rows != [] {
      RowsTextWithoutTotal(rows[..|rows| - 1], count);
    }
  }

  /** The table body of a pull request: its matched files, one line each in order;
      with a single file the total line is left out, with two or more it follows an
      extra rule. Stated for lists where no matched file is itself named "total". */
  lemma DiffTable(files: seq<FileChange>, dir: string)
    requires var m := MatchedRows(files, dir);
      m != [] && forall j :: 0 <= j < |m| ==> m[j].name != TotalName
    ensures var m, rows := MatchedRows(files, dir), DiffRows(files, dir);
      && (|m| == 1 ==> RowsText(rows, |rows|) == FormatRow(m[0]))
      && (|m| >= 2 ==> RowsText(rows, |rows|) == PlainRows(m) + Rule + FormatRow(TotalRow(m)))
  {
    var m, rows := MatchedRows(files, dir), DiffRows(files, dir);
    var total := TotalRow(m);
    assert rows == m + [total] && rows[..|rows| - 1] == m;
    assert RowsText(rows, |rows|) == RowsText(m, |rows|) + RowText(total, |rows|);
    RowsTextWithoutTotal(m, |rows|);
    if |m| == 1 {
      assert m[..0] == [];
      assert PlainRows(m) == "" + FormatRow(m[0]);
      assert RowText(total, |rows|) == "";
    } else {
      assert RowText(total, |rows|) == Rule + FormatRow(total);
      AppendAssoc(PlainRows(m), Rule, FormatRow(total));
    }
  }
}
