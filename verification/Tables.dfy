/** Plain rendering of runtime tables: natural widths, truncation, padding, and the lines. */
module Tables {
  import opened Numbers
  import opened Results
  import opened TableWidths
  import opened Text

  const ELLIPSIS: char := '\U{2026}'

  function TruncateCell(value: string, width: nat): (r: string)
    ensures |r| <= width
    ensures |value| <= width ==> r == value
    ensures |value| > width > 1 ==> |r| == width && r[..width - 1] == value[..width - 1] && r[width - 1] == ELLIPSIS
    ensures |value| > width && width <= 1 ==> r == value[..width]
  {
    if |value| <= width then value
    else if width <= 1 then value[..width]
    else value[..width - 1] + [ELLIPSIS]
  }

  function Spaces(n: nat): (r: string)
    ensures |r| == n
  {
    seq(n, i => ' ')
  }

  /** `value.ljust(width)` */
  function Padded(value: string, width: nat): (r: string)
    ensures |value| <= width ==> |r| == width
    ensures value <= r
  {
    if |value| >= width then value else value + Spaces(width - |value|)
  }

  /** `separator.join(parts)` */
  function Join(parts: seq<string>, separator: string): string {
    if parts == [] then ""
    else if |parts| == 1 then parts[0]
    else Join(parts[..|parts| - 1], separator) + separator + parts[|parts| - 1]
  }

  function TextRow(row: seq<Option<string>>): (r: seq<string>)
    ensures |r| == |row| && forall i :: 0 <= i < |r| ==> row[i] == Some(r[i]) || (row[i].None? && r[i] == "")
  {
    seq(|row|, i requires 0 <= i < |row| => if row[i].Some? then row[i].value else "")
  }

  function TextRows(rows: seq<seq<Option<string>>>): (r: seq<seq<string>>)
    ensures |r| == |rows| && forall i :: 0 <= i < |r| ==> r[i] == TextRow(rows[i])
  {
    seq(|rows|, i requires 0 <= i < |rows| => TextRow(rows[i]))
  }

  predicate Rectangular<T>(rows: seq<seq<T>>, columns: nat) {
    forall i :: 0 <= i < |rows| ==> |rows[i]| == columns
  }

  function WidestCell(rows: seq<seq<string>>, index: nat): (w: nat)
    requires forall i :: 0 <= i < |rows| ==> index < |rows[i]|
    ensures forall i :: 0 <= i < |rows| ==> |rows[i][index]| <= w
    ensures w == 0 || exists i :: 0 <= i < |rows| && |rows[i][index]| == w
  {
    if rows == [] then 0
    else
      var n := |rows| - 1;
      var rest := WidestCell(rows[..n], index);
      if |rows[n][index]| > rest then |rows[n][index]| else rest
  }

  /** The longest text of each column, its heading included. */
  function NaturalWidths(headers: seq<string>, rows: seq<seq<string>>): (r: seq<nat>)
    requires Rectangular(rows, |headers|)
    ensures |r| == |headers|
    ensures forall k :: 0 <= k < |r| ==> |headers[k]| <= r[k]
    ensures forall i, k :: 0 <= i < |rows| && 0 <= k < |r| ==> |rows[i][k]| <= r[k]
    ensures forall k :: 0 <= k < |r| ==> r[k] == |headers[k]| || exists i :: 0 <= i < |rows| && |rows[i][k]| == r[k]
  {
    seq(|headers|, k requires 0 <= k < |headers| => Max(|headers[k]|, WidestCell(rows, k)))
  }

  function FittedCell(value: string, width: nat): (r: string)
    ensures |r| == width
    ensures |value| <= width ==> value <= r
  {
    Padded(TruncateCell(value, width), width)
  }

  /** One line: every cell cut and padded to its column. */
  function RowLine(row: seq<string>, widths: seq<nat>): string
    requires |row| == |widths|
  {
    Join(Fitted(row, widths), "  ")
  }

  function Fitted(row: seq<string>, widths: seq<nat>): (r: seq<string>)
    requires |row| == |widths|
    ensures |r| == |row| && forall i :: 0 <= i < |r| ==> r[i] == FittedCell(row[i], widths[i])
  {
    seq(|row|, i requires 0 <= i < |row| => FittedCell(row[i], widths[i]))
  }

  function Dashes(n: nat): (r: string)
    ensures |r| == n
  {
    seq(n, i => '-')
  }

  function Ruler(widths: seq<nat>): (r: seq<string>)
    ensures |r| == |widths| && forall i :: 0 <= i < |r| ==> r[i] == Dashes(widths[i])
  {
    seq(|widths|, i requires 0 <= i < |widths| => Dashes(widths[i]))
  }

  function BodyLines(rows: seq<seq<string>>, widths: seq<nat>): (r: seq<string>)
    requires Rectangular(rows, |widths|)
    ensures |r| == |rows| && forall i :: 0 <= i < |r| ==> r[i] == RowLine(rows[i], widths)
  {
    seq(|rows|, i requires 0 <= i < |rows| => RowLine(rows[i], widths))
  }

  function Widths(headers: seq<string>, rows: seq<seq<string>>, maxWidth: Option<int>): (r: seq<nat>)
    requires Rectangular(rows, |headers|)
    ensures |r| == |headers|
  {
    var natural := NaturalWidths(headers, rows);
    if maxWidth.None? then natural else Shrunk(natural, headers, maxWidth.value)
  }

  function Lines(headers: seq<string>, rows: seq<seq<string>>, maxWidth: Option<int>): (r: seq<string>)
    requires Rectangular(rows, |headers|)
    ensures |r| == |rows| + 2
  {
    var widths := Widths(headers, rows, maxWidth);
    [RowLine(headers, widths), Join(Ruler(widths), "  ")] + BodyLines(rows, widths)
  }

  /** `render_table` without styles. A ragged row is an index error. */
  function RenderTable(headers: seq<string>, rows: seq<seq<Option<string>>>, maxWidth: Option<int>): Result<string> {
    if rows == [] then Ok("")
    else if !Rectangular(rows, |headers|) then Error("list index out of range")
    else Ok(Join(Lines(headers, TextRows(rows), maxWidth), "\n"))
  }

  // ---------- lengths and alignment ----------

  /** Where a column starts in every line. */
  function Offset(widths: seq<nat>, k: nat): nat
    requires k <= |widths|
  {
    Sum(widths[..k]) + 2 * k
  }

  lemma {:induction false} JoinLength(cells: seq<string>, widths: seq<nat>)
    requires |cells| == |widths| > 0 && forall i :: 0 <= i < |cells| ==> |cells[i]| == widths[i]
    ensures |Join(cells, "  ")| == Sum(widths) + 2 * (|widths| - 1)
    decreases |cells|
  {
    var n := |cells| - 1;
    if n == 0 {
      assert Sum(widths[..0]) == 0;
    } else {
      JoinLength(cells[..n], widths[..n]);
    }
  }

  lemma SliceOfFront(front: string, rest: string, a: nat, b: nat)
    requires a <= b <= |front|
    ensures (front + rest)[a..b] == front[a..b]
  {
  }

  lemma SliceBehind(front: string, rest: string)
    ensures (front + rest)[|front|..|front| + |rest|] == rest
  {
  }

  /** Cells of the given widths stand at the columns' offsets, two blanks apart. */
  lemma {:induction false} JoinAligns(cells: seq<string>, widths: seq<nat>, k: nat)
    requires |cells| == |widths| && k < |cells| && forall i :: 0 <= i < |cells| ==> |cells[i]| == widths[i]
    ensures Offset(widths, k) + widths[k] <= |Join(cells, "  ")|
    ensures Join(cells, "  ")[Offset(widths, k)..Offset(widths, k) + widths[k]] == cells[k]
    decreases |cells|
  {
    var n := |cells| - 1;
    if n == 0 {
      assert Sum(widths[..0]) == 0;
    } else {
      var front := Join(cells[..n], "  ");
      if k < n {
        JoinAligns(cells[..n], widths[..n], k);
        assert widths[..n][..k] == widths[..k];
        var p := Offset(widths, k);
        assert p == Offset(widths[..n], k);
        SliceOfFront(front, "  ", p, p + widths[k]);
        SliceOfFront(front + "  ", cells[n], p, p + widths[k]);
      } else {
        JoinLength(cells[..n], widths[..n]);
        SliceBehind(front + "  ", cells[n]);
      }
    }
  }

  lemma RowLineAligns(row: seq<string>, widths: seq<nat>, k: nat)
    requires |row| == |widths| && k < |row|
    ensures var line := RowLine(row, widths);
      && |line| == Sum(widths) + 2 * (|widths| - 1) && Offset(widths, k) + widths[k] <= |line|
      && line[Offset(widths, k)..Offset(widths, k) + widths[k]] == FittedCell(row[k], widths[k])
  {
    JoinLength(Fitted(row, widths), widths);
    JoinAligns(Fitted(row, widths), widths, k);
  }

  /** Every line has the same length: the widths and their separators. */
  lemma LinesHaveSameLength(headers: seq<string>, rows: seq<seq<string>>, maxWidth: Option<int>)
    requires headers != [] && Rectangular(rows, |headers|)
    ensures forall line :: line in Lines(headers, rows, maxWidth) ==>
      |line| == Sum(Widths(headers, rows, maxWidth)) + 2 * (|headers| - 1)
  {
    var widths := Widths(headers, rows, maxWidth);
    RowLineAligns(headers, widths, 0);
    JoinLength(Ruler(widths), widths);
    BodyLength(rows, widths);
    OneLength(RowLine(headers, widths), Join(Ruler(widths), "  "), BodyLines(rows, widths),
      Sum(widths) + 2 * (|widths| - 1));
  }

  lemma OneLength(first: string, second: string, others: seq<string>, n: nat)
    requires |first| == |second| == n && forall line :: line in others ==> |line| == n
    ensures forall line :: line in [first, second] + others ==> |line| == n
  {
  }

  lemma BodyLength(rows: seq<seq<string>>, widths: seq<nat>)
    requires widths != [] && Rectangular(rows, |widths|)
    ensures forall line :: line in BodyLines(rows, widths) ==> |line| == Sum(widths) + 2 * (|widths| - 1)
  {
    forall i | 0 <= i < |rows|
      ensures |BodyLines(rows, widths)[i]| == Sum(widths) + 2 * (|widths| - 1)
    {
      RowLineAligns(rows[i], widths, 0);
    }
  }

  /** No line is longer than the display when it has room for one character a column. */
  lemma LinesFitDisplay(headers: seq<string>, rows: seq<seq<string>>, maxWidth: int)
    requires headers != [] && Rectangular(rows, |headers|) && maxWidth >= 3 * |headers| - 2
    ensures forall line :: line in Lines(headers, rows, Some(maxWidth)) ==> |line| <= maxWidth
  {
    LinesHaveSameLength(headers, rows, Some(maxWidth));
    ShrunkTotal(NaturalWidths(headers, rows), headers, maxWidth);
  }

  /** In every body line the cell of column `k` stands at the same place, cut and padded. */
  lemma ColumnsAlign(headers: seq<string>, rows: seq<seq<string>>, maxWidth: Option<int>, i: nat, k: nat)
    returns (widths: seq<nat>, line: string)
    requires Rectangular(rows, |headers|) && i < |rows| && k < |headers|
    ensures widths == Widths(headers, rows, maxWidth) && line == Lines(headers, rows, maxWidth)[i + 2]
    ensures |widths| == |headers| && Offset(widths, k) + widths[k] <= |line|
    ensures line[Offset(widths, k)..Offset(widths, k) + widths[k]] == FittedCell(rows[i][k], widths[k])
  {
    widths := Widths(headers, rows, maxWidth);
    line := RowLine(rows[i], widths);
    RowLineAligns(rows[i], widths, k);
  }

  // ---------- every character of a line ----------

  /** The text of a cell in a column of that width: followed by blanks, or cut with an ellipsis at the end. */
  predicate IsCell(text: string, value: string, width: nat) {
    && |text| == width
    && (|value| <= width ==> text == value + text[|value|..] && forall p :: |value| <= p < width ==> text[p] == ' ')
    && (|value| > width && width >= 2 ==> text == value[..width - 1] + "\U{2026}")
    && (|value| > width && width < 2 ==> text == value[..width])
  }

  /** Cells of those widths stand in the line with two blanks between them, and nothing else does. */
  predicate IsSpread(line: string, cells: seq<string>, widths: seq<nat>) {
    && |cells| == |widths| > 0
    && |line| == Offset(widths, |widths| - 1) + widths[|widths| - 1]
    && (forall k :: 0 <= k < |widths| ==> StandsAt(line, cells[k], Offset(widths, k)))
    && forall k :: 0 <= k < |widths| - 1 ==> StandsAt(line, "  ", Offset(widths, k) + widths[k])
  }

  predicate StandsAt(line: string, text: string, p: nat) {
    p + |text| <= |line| && line[p..p + |text|] == text
  }

  lemma {:induction false} JoinGaps(cells: seq<string>, widths: seq<nat>, k: nat)
    requires |cells| == |widths| && k < |cells| - 1 && forall i :: 0 <= i < |cells| ==> |cells[i]| == widths[i]
    ensures StandsAt(Join(cells, "  "), "  ", Offset(widths, k) + widths[k])
    decreases |cells|
  {
    var n := |cells| - 1;
    var front := Join(cells[..n], "  ");
    JoinLength(cells[..n], widths[..n]);
    var p := Offset(widths, k) + widths[k];
    assert widths[..n][..k] == widths[..k];
    if k < n - 1 {
      JoinGaps(cells[..n], widths[..n], k);
      SliceOfFront(front, "  ", p, p + 2);
    } else {
      assert widths[..n][..n - 1] == widths[..n - 1];
      SliceBehind(front, "  ");
    }
    SliceOfFront(front + "  ", cells[n], p, p + 2);
  }

  lemma {:induction false} JoinSpreads(cells: seq<string>, widths: seq<nat>)
    requires |cells| == |widths| > 0 && forall i :: 0 <= i < |cells| ==> |cells[i]| == widths[i]
    ensures IsSpread(Join(cells, "  "), cells, widths)
  {
    var line := Join(cells, "  ");
    JoinLength(cells, widths);
    assert widths == widths[..|widths| - 1] + [widths[|widths| - 1]];
    forall k | 0 <= k < |widths|
      ensures StandsAt(line, cells[k], Offset(widths, k))
      ensures k < |widths| - 1 ==> StandsAt(line, "  ", Offset(widths, k) + widths[k])
    {
      JoinAligns(cells, widths, k);
      if k < |widths| - 1 {
        JoinGaps(cells, widths, k);
      }
    }
  }

  lemma {:induction false} FittedIsCell(value: string, width: nat)
    ensures IsCell(FittedCell(value, width), value, width)
  {
  }

  /** A line that shows those values in columns of those widths. */
  ghost predicate ShowsRow(line: string, row: seq<string>, widths: seq<nat>) {
    exists cells :: |cells| == |row| && IsSpread(line, cells, widths)
      && forall k :: 0 <= k < |row| ==> k < |widths| && IsCell(cells[k], row[k], widths[k])
  }

  ghost predicate IsRule(line: string, widths: seq<nat>) {
    exists cells :: IsSpread(line, cells, widths)
      && forall k :: 0 <= k < |cells| ==> forall p :: 0 <= p < |cells[k]| ==> cells[k][p] == '-'
  }

  lemma {:induction false} RowIsShown(row: seq<string>, widths: seq<nat>)
    requires |row| == |widths| > 0
    ensures ShowsRow(RowLine(row, widths), row, widths)
  {
    JoinSpreads(Fitted(row, widths), widths);
    forall k | 0 <= k < |row|
      ensures IsCell(Fitted(row, widths)[k], row[k], widths[k])
    {
      FittedIsCell(row[k], widths[k]);
    }
  }

  ghost predicate ShowsTable(lines: seq<string>, headers: seq<string>, rows: seq<seq<string>>, widths: seq<nat>) {
    && |lines| == |rows| + 2 && ShowsRow(lines[0], headers, widths) && IsRule(lines[1], widths)
    && forall i :: 0 <= i < |rows| ==> ShowsRow(lines[i + 2], rows[i], widths)
  }

  lemma {:induction false} RuleIsShown(widths: seq<nat>)
    requires widths != []
    ensures IsRule(Join(Ruler(widths), "  "), widths)
  {
    JoinSpreads(Ruler(widths), widths);
  }

  lemma {:induction false} BodyIsShown(rows: seq<seq<string>>, widths: seq<nat>)
    requires widths != [] && Rectangular(rows, |widths|)
    ensures forall i :: 0 <= i < |rows| ==> ShowsRow(BodyLines(rows, widths)[i], rows[i], widths)
  {
    forall i | 0 <= i < |rows|
      ensures ShowsRow(BodyLines(rows, widths)[i], rows[i], widths)
    {
      RowIsShown(rows[i], widths);
    }
  }

  lemma {:induction false} ShownTogether(first: string, second: string, others: seq<string>,
      headers: seq<string>, rows: seq<seq<string>>, widths: seq<nat>)
    requires |others| == |rows| && ShowsRow(first, headers, widths) && IsRule(second, widths)
    requires forall i :: 0 <= i < |rows| ==> ShowsRow(others[i], rows[i], widths)
    ensures ShowsTable([first, second] + others, headers, rows, widths)
  {
    var lines := [first, second] + others;
    assert lines[0] == first && lines[1] == second;
    forall i | 0 <= i < |rows|
      ensures ShowsRow(lines[i + 2], rows[i], widths)
    {
      IndexBehind(first, second, others, i);
    }
  }

  lemma {:induction false} IndexBehind(first: string, second: string, others: seq<string>, i: nat)
    requires i < |others|
    ensures ([first, second] + others)[i + 2] == others[i]
  {
  }

  /** Every line of a table, character by character: the headings, a rule of dashes, then the rows, each cell
      cut or filled up to its column and two blanks between columns. */
  lemma {:induction false} LinesAreShown(headers: seq<string>, rows: seq<seq<string>>, maxWidth: Option<int>)
    requires headers != [] && Rectangular(rows, |headers|)
    ensures ShowsTable(Lines(headers, rows, maxWidth), headers, rows, Widths(headers, rows, maxWidth))
  {
    var widths := Widths(headers, rows, maxWidth);
    RowIsShown(headers, widths);
    RuleIsShown(widths);
    BodyIsShown(rows, widths);
    ShownTogether(RowLine(headers, widths), Join(Ruler(widths), "  "), BodyLines(rows, widths), headers, rows, widths);
  }

  // ---------- the rendered text ----------

  lemma {:induction false} JoinIsJoinFields(parts: seq<string>, c: char)
    requires parts != []
    ensures Join(parts, [c]) == JoinFields(parts, c)
    decreases |parts|
  {
    if |parts| > 1 {
      var front, last := parts[..|parts| - 1], parts[|parts| - 1];
      JoinIsJoinFields(front, c);
      JoinFieldsBack(front, last, c);
      assert parts == front + [last];
    }
  }

  lemma {:induction false} JoinLacks(parts: seq<string>, separator: string, c: char)
    requires c !in separator && forall i :: 0 <= i < |parts| ==> c !in parts[i]
    ensures c !in Join(parts, separator)
    decreases |parts|
  {
    if |parts| > 1 {
      JoinLacks(parts[..|parts| - 1], separator, c);
    }
  }

  /** No cell of the row contains a line break. */
  ghost predicate OneLine(row: seq<string>) {
    forall i :: 0 <= i < |row| ==> '\n' !in row[i]
  }

  lemma RowIsOneLine(row: seq<string>, widths: seq<nat>)
    requires |row| == |widths| && OneLine(row)
    ensures '\n' !in RowLine(row, widths)
  {
    JoinLacks(Fitted(row, widths), "  ", '\n');
  }

  lemma OneLineEach(first: string, second: string, others: seq<string>)
    requires '\n' !in first && '\n' !in second && OneLine(others)
    ensures OneLine([first, second] + others)
  {
  }

  lemma LinesHaveNoBreaks(headers: seq<string>, rows: seq<seq<string>>, maxWidth: Option<int>)
    requires Rectangular(rows, |headers|) && OneLine(headers) && forall i :: 0 <= i < |rows| ==> OneLine(rows[i])
    ensures OneLine(Lines(headers, rows, maxWidth))
  {
    var widths := Widths(headers, rows, maxWidth);
    RowIsOneLine(headers, widths);
    JoinLacks(Ruler(widths), "  ", '\n');
    BodyHasNoBreaks(rows, widths);
    OneLineEach(RowLine(headers, widths), Join(Ruler(widths), "  "), BodyLines(rows, widths));
  }

  lemma BodyHasNoBreaks(rows: seq<seq<string>>, widths: seq<nat>)
    requires Rectangular(rows, |widths|) && forall i :: 0 <= i < |rows| ==> OneLine(rows[i])
    ensures OneLine(BodyLines(rows, widths))
  {
    forall i | 0 <= i < |rows|
      ensures '\n' !in BodyLines(rows, widths)[i]
    {
      RowIsOneLine(rows[i], widths);
    }
  }

  /** The text of a table, split at line breaks, gives its lines back, and none is longer than the
      display. */
  lemma RenderedTextFits(headers: seq<string>, rows: seq<seq<Option<string>>>, maxWidth: int)
    requires headers != [] && rows != [] && Rectangular(rows, |headers|) && maxWidth >= 3 * |headers| - 2
    requires OneLine(headers) && forall i :: 0 <= i < |rows| ==> OneLine(TextRow(rows[i]))
    ensures var r := RenderTable(headers, rows, Some(maxWidth));
      && r.Ok? && Fields(r.value, '\n') == Lines(headers, TextRows(rows), Some(maxWidth))
      && forall line :: line in Fields(r.value, '\n') ==> |line| <= maxWidth
  {
    var lines := Lines(headers, TextRows(rows), Some(maxWidth));
    LinesHaveNoBreaks(headers, TextRows(rows), Some(maxWidth));
    JoinIsJoinFields(lines, '\n');
    FieldsOfJoin(lines, '\n');
    LinesFitDisplay(headers, TextRows(rows), maxWidth);
  }

  /** A display that is wide enough changes nothing. */
  lemma WideDisplayChangesNothing(headers: seq<string>, rows: seq<seq<string>>, maxWidth: int)
    requires headers != [] && Rectangular(rows, |headers|)
    requires forall line :: line in Lines(headers, rows, None) ==> |line| <= maxWidth
    ensures Lines(headers, rows, Some(maxWidth)) == Lines(headers, rows, None)
  {
    LinesHaveSameLength(headers, rows, None);
    assert Lines(headers, rows, None)[0] in Lines(headers, rows, None);
    FittingIsUnchanged(NaturalWidths(headers, rows), headers, maxWidth);
  }

  /** A table without rows is empty, whatever its headings, and one with a row of another length than theirs
      fails. */
  lemma {:induction false} RenderingFails(headers: seq<string>, rows: seq<seq<Option<string>>>, maxWidth: Option<int>)
    ensures RenderTable(headers, rows, maxWidth).Error? <==> exists i :: 0 <= i < |rows| && |rows[i]| != |headers|
    ensures RenderTable(headers, [], maxWidth) == Ok("")
  {
  }
}
