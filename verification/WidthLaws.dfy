/** What shrinking promises for the headings: the least widths and the budget are written out here. */
module WidthLaws {
  import opened Results
  import opened TableWidths
  import opened Tables

  /** The least of a column's width and the greater of 3 and its heading's length. */
  predicate AreLow(low: seq<nat>, widths: seq<nat>, headers: seq<string>) {
    && |low| == |widths| == |headers|
    && forall i :: 0 <= i < |low| ==>
         low[i] == if widths[i] <= 3 || widths[i] <= |headers[i]| then widths[i]
                   else if |headers[i]| >= 3 then |headers[i]| else 3
  }

  /** What is left for the columns with two blanks between any two, and at least one character. */
  predicate IsSpace(space: int, columns: nat, maxWidth: int) {
    space == if maxWidth - 2 * (columns - 1) < 1 then 1 else maxWidth - 2 * (columns - 1)
  }

  lemma LowIs(low: seq<nat>, widths: seq<nat>, headers: seq<string>)
    requires AreLow(low, widths, headers)
    ensures low == Minimums(widths, headers)
  {
  }

  /** When the least widths fit, no column gets narrower than that, the total is exactly the space or the
      natural one, and a column that was cut has no less room left than any other, but for one character
      and that only to its left. */
  lemma ShrunkKeepsLow(widths: seq<nat>, headers: seq<string>, maxWidth: int, low: seq<nat>, space: int)
    requires widths != [] && AreLow(low, widths, headers) && IsSpace(space, |widths|, maxWidth) && Sum(low) <= space
    ensures var r := Shrunk(widths, headers, maxWidth);
      && |r| == |widths| && (forall i :: 0 <= i < |r| ==> low[i] <= r[i] <= widths[i])
      && Sum(r) == (if Sum(widths) < space then Sum(widths) else space)
      && forall i, j :: 0 <= i < |r| && 0 <= j < |r| && r[j] < widths[j] ==>
           r[i] - low[i] <= r[j] - low[j] + (if j < i then 1 else 0)
  {
    LowIs(low, widths, headers);
    ShrunkWhenMinimumsFit(widths, headers, maxWidth);
    var r := Shrunk(widths, headers, maxWidth);
    forall i, j | 0 <= i < |r| && 0 <= j < |r| && r[j] < widths[j]
      ensures r[i] - low[i] <= r[j] - low[j] + (if j < i then 1 else 0)
    {
      assert Room(r[i], low[i]) <= Room(r[j], low[j]) + (if j < i then 1 else 0);
    }
  }

  /** The column is wider, or as wide and to the left. */
  predicate GoesFirst(i: nat, j: nat, widths: seq<nat>)
    requires i < |widths| && j < |widths|
  {
    widths[j] < widths[i] || (widths[j] == widths[i] && i < j)
  }

  /** Otherwise every column gets a character, none more than its least width, the total is the space if
      that is one character a column, and columns that go first are filled first. */
  lemma ShrunkFillsLow(widths: seq<nat>, headers: seq<string>, maxWidth: int, low: seq<nat>, space: int)
    requires widths != [] && AreLow(low, widths, headers) && IsSpace(space, |widths|, maxWidth) && Sum(low) > space
    ensures var r := Shrunk(widths, headers, maxWidth);
      && |r| == |widths| && (forall i :: 0 <= i < |r| ==> r[i] == 1 || 1 < r[i] <= low[i])
      && Sum(r) == (if space < |widths| then |widths| else space)
      && forall i, j :: 0 <= i < |r| && 0 <= j < |r| && GoesFirst(i, j, widths) && r[j] > 1 ==> r[i] >= low[i]
  {
    LowIs(low, widths, headers);
    var r := CompressIsGreedy(widths, low, space);
    forall i, j | 0 <= i < |r| && 0 <= j < |r| && GoesFirst(i, j, widths) && r[j] > 1
      ensures r[i] >= low[i]
    {
      assert Precedes(i, j, widths);
    }
  }

  lemma SubSlice(line: string, at: nat, n: nat, m: nat)
    requires m <= n && at + n <= |line|
    ensures line[at..at + n][..m] == line[at..at + m]
  {
  }

  lemma FittedStarts(value: string, width: nat)
    requires |value| <= width
    ensures |FittedCell(value, width)| == width && FittedCell(value, width)[..|value|] == value
  {
  }

  lemma {:induction false} WholeHeading(headers: seq<string>, widths: seq<nat>, k: nat)
    requires |headers| == |widths| && k < |headers| && |headers[k]| <= widths[k]
    ensures var line, at := RowLine(headers, widths), Offset(widths, k);
      at + |headers[k]| <= |line| && line[at..at + |headers[k]|] == headers[k]
  {
    RowLineAligns(headers, widths, k);
    FittedStarts(headers[k], widths[k]);
    SubSlice(RowLine(headers, widths), Offset(widths, k), widths[k], |headers[k]|);
  }

  lemma FirstLine(headers: seq<string>, rows: seq<seq<string>>, maxWidth: Option<int>)
    requires Rectangular(rows, |headers|)
    ensures Lines(headers, rows, maxWidth)[0] == RowLine(headers, Widths(headers, rows, maxWidth))
  {
  }

  lemma HeadingFits(headers: seq<string>, rows: seq<seq<string>>, maxWidth: int, low: seq<nat>, space: int, k: nat)
    requires Rectangular(rows, |headers|) && k < |headers|
    requires AreLow(low, NaturalWidths(headers, rows), headers) && IsSpace(space, |headers|, maxWidth)
    requires Sum(low) <= space
    ensures |headers[k]| <= Widths(headers, rows, Some(maxWidth))[k]
  {
    ShrunkKeepsLow(NaturalWidths(headers, rows), headers, maxWidth, low, space);
  }

  /** So no heading is cut when the least widths fit the display. */
  lemma {:induction false} HeadingsAreWhole(
      headers: seq<string>, rows: seq<seq<string>>, maxWidth: int, low: seq<nat>, space: int, k: nat)
    returns (widths: seq<nat>, line: string)
    requires Rectangular(rows, |headers|) && k < |headers|
    requires AreLow(low, NaturalWidths(headers, rows), headers) && IsSpace(space, |headers|, maxWidth)
    requires Sum(low) <= space
    ensures widths == Widths(headers, rows, Some(maxWidth)) && line == Lines(headers, rows, Some(maxWidth))[0]
    ensures Offset(widths, k) + |headers[k]| <= |line|
    ensures line[Offset(widths, k)..Offset(widths, k) + |headers[k]|] == headers[k]
  {
    HeadingFits(headers, rows, maxWidth, low, space, k);
    FirstLine(headers, rows, Some(maxWidth));
    widths, line := Widths(headers, rows, Some(maxWidth)), Lines(headers, rows, Some(maxWidth))[0];
    WholeHeading(headers, widths, k);
  }
}
