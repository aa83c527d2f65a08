/** Fitting column widths into a display budget: two greedy algorithms, and what they achieve. */
module TableWidths {
  import opened Numbers
  import opened Results

  // ---------- sums ----------

  function Sum(xs: seq<nat>): nat {
    if xs == [] then 0 else Sum(xs[..|xs| - 1]) + xs[|xs| - 1]
  }

  lemma {:induction false} SumUpdate(xs: seq<nat>, i: nat, x: nat)
    requires i < |xs|
    ensures Sum(xs[i := x]) == Sum(xs) - xs[i] + x
  {
    var ys, n := xs[i := x], |xs| - 1;
    if i == n {
      assert ys[..n] == xs[..n];
    } else {
      SumUpdate(xs[..n], i, x);
      assert ys[..n] == xs[..n][i := x];
    }
  }

  /** A smaller list, element by element, has a smaller sum. */
  lemma {:induction false} SumAtMost(xs: seq<nat>, ys: seq<nat>)
    requires |xs| == |ys| && forall i :: 0 <= i < |xs| ==> xs[i] <= ys[i]
    ensures Sum(xs) <= Sum(ys)
    ensures (exists i :: 0 <= i < |xs| && xs[i] < ys[i]) ==> Sum(xs) < Sum(ys)
  {
    if xs != [] {
      SumAtMost(xs[..|xs| - 1], ys[..|xs| - 1]);
    }
  }

  lemma SumsDiffer(xs: seq<nat>, ys: seq<nat>) returns (i: nat, j: nat)
    requires |xs| == |ys| && Sum(xs) == Sum(ys) && xs != ys
    ensures i < |xs| && xs[i] > ys[i] && j < |xs| && xs[j] < ys[j]
  {
    if forall k :: 0 <= k < |xs| ==> xs[k] <= ys[k] {
      SumAtMost(xs, ys);
    }
    i :| 0 <= i < |xs| && xs[i] > ys[i];
    if forall k :: 0 <= k < |xs| ==> xs[k] >= ys[k] {
      SumAtMost(ys, xs);
    }
    j :| 0 <= j < |xs| && xs[j] < ys[j];
  }

  // ---------- the budget ----------

  function Available(columns: nat, maxWidth: int): int {
    Max(1, maxWidth - 2 * (columns - 1))
  }

  function Minimums(widths: seq<nat>, headers: seq<string>): (r: seq<nat>)
    requires |headers| == |widths|
    ensures |r| == |widths| && forall i :: 0 <= i < |r| ==> r[i] <= widths[i]
  {
    seq(|widths|, i requires 0 <= i < |widths| => Min(Max(|headers[i]|, 3), widths[i]))
  }

  /** How far a column is above its minimum. */
  function Room(width: int, minimum: int): int {
    width - minimum
  }

  // ---------- trimming: the minimums fit ----------

  /** The first column with the most room above its minimum, if any has room. */
  function Roomiest(widths: seq<nat>, minimums: seq<nat>): (r: Option<nat>)
    requires |widths| == |minimums|
    ensures r.None? <==> forall k :: 0 <= k < |widths| ==> widths[k] <= minimums[k]
    ensures r.Some? ==>
      && r.value < |widths| && widths[r.value] > minimums[r.value]
      && (forall k :: 0 <= k < |widths| ==> Room(widths[k], minimums[k]) <= Room(widths[r.value], minimums[r.value]))
      && (forall k :: 0 <= k < r.value ==> Room(widths[k], minimums[k]) < Room(widths[r.value], minimums[r.value]))
  {
    if widths == [] then None
    else
      var n := |widths| - 1;
      var best := Roomiest(widths[..n], minimums[..n]);
      if widths[n] > minimums[n] &&
        (best.None? || Room(widths[n], minimums[n]) > Room(widths[best.value], minimums[best.value]))
      then Some(n) else best
  }

  /** One character at a time off the roomiest column, until the total fits. */
  function Trim(widths: seq<nat>, minimums: seq<nat>, available: int): (r: seq<nat>)
    requires |widths| == |minimums|
    ensures |r| == |widths|
    decreases Sum(widths)
  {
    var roomiest := Roomiest(widths, minimums);
    if Sum(widths) <= available || roomiest.None? then widths
    else
      Trim(Narrower(widths, roomiest.value), minimums, available)
  }

  /** One character off a column. */
  function Narrower(widths: seq<nat>, i: nat): (r: seq<nat>)
    requires i < |widths| && widths[i] > 0
    ensures |r| == |widths| && Sum(r) == Sum(widths) - 1
  {
    SumUpdate(widths, i, widths[i] - 1);
    widths[i := widths[i] - 1]
  }

  ghost predicate Between(low: seq<nat>, xs: seq<nat>, high: seq<nat>) {
    |low| == |xs| == |high| && forall i :: 0 <= i < |xs| ==> low[i] <= xs[i] <= high[i]
  }

  /** No column has more room than a trimmed one but for one character, and that only to its right. */
  ghost predicate Level(xs: seq<nat>, minimums: seq<nat>, natural: seq<nat>)
    requires |xs| == |minimums| == |natural|
  {
    forall i, j :: 0 <= i < |xs| && 0 <= j < |xs| && xs[j] < natural[j] ==>
      Room(xs[i], minimums[i]) <= Room(xs[j], minimums[j]) + (if j < i then 1 else 0)
  }

  /** Taking one character off the first of the roomiest columns keeps the room level. */
  lemma {:induction false} LevelStep(widths: seq<nat>, minimums: seq<nat>, natural: seq<nat>, i: nat)
    requires Between(minimums, widths, natural) && Level(widths, minimums, natural)
    requires i < |widths| && Roomiest(widths, minimums) == Some(i)
    ensures var r := Narrower(widths, i);
      Between(minimums, r, natural) && Level(r, minimums, natural)
  {
    var r := Narrower(widths, i);
    forall k, j | 0 <= k < |r| && 0 <= j < |r| && r[j] < natural[j]
      ensures Room(r[k], minimums[k]) <= Room(r[j], minimums[j]) + (if j < k then 1 else 0)
    {
      assert Room(widths[k], minimums[k]) <= Room(widths[i], minimums[i]);
      assert k < i ==> Room(widths[k], minimums[k]) < Room(widths[i], minimums[i]);
      assert j != i ==> widths[j] < natural[j];
    }
  }

  /** While the minimums fit and the columns do not, some column has room. */
  lemma RoomRemains(widths: seq<nat>, minimums: seq<nat>, available: int)
    requires |widths| == |minimums| && Sum(minimums) <= available < Sum(widths)
    ensures Roomiest(widths, minimums).Some?
  {
    if Roomiest(widths, minimums).None? {
      SumAtMost(widths, minimums);
    }
  }

  lemma TrimStep(widths: seq<nat>, minimums: seq<nat>, available: int) returns (i: nat, next: seq<nat>)
    requires |widths| == |minimums| && available < Sum(widths) && Roomiest(widths, minimums).Some?
    ensures Roomiest(widths, minimums) == Some(i) && i < |widths| && widths[i] > minimums[i]
    ensures next == Narrower(widths, i) && Sum(next) == Sum(widths) - 1
    ensures Trim(widths, minimums, available) == Trim(next, minimums, available)
  {
    i := Roomiest(widths, minimums).value;
    next := Narrower(widths, i);
  }

  /** Trimming keeps every column between its minimum and its natural width, levels the room, and
      meets the budget exactly; it never runs out of columns to trim. */
  lemma {:induction false} TrimLevels(widths: seq<nat>, minimums: seq<nat>, natural: seq<nat>, available: int)
    returns (r: seq<nat>)
    requires Between(minimums, widths, natural) && Level(widths, minimums, natural)
    requires Sum(minimums) <= available && (Sum(widths) >= available || widths == natural)
    ensures r == Trim(widths, minimums, available)
    ensures Between(minimums, r, natural) && Level(r, minimums, natural) && Sum(r) == Min(Sum(natural), available)
    decreases Sum(widths)
  {
    if Sum(widths) > available {
      RoomRemains(widths, minimums, available);
      var i, next := TrimStep(widths, minimums, available);
      LevelStep(widths, minimums, natural, i);
      r := TrimLevels(next, minimums, natural, available);
    } else {
      r := widths;
      SumAtMost(widths, natural);
    }
  }

  /** The three properties leave only one answer. */
  lemma LevelIsUnique(xs: seq<nat>, ys: seq<nat>, minimums: seq<nat>, natural: seq<nat>)
    requires Between(minimums, xs, natural) && Level(xs, minimums, natural)
    requires Between(minimums, ys, natural) && Level(ys, minimums, natural)
    requires Sum(xs) == Sum(ys)
    ensures xs == ys
  {
    if xs != ys {
      var i, j := SumsDiffer(xs, ys);
    }
  }

  /** No other allocation of the same total, up to the natural widths, has a smaller largest room. */
  lemma LevelIsMinimax(xs: seq<nat>, other: seq<nat>, minimums: seq<nat>, natural: seq<nat>, bound: int)
    requires Between(minimums, xs, natural) && Level(xs, minimums, natural)
    requires |other| == |xs| && (forall i :: 0 <= i < |xs| ==> other[i] <= natural[i]) && Sum(other) == Sum(xs)
    requires forall i :: 0 <= i < |xs| ==> Room(other[i], minimums[i]) <= bound
    ensures forall i :: 0 <= i < |xs| ==> Room(xs[i], minimums[i]) <= bound
  {
    if i :| 0 <= i < |xs| && Room(xs[i], minimums[i]) > bound {
      assert forall k :: 0 <= k < |xs| ==> other[k] <= xs[k];
      assert other[i] < xs[i];
      SumAtMost(other, xs);
    }
  }

  // ---------- compressing: the minimums do not fit ----------

  predicate Indices(order: seq<nat>, n: nat) {
    forall a :: 0 <= a < |order| ==> order[a] < n
  }

  /** `i` comes before `j` in a stable sort by width, widest first. */
  predicate Precedes(i: nat, j: nat, widths: seq<nat>) {
    i < |widths| && j < |widths| && (widths[i] > widths[j] || (widths[i] == widths[j] && i < j))
  }

  function Placed(i: nat, order: seq<nat>, widths: seq<nat>): seq<nat>
    requires i < |widths| && Indices(order, |widths|)
  {
    if order == [] then [i]
    else if widths[order[0]] < widths[i] then [i] + order
    else [order[0]] + Placed(i, order[1..], widths)
  }

  function WidestFirst(widths: seq<nat>, n: nat): (order: seq<nat>)
    requires n <= |widths|
    ensures Indices(order, n) && InOrder(order, widths)
    ensures forall k: nat :: k < n ==> k in order
  {
    if n == 0 then []
    else
      PlacedInOrder(n - 1, WidestFirst(widths, n - 1), widths);
      Placed(n - 1, WidestFirst(widths, n - 1), widths)
  }

  ghost predicate InOrder(order: seq<nat>, widths: seq<nat>) {
    forall a, b :: 0 <= a < b < |order| ==> Precedes(order[a], order[b], widths)
  }

  lemma InOrderCons(first: nat, rest: seq<nat>, widths: seq<nat>)
    requires InOrder(rest, widths) && forall b :: 0 <= b < |rest| ==> Precedes(first, rest[b], widths)
    ensures InOrder([first] + rest, widths)
  {
  }

  lemma {:induction false} PlacedContents(i: nat, order: seq<nat>, widths: seq<nat>)
    requires i < |widths| && Indices(order, |widths|)
    ensures forall k :: k in Placed(i, order, widths) <==> k == i || k in order
  {
    if order != [] {
      assert order == [order[0]] + order[1..];
      PlacedContents(i, order[1..], widths);
    }
  }

  lemma {:induction false} PlacedInOrder(i: nat, order: seq<nat>, widths: seq<nat>)
    requires i < |widths| && Indices(order, i) && InOrder(order, widths)
    ensures InOrder(Placed(i, order, widths), widths) && Indices(Placed(i, order, widths), i + 1)
    ensures forall k :: k in Placed(i, order, widths) <==> k == i || k in order
  {
    PlacedContents(i, order, widths);
    var all := Placed(i, order, widths);
    assert forall a :: 0 <= a < |all| ==> all[a] in all;
    if order != [] {
      var first, rest := order[0], order[1..];
      assert forall b :: 0 < b < |order| ==> Precedes(order[0], order[b], widths);
      if widths[first] >= widths[i] {
        PlacedInOrder(i, rest, widths);
        var placed := Placed(i, rest, widths);
        forall b | 0 <= b < |placed|
          ensures Precedes(first, placed[b], widths)
        {
          assert placed[b] in placed;
          assert placed[b] == i || placed[b] in rest;
        }
        InOrderCons(first, placed, widths);
      } else {
        assert forall b :: 0 <= b < |order| ==> Precedes(i, order[b], widths);
        InOrderCons(i, order, widths);
      }
    }
  }

  /** Gives the columns what is left of the budget, up to their caps, in order. */
  function Fill(xs: seq<nat>, order: seq<nat>, caps: seq<nat>, remaining: int): (r: seq<nat>)
    requires |xs| == |caps| && Indices(order, |xs|)
    ensures |r| == |xs|
    decreases |order|
  {
    if order == [] || remaining <= 0 then xs
    else
      var growth := Min(Max(0, Room(caps[order[0]], xs[order[0]])), remaining);
      Fill(xs[order[0] := xs[order[0]] + growth], order[1..], caps, remaining - growth)
  }

  /** Every column gets at least one character. */
  function Compress(widths: seq<nat>, minimums: seq<nat>, available: int): (r: seq<nat>)
    requires |widths| == |minimums|
    ensures |r| == |widths|
  {
    Fill(seq(|widths|, i => 1), WidestFirst(widths, |widths|), minimums, Max(0, available - |widths|))
  }

  /** A column that may not grow keeps its one character. */
  function Full(cap: nat): nat {
    Max(1, cap)
  }

  ghost predicate AllFull(xs: seq<nat>, order: seq<nat>, caps: seq<nat>)
    requires |xs| == |caps| && Indices(order, |xs|)
  {
    forall a :: 0 <= a < |order| ==> xs[order[a]] == Full(caps[order[a]])
  }

  /** A column grows only when every column before it is full. */
  ghost predicate Greedy(xs: seq<nat>, order: seq<nat>, caps: seq<nat>)
    requires |xs| == |caps| && Indices(order, |xs|)
  {
    && (forall a :: 0 <= a < |order| ==> 1 <= xs[order[a]] <= Full(caps[order[a]]))
    && forall a, b :: 0 <= a < b < |order| && xs[order[b]] > 1 ==> xs[order[a]] == Full(caps[order[a]])
  }

  /** Fresh columns, each once. */
  ghost predicate Untouched(xs: seq<nat>, order: seq<nat>) {
    && Indices(order, |xs|)
    && (forall a :: 0 <= a < |order| ==> xs[order[a]] == 1)
    && forall a, b :: 0 <= a < b < |order| ==> order[a] != order[b]
  }

  lemma UntouchedRest(xs: seq<nat>, order: seq<nat>, x: nat)
    requires Untouched(xs, order) && order != []
    ensures Untouched(xs[order[0] := x], order[1..])
    ensures order[0] !in order[1..]
  {
  }

  lemma {:induction false} FillLeavesOthers(xs: seq<nat>, order: seq<nat>, caps: seq<nat>, remaining: int, k: nat)
    requires |xs| == |caps| && Indices(order, |xs|) && k < |xs| && k !in order
    ensures Fill(xs, order, caps, remaining)[k] == xs[k]
    decreases |order|
  {
    if order != [] && remaining > 0 {
      var growth := Min(Max(0, Room(caps[order[0]], xs[order[0]])), remaining);
      FillLeavesOthers(xs[order[0] := xs[order[0]] + growth], order[1..], caps, remaining - growth, k);
    }
  }

  lemma GreedyCons(r: seq<nat>, order: seq<nat>, caps: seq<nat>)
    requires |r| == |caps| && Indices(order, |r|) && order != [] && Greedy(r, order[1..], caps)
    requires 1 <= r[order[0]] <= Full(caps[order[0]])
    requires r[order[0]] == Full(caps[order[0]]) || forall a :: 0 <= a < |order[1..]| ==> r[order[1..][a]] == 1
    ensures Greedy(r, order, caps)
  {
    var rest := order[1..];
    assert forall b :: 0 < b < |order| ==> order[b] == rest[b - 1];
  }

  lemma {:induction false} FillIsGreedy(xs: seq<nat>, order: seq<nat>, caps: seq<nat>, remaining: nat)
    returns (r: seq<nat>)
    requires |xs| == |caps| && Untouched(xs, order)
    ensures r == Fill(xs, order, caps, remaining) && Greedy(r, order, caps)
    decreases |order|
  {
    r := xs;
    if order != [] && remaining > 0 {
      var growth := Min(Max(0, Room(caps[order[0]], 1)), remaining);
      var grown := xs[order[0] := 1 + growth];
      UntouchedRest(xs, order, 1 + growth);
      r := FillIsGreedy(grown, order[1..], caps, remaining - growth);
      FillLeavesOthers(grown, order[1..], caps, remaining - growth, order[0]);
      GreedyCons(r, order, caps);
    }
  }

  /** All of the budget is given out, unless every column is full before. */
  lemma {:induction false} FillSpends(xs: seq<nat>, order: seq<nat>, caps: seq<nat>, remaining: nat)
    requires |xs| == |caps| && Untouched(xs, order)
    ensures var r := Fill(xs, order, caps, remaining);
      Sum(r) == Sum(xs) + remaining || (Sum(r) <= Sum(xs) + remaining && AllFull(r, order, caps))
    decreases |order|
  {
    if order != [] && remaining > 0 {
      var growth := Min(Max(0, Room(caps[order[0]], 1)), remaining);
      var grown := xs[order[0] := 1 + growth];
      UntouchedRest(xs, order, 1 + growth);
      SumUpdate(xs, order[0], 1 + growth);
      FillSpends(grown, order[1..], caps, remaining - growth);
      FillLeavesOthers(grown, order[1..], caps, remaining - growth, order[0]);
      AllFullCons(Fill(grown, order[1..], caps, remaining - growth), order, caps);
    }
  }

  lemma AllFullCons(r: seq<nat>, order: seq<nat>, caps: seq<nat>)
    requires |r| == |caps| && Indices(order, |r|) && order != []
    ensures AllFull(r, order, caps) <==> r[order[0]] == Full(caps[order[0]]) && AllFull(r, order[1..], caps)
  {
    var rest := order[1..];
    assert forall b :: 0 < b < |order| ==> order[b] == rest[b - 1];
  }

  lemma {:induction false} SumOfOnes(n: nat)
    ensures Sum(seq(n, i => 1)) == n
  {
    if n > 0 {
      SumOfOnes(n - 1);
      assert seq(n, i => 1)[..n - 1] == seq(n - 1, i => 1);
    }
  }

  /** When the minimums do not fit, every column gets at least one character, the total is exactly the
      budget, or one each when the budget is even smaller, and wider columns are filled first. */
  lemma CompressIsGreedy(widths: seq<nat>, minimums: seq<nat>, available: int) returns (r: seq<nat>)
    requires |widths| == |minimums| && available < Sum(minimums)
    ensures r == Compress(widths, minimums, available)
    ensures Sum(r) == Max(|widths|, available)
    ensures forall i :: 0 <= i < |r| ==> 1 <= r[i] <= Full(minimums[i])
    ensures forall i, j :: 0 <= i < |r| && 0 <= j < |r| && Precedes(i, j, widths) && r[j] > 1 ==>
      r[i] == Full(minimums[i])
  {
    var ones, order := seq(|widths|, i => 1), WidestFirst(widths, |widths|);
    var remaining := Max(0, available - |widths|);
    SumOfOnes(|widths|);
    r := FillIsGreedy(ones, order, minimums, remaining);
    FillSpends(ones, order, minimums, remaining);
    GreedyByWidth(r, order, minimums, widths);
    if AllFull(r, order, minimums) {
      FullCoversMinimums(r, order, minimums);
    }
  }

  lemma FullCoversMinimums(r: seq<nat>, order: seq<nat>, minimums: seq<nat>)
    requires |r| == |minimums| && Indices(order, |r|) && AllFull(r, order, minimums)
    requires forall k: nat :: k < |r| ==> k in order
    ensures Sum(minimums) <= Sum(r)
  {
    forall i | 0 <= i < |r|
      ensures minimums[i] <= r[i]
    {
      assert i in order;
      var a :| 0 <= a < |order| && order[a] == i;
    }
    SumAtMost(minimums, r);
  }

  lemma GreedyByWidth(r: seq<nat>, order: seq<nat>, minimums: seq<nat>, widths: seq<nat>)
    requires |r| == |minimums| == |widths| && Indices(order, |r|)
    requires Greedy(r, order, minimums) && InOrder(order, widths)
    requires forall k: nat :: k < |r| ==> k in order
    ensures forall i :: 0 <= i < |r| ==> 1 <= r[i] <= Full(minimums[i])
    ensures forall i, j :: 0 <= i < |r| && 0 <= j < |r| && Precedes(i, j, widths) && r[j] > 1 ==>
      r[i] == Full(minimums[i])
  {
    forall i | 0 <= i < |r|
      ensures 1 <= r[i] <= Full(minimums[i])
    {
      assert i in order;
      var a :| 0 <= a < |order| && order[a] == i;
    }
    forall i, j | 0 <= i < |r| && 0 <= j < |r| && Precedes(i, j, widths) && r[j] > 1
      ensures r[i] == Full(minimums[i])
    {
      assert i in order && j in order;
      var a :| 0 <= a < |order| && order[a] == i;
      var b :| 0 <= b < |order| && order[b] == j;
      OrderedPair(order, widths, b, a);
    }
  }

  lemma OrderedPair(order: seq<nat>, widths: seq<nat>, a: nat, b: nat)
    requires InOrder(order, widths) && a < |order| && b < |order|
    ensures a < b ==> Precedes(order[a], order[b], widths)
  {
  }

  /** Filling the widest first, with that total, leaves only one answer. */
  lemma {:induction false} CompressedIsUnique(xs: seq<nat>, ys: seq<nat>, minimums: seq<nat>, widths: seq<nat>)
    requires |xs| == |ys| == |minimums| == |widths| && Sum(xs) == Sum(ys)
    requires forall i :: 0 <= i < |xs| ==> 1 <= xs[i] <= Full(minimums[i]) && 1 <= ys[i] <= Full(minimums[i])
    requires forall i, j :: 0 <= i < |xs| && 0 <= j < |xs| && Precedes(i, j, widths) && xs[j] > 1 ==>
      xs[i] == Full(minimums[i])
    requires forall i, j :: 0 <= i < |ys| && 0 <= j < |ys| && Precedes(i, j, widths) && ys[j] > 1 ==>
      ys[i] == Full(minimums[i])
    ensures xs == ys
  {
    if xs != ys {
      var i, j := SumsDiffer(xs, ys);
    }
  }

  // ---------- shrinking ----------

  /** `shrink_table_widths` */
  function Shrunk(widths: seq<nat>, headers: seq<string>, maxWidth: int): (r: seq<nat>)
    requires |headers| == |widths|
    ensures |r| == |widths|
  {
    var available, minimums := Available(|widths|, maxWidth), Minimums(widths, headers);
    if widths == [] then widths
    else if available < Sum(minimums) then Compress(widths, minimums, available)
    else Trim(widths, minimums, available)
  }

  /** When the minimums fit: between minimum and natural width, level, and exactly the budget or the
      natural total. */
  lemma ShrunkWhenMinimumsFit(widths: seq<nat>, headers: seq<string>, maxWidth: int)
    requires |headers| == |widths| && widths != [] && Sum(Minimums(widths, headers)) <= Available(|widths|, maxWidth)
    ensures var r, minimums := Shrunk(widths, headers, maxWidth), Minimums(widths, headers);
      && Between(minimums, r, widths) && Level(r, minimums, widths)
      && Sum(r) == Min(Sum(widths), Available(|widths|, maxWidth))
  {
    var minimums, available := Minimums(widths, headers), Available(|widths|, maxWidth);
    var r := TrimLevels(widths, minimums, widths, available);
  }

  /** The total with separators, in each case. */
  lemma {:induction false} ShrunkTotal(widths: seq<nat>, headers: seq<string>, maxWidth: int)
    requires |headers| == |widths| && widths != []
    ensures var total, available := Sum(Shrunk(widths, headers, maxWidth)), Available(|widths|, maxWidth);
      && (total == if available < Sum(Minimums(widths, headers))
        then Max(|widths|, available) else Min(Sum(widths), available))
      && (maxWidth >= 3 * |widths| - 2 ==> total + 2 * (|widths| - 1) <= maxWidth)
  {
    if Available(|widths|, maxWidth) < Sum(Minimums(widths, headers)) {
      var r := CompressIsGreedy(widths, Minimums(widths, headers), Available(|widths|, maxWidth));
    } else {
      ShrunkWhenMinimumsFit(widths, headers, maxWidth);
    }
  }

  /** Columns that fit are left as they are. */
  lemma FittingIsUnchanged(widths: seq<nat>, headers: seq<string>, maxWidth: int)
    requires |headers| == |widths| && Sum(widths) <= Available(|widths|, maxWidth)
    ensures Shrunk(widths, headers, maxWidth) == widths
  {
    SumAtMost(Minimums(widths, headers), widths);
  }

  method CompressWidths(widths: seq<nat>, minimums: seq<nat>, available: int) returns (compressed: seq<nat>)
    requires |widths| == |minimums|
    ensures compressed == Compress(widths, minimums, available)
  {
    compressed := seq(|widths|, i => 1);
    var remaining := Max(0, available - |widths|);
    var order := WidestFirst(widths, |widths|);
    assert order[0..] == order;
    for k := 0 to |order|
      invariant |compressed| == |widths|
      invariant Fill(compressed, order[k..], minimums, remaining) == Compress(widths, minimums, available)
    {
      assert order[k..][0] == order[k] && order[k..][1..] == order[k + 1..];
      if remaining <= 0 {
        break;
      }
      var room := Max(0, Room(minimums[order[k]], compressed[order[k]]));
      var growth := Min(room, remaining);
      compressed := compressed[order[k] := compressed[order[k]] + growth];
      remaining := remaining - growth;
    }
  }

  /** The loop's body: there is always a candidate to trim. */
  method TrimOnce(widths: seq<nat>, minimums: seq<nat>, available: int) returns (shrunk: seq<nat>)
    requires |widths| == |minimums| && Sum(minimums) <= available < Sum(widths)
    ensures |shrunk| == |widths| && Sum(shrunk) == Sum(widths) - 1
    ensures Trim(shrunk, minimums, available) == Trim(widths, minimums, available)
  {
    RoomRemains(widths, minimums, available);
    var index := Roomiest(widths, minimums).value;
    ghost var i, next := TrimStep(widths, minimums, available);
    shrunk := Narrower(widths, index);
  }

  lemma TrimDone(widths: seq<nat>, minimums: seq<nat>, available: int)
    requires |widths| == |minimums| && Sum(widths) <= available
    ensures Trim(widths, minimums, available) == widths
  {
  }

  /** The loop ends by its condition only. */
  method TrimWidths(widths: seq<nat>, minimums: seq<nat>, available: int) returns (shrunk: seq<nat>)
    requires |widths| == |minimums| && Sum(minimums) <= available
    ensures shrunk == Trim(widths, minimums, available)
  {
    ghost var goal := Trim(widths, minimums, available);
    shrunk := widths;
    while Sum(shrunk) > available
      invariant |shrunk| == |widths|
      invariant Trim(shrunk, minimums, available) == goal
      decreases Sum(shrunk)
    {
      shrunk := TrimOnce(shrunk, minimums, available);
    }
    TrimDone(shrunk, minimums, available);
  }

  method ShrinkTableWidths(widths: seq<nat>, headers: seq<string>, maxWidth: int) returns (shrunk: seq<nat>)
    requires |headers| == |widths|
    ensures shrunk == Shrunk(widths, headers, maxWidth)
  {
    if widths == [] {
      return widths;
    }
    var available, minimums := Available(|widths|, maxWidth), Minimums(widths, headers);
    if available < Sum(minimums) {
      shrunk := CompressWidths(widths, minimums, available);
    } else {
      shrunk := TrimWidths(widths, minimums, available);
    }
  }
}
