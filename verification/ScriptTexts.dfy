/** Which lines of a script go on, and which commands its lines hold, told line by line. */
module ScriptTexts {
  import opened Text
  import opened QuoteScan
  import opened CommandSequence
  import opened Scripts

  // ---------- lines that go on ----------

  predicate Backslashes(s: string) {
    forall i :: 0 <= i < |s| ==> s[i] == '\\'
  }

  lemma {:induction false} BackslashesAtEnd(body: string, run: string)
    requires Backslashes(run) && (body == "" || body[|body| - 1] != '\\')
    ensures TrailingBackslashes(body + run) == |run|
  {
    if run == "" {
      assert body + run == body;
    } else {
      var front := run[..|run| - 1];
      BackslashesAtEnd(body, front);
      assert (body + run)[..|body + run| - 1] == body + front;
    }
  }

  /** A line goes on when it ends, whitespace aside, in an odd number of backslashes; it loses the last. */
  lemma {:induction false} ContinuationMeans(body: string, run: string, right: string)
    requires Backslashes(run) && AllSpace(right)
    requires body != "" ==> body[|body| - 1] != '\\' && (run == "" ==> !IsSpace(body[|body| - 1]))
    ensures HasContinuation(body + run + right) <==> |run| % 2 == 1
    ensures |run| % 2 == 1 ==> RemoveContinuation(body + run + right) == body + run[..|run| - 1]
  {
    var text := body + run;
    RStripDrops(text, right);
    assert run != "" ==> text[|text| - 1] == run[|run| - 1];
    assert run == "" ==> text == body;
    assert RStrip(text) == text;
    BackslashesAtEnd(body, run);
    assert run != "" ==> text[..|text| - 1] == body + run[..|run| - 1];
  }

  // ---------- the commands of a script ----------

  /** A line without its comment and the whitespace at its end. */
  function Bare(raw: string): string {
    RStrip(WithoutComment(raw, Unquoted))
  }

  predicate GoesOn(raw: string) {
    HasContinuation(Bare(raw))
  }

  function Contribution(raw: string): string {
    if GoesOn(raw) then RemoveContinuation(Bare(raw)) else Bare(raw)
  }

  function Contributions(raws: seq<string>): (r: seq<string>)
    ensures |r| == |raws|
  {
    if raws == [] then [] else Contributions(raws[..|raws| - 1]) + [Contribution(raws[|raws| - 1])]
  }

  function Later(commands: seq<Command>, n: nat): seq<Command> {
    if commands == [] then [] else [Command(commands[0].number + n, commands[0].text)] + Later(commands[1..], n)
  }

  lemma {:induction false} LaterConcat(a: seq<Command>, b: seq<Command>, n: nat)
    ensures Later(a + b, n) == Later(a, n) + Later(b, n)
  {
    if a == [] {
      assert a + b == b;
    } else {
      assert (a + b)[1..] == a[1..] + b;
      LaterConcat(a[1..], b, n);
    }
  }

  lemma {:induction false} LaterFirst(first: Command, rest: seq<Command>, n: nat)
    ensures Later([first] + rest, n) == [Command(first.number + n, first.text)] + Later(rest, n)
  {
    assert ([first] + rest)[1..] == rest;
  }

  lemma {:induction false} NumberedLater(number: nat, texts: seq<string>, n: nat)
    ensures Numbered(number + n, texts) == Later(Numbered(number, texts), n)
  {
    if texts != [] {
      NumberedLater(number, texts[1..], n);
      LaterFirst(Command(number, texts[0]), Numbered(number, texts[1..]), n);
    }
  }

  lemma {:induction false} CommandsOfFirst(g: Group, rest: seq<Group>)
    requires g.lines != []
    ensures CommandsOf([g] + rest) == LogicalCommands(g) + CommandsOf(rest)
  {
    var all := [g] + rest;
    if rest == [] {
      assert all[..0] == [] && all[0] == g;
    } else {
      var front := rest[..|rest| - 1];
      CommandsOfFirst(g, front);
      assert all[..|all| - 1] == [g] + front && all[|all| - 1] == rest[|rest| - 1];
      Associative(LogicalCommands(g), CommandsOf(front),
        if rest[|rest| - 1].lines == [] then [] else LogicalCommands(rest[|rest| - 1]));
    }
  }

  lemma {:induction false} GroupLater(number: nat, n: nat, lines: seq<Physical>)
    requires lines != []
    ensures LogicalCommands(Group(number + n, lines)) == Later(LogicalCommands(Group(number, lines)), n)
  {
    NumberedLater(number, SplitParts(Logical(Contents(lines)), SEMICOLON), n);
  }

  lemma {:induction false} FirstGroupLater(number: nat, n: nat, lines: seq<Physical>, rest: seq<Group>,
      later: seq<Group>)
    requires lines != [] && CommandsOf(later) == Later(CommandsOf(rest), n)
    ensures CommandsOf([Group(number + n, lines)] + later) == Later(CommandsOf([Group(number, lines)] + rest), n)
  {
    CommandsOfFirst(Group(number, lines), rest);
    CommandsOfFirst(Group(number + n, lines), later);
    GroupLater(number, n, lines);
    LaterConcat(LogicalCommands(Group(number, lines)), CommandsOf(rest), n);
  }

  lemma {:induction false} GroupsLater(lines: seq<Physical>, number: nat, n: nat)
    ensures CommandsOf(Groups(lines, number + n)) == Later(CommandsOf(Groups(lines, number)), n)
    decreases |lines|
  {
    if lines == [] {
    } else if lines[0].blank {
      GroupsLater(lines[1..], number + 1, n);
    } else {
      var k := Extent(lines);
      var rest := lines[k..];
      GroupsLater(rest, number + k, n);
      FirstGroup(lines, number, k);
      FirstGroup(lines, number + n, k);
      assert number + n + k == number + k + n;
      FirstGroupLater(number, n, lines[..k], Groups(rest, number + k), Groups(rest, number + k + n));
    }
  }

  lemma {:induction false} ScriptLinesConcat(a: seq<string>, b: seq<string>)
    ensures ScriptLines(a + b) == ScriptLines(a) + ScriptLines(b)
  {
  }

  lemma {:induction false} ContentsAre(raws: seq<string>)
    ensures Contents(ScriptLines(raws)) == Contributions(raws)
  {
    if raws != [] {
      var front := raws[..|raws| - 1];
      ContentsAre(front);
      assert ScriptLines(raws)[..|raws| - 1] == ScriptLines(front);
    }
  }

  /** A blank line at the start of a script only counts as a line. */
  lemma {:induction false} BlankLineFirst(raw: string, rest: seq<string>)
    requires Strip(Bare(raw)) == ""
    ensures Commands([raw] + rest) == Later(Commands(rest), 1)
  {
    ScriptLinesConcat([raw], rest);
    var lines := ScriptLines([raw] + rest);
    assert lines[0].blank && lines[1..] == ScriptLines(rest);
    GroupsLater(ScriptLines(rest), 1, 1);
  }

  lemma {:induction false} GroupsOfFirst(first: seq<Physical>, rest: seq<Physical>, lines: seq<Physical>)
    requires first != [] && !first[0].blank && forall i :: 0 <= i < |first| - 1 ==> first[i].continued
    requires rest == [] || !first[|first| - 1].continued
    requires lines == first + rest
    ensures Groups(lines, 1) == [Group(1, first)] + Groups(rest, 1 + |first|)
  {
    assert lines[..|first|] == first && lines[|first|..] == rest;
    assert forall i :: 0 <= i < |first| ==> lines[i] == first[i];
    ExtentIs(lines, |first|);
    FirstGroup(lines, 1, |first|);
  }

  lemma {:induction false} FirstCommands(first: seq<Physical>, rest: seq<Physical>)
    requires first != [] && !first[0].blank && forall i :: 0 <= i < |first| - 1 ==> first[i].continued
    requires rest == [] || !first[|first| - 1].continued
    ensures CommandsOf(Groups(first + rest, 1)) ==
      LogicalCommands(Group(1, first)) + Later(CommandsOf(Groups(rest, 1)), |first|)
  {
    GroupsOfFirst(first, rest, first + rest);
    CommandsOfFirst(Group(1, first), Groups(rest, 1 + |first|));
    GroupsLater(rest, 1, |first|);
  }

  lemma {:induction false} FirstLines(raws: seq<string>)
    requires raws != [] && Strip(Bare(raws[0])) != "" && forall i :: 0 <= i < |raws| - 1 ==> GoesOn(raws[i])
    ensures var lines := ScriptLines(raws);
      && !lines[0].blank && (forall i :: 0 <= i < |raws| - 1 ==> lines[i].continued)
      && lines[|raws| - 1].continued == GoesOn(raws[|raws| - 1])
  {
  }

  /** Lines that go on and the one after them make one logical line: joined by line breaks, stripped and cut at
      semicolons, its commands carry the number of its first line. The other lines are read on their own. */
  lemma {:induction false} LogicalLineFirst(raws: seq<string>, rest: seq<string>)
    requires raws != [] && Strip(Bare(raws[0])) != ""
    requires forall i :: 0 <= i < |raws| - 1 ==> GoesOn(raws[i])
    requires rest == [] || !GoesOn(raws[|raws| - 1])
    ensures Commands(raws + rest) ==
      Numbered(1, SplitParts(Strip(JoinFields(Contributions(raws), '\n')), {';'})) + Later(Commands(rest), |raws|)
  {
    ScriptLinesConcat(raws, rest);
    FirstLines(raws);
    FirstCommands(ScriptLines(raws), ScriptLines(rest));
    ContentsAre(raws);
    Semicolon();
  }

  lemma {:induction false} Semicolon()
    ensures SEMICOLON == {';'}
  {
  }

  /** A script without lines holds no command. */
  lemma {:induction false} NoLines()
    ensures Commands([]) == []
  {
  }
}
