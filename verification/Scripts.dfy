/** Script files and continued lines: which commands a script holds, and which of them reach their
    handler as one command. */
module Scripts {
  import opened Text
  import opened QuoteScan
  import opened SplitLaws
  import opened CommandSequence
  import opened ReplDispatch

  // ---------- continuations ----------

  function TrailingBackslashes(s: string): nat {
    if s != "" && s[|s| - 1] == '\\' then 1 + TrailingBackslashes(s[..|s| - 1]) else 0
  }

  /** `line_has_continuation` */
  predicate HasContinuation(line: string) {
    TrailingBackslashes(RStrip(line)) % 2 == 1
  }

  /** `remove_line_continuation` */
  function RemoveContinuation(line: string): string {
    var stripped := RStrip(line);
    if stripped == "" then "" else stripped[..|stripped| - 1]
  }

  /** A physical line: what it adds to its logical line, and whether that goes on. */
  datatype Physical = Physical(content: string, blank: bool, continued: bool)

  function PhysicalLine(line: string): Physical {
    var continued := HasContinuation(line);
    Physical(if continued then RemoveContinuation(line) else line, Strip(line) == "", continued)
  }

  /** The text of a command, in a script and at the prompt. */
  function Logical(contents: seq<string>): string
    requires contents != []
  {
    Strip(JoinFields(contents, '\n'))
  }

  // ---------- the commands of a script ----------

  function Contents(lines: seq<Physical>): (r: seq<string>)
    ensures |r| == |lines|
  {
    if lines == [] then [] else Contents(lines[..|lines| - 1]) + [lines[|lines| - 1].content]
  }

  /** How many physical lines the logical line has that begins here. */
  function Extent(lines: seq<Physical>): (n: nat)
    requires lines != []
    ensures 0 < n <= |lines|
  {
    if lines[0].continued && |lines| > 1 then 1 + Extent(lines[1..]) else 1
  }

  /** Consecutive physical lines that make one logical line, and the number of the first. */
  datatype Group = Group(number: nat, lines: seq<Physical>)

  /** The logical lines of a script; blank lines between them are skipped. */
  function Groups(lines: seq<Physical>, number: nat): seq<Group>
    decreases |lines|
  {
    if lines == [] then []
    else if lines[0].blank then Groups(lines[1..], number + 1)
    else
      var n := Extent(lines);
      [Group(number, lines[..n])] + Groups(lines[n..], number + n)
  }

  datatype Command = Command(number: nat, text: string)

  function Numbered(number: nat, texts: seq<string>): (r: seq<Command>)
    ensures forall c :: c in r ==> c.text in texts
  {
    if texts == [] then [] else [Command(number, texts[0])] + Numbered(number, texts[1..])
  }

  const SEMICOLON: set<char> := SequenceSeparators(false)

  function LogicalCommands(g: Group): seq<Command>
    requires g.lines != []
  {
    Numbered(g.number, SplitParts(Logical(Contents(g.lines)), SEMICOLON))
  }

  function CommandsOf(groups: seq<Group>): seq<Command> {
    if groups == [] then []
    else
      var last := groups[|groups| - 1];
      CommandsOf(groups[..|groups| - 1]) +
      (if last.lines == [] then [] else LogicalCommands(last))
  }

  function ScriptLine(raw: string): Physical {
    PhysicalLine(RStrip(WithoutComment(raw, Unquoted)))
  }

  function ScriptLines(raws: seq<string>): (r: seq<Physical>)
    ensures |r| == |raws| && forall i :: 0 <= i < |r| ==> r[i] == ScriptLine(raws[i])
  {
    seq(|raws|, i requires 0 <= i < |raws| => ScriptLine(raws[i]))
  }

  /** The commands of a script's lines, each with the number of its logical line. */
  function Commands(raws: seq<string>): seq<Command> {
    CommandsOf(Groups(ScriptLines(raws), 1))
  }

  // ---------- the loop ----------

  /** The logical lines found so far, and the physical lines that wait for the rest of theirs. */
  datatype Scan = Scan(done: seq<Group>, pending: seq<Physical>)

  function NextScan(s: Scan, i: nat, line: Physical): Scan
    requires |s.pending| <= i
  {
    if s.pending == [] && line.blank then s
    else if line.continued then s.(pending := s.pending + [line])
    else Scan(s.done + [Group(i + 1 - |s.pending|, s.pending + [line])], [])
  }

  function ScanTo(lines: seq<Physical>, i: nat): (s: Scan)
    requires i <= |lines|
    ensures |s.pending| <= i
  {
    if i == 0 then Scan([], []) else NextScan(ScanTo(lines, i - 1), i - 1, lines[i - 1])
  }

  /** What the loop holds after `i` lines. */
  ghost predicate Holding(lines: seq<Physical>, i: nat, commands: seq<Command>, buffer: seq<string>, start: nat)
    requires i <= |lines|
  {
    var s := ScanTo(lines, i);
    && commands == CommandsOf(s.done) && buffer == Contents(s.pending)
    && (buffer != [] ==> start == i + 1 - |buffer|)
  }

  method ScriptCommands(raws: seq<string>) returns (commands: seq<Command>)
    ensures commands == Commands(raws)
  {
    ghost var lines := ScriptLines(raws);
    commands := [];
    var buffer: seq<string>, start := [], 0;
    NothingHeld(lines);
    for i := 0 to |raws|
      invariant Holding(lines, i, commands, buffer, start)
    {
      var line := ReadPhysicalLine(raws, i);
      if buffer == [] && line.blank {
        BlankLine(lines, i, line, commands, start);
        continue;
      }
      if buffer == [] {
        start := i + 1;
      }
      ghost var pending := LineWaits(lines, i, line, commands, buffer, start);
      buffer := buffer + [line.content];
      if line.continued {
        continue;
      }
      ghost var done := ScanTo(lines, i).done;
      commands := RunLogicalLine(commands, done, start, buffer, pending);
      LineEnds(lines, i, line, commands, pending, start);
      buffer := [];
    }
    commands := LastLogicalLine(lines, commands, buffer, start);
  }

  /** The script may end with a continued line. */
  method LastLogicalLine(ghost lines: seq<Physical>, commands: seq<Command>, buffer: seq<string>, start: nat)
    returns (r: seq<Command>)
    requires Holding(lines, |lines|, commands, buffer, start)
    ensures r == CommandsOf(Groups(lines, 1))
  {
    ghost var done, pending := ScanEnds(lines, commands, buffer, start);
    r := commands;
    if buffer != [] {
      r := RunLogicalLine(commands, done, start, buffer, pending);
    }
  }

  method ReadPhysicalLine(raws: seq<string>, i: nat) returns (p: Physical)
    requires i < |raws|
    ensures p == ScriptLines(raws)[i]
  {
    var bare := StripInlineComment(raws[i]);
    var line := RStrip(bare);
    var continued := HasContinuation(line);
    p := Physical(if continued then RemoveContinuation(line) else line, Strip(line) == "", continued);
  }

  /** The end of a logical line: it is joined and split, and its commands are listed. */
  method RunLogicalLine(commands: seq<Command>, ghost done: seq<Group>, start: nat, buffer: seq<string>,
      ghost lines: seq<Physical>)
    returns (r: seq<Command>)
    requires commands == CommandsOf(done) && buffer != [] && buffer == Contents(lines)
    ensures r == CommandsOf(done + [Group(start, lines)])
  {
    var texts := SplitCommandSequence(Strip(JoinFields(buffer, '\n')), false);
    r := commands + Numbered(start, texts);
    ghost var more := done + [Group(start, lines)];
    assert more[..|more| - 1] == done;
  }

  lemma NothingHeld(lines: seq<Physical>)
    ensures Holding(lines, 0, [], [], 0)
  {
  }

  lemma BlankLine(lines: seq<Physical>, i: nat, line: Physical, commands: seq<Command>, start: nat)
    requires i < |lines| && line == lines[i] && line.blank && Holding(lines, i, commands, [], start)
    ensures Holding(lines, i + 1, commands, [], start)
  {
  }

  /** The line joins the buffer, where it stays if it is continued. */
  lemma LineWaits(lines: seq<Physical>, i: nat, line: Physical, commands: seq<Command>, buffer: seq<string>,
      start: nat) returns (pending: seq<Physical>)
    requires i < |lines| && line == lines[i] && Holding(lines, i, commands, buffer, start)
    requires buffer == [] ==> !line.blank && start == i + 1
    ensures pending == ScanTo(lines, i).pending + [line] && buffer + [line.content] == Contents(pending)
    ensures start == i + 2 - |pending| && commands == CommandsOf(ScanTo(lines, i).done)
    ensures ScanTo(lines, i).pending != [] || !line.blank
    ensures line.continued ==> Holding(lines, i + 1, commands, buffer + [line.content], start)
  {
    pending := ScanTo(lines, i).pending + [line];
    assert pending[..|pending| - 1] == ScanTo(lines, i).pending;
  }

  lemma {:induction false} LineEnds(lines: seq<Physical>, i: nat, line: Physical, commands: seq<Command>,
      pending: seq<Physical>, start: nat)
    requires i < |lines| && line == lines[i] && !line.continued
    requires ScanTo(lines, i).pending != [] || !line.blank
    requires pending == ScanTo(lines, i).pending + [line] && start == i + 2 - |pending|
    requires commands == CommandsOf(ScanTo(lines, i).done + [Group(start, pending)])
    ensures Holding(lines, i + 1, commands, [], start)
  {
  }

  // ---------- the loop finds the logical lines ----------

  lemma {:induction false} ExtentIs(lines: seq<Physical>, n: nat)
    requires 0 < n <= |lines| && forall k :: 0 <= k < n - 1 ==> lines[k].continued
    requires n < |lines| ==> !lines[n - 1].continued
    ensures Extent(lines) == n
  {
    if n > 1 {
      assert forall k :: 0 <= k < |lines| - 1 ==> lines[1..][k] == lines[k + 1];
      ExtentIs(lines[1..], n - 1);
    }
  }

  /** The lines from `j` up to `i` wait; the logical lines are those found and those from `j` on. */
  ghost predicate Found(lines: seq<Physical>, s: Scan, j: nat, i: nat) {
    && j <= i <= |lines| && s.pending == lines[j..i]
    && (forall k :: j <= k < i ==> lines[k].continued)
    && (j < i ==> !lines[j].blank)
    && Groups(lines, 1) == s.done + Groups(lines[j..], j + 1)
  }

  lemma FoundNone(lines: seq<Physical>)
    ensures Found(lines, ScanTo(lines, 0), 0, 0)
  {
    assert lines[0..] == lines;
  }

  lemma SkipBlank(lines: seq<Physical>, s: Scan, i: nat)
    requires i < |lines| && lines[i].blank && Found(lines, s, i, i)
    ensures Found(lines, s, i + 1, i + 1)
  {
    assert lines[i..][0] == lines[i] && lines[i..][1..] == lines[i + 1..];
  }

  lemma FirstGroup(lines: seq<Physical>, number: nat, n: nat)
    requires lines != [] && !lines[0].blank && Extent(lines) == n
    ensures Groups(lines, number) == [Group(number, lines[..n])] + Groups(lines[n..], number + n)
  {
  }

  lemma SliceOfRest(lines: seq<Physical>, j: nat, i: nat)
    requires j <= i <= |lines|
    ensures lines[j..][..i - j] == lines[j..i] && lines[j..][i - j..] == lines[i..]
  {
  }

  lemma {:induction false} ExtentOfRest(lines: seq<Physical>, j: nat, i: nat)
    requires j < i <= |lines|
    requires forall k :: j <= k < i - 1 ==> lines[k].continued
    requires i < |lines| ==> !lines[i - 1].continued
    ensures Extent(lines[j..]) == i - j
  {
    var rest := lines[j..];
    assert forall k :: 0 <= k < |rest| ==> rest[k] == lines[j + k];
    ExtentIs(rest, i - j);
  }

  /** The waiting lines up to `i` make one logical line. */
  lemma {:induction false} LogicalLineEnds(lines: seq<Physical>, j: nat, i: nat, done: seq<Group>)
    requires j < i <= |lines| && !lines[j].blank
    requires forall k :: j <= k < i - 1 ==> lines[k].continued
    requires i < |lines| ==> !lines[i - 1].continued
    ensures done + Groups(lines[j..], j + 1) == done + [Group(j + 1, lines[j..i])] + Groups(lines[i..], i + 1)
  {
    ExtentOfRest(lines, j, i);
    FirstGroup(lines[j..], j + 1, i - j);
    SliceOfRest(lines, j, i);
    Associative(done, [Group(j + 1, lines[j..i])], Groups(lines[i..], i + 1));
  }

  lemma SliceOneMore(lines: seq<Physical>, j: nat, i: nat)
    requires j <= i < |lines|
    ensures lines[j..i + 1] == lines[j..i] + [lines[i]]
  {
  }

  lemma FoundWaiting(lines: seq<Physical>, s: Scan, j: nat, i: nat)
    requires i < |lines| && Found(lines, s, j, i) && lines[i].continued && (j == i ==> !lines[i].blank)
    ensures Found(lines, s.(pending := s.pending + [lines[i]]), j, i + 1)
  {
    SliceOneMore(lines, j, i);
  }

  lemma FoundEnded(lines: seq<Physical>, s: Scan, j: nat, i: nat)
    requires i < |lines| && Found(lines, s, j, i) && !lines[i].continued && (j == i ==> !lines[i].blank)
    ensures Found(lines, Scan(s.done + [Group(j + 1, s.pending + [lines[i]])], []), i + 1, i + 1)
  {
    SliceOneMore(lines, j, i);
    LogicalLineEnds(lines, j, i + 1, s.done);
  }

  lemma {:induction false} FoundOneMore(lines: seq<Physical>, s: Scan, j: nat, i: nat) returns (j': nat)
    requires i < |lines| && Found(lines, s, j, i)
    ensures Found(lines, NextScan(s, i, lines[i]), j', i + 1)
  {
    j' := if lines[i].continued && !(s.pending == [] && lines[i].blank) then j else i + 1;
    if s.pending == [] && lines[i].blank {
      SkipBlank(lines, s, i);
    } else if lines[i].continued {
      FoundWaiting(lines, s, j, i);
    } else {
      FoundEnded(lines, s, j, i);
    }
  }

  lemma {:induction false} ScanFinds(lines: seq<Physical>, i: nat) returns (j: nat)
    requires i <= |lines|
    ensures Found(lines, ScanTo(lines, i), j, i)
  {
    if i == 0 {
      FoundNone(lines);
      j := 0;
    } else {
      j := ScanFinds(lines, i - 1);
      j := FoundOneMore(lines, ScanTo(lines, i - 1), j, i - 1);
    }
  }

  lemma ScanEnds(lines: seq<Physical>, commands: seq<Command>, buffer: seq<string>, start: nat)
    returns (done: seq<Group>, pending: seq<Physical>)
    requires Holding(lines, |lines|, commands, buffer, start)
    ensures commands == CommandsOf(done) && buffer == Contents(pending)
    ensures Groups(lines, 1) == if buffer == [] then done else done + [Group(start, pending)]
  {
    done, pending := ScanTo(lines, |lines|).done, ScanTo(lines, |lines|).pending;
    var j := ScanFinds(lines, |lines|);
    AllFound(lines, done, pending, j);
  }

  lemma AllFound(lines: seq<Physical>, done: seq<Group>, pending: seq<Physical>, j: nat)
    requires Found(lines, Scan(done, pending), j, |lines|)
    ensures Groups(lines, 1) == if pending == [] then done else done + [Group(j + 1, pending)]
  {
    if j < |lines| {
      LogicalLineEnds(lines, j, |lines|, done);
      assert done + [Group(j + 1, pending)] + [] == done + [Group(j + 1, pending)];
    } else {
      assert done + [] == done;
    }
  }

  // ---------- script commands at the dispatcher ----------

  /** Stripped, not empty, and without a live semicolon. */
  ghost predicate IsClean(text: string) {
    text != "" && !IsSpace(text[0]) && !IsSpace(text[|text| - 1]) && NoCuts(text, {';'}, START)
  }

  lemma PartsAreClean(text: string, number: nat)
    ensures forall c :: c in Numbered(number, SplitParts(text, SEMICOLON)) ==> IsClean(c.text)
  {
    forall c | c in Numbered(number, SplitParts(text, SEMICOLON))
      ensures IsClean(c.text)
    {
      PartHasNoCuts(text, SEMICOLON, c.text);
    }
  }

  lemma {:induction false} CommandsAreClean(groups: seq<Group>)
    ensures forall c :: c in CommandsOf(groups) ==> IsClean(c.text)
  {
    if groups != [] {
      var last := groups[|groups| - 1];
      CommandsAreClean(groups[..|groups| - 1]);
      if last.lines != [] {
        PartsAreClean(Logical(Contents(last.lines)), last.number);
      }
    }
  }

  /** A command of a script reaches its handler as it stands in the script's list of commands, exactly
      when no line break in it is live and the comment scanner meets no comment and no unquoted `\#`. */
  lemma ScriptCommandReachesHandler(raws: seq<string>, c: Command)
    requires c in Commands(raws)
    ensures Handled(c.text) == [c.text] <==> NoCuts(c.text, {'\n'}, START) && !MeetsHash(c.text, Unquoted)
  {
    CommandsAreClean(Groups(ScriptLines(raws), 1));
    CommandReachesHandler(c.text);
  }

  /** A script of one uncontinued line with one command. */
  lemma OneLineScript(raw: string, text: string)
    requires WithoutComment(raw, Unquoted) == text && !HasContinuation(text) && IsClean(text)
    ensures Commands([raw]) == [Command(1, text)]
  {
    StripStripped(text);
    var line := PhysicalLine(text);
    OneLine(raw, line);
    OneGroup(line);
    WholeTextIsOnePart(text, SEMICOLON);
    OneCommand(line);
  }

  lemma OneLine(raw: string, line: Physical)
    requires ScriptLine(raw) == line
    ensures ScriptLines([raw]) == [line]
  {
  }

  lemma OneGroup(line: Physical)
    requires !line.blank
    ensures Groups([line], 1) == [Group(1, [line])]
  {
    assert [line][..1] == [line] && [line][1..] == [];
  }

  lemma OneCommand(line: Physical)
    requires SplitParts(Strip(line.content), SEMICOLON) == [line.content]
    ensures CommandsOf([Group(1, [line])]) == [Command(1, line.content)]
  {
    assert [line][..0] == [] && [Group(1, [line])][..0] == [];
    assert Contents([line]) == [line.content];
    assert Numbered(1, [line.content]) == [Command(1, line.content)] + Numbered(1, [line.content][1..]);
  }

  /** An escaped hash that the prompt keeps starts a comment in a script, where every command is stripped
      a second time. */
  lemma ScriptLosesEscapedHash()
    ensures Handled("x\\#") == ["x#"]
    ensures Commands(["x\\#"]) == [Command(1, "x#")] && Handled("x#") == ["x"]
  {
    EscapedHashIsLost();
    EscapedHashStrips();
    EscapedHashParts();
    OnePartIffNoCuts("x#", SEPARATORS);
    CutsOfUnion("x#", START);
    OneLineScript("x\\#", "x#");
    CommandIsNotSplitAgain("x#");
    StripStripped("x");
  }

  // ---------- continued commands at the dispatcher ----------

  /** The scanner expects an escaped character exactly after an odd run of backslashes. */
  lemma {:induction false} EscapedAfterOddRun(text: string, st: State)
    requires !st.escaped
    ensures After(text, st).escaped <==> TrailingBackslashes(text) % 2 == 1
    decreases |text|
  {
    if text != "" {
      var n := |text| - 1;
      EscapedAfterOddRun(text[..n], st);
      AfterOneMore(text, n, st);
      assert text[..n + 1] == text;
    }
  }

  /** Nothing before the line break of a continued line escapes it. */
  lemma BreakIsNotEscaped(line: string)
    requires HasContinuation(line)
    ensures !After(RemoveContinuation(line), START).escaped
  {
    EscapedAfterOddRun(RemoveContinuation(line), START);
  }

  lemma {:induction false} LStripFront(s: string, rest: string)
    ensures LStrip(s) != "" ==> LStrip(s + rest) == LStrip(s) + rest
    ensures After(LStrip(s), START) == After(s, START)
    ensures forall c :: c in LStrip(s) ==> c in s
  {
    if s != "" && IsSpace(s[0]) {
      assert (s + rest)[1..] == s[1..] + rest;
      LStripFront(s[1..], rest);
    }
  }

  lemma {:induction false} RStripBack(front: string, s: string)
    ensures RStrip(s) != "" ==> RStrip(front + s) == front + RStrip(s)
    ensures forall c :: c in RStrip(s) ==> c in s
  {
    if s != "" && IsSpace(s[|s| - 1]) {
      assert (front + s)[..|front + s| - 1] == front + s[..|s| - 1];
      RStripBack(front, s[..|s| - 1]);
    }
  }

  lemma BlankIffRStrip(s: string)
    ensures RStrip(s) == "" ==> Strip(s) == ""
  {
    RStripEnds(s);
    StripOfBlank(s);
    if RStrip(s) == "" { RStripOfBlank(s); }
  }

  lemma {:induction false} RStripOfBlank(s: string)
    requires RStrip(s) == ""
    ensures IsBlank(s)
  {
    if s != "" {
      RStripOfBlank(s[..|s| - 1]);
      assert s == s[..|s| - 1] + [s[|s| - 1]];
    }
  }

  lemma StripAround(x: string, middle: string, b: string)
    requires LStrip(x) != "" && RStrip(b) != ""
    ensures Strip(x + middle + b) == LStrip(x) + middle + RStrip(b)
  {
    Associative(x, middle, b);
    LStripFront(x, middle + b);
    Associative(LStrip(x), middle, b);
    RStripBack(LStrip(x) + middle, b);
  }

  lemma JoinTwo(x: string, b: string)
    ensures JoinFields([x, b], '\n') == x + ['\n'] + b
  {
    assert [x, b][1..] == [b];
  }

  /** The text of a command on two lines. */
  lemma TwoLines(x: string, b: string)
    requires Strip(x) != "" && Strip(b) != ""
    ensures Logical([x, b]) == LStrip(x) + ['\n'] + RStrip(b)
    ensures LStrip(x) != "" && RStrip(b) != ""
  {
    JoinTwo(x, b);
    BlankIffRStrip(b);
    StripAround(x, ['\n'], b);
  }

  lemma {:induction false} NoLineBreakNoCuts(text: string, st: State)
    requires '\n' !in text
    ensures NoCuts(text, {'\n'}, st)
  {
    if text != "" {
      NoLineBreakNoCuts(text[1..], Step(st, text[0]));
    }
  }

  lemma BreakIsCut(l: string, r: string)
    requires '\n' !in l && '\n' !in r
    ensures NoCuts(l + ['\n'] + r, {'\n'}, START) <==> After(l, START) != START
  {
    var st := After(l, START);
    NoCutsAppend(l + ['\n'], r, {'\n'}, START);
    NoCutsAppend(l, ['\n'], {'\n'}, START);
    NoLineBreakNoCuts(l, START);
    NoLineBreakNoCuts(r, After(l + ['\n'], START));
    assert ['\n'][1..] == "";
  }

  /** A command continued on a second line, in a script or at the prompt, reaches its handler in one
      piece exactly when its first line ends inside quotes (and no hash is met); outside quotes the line
      break cuts it in two. */
  lemma ContinuedCommandReachesHandler(a: string, b: string)
    requires HasContinuation(a) && '\n' !in a && '\n' !in b
    requires Strip(RemoveContinuation(a)) != "" && Strip(b) != ""
    requires NoCuts(Logical([RemoveContinuation(a), b]), {';'}, START)
    ensures var x, line := RemoveContinuation(a), Logical([RemoveContinuation(a), b]);
      Handled(line) == [line] <==> After(x, START).quote.Open? && !MeetsHash(line, Unquoted)
  {
    var x := RemoveContinuation(a);
    var line := Logical([x, b]);
    RStripEnds(a);
    assert forall c :: c in x ==> c in a;
    TwoLines(x, b);
    LStripFront(x, "");
    RStripBack("", b);
    BreakIsNotEscaped(a);
    BreakIsCut(LStrip(x), RStrip(b));
    StripEnds(JoinFields([x, b], '\n'));
    CommandReachesHandler(line);
  }

  // ---------- the documented example ----------

  predicate IsPlainWord(s: string) {
    forall i :: 0 <= i < |s| ==> !IsSpecial(s[i]) && s[i] !in ";\n#"
  }

  lemma {:induction false} PlainWordScan(s: string)
    requires IsPlainWord(s)
    ensures NoCuts(s, SEPARATORS, START) && After(s, START) == START
  {
    if s != "" {
      PlainWordScan(s[1..]);
    }
  }

  lemma {:induction false} NoHashIsMet(s: string, quote: Quote)
    requires '#' !in s
    ensures !MeetsHash(s, quote)
  {
    if s != "" {
      NoHashIsMet(s[1..], ToggleQuote(quote, s[0]));
    }
  }

  /** A plain command continued on a second line is run as two commands. */
  lemma ContinuationRunsTwoCommands(x: string, b: string)
    requires IsPlainWord(x) && IsPlainWord(b) && x != "" && !IsSpace(x[0]) && b != "" && !IsSpace(b[|b| - 1])
    ensures Handled(x + ['\n'] + b) == [Strip(x), Strip(b)]
  {
    var line := x + ['\n'] + b;
    PlainWordScan(x);
    PlainWordScan(b);
    NoHashIsMet(line, Unquoted);
    UnchangedIffNoHash(line, Unquoted);
    SegmentsOfOneCut(x, '\n', b, SEPARATORS, START);
    TwoStrippedParts(x, b);
    StripShortensTo(x);
    StripShortensTo(b);
    NoHashIsMet(Strip(x), Unquoted);
    NoHashIsMet(Strip(b), Unquoted);
    SequenceReachesHandlers(line);
  }

  lemma StripShortensTo(s: string)
    ensures forall c :: c in Strip(s) ==> c in s
  {
    LStripFront(s, "");
    RStripBack("", LStrip(s));
  }

  lemma TwoStrippedParts(x: string, b: string)
    requires x != "" && !IsSpace(x[0]) && b != "" && !IsSpace(b[|b| - 1])
    ensures Parts([x, b]) == [Strip(x), Strip(b)]
  {
    StripOfBlank(x);
    StripOfBlank(b);
    assert [x, b][1..] == [b] && Parts([b]) == [Strip(b)] + Parts([b][1..]);
  }

  lemma ManualLines()
    ensures HasContinuation("hostscanner \\") && RemoveContinuation("hostscanner \\") == "hostscanner "
  {
    var a, x := "hostscanner \\", "hostscanner ";
    assert a[..|a| - 1] == x;
    assert TrailingBackslashes(x) == 0;
  }

  lemma ManualWords()
    ensures IsPlainWord("hostscanner ") && IsPlainWord("192.168.0.0/24")
    ensures LStrip("hostscanner ") == "hostscanner " && RStrip("192.168.0.0/24") == "192.168.0.0/24"
    ensures Strip("hostscanner ") == "hostscanner" && Strip("192.168.0.0/24") == "192.168.0.0/24"
  {
    var x := "hostscanner ";
    assert x[..|x| - 1] == "hostscanner";
    StripStripped("192.168.0.0/24");
  }

  /** The example of the manual: `hostscanner` goes on with its target on a second line, and the two
      are run as two commands. */
  lemma ManualExample()
    ensures HasContinuation("hostscanner \\") && RemoveContinuation("hostscanner \\") == "hostscanner "
    ensures Handled(Logical(["hostscanner ", "192.168.0.0/24"])) == ["hostscanner", "192.168.0.0/24"]
  {
    ManualLines();
    ManualWords();
    TwoLines("hostscanner ", "192.168.0.0/24");
    ContinuationRunsTwoCommands("hostscanner ", "192.168.0.0/24");
  }
}
