/** Which command lines reach the handlers: the REPL strips a line, splits it, and strips every command
    of a sequence again. */
module ReplDispatch {
  import opened Text
  import opened QuoteScan
  import opened SplitLaws
  import opened CommandSequence

  const SEPARATORS: set<char> := SequenceSeparators(true)

  /** The lines that `dispatch_repl_line` hands to handlers, in order, while no handler answers
      `exit`. */
  function Handled(line: string): seq<string>
    decreases |line| + 1, 0
  {
    var l := WithoutComment(line, Unquoted);
    if Strip(l) == "" then []
    else
      var parts := SplitParts(l, SEPARATORS);
      if |parts| <= 1 then [l]
      else
        CommentShortens(line, Unquoted);
        CommandsAreShort(l);
        HandledEach(parts, |line|)
  }

  function HandledEach(commands: seq<string>, bound: nat): seq<string>
    requires forall i :: 0 <= i < |commands| ==> |commands[i]| < bound
    decreases bound, |commands|
  {
    if commands == [] then [] else Handled(commands[0]) + HandledEach(commands[1..], bound)
  }

  lemma {:induction false} CommentShortens(line: string, quote: Quote)
    ensures |WithoutComment(line, quote)| <= |line|
    decreases |line|
  {
    if line != "" {
      if EscapedHash(line, quote) {
        CommentShortens(line[2..], quote);
      } else {
        CommentShortens(line[1..], ToggleQuote(quote, line[0]));
      }
    }
  }

  lemma CommandsAreShort(l: string)
    ensures var parts := SplitParts(l, SEPARATORS);
      |parts| > 1 ==> forall i :: 0 <= i < |parts| ==> |parts[i]| < |l|
  {
    var parts := SplitParts(l, SEPARATORS);
    if |parts| > 1 {
      forall i | 0 <= i < |parts|
        ensures |parts[i]| < |l|
      {
        PartsAreShort(l, SEPARATORS, parts[i]);
      }
    }
  }

  // ---------- the second strip ----------

  /** The comment scanner meets an unquoted `\#` or a comment. */
  predicate MeetsHash(line: string, quote: Quote) {
    line != "" && (
      || EscapedHash(line, quote)
      || (line[0] == '#' && ToggleQuote(quote, line[0]) == Unquoted)
      || MeetsHash(line[1..], ToggleQuote(quote, line[0])))
  }

  lemma {:induction false} UnchangedIffNoHash(line: string, quote: Quote)
    ensures WithoutComment(line, quote) == line <==> !MeetsHash(line, quote)
  {
    if line != "" {
      var quote' := ToggleQuote(quote, line[0]);
      if EscapedHash(line, quote) {
        CommentShortens(line[2..], quote);
      } else if !(line[0] == '#' && quote' == Unquoted) {
        UnchangedIffNoHash(line[1..], quote');
        assert line == [line[0]] + line[1..];
        assert WithoutComment(line, quote)[1..] == WithoutComment(line[1..], quote');
      }
    }
  }

  ghost predicate QuotesAreQuotes(st: State) {
    st.quote.Open? ==> IsQuote(st.quote.mark)
  }

  /** The strip opens no new separator: after the hash of a `\#` the splitter is where it was. */
  lemma {:induction false} CommentKeepsNoCuts(line: string, quote: Quote, st: State)
    requires NoCuts(line, SEPARATORS, st) && QuotesAreQuotes(st)
    ensures NoCuts(WithoutComment(line, quote), SEPARATORS, st)
    decreases |line|
  {
    if line != "" {
      var st' := Step(st, line[0]);
      if EscapedHash(line, quote) {
        assert line[1..][0] == '#' && line[1..][1..] == line[2..];
        assert NoCuts(line[2..], SEPARATORS, Step(st', '#')) && Step(st', '#') == st.(escaped := false);
        CommentKeepsNoCuts(line[2..], quote, st.(escaped := false));
        HashFirst(WithoutComment(line[2..], quote), st);
      } else if !(line[0] == '#' && ToggleQuote(quote, line[0]) == Unquoted) {
        CommentKeepsNoCuts(line[1..], ToggleQuote(quote, line[0]), st');
        assert WithoutComment(line, quote)[1..] == WithoutComment(line[1..], ToggleQuote(quote, line[0]));
      }
    }
  }

  lemma HashFirst(rest: string, st: State)
    requires NoCuts(rest, SEPARATORS, st.(escaped := false)) && QuotesAreQuotes(st)
    ensures NoCuts("#" + rest, SEPARATORS, st)
  {
    assert ("#" + rest)[1..] == rest;
  }

  /** What becomes of a command of a sequence. */
  function SecondStrip(command: string): seq<string> {
    var c := WithoutComment(command, Unquoted);
    if Strip(c) == "" then [] else [c]
  }

  function SecondStrips(commands: seq<string>): seq<string> {
    if commands == [] then [] else SecondStrip(commands[0]) + SecondStrips(commands[1..])
  }

  lemma CommandIsNotSplitAgain(command: string)
    requires NoCuts(command, SEPARATORS, START)
    ensures Handled(command) == SecondStrip(command)
  {
    var c := WithoutComment(command, Unquoted);
    CommentKeepsNoCuts(command, Unquoted, START);
    NoCutsOneSegment(c, SEPARATORS, START);
    PartsAtMost([c]);
  }

  lemma {:induction false} EachIsStrippedAgain(commands: seq<string>, bound: nat)
    requires forall i :: 0 <= i < |commands| ==> |commands[i]| < bound && NoCuts(commands[i], SEPARATORS, START)
    ensures HandledEach(commands, bound) == SecondStrips(commands)
  {
    if commands != [] {
      CommandIsNotSplitAgain(commands[0]);
      EachIsStrippedAgain(commands[1..], bound);
    }
  }

  lemma {:induction false} StripsAtMost(commands: seq<string>)
    ensures |SecondStrips(commands)| <= |commands|
  {
    if commands != [] {
      StripsAtMost(commands[1..]);
    }
  }

  lemma {:induction false} SameAfterStrips(commands: seq<string>)
    requires forall i :: 0 <= i < |commands| ==> Strip(commands[i]) != ""
    ensures SecondStrips(commands) == commands <==>
      forall i :: 0 <= i < |commands| ==> !MeetsHash(commands[i], Unquoted)
  {
    if commands != [] {
      var first, rest := commands[0], commands[1..];
      assert commands == [first] + rest;
      UnchangedIffNoHash(first, Unquoted);
      StripsAtMost(rest);
      SameAfterStrips(rest);
      if SecondStrips(commands) == commands {
        assert SecondStrip(first) != [];
        SamePrefixLength(SecondStrip(first), [first], SecondStrips(rest), rest);
      }
    }
  }

  lemma CommandsAreClean(l: string)
    ensures var parts := SplitParts(l, SEPARATORS);
      forall i :: 0 <= i < |parts| ==> NoCuts(parts[i], SEPARATORS, START) && Strip(parts[i]) != ""
  {
    var parts := SplitParts(l, SEPARATORS);
    forall i | 0 <= i < |parts|
      ensures NoCuts(parts[i], SEPARATORS, START) && Strip(parts[i]) != ""
    {
      PartHasNoCuts(l, SEPARATORS, parts[i]);
      StripStripped(parts[i]);
    }
  }

  /** Every command of a sequence reaches its handler as the splitter returned it, exactly when the
      comment scanner meets no comment and no unquoted `\#` in any of them. */
  lemma SequenceReachesHandlers(line: string)
    ensures var parts := SplitParts(WithoutComment(line, Unquoted), SEPARATORS);
      |parts| > 1 ==>
        && Handled(line) == SecondStrips(parts)
        && (Handled(line) == parts <==> forall i :: 0 <= i < |parts| ==> !MeetsHash(parts[i], Unquoted))
  {
    var l := WithoutComment(line, Unquoted);
    var parts := SplitParts(l, SEPARATORS);
    if |parts| > 1 {
      BlankHasNoParts(l);
      CommentShortens(line, Unquoted);
      CommandsAreShort(l);
      CommandsAreClean(l);
      EachIsStrippedAgain(parts, |line|);
      SameAfterStrips(parts);
    }
  }

  ghost predicate IsBlank(s: string) {
    forall i :: 0 <= i < |s| ==> IsSpace(s[i])
  }

  lemma {:induction false} StripOfBlank(s: string)
    ensures IsBlank(s) <==> LStrip(s) == ""
    ensures IsBlank(s) <==> Strip(s) == ""
  {
    if s != "" {
      StripOfBlank(s[1..]);
      assert s == [s[0]] + s[1..];
      LStripHead(s);
      RStripKeepsHead(LStrip(s));
    }
  }

  lemma {:induction false} RStripKeepsHead(s: string)
    requires s == "" || !IsSpace(s[0])
    ensures RStrip(s) == "" <==> s == ""
  {
    if s != "" && IsSpace(s[|s| - 1]) {
      RStripKeepsHead(s[..|s| - 1]);
    }
  }

  lemma {:induction false} SegmentsOfBlank(l: string, st: State)
    requires IsBlank(l)
    ensures forall k :: 0 <= k < |Segments(l, SEPARATORS, st)| ==> IsBlank(Segments(l, SEPARATORS, st)[k])
  {
    if l != "" {
      SegmentsOfBlank(l[1..], if IsCut(st, l[0], SEPARATORS) then START else Step(st, l[0]));
    }
  }

  lemma {:induction false} PartsOfBlanks(segments: seq<string>)
    requires forall k :: 0 <= k < |segments| ==> IsBlank(segments[k])
    ensures Parts(segments) == []
  {
    if segments != [] {
      StripOfBlank(segments[0]);
      PartsOfBlanks(segments[1..]);
    }
  }

  /** A line of blanks has no command. */
  lemma BlankHasNoParts(l: string)
    ensures Strip(l) == "" ==> SplitParts(l, SEPARATORS) == []
  {
    StripOfBlank(l);
    if IsBlank(l) {
      SegmentsOfBlank(l, START);
      PartsOfBlanks(Segments(l, SEPARATORS, START));
    }
  }

  // ---------- one command ----------

  lemma {:induction false} CutsOfUnion(text: string, st: State)
    ensures NoCuts(text, SEPARATORS, st) <==> NoCuts(text, {';'}, st) && NoCuts(text, {'\n'}, st)
  {
    if text != "" {
      CutsOfUnion(text[1..], Step(st, text[0]));
    }
  }

  /** The last segment ends as the text does, unless the text ends with a separator. */
  lemma {:induction false} LastSegment(text: string, seps: set<char>, st: State)
    requires text != "" && !IsCut(After(text[..|text| - 1], st), text[|text| - 1], seps)
    ensures var r := Segments(text, seps, st);
      r[|r| - 1] != "" && r[|r| - 1][|r[|r| - 1]| - 1] == text[|text| - 1]
  {
    if |text| == 1 {
      assert text[1..] == "";
    } else {
      var rest, st' := text[1..], Step(st, text[0]);
      assert text[..|text| - 1][1..] == rest[..|rest| - 1];
      assert IsCut(st, text[0], seps) ==> st' == START;
      LastSegment(rest, seps, st');
      var r := Segments(rest, seps, st');
      assert Segments(text, seps, st)[|Segments(text, seps, st)| - 1]
          == if |r| == 1 && !IsCut(st, text[0], seps) then [text[0]] + r[0] else r[|r| - 1];
    }
  }

  lemma {:induction false} LastIsPart(segments: seq<string>)
    requires segments != [] && Strip(segments[|segments| - 1]) != ""
    ensures Parts(segments) != []
  {
    if |segments| > 1 {
      LastIsPart(segments[1..]);
    }
  }

  lemma EndsAreNoCuts(c: string)
    requires c != "" && !IsSpace(c[0]) && !IsSpace(c[|c| - 1]) && NoCuts(c, {';'}, START)
    ensures !IsCut(START, c[0], SEPARATORS) && !IsCut(After(c[..|c| - 1], START), c[|c| - 1], SEPARATORS)
  {
    assert c == c[..|c| - 1] + [c[|c| - 1]];
    NoCutsAppend(c[..|c| - 1], [c[|c| - 1]], {';'}, START);
  }

  /** A stripped command with a live line break is cut there, with a part on either side. */
  lemma LineBreakMakesParts(c: string)
    requires c != "" && !IsSpace(c[0]) && !IsSpace(c[|c| - 1]) && NoCuts(c, {';'}, START)
    requires !NoCuts(c, SEPARATORS, START)
    ensures |SplitParts(c, SEPARATORS)| > 1
  {
    var r := Segments(c, SEPARATORS, START);
    EndsAreNoCuts(c);
    LastSegment(c, SEPARATORS, START);
    OneSegmentIsText(c, SEPARATORS, START);
    NoCutsOneSegment(c, SEPARATORS, START);
    assert |r| > 1 && r[0][0] == c[0];
    StripOfBlank(r[0]);
    StripOfBlank(r[|r| - 1]);
    LastIsPart(r[1..]);
  }

  lemma {:induction false} StripsAreShort(commands: seq<string>, bound: nat)
    requires forall i :: 0 <= i < |commands| ==> |commands[i]| < bound
    ensures forall i :: 0 <= i < |SecondStrips(commands)| ==> |SecondStrips(commands)[i]| < bound
  {
    if commands != [] {
      CommentShortens(commands[0], Unquoted);
      StripsAreShort(commands[1..], bound);
    }
  }

  lemma HandledPartsAreShort(c: string)
    requires |SplitParts(WithoutComment(c, Unquoted), SEPARATORS)| > 1
    ensures forall i :: 0 <= i < |Handled(c)| ==> |Handled(c)[i]| < |c|
  {
    var l := WithoutComment(c, Unquoted);
    SequenceReachesHandlers(c);
    CommentShortens(c, Unquoted);
    CommandsAreShort(l);
    StripsAreShort(SplitParts(l, SEPARATORS), |c|);
  }

  /** One command reaches its handler as it was given to the dispatcher, exactly when no line break in it
      is live and the comment scanner meets no comment and no unquoted `\#`. */
  lemma CommandReachesHandler(c: string)
    requires c != "" && !IsSpace(c[0]) && !IsSpace(c[|c| - 1]) && NoCuts(c, {';'}, START)
    ensures Handled(c) == [c] <==> NoCuts(c, {'\n'}, START) && !MeetsHash(c, Unquoted)
  {
    var parts := SplitParts(WithoutComment(c, Unquoted), SEPARATORS);
    UnchangedIffNoHash(c, Unquoted);
    CutsOfUnion(c, START);
    if |parts| > 1 {
      HandledPartsAreShort(c);
      if NoCuts(c, SEPARATORS, START) && !MeetsHash(c, Unquoted) {
        WholeTextIsOnePart(c, SEPARATORS);
      }
    } else {
      StripStripped(c);
      if WithoutComment(c, Unquoted) == c && !NoCuts(c, SEPARATORS, START) {
        LineBreakMakesParts(c);
      }
    }
  }

  // ---------- two lines that lose text ----------

  lemma CommentOne(c: char, rest: string, quote: Quote)
    requires c != '\\' || rest == "" || rest[0] != '#'
    ensures var quote' := ToggleQuote(quote, c);
      && WithoutComment([c] + rest, quote) ==
        (if c == '#' && quote' == Unquoted then "" else [c] + WithoutComment(rest, quote'))
      && (Unescapes([c] + rest, quote) <==> !(c == '#' && quote' == Unquoted) && Unescapes(rest, quote'))
  {
    assert ([c] + rest)[1..] == rest;
  }

  lemma HiddenHash()
    ensures !Unescapes("x\\';y#", Unquoted) && WithoutComment("x\\';y#", Unquoted) == "x\\';y#"
  {
    var inSingle := Open('\'');
    CommentOne('x', "\\';y#", Unquoted);
    CommentOne('\\', "';y#", Unquoted);
    CommentOne('\'', ";y#", Unquoted);
    CommentOne(';', "y#", inSingle);
    CommentOne('y', "#", inSingle);
    CommentOne('#', "", inSingle);
    assert ['x'] + "\\';y#" == "x\\';y#" &&
      ['\\'] + "';y#" == "\\';y#" && ['\''] + ";y#" == "';y#" && [';'] + "y#" == ";y#"
        && ['y'] + "#" == "y#" && ['#'] + "" == "#";
  }

  lemma HiddenHashCommands()
    ensures WithoutComment("x\\'", Unquoted) == "x\\'" && WithoutComment("y#", Unquoted) == "y"
  {
    CommentOne('x', "\\'", Unquoted);
    CommentOne('\\', "'", Unquoted);
    CommentOne('\'', "", Unquoted);
    CommentOne('y', "#", Unquoted);
    CommentOne('#', "", Unquoted);
    assert ['x'] + "\\'" == "x\\'" && ['\\'] + "'" == "\\'" && ['\''] + "" == "'" && ['y'] + "" == "y";
    assert ['y'] + "#" == "y#" && ['#'] + "" == "#";
  }

  lemma HiddenHashParts()
    ensures SplitParts("x\\';y#", SEPARATORS) == ["x\\'", "y#"]
  {
    ScanOne('x', "\\'", SEPARATORS, START);
    ScanOne('\\', "'", SEPARATORS, START);
    ScanOne('\'', "", SEPARATORS, State(Unquoted, true));
    ScanOne('y', "#", SEPARATORS, START);
    ScanOne('#', "", SEPARATORS, START);
    assert ['x'] + "\\'" == "x\\'" &&
      ['\\'] + "'" == "\\'" && ['\''] + "" == "'" && ['y'] + "#" == "y#" && ['#'] + "" == "#";
    SegmentsOfOneCut("x\\'", ';', "y#", SEPARATORS, START);
    assert "x\\'" + [';'] + "y#" == "x\\';y#";
    TwoParts("x\\'", "y#");
  }

  lemma TwoParts(a: string, b: string)
    requires a != "" && !IsSpace(a[0]) && !IsSpace(a[|a| - 1]) && b != "" && !IsSpace(b[0]) && !IsSpace(b[|b| - 1])
    ensures Parts([a, b]) == [a, b]
  {
    StripStripped(a);
    StripStripped(b);
    assert [a, b][1..] == [b] && [b][1..] == [];
    assert Parts([b]) == [b] + Parts([]);
  }

  lemma TwoStrips(a: string, b: string)
    ensures SecondStrips([a, b]) == SecondStrip(a) + SecondStrip(b)
  {
    assert [a, b][1..] == [b] && [b][1..] == [] && SecondStrip(b) + [] == SecondStrip(b);
    assert SecondStrips([b]) == SecondStrip(b) + SecondStrips([]);
  }

  /** The splitter takes `\'` for an escaped character, the comment scanner takes its apostrophe for a
      quote. So `x\';y#`, which has no `\#` and no comment, is cut at the `;`, and its second command
      then loses the `#`. */
  lemma QuoteHidesHash()
    ensures !Unescapes("x\\';y#", Unquoted) && WithoutComment("x\\';y#", Unquoted) == "x\\';y#"
    ensures SplitParts("x\\';y#", SEPARATORS) == ["x\\'", "y#"]
    ensures Handled("x\\';y#") == ["x\\'", "y"]
  {
    HiddenHash();
    HiddenHashCommands();
    HiddenHashParts();
    StripStripped("x\\'");
    StripStripped("y");
    TwoStrips("x\\'", "y#");
    SequenceReachesHandlers("x\\';y#");
  }

  /** An escaped hash of a sequence is kept by the first strip and starts a comment for the second. */
  lemma EscapedHashIsLost()
    ensures Handled("x\\#;y") == ["x", "y"]
    ensures Handled("x\\#") == ["x#"]
  {
    EscapedHashStrips();
    EscapedHashParts();
    StripStripped("x");
    StripStripped("y");
    StripStripped("x#");
    TwoStrips("x#", "y");
    SequenceReachesHandlers("x\\#;y");
  }

  lemma EscapedHashStrips()
    ensures WithoutComment("x\\#;y", Unquoted) == "x#;y" && WithoutComment("x\\#", Unquoted) == "x#"
    ensures WithoutComment("x#", Unquoted) == "x" && WithoutComment("y", Unquoted) == "y"
  {
    CommentOne('x', "\\#;y", Unquoted);
    CommentOne('x', "\\#", Unquoted);
    CommentOne(';', "y", Unquoted);
    CommentOne('y', "", Unquoted);
    CommentOne('x', "#", Unquoted);
    CommentOne('#', "", Unquoted);
    assert ['x'] + "\\#;y" == "x\\#;y" && ['x'] + "\\#" == "x\\#" && [';'] + "y" == ";y" && ['y'] + "" == "y"
        && ['x'] + "#" == "x#" && ['#'] + "" == "#" && ['x'] + "" == "x";
    assert "\\#;y"[2..] == ";y" && "\\#"[2..] == "";
    assert "#" + ";y" == "#;y" && "x" + "#;y" == "x#;y" && "#" + "" == "#";
  }

  lemma EscapedHashParts()
    ensures SplitParts("x#;y", SEPARATORS) == ["x#", "y"] && SplitParts("x#", SEPARATORS) == ["x#"]
  {
    ScanOne('x', "#", SEPARATORS, START);
    ScanOne('#', "", SEPARATORS, START);
    ScanOne('y', "", SEPARATORS, START);
    assert ['x'] + "#" == "x#" && ['#'] + "" == "#" && ['y'] + "" == "y";
    SegmentsOfOneCut("x#", ';', "y", SEPARATORS, START);
    assert "x#" + [';'] + "y" == "x#;y";
    TwoParts("x#", "y");
    WholeTextIsOnePart("x#", SEPARATORS);
  }
}
