/** Rebuilding a command line from argv tokens (`command_from_remainder`), and why the
    splitters and `shlex.split` then see the same argv. */
module Remainder {
  import opened Results
  import opened Text
  import opened QuoteScan
  import opened SplitLaws
  import opened PipelineSyntax
  import CommandSequence
  import Shlex

  /** `" ".join(shlex.quote(token) for token in tokens)` */
  function JoinQuoted(tokens: seq<string>): string {
    if tokens == [] then ""
    else if |tokens| == 1 then Shlex.Quote(tokens[0])
    else Shlex.Quote(tokens[0]) + " " + JoinQuoted(tokens[1..])
  }

  function CommandFromRemainder(tokens: seq<string>): Result<string> {
    if tokens == [] then Error("exec requires a command")
    else if |tokens| == 1 then Ok(tokens[0])
    else Ok(JoinQuoted(tokens))
  }

  // ---------- shlex reads the argv back ----------

  lemma ReadJoined(quoted: string, token: string, more: string, rest: seq<string>, lx: Shlex.Lexer)
    requires Shlex.ReadAll(quoted, lx) == lx.(mode := Shlex.InWord, word := token)
    requires Shlex.Finish(Shlex.ReadAll(more, Shlex.Lexer(Shlex.Gap, "", lx.words + [token]))) ==
      Ok(lx.words + [token] + rest)
    ensures Shlex.Finish(Shlex.ReadAll(quoted + " " + more, lx)) == Ok(lx.words + ([token] + rest))
  {
    Associative(quoted, " ", more);
    Shlex.WordThenBlank(quoted, token, ' ', more, lx);
    Associative(lx.words, [token], rest);
  }

  lemma {:induction false} JoinQuotedIsRead(tokens: seq<string>, lx: Shlex.Lexer)
    requires tokens != [] && lx.mode == Shlex.Gap && lx.word == ""
    ensures Shlex.Finish(Shlex.ReadAll(JoinQuoted(tokens), lx)) == Ok(lx.words + tokens)
  {
    var t, rest := tokens[0], tokens[1..];
    Shlex.QuoteIsRead(t, lx);
    assert tokens == [t] + rest;
    if rest != [] {
      JoinQuotedIsRead(rest, Shlex.Lexer(Shlex.Gap, "", lx.words + [t]));
      ReadJoined(Shlex.Quote(t), t, JoinQuoted(rest), rest, lx);
    } else {
      assert tokens == [t];
    }
  }

  /** Whatever the tokens are, splitting the rebuilt text gives them back. */
  lemma SplitJoinQuoted(tokens: seq<string>)
    ensures Shlex.Split(JoinQuoted(tokens)) == Ok(tokens)
  {
    if tokens != [] {
      JoinQuotedIsRead(tokens, Shlex.BEGIN);
      assert [] + tokens == tokens;
    }
  }

  // ---------- Bywaf's own scanners ----------

  /** Separators that `shlex.quote` never leaves bare and that are not whitespace between tokens. */
  ghost predicate Unsafe(seps: set<char>) {
    forall c :: c in seps ==> !Shlex.IsSafe(c) && c != ' '
  }

  /** The state after a token's character, as `shlex.quote` writes it between single quotes. */
  function QuotedStep(st: State, c: char): State {
    if c == '\'' then After("'\"'\"'", st) else Step(st, c)
  }

  /** Between single quotes no character of the token is met as a live separator. */
  predicate QuotedUncut(token: string, seps: set<char>, st: State) {
    token == "" || (!IsCut(st, token[0], seps) && QuotedUncut(token[1..], seps, QuotedStep(st, token[0])))
  }

  function AfterQuoted(token: string, st: State): State {
    if token == "" then st else AfterQuoted(token[1..], QuotedStep(st, token[0]))
  }

  predicate IsBare(token: string) {
    token != "" && Shlex.AllSafe(token)
  }

  predicate TokenUncut(token: string, seps: set<char>, st: State) {
    IsBare(token) || QuotedUncut(token, seps, Step(st, '\''))
  }

  function AfterToken(token: string, st: State): State {
    if IsBare(token) then After(token, st) else Step(AfterQuoted(token, Step(st, '\'')), '\'')
  }

  /** Reading the tokens one after the other, with the scanner state carried along, no separator
      inside a token is met live. */
  predicate ArgvUncut(tokens: seq<string>, seps: set<char>, st: State) {
    tokens == [] ||
    (TokenUncut(tokens[0], seps, st) && ArgvUncut(tokens[1..], seps, Step(AfterToken(tokens[0], st), ' ')))
  }

  lemma {:induction false} BareHasNoCuts(s: string, seps: set<char>, st: State)
    requires Shlex.AllSafe(s) && Unsafe(seps)
    ensures NoCuts(s, seps, st)
  {
    if s != "" {
      BareHasNoCuts(s[1..], seps, Step(st, s[0]));
    }
  }

  lemma ApostropheHasNoCuts(seps: set<char>, st: State)
    ensures NoCuts("'\"'\"'", seps, st)
  {
    var a := Step(st, '\'');
    var b := Step(a, '"');
    var c := Step(b, '\'');
    ScanOne('\'', "\"'\"'", seps, st);
    ScanOne('"', "'\"'", seps, a);
    ScanOne('\'', "\"'", seps, b);
    ScanOne('"', "'", seps, c);
    ScanOne('\'', "", seps, Step(c, '"'));
    assert ['\''] + "\"'\"'" == "'\"'\"'" && ['"'] + "'\"'" == "\"'\"'" && ['\''] + "\"'" == "'\"'"
        && ['"'] + "'" == "\"'" && ['\''] + "" == "'";
  }

  lemma {:induction false} QuotedTailUncut(s: string, seps: set<char>, st: State)
    ensures NoCuts(Shlex.QuotedTail(s), seps, st) <==> QuotedUncut(s, seps, st)
    ensures After(Shlex.QuotedTail(s), st) == Step(AfterQuoted(s, st), '\'')
  {
    if s == "" {
      ScanOne('\'', "", seps, st);
    } else {
      var more := Shlex.QuotedTail(s[1..]);
      QuotedTailUncut(s[1..], seps, QuotedStep(st, s[0]));
      if s[0] == '\'' {
        ApostropheHasNoCuts(seps, st);
        NoCutsAppend("'\"'\"'", more, seps, st);
        AfterAppend("'\"'\"'", more, st);
      } else {
        ScanOne(s[0], more, seps, st);
      }
    }
  }

  lemma QuoteUncut(s: string, seps: set<char>, st: State)
    requires Unsafe(seps)
    ensures NoCuts(Shlex.Quote(s), seps, st) <==> TokenUncut(s, seps, st)
    ensures After(Shlex.Quote(s), st) == AfterToken(s, st)
  {
    if IsBare(s) {
      BareHasNoCuts(s, seps, st);
    } else {
      assert Shlex.Quote(s) == ['\''] + Shlex.QuotedTail(s);
      ScanOne('\'', Shlex.QuotedTail(s), seps, st);
      QuotedTailUncut(s, seps, Step(st, '\''));
    }
  }

  /** The rebuilt text has no live separator exactly when none of the tokens has one. */
  lemma {:induction false} JoinQuotedUncut(tokens: seq<string>, seps: set<char>, st: State)
    requires Unsafe(seps)
    ensures NoCuts(JoinQuoted(tokens), seps, st) <==> ArgvUncut(tokens, seps, st)
  {
    if tokens != [] {
      var q := Shlex.Quote(tokens[0]);
      QuoteUncut(tokens[0], seps, st);
      if |tokens| > 1 {
        var more := JoinQuoted(tokens[1..]);
        JoinQuotedUncut(tokens[1..], seps, Step(After(q, st), ' '));
        ScanOne(' ', more, seps, After(q, st));
        NoCutsAppend(q, " " + more, seps, st);
        Associative(q, " ", more);
      }
    }
  }

  /** Without a backslash every token brings the scanners back to where they started. */
  lemma {:induction false} QuotedWithoutBackslash(token: string, seps: set<char>)
    requires '\\' !in token
    ensures var inSingle := State(Open('\''), false);
      QuotedUncut(token, seps, inSingle) && AfterQuoted(token, inSingle) == inSingle
  {
    var inSingle := State(Open('\''), false);
    if token != "" {
      QuotedWithoutBackslash(token[1..], seps);
      if token[0] == '\'' {
        assert After("'\"'\"'", inSingle) == inSingle by {
          var inDouble := State(Open('"'), false);
          ScanOne('\'', "\"'\"'", seps, inSingle);
          ScanOne('"', "'\"'", seps, START);
          ScanOne('\'', "\"'", seps, inDouble);
          ScanOne('"', "'", seps, inDouble);
          ScanOne('\'', "", seps, START);
          assert ['\''] + "\"'\"'" == "'\"'\"'" && ['"'] + "'\"'" == "\"'\"'" && ['\''] + "\"'" == "'\"'"
              && ['"'] + "'" == "\"'" && ['\''] + "" == "'";
        }
      }
    }
  }

  lemma {:induction false} BareKeepsStart(token: string)
    requires Shlex.AllSafe(token)
    ensures After(token, START) == START
  {
    if token != "" {
      BareKeepsStart(token[1..]);
    }
  }

  lemma {:induction false} NoBackslashIsUncut(tokens: seq<string>, seps: set<char>)
    requires forall i :: 0 <= i < |tokens| ==> '\\' !in tokens[i]
    ensures ArgvUncut(tokens, seps, START)
  {
    if tokens != [] {
      QuotedWithoutBackslash(tokens[0], seps);
      if IsBare(tokens[0]) {
        BareKeepsStart(tokens[0]);
      }
      NoBackslashIsUncut(tokens[1..], seps);
    }
  }

  lemma {:induction false} QuotedTailEnds(s: string)
    ensures Shlex.QuotedTail(s) != "" && Shlex.QuotedTail(s)[|Shlex.QuotedTail(s)| - 1] == '\''
  {
    if s != "" {
      QuotedTailEnds(s[1..]);
    }
  }

  /** The rebuilt text neither starts nor ends in whitespace, and never ends in a bare `&`. */
  /** Neither end is whitespace, nor is the last character a background mark. */
  ghost predicate VisibleEnds(text: string) {
    text != "" && !IsSpace(text[0]) && !IsSpace(text[|text| - 1]) && text[|text| - 1] != '&'
  }

  lemma {:induction false} JoinQuotedEnds(tokens: seq<string>)
    requires tokens != []
    ensures VisibleEnds(JoinQuoted(tokens))
  {
    QuoteEnds(tokens[0]);
    if |tokens| > 1 {
      JoinQuotedEnds(tokens[1..]);
      OuterEnds(Shlex.Quote(tokens[0]), " ", JoinQuoted(tokens[1..]));
    }
  }

  lemma OuterEnds(a: string, middle: string, b: string)
    requires VisibleEnds(a) && VisibleEnds(b)
    ensures VisibleEnds(a + middle + b)
  {
  }

  lemma QuoteEnds(token: string)
    ensures VisibleEnds(Shlex.Quote(token))
  {
    if IsBare(token) {
      SafeIsVisible(token[0]);
      SafeIsVisible(token[|token| - 1]);
    } else {
      QuotedTailEnds(token);
      assert Shlex.Quote(token) == "'" + Shlex.QuotedTail(token);
    }
  }

  lemma SafeIsVisible(c: char)
    requires Shlex.IsSafe(c)
    ensures !IsSpace(c) && c != '&'
  {
  }

  lemma SeparatorsAreUnsafe(splitNewlines: bool)
    ensures Unsafe(CommandSequence.SequenceSeparators(splitNewlines)) && Unsafe(PIPE)
  {
  }

  lemma NoMarkAtEnd(text: string)
    requires text != "" && !IsSpace(text[|text| - 1]) && text[|text| - 1] != '&'
    ensures !HasBackgroundMark(text) && Foreground(text) == text
  {
  }

  /** The rebuilt command is one element of a sequence and one foreground stage. */
  ghost predicate StaysWhole(text: string, splitNewlines: bool) {
    && SplitParts(text, CommandSequence.SequenceSeparators(splitNewlines)) == [text]
    && !HasBackgroundMark(text) && SplitParts(Foreground(text), PIPE) == [text]
  }

  /** For every argv its words come back; the rebuilt command stays whole exactly when no `;`, newline
      or `|` of a token is met live. */
  lemma RemainderRoundTrip(tokens: seq<string>, splitNewlines: bool)
    requires |tokens| >= 2
    ensures CommandFromRemainder(tokens).Ok?
    ensures var text := CommandFromRemainder(tokens).value;
      && Shlex.Split(text) == Ok(tokens)
      && (StaysWhole(text, splitNewlines) <==>
            ArgvUncut(tokens, CommandSequence.SequenceSeparators(splitNewlines), START) &&
              ArgvUncut(tokens, PIPE, START))
  {
    var text := JoinQuoted(tokens);
    JoinQuotedEnds(tokens);
    NoMarkAtEnd(text);
    SeparatorsAreUnsafe(splitNewlines);
    OnePartIffNoCuts(text, CommandSequence.SequenceSeparators(splitNewlines));
    OnePartIffNoCuts(text, PIPE);
    JoinQuotedUncut(tokens, CommandSequence.SequenceSeparators(splitNewlines), START);
    JoinQuotedUncut(tokens, PIPE, START);
    SplitJoinQuoted(tokens);
  }

  /** Without backslashes it always does. */
  lemma NoBackslashStaysWhole(tokens: seq<string>, splitNewlines: bool)
    requires |tokens| >= 2 && forall i :: 0 <= i < |tokens| ==> '\\' !in tokens[i]
    ensures StaysWhole(CommandFromRemainder(tokens).value, splitNewlines)
  {
    RemainderRoundTrip(tokens, splitNewlines);
    NoBackslashIsUncut(tokens, CommandSequence.SequenceSeparators(splitNewlines));
    NoBackslashIsUncut(tokens, PIPE);
  }

  /** A trailing backslash does no harm as long as no separator follows. */
  lemma TrailingBackslashAlone(splitNewlines: bool)
    ensures StaysWhole(CommandFromRemainder(["a\\", "b"]).value, splitNewlines)
  {
    RemainderRoundTrip(["a\\", "b"], splitNewlines);
    TrailingBackslashUncut(CommandSequence.SequenceSeparators(splitNewlines));
    TrailingBackslashUncut(PIPE);
  }

  lemma TrailingBackslashUncut(seps: set<char>)
    ensures ArgvUncut(["a\\", "b"], seps, START)
  {
    assert "a\\"[1..] == "\\" && "\\"[1..] == "";
    assert ["a\\", "b"][1..] == ["b"] && ["b"][1..] == [];
    assert !Shlex.IsSafe("a\\"[1]) && !IsBare("a\\") && IsBare("b");
    assert QuotedUncut("a\\", seps, Step(START, '\''));
  }

  lemma QuotedExample()
    ensures JoinQuoted(["a\\", ";"]) == "'a\\' ';'"
  {
    assert Shlex.QuotedTail("") == "'";
    assert Shlex.QuotedTail("\\") == "\\'" by { assert "\\"[1..] == "" && ['\\'] + "'" == "\\'"; }
    assert Shlex.QuotedTail("a\\") == "a\\'" by { assert "a\\"[1..] == "\\" && ['a'] + "\\'" == "a\\'"; }
    assert Shlex.QuotedTail(";") == ";'" by { assert ";"[1..] == "" && [';'] + "'" == ";'"; }
    assert !Shlex.IsSafe("a\\"[1]) && !Shlex.IsSafe(";"[0]);
    assert Shlex.Quote("a\\") == "'a\\'" && Shlex.Quote(";") == "';'";
    assert ["a\\", ";"][1..] == [";"];
  }

  lemma ExampleScan(seps: set<char>)
    ensures NoCuts("'a\\' '", seps, START) && After("'a\\' '", START) == START && NoCuts("'", seps, START)
  {
    var inSingle := State(Open('\''), false);
    ScanOne('\'', "a\\' '", seps, START);
    ScanOne('a', "\\' '", seps, inSingle);
    ScanOne('\\', "' '", seps, inSingle);
    ScanOne('\'', " '", seps, inSingle.(escaped := true));
    ScanOne(' ', "'", seps, inSingle);
    ScanOne('\'', "", seps, inSingle);
    ScanOne('\'', "", seps, START);
    assert "'a\\' '" == ['\''] + "a\\' '" && "a\\' '" == ['a'] + "\\' '" && "\\' '" == ['\\'] + "' '"
        && "' '" == ['\''] + " '" && " '" == [' '] + "'" && "'" == ['\''] + "";
  }

  /** With one, the sequence splitter cuts inside the quoted `;`. */
  lemma TrailingBackslashCuts()
    ensures CommandFromRemainder(["a\\", ";"]) == Ok("'a\\' ';'")
    ensures SplitParts("'a\\' ';'", CommandSequence.SequenceSeparators(true)) == ["'a\\' '", "'"]
  {
    QuotedExample();
    var a, seps := "'a\\' '", CommandSequence.SequenceSeparators(true);
    ExampleScan(seps);
    SegmentsOfOneCut(a, ';', "'", seps, START);
    assert "'a\\' ';'" == a + [';'] + "'";
    StripStripped(a);
    StripStripped("'");
    assert Parts(["'"]) == ["'"] && [a, "'"][1..] == ["'"];
  }

  /** A line quoted as one word is run as that line, pipes and all; no word at all is refused. */
  lemma {:induction false} QuotedLineIsRun(line: string)
    ensures Shlex.Split(Shlex.Quote(line)).Ok?
    ensures CommandFromRemainder(Shlex.Split(Shlex.Quote(line)).value) == Ok(line)
    ensures Shlex.Split("").Ok? && CommandFromRemainder(Shlex.Split("").value) == Error("exec requires a command")
  {
    Shlex.QuoteIsRead(line, Shlex.BEGIN);
    assert [] + [line] == [line];
  }

  lemma SpacedAgain(a: string, b: string, c: string)
    ensures a + " " + (b + " " + c) == a + " " + b + " " + c
  {
  }

  /** The tokens stand one blank apart. */
  lemma {:induction false} TokensAreSpaced(tokens: seq<string>, last: string)
    ensures JoinQuoted(tokens + [last]) ==
      if tokens == [] then Shlex.Quote(last) else JoinQuoted(tokens) + " " + Shlex.Quote(last)
  {
    var all := tokens + [last];
    if tokens == [] {
      assert all == [last];
    } else {
      assert all[0] == tokens[0] && all[1..] == tokens[1..] + [last];
      TokensAreSpaced(tokens[1..], last);
      if |tokens| > 1 {
        SpacedAgain(Shlex.Quote(tokens[0]), JoinQuoted(tokens[1..]), Shlex.Quote(last));
      }
    }
  }
}
