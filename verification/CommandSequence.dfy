/** REPL command lines: splitting sequences at `;` and newline, and `#` comments. */
module CommandSequence {
  import opened Text
  import opened QuoteScan
  import opened SplitLaws
  import opened PipelineSyntax

  function SequenceSeparators(splitNewlines: bool): set<char> {
    if splitNewlines then {';', '\n'} else {';'}
  }

  method SplitCommandSequence(line: string, splitNewlines: bool) returns (commands: seq<string>)
    ensures commands == SplitParts(line, SequenceSeparators(splitNewlines))
  {
    ghost var seps := SequenceSeparators(splitNewlines);
    commands := [];
    var quote := Unquoted;
    var escaped := false;
    var current := "";
    RemainingStart(line, seps);
    for index := 0 to |line|
      invariant SplitParts(line, seps) == commands + Remaining(current, line[index..], seps, State(quote, escaped))
    {
      var c := line[index];
      RemainingStep(current, line, index, seps, State(quote, escaped));
      if escaped {
        current := current + [c];
        escaped := false;
        continue;
      }
      if c == '\\' {
        current := current + [c];
        escaped := true;
        continue;
      }
      if quote != Unquoted {
        current := current + [c];
        if c == quote.mark {
          quote := Unquoted;
        }
        continue;
      }
      if IsQuote(c) {
        current := current + [c];
        quote := Open(c);
        continue;
      }
      if c == ';' || (splitNewlines && c == '\n') {
        var command := Strip(current);
        if command != "" {
          commands := commands + [command];
        }
        current := "";
        continue;
      }
      current := current + [c];
    }
    RemainingEnd(current, line, seps, State(quote, escaped));
    var command := Strip(current);
    if command != "" {
      commands := commands + [command];
    }
  }

  /** Splitting a line into commands and each command into stages is one scan of the line. */
  lemma SequenceThenPipes(line: string, splitNewlines: bool)
    ensures SplitEach(SplitParts(line, SequenceSeparators(splitNewlines)), PIPE)
         == SplitParts(line, SequenceSeparators(splitNewlines) + PIPE)
  {
    SplitTwiceIsSplitOnce(line, SequenceSeparators(splitNewlines), PIPE);
  }

  // ---------- comments ----------

  function ToggleQuote(quote: Quote, c: char): Quote {
    if !IsQuote(c) then quote
    else if quote == Open(c) then Unquoted
    else if quote == Unquoted then Open(c)
    else quote
  }

  predicate EscapedHash(line: string, quote: Quote) {
    |line| >= 2 && line[0] == '\\' && line[1] == '#' && quote == Unquoted
  }

  /** The line up to its comment, with unquoted `\#` turned into `#`. */
  function WithoutComment(line: string, quote: Quote): string {
    if line == "" then ""
    else if EscapedHash(line, quote) then "#" + WithoutComment(line[2..], quote)
    else
      var quote' := ToggleQuote(quote, line[0]);
      if line[0] == '#' && quote' == Unquoted then ""
      else [line[0]] + WithoutComment(line[1..], quote')
  }

  method StripInlineComment(line: string) returns (r: string)
    ensures r == WithoutComment(line, Unquoted)
  {
    var quote := Unquoted;
    var chars := "";
    var index := 0;
    assert line[0..] == line;
    while index < |line|
      invariant 0 <= index <= |line|
      invariant WithoutComment(line, Unquoted) == chars + WithoutComment(line[index..], quote)
    {
      var c := line[index];
      CommentStep(chars, line, index, quote);
      if c == '\\' && quote == Unquoted && index + 1 < |line| && line[index + 1] == '#' {
        chars := chars + "#";
        index := index + 2;
        continue;
      }
      if IsQuote(c) {
        quote := if quote == Open(c) then Unquoted else if quote == Unquoted then Open(c) else quote;
      }
      if c == '#' && quote == Unquoted {
        break;
      }
      chars := chars + [c];
      index := index + 1;
    }
    r := chars;
  }

  /** One turn of the comment loop. */
  lemma CommentStep(chars: string, line: string, index: nat, quote: Quote)
    requires index < |line|
    ensures var c, quote' := line[index], ToggleQuote(quote, line[index]);
      chars + WithoutComment(line[index..], quote)
      == if c == '\\' && quote == Unquoted && index + 1 < |line| && line[index + 1] == '#'
         then chars + "#" + WithoutComment(line[index + 2..], quote)
         else if c == '#' && quote' == Unquoted then chars
         else chars + [c] + WithoutComment(line[index + 1..], quote')
  {
    var rest := line[index..];
    assert rest[0] == line[index] && rest[1..] == line[index + 1..];
    if EscapedHash(rest, quote) {
      assert rest[1] == line[index + 1] && rest[2..] == line[index + 2..];
      Associative(chars, "#", WithoutComment(line[index + 2..], quote));
    } else {
      Associative(chars, [rest[0]], WithoutComment(rest[1..], ToggleQuote(quote, rest[0])));
      assert chars + "" == chars;
    }
  }

  /** An unquoted `\#` occurs before the comment. */
  predicate Unescapes(line: string, quote: Quote) {
    line != "" && (EscapedHash(line, quote) ||
      (!(line[0] == '#' && ToggleQuote(quote, line[0]) == Unquoted)
       && Unescapes(line[1..], ToggleQuote(quote, line[0]))))
  }

  /** Stripping the same text a second time changes nothing exactly when the first time met no
      unquoted `\#`. */
  lemma {:induction false} StripTwice(line: string, quote: Quote)
    ensures WithoutComment(WithoutComment(line, quote), quote) == WithoutComment(line, quote)
       <==> !Unescapes(line, quote)
  {
    var r := WithoutComment(line, quote);
    if line == "" {
    } else if EscapedHash(line, quote) {
      assert r[0] == '#' && WithoutComment(r, quote) == "";
    } else {
      var quote' := ToggleQuote(quote, line[0]);
      if line[0] == '#' && quote' == Unquoted {
      } else {
        var r' := WithoutComment(line[1..], quote');
        assert r == [line[0]] + r' && r[1..] == r';
        StripTwice(line[1..], quote');
        if EscapedHash(r, quote) {
          // The second pass eats the backslash in front of a hash the first pass made bare.
          assert r'[0] == '#';
          assert WithoutComment(r, quote)[0] == '#';
        } else {
          assert WithoutComment(r, quote) == [r[0]] + WithoutComment(r', quote');
          assert WithoutComment(r, quote)[1..] == WithoutComment(r', quote');
        }
      }
    }
  }
}
