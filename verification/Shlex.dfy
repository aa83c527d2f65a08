/** Python's `shlex.split` (POSIX mode) and `shlex.quote`, after sections 2.2.1 to 2.2.3 of
    the POSIX.1-2017 Shell Command Language. Here single quotes keep backslashes literal. */
module Shlex {
  import opened Results

  // ---------- splitting ----------

  datatype Mode =
    | Gap            // between words
    | InWord
    | InSingle
    | InDouble
    | EscapedInWord
    | EscapedInDouble

  predicate IsBlank(c: char) {
    c == ' ' || c == '\t' || c == '\r' || c == '\n'
  }

  /** The words finished so far and the one being collected. */
  datatype Lexer = Lexer(mode: Mode, word: string, words: seq<string>)

  const BEGIN := Lexer(Gap, "", [])

  function Read(lx: Lexer, c: char): Lexer {
    match lx.mode
    case Gap =>
      if IsBlank(c) then lx
      else if c == '\\' then lx.(mode := EscapedInWord)
      else if c == '\'' then lx.(mode := InSingle)
      else if c == '"' then lx.(mode := InDouble)
      else lx.(mode := InWord, word := [c])
    case InWord =>
      if IsBlank(c) then Lexer(Gap, "", lx.words + [lx.word])
      else if c == '\\' then lx.(mode := EscapedInWord)
      else if c == '\'' then lx.(mode := InSingle)
      else if c == '"' then lx.(mode := InDouble)
      else lx.(word := lx.word + [c])
    case InSingle =>
      if c == '\'' then lx.(mode := InWord) else lx.(word := lx.word + [c])
    case InDouble =>
      if c == '"' then lx.(mode := InWord)
      else if c == '\\' then lx.(mode := EscapedInDouble)
      else lx.(word := lx.word + [c])
    case EscapedInWord => lx.(mode := InWord, word := lx.word + [c])
    case EscapedInDouble =>
      // Inside double quotes a backslash is kept unless it escapes a quote or a backslash.
      lx.(mode := InDouble, word := lx.word + (if c == '"' || c == '\\' then [c] else ['\\', c]))
  }

  function ReadAll(text: string, lx: Lexer): Lexer {
    if text == "" then lx else ReadAll(text[1..], Read(lx, text[0]))
  }

  function Finish(lx: Lexer): Result<seq<string>> {
    match lx.mode
    case Gap => Ok(lx.words)
    case InWord => Ok(lx.words + [lx.word])
    case InSingle | InDouble => Error("No closing quotation")
    case EscapedInWord | EscapedInDouble => Error("No escaped character")
  }

  function Split(text: string): Result<seq<string>> {
    Finish(ReadAll(text, BEGIN))
  }

  lemma {:induction false} ReadAppend(a: string, b: string, lx: Lexer)
    ensures ReadAll(a + b, lx) == ReadAll(b, ReadAll(a, lx))
  {
    if a == "" {
      assert a + b == b;
    } else {
      assert (a + b)[1..] == a[1..] + b;
      ReadAppend(a[1..], b, Read(lx, a[0]));
    }
  }

  lemma ReadOne(c: char, rest: string, lx: Lexer)
    ensures ReadAll([c] + rest, lx) == ReadAll(rest, Read(lx, c))
  {
    assert ([c] + rest)[1..] == rest;
  }

  /** A blank after something that reads as one word ends that word. */
  lemma WordThenBlank(text: string, word: string, blank: char, rest: string, lx: Lexer)
    requires IsBlank(blank) && ReadAll(text, lx) == lx.(mode := InWord, word := word)
    ensures ReadAll(text + ([blank] + rest), lx) == ReadAll(rest, Lexer(Gap, "", lx.words + [word]))
  {
    ReadAppend(text, [blank] + rest, lx);
    ReadOne(blank, rest, lx.(mode := InWord, word := word));
  }

  // ---------- quoting ----------

  /** Outside `[^\w@%+=:,./-]`. */
  predicate IsSafe(c: char) {
    'a' <= c <= 'z' || 'A' <= c <= 'Z' || '0' <= c <= '9' || c in "_@%+=:,./-"
  }

  predicate AllSafe(s: string) {
    forall i :: 0 <= i < |s| ==> IsSafe(s[i])
  }

  /** `s.replace("'", "'\"'\"'")`, then the closing quote. */
  function QuotedTail(s: string): string {
    if s == "" then "'"
    else (if s[0] == '\'' then "'\"'\"'" else [s[0]]) + QuotedTail(s[1..])
  }

  function Quote(s: string): string {
    if s == "" then "''" else if AllSafe(s) then s else "'" + QuotedTail(s)
  }

  // ---------- quoting is undone by splitting ----------

  lemma {:induction false} SafeTextIsRead(s: string, lx: Lexer)
    requires AllSafe(s) && lx.mode == InWord
    ensures ReadAll(s, lx) == lx.(word := lx.word + s)
  {
    if s == "" {
      assert lx.word + s == lx.word;
    } else {
      SafeTextIsRead(s[1..], Read(lx, s[0]));
      assert lx.word + [s[0]] + s[1..] == lx.word + s;
    }
  }

  lemma {:induction false} QuotedTailIsRead(s: string, lx: Lexer)
    requires lx.mode == InSingle
    ensures ReadAll(QuotedTail(s), lx) == lx.(mode := InWord, word := lx.word + s)
  {
    if s == "" {
      assert lx.word + s == lx.word;
      ReadOne('\'', "", lx);
    } else {
      var more := QuotedTail(s[1..]);
      var lx' := lx.(word := lx.word + [s[0]]);
      QuotedTailIsRead(s[1..], lx');
      assert lx.word + [s[0]] + s[1..] == lx.word + s;
      if s[0] == '\'' {
        ApostropheIsRead(lx);
        ReadAppend("'\"'\"'", more, lx);
      } else {
        ReadOne(s[0], more, lx);
      }
    }
  }

  lemma ApostropheIsRead(lx: Lexer)
    requires lx.mode == InSingle
    ensures ReadAll("'\"'\"'", lx) == lx.(word := lx.word + ['\''])
  {
    var inWord := lx.(mode := InWord);
    var inDouble := lx.(mode := InDouble);
    ReadOne('\'', "\"'\"'", lx);
    ReadOne('"', "'\"'", inWord);
    ReadOne('\'', "\"'", inDouble);
    ReadOne('"', "'", inDouble.(word := lx.word + ['\'']));
    ReadOne('\'', "", inWord.(word := lx.word + ['\'']));
    assert ['\''] + "\"'\"'" == "'\"'\"'" && ['"'] + "'\"'" == "\"'\"'" && ['\''] + "\"'" == "'\"'"
        && ['"'] + "'" == "\"'" && ['\''] + "" == "'";
  }

  lemma SafeWordIsRead(s: string, lx: Lexer)
    requires lx.mode == Gap && lx.word == "" && s != "" && AllSafe(s)
    ensures ReadAll(s, lx) == lx.(mode := InWord, word := s)
  {
    assert Read(lx, s[0]) == lx.(mode := InWord, word := [s[0]]);
    SafeTextIsRead(s[1..], lx.(mode := InWord, word := [s[0]]));
    assert [s[0]] + s[1..] == s;
  }

  /** Between words, a quoted token is read as exactly that token. */
  lemma QuoteIsRead(s: string, lx: Lexer)
    requires lx.mode == Gap && lx.word == ""
    ensures ReadAll(Quote(s), lx) == lx.(mode := InWord, word := s)
  {
    if s == "" {
      ReadOne('\'', "'", lx);
      QuotedTailIsRead("", lx.(mode := InSingle));
    } else if AllSafe(s) {
      SafeWordIsRead(s, lx);
    } else {
      ReadOne('\'', QuotedTail(s), lx);
      QuotedTailIsRead(s, lx.(mode := InSingle));
      assert "" + s == s;
    }
  }

  // ---------- a character that is never dropped ----------

  ghost predicate Carries(lx: Lexer, c: char) {
    c in lx.word || exists w :: w in lx.words && c in w
  }

  lemma {:induction false} CarriesOn(text: string, lx: Lexer, c: char)
    requires (lx.mode == Gap ==> lx.word == "") && Carries(lx, c)
    ensures Carries(ReadAll(text, lx), c)
    ensures ReadAll(text, lx).mode == Gap ==> ReadAll(text, lx).word == ""
  {
    if text != "" {
      var next := Read(lx, text[0]);
      if w :| w in lx.words && c in w {
        assert w in next.words;
      } else if next.words != lx.words {
        assert lx.word in next.words;
      }
      CarriesOn(text[1..], next, c);
    }
  }

  /** A character that is neither blank, quote nor backslash is in some word, if the text has words. */
  lemma {:induction false} ReadCarries(text: string, lx: Lexer, c: char)
    requires (lx.mode == Gap ==> lx.word == "") && c in text
    requires !IsBlank(c) && c != '\'' && c != '"' && c != '\\'
    ensures Carries(ReadAll(text, lx), c)
    ensures ReadAll(text, lx).mode == Gap ==> ReadAll(text, lx).word == ""
  {
    var next := Read(lx, text[0]);
    if text[0] == c {
      CarriesOn(text[1..], next, c);
    } else {
      ReadCarries(text[1..], next, c);
    }
  }

  lemma SplitCarries(text: string, c: char)
    requires c in text && !IsBlank(c) && c != '\'' && c != '"' && c != '\\'
    ensures Split(text).Ok? ==> exists w :: w in Split(text).value && c in w
  {
    var lx := ReadAll(text, BEGIN);
    ReadCarries(text, BEGIN, c);
    if w :| w in lx.words && c in w {
      assert w in lx.words + [lx.word];
    } else {
      assert lx.word in lx.words + [lx.word];
    }
  }
}
