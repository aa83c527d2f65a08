/** Splitting a pipeline at unquoted pipes, the trailing `&`, and the `name:` prefix. */
module PipelineSyntax {
  import opened Results
  import opened Text
  import opened QuoteScan
  import opened SplitLaws

  const PIPE: set<char> := {'|'}

  // ---------- one turn of a splitting loop ----------

  function Kept(segment: string): seq<string> {
    if Strip(segment) == "" then [] else [Strip(segment)]
  }

  /** What remains to be kept when `current` has been read since the last cut. */
  function Remaining(current: string, rest: string, seps: set<char>, st: State): seq<string>
    decreases |rest|
  {
    if rest == "" then Kept(current)
    else if IsCut(st, rest[0], seps) then Kept(current) + Remaining("", rest[1..], seps, START)
    else Remaining(current + [rest[0]], rest[1..], seps, Step(st, rest[0]))
  }

  lemma ExtendTwice(a: string, b: string, segments: seq<string>)
    requires segments != []
    ensures Extend(a, Extend(b, segments)) == Extend(a + b, segments)
  {
    assert a + (b + segments[0]) == a + b + segments[0];
  }

  lemma ExtendEmpty(segments: seq<string>)
    requires segments != []
    ensures Extend("", segments) == segments
  {
    assert "" + segments[0] == segments[0];
  }

  lemma KeptFirst(first: string, rest: seq<string>)
    ensures Parts([first] + rest) == Kept(first) + Parts(rest)
  {
    assert ([first] + rest)[1..] == rest;
  }

  /** It is the rest of the segments, with `current` in front of the first. */
  lemma {:induction false} RemainingIs(current: string, rest: string, seps: set<char>, st: State)
    ensures Remaining(current, rest, seps, st) == Parts(Extend(current, Segments(rest, seps, st)))
    decreases |rest|
  {
    assert current + "" == current;
    if rest == "" {
      KeptFirst(current, []);
      assert [current] + [] == [current];
    } else if IsCut(st, rest[0], seps) {
      var segments := Segments(rest[1..], seps, START);
      RemainingIs("", rest[1..], seps, START);
      ExtendEmpty(segments);
      KeptFirst(current, segments);
      assert Extend(current, [""] + segments) == [current] + segments;
    } else {
      RemainingIs(current + [rest[0]], rest[1..], seps, Step(st, rest[0]));
      ExtendTwice(current, [rest[0]], Segments(rest[1..], seps, Step(st, rest[0])));
    }
  }

  /** One turn of a splitting loop, reading `text[index]`. */
  lemma RemainingStep(current: string, text: string, index: nat, seps: set<char>, st: State)
    requires index < |text|
    ensures Remaining(current, text[index..], seps, st)
         == if IsCut(st, text[index], seps)
            then Kept(current) + Remaining("", text[index + 1..], seps, START)
            else Remaining(current + [text[index]], text[index + 1..], seps, Step(st, text[index]))
  {
    assert text[index..][0] == text[index] && text[index..][1..] == text[index + 1..];
  }

  lemma RemainingStart(text: string, seps: set<char>)
    ensures Remaining("", text[0..], seps, START) == SplitParts(text, seps)
  {
    assert text[0..] == text;
    RemainingIs("", text, seps, START);
    ExtendEmpty(Segments(text, seps, START));
  }

  lemma RemainingEnd(current: string, text: string, seps: set<char>, st: State)
    ensures Remaining(current, text[|text|..], seps, st) == Kept(current)
  {
  }

  // ---------- quoted positions ----------

  predicate InQuotes(text: string, position: int) {
    0 <= position < |text| && After(text[..position], START).quote.Open?
  }

  method IsQuotedPosition(text: string, position: int) returns (quoted: bool)
    ensures quoted <==> InQuotes(text, position)
  {
    var quote := Unquoted;
    var escaped := false;
    for index := 0 to |text|
      invariant State(quote, escaped) == After(text[..index], START)
      invariant position < 0 || index <= position
    {
      var c := text[index];
      AfterOneMore(text, index, START);
      if index == position {
        return quote != Unquoted;
      }
      if escaped {
        escaped := false;
        continue;
      }
      if c == '\\' {
        escaped := true;
        continue;
      }
      if quote != Unquoted {
        if c == quote.mark {
          quote := Unquoted;
        }
        continue;
      }
      if IsQuote(c) {
        quote := Open(c);
      }
    }
    return false;
  }

  // ---------- the trailing background mark ----------

  /** The line ends, whitespace aside, in an unquoted `&` that follows whitespace. */
  predicate HasBackgroundMark(line: string) {
    var s := RStrip(line);
    |s| >= 2 && s[|s| - 1] == '&' && IsSpace(s[|s| - 2]) && !InQuotes(s, |s| - 1)
  }

  /** The line without its background mark. */
  function Foreground(line: string): string {
    if HasBackgroundMark(line) then RStrip(RStrip(line)[..|RStrip(line)| - 1]) else line
  }

  method PeelPipelineBackground(line: string) returns (rest: string, background: bool)
    ensures background == HasBackgroundMark(line)
    ensures rest == Foreground(line)
  {
    var stripped := RStrip(line);
    if stripped == "" || stripped[|stripped| - 1] != '&' {
      return line, false;
    }
    var amp := |stripped| - 1;
    if amp == 0 || !IsSpace(stripped[amp - 1]) {
      return line, false;
    }
    var quoted := IsQuotedPosition(stripped, amp);
    if quoted {
      return line, false;
    }
    return RStrip(stripped[..amp]), true;
  }

  // ---------- splitting at pipes ----------

  /** One turn of the pipe loop, which keeps the current segment as a slice. */
  lemma SliceTurn(parts: seq<string>, text: string, start: nat, index: nat, st: State)
    requires start <= index < |text|
    ensures parts + Remaining(text[start..index], text[index..], PIPE, st)
         == if IsCut(st, text[index], PIPE)
            then parts + Kept(text[start..index]) +
              Remaining(text[index + 1..index + 1], text[index + 1..], PIPE, START)
            else parts + Remaining(text[start..index + 1], text[index + 1..], PIPE, Step(st, text[index]))
  {
    RemainingStep(text[start..index], text, index, PIPE, st);
    assert text[start..index] + [text[index]] == text[start..index + 1];
    assert text[index + 1..index + 1] == "";
    Associative(parts, Kept(text[start..index]), Remaining("", text[index + 1..], PIPE, START));
  }

  lemma SliceStart(text: string)
    ensures SplitParts(text, PIPE) == [] + Remaining(text[0..0], text[0..], PIPE, START)
  {
    RemainingStart(text, PIPE);
    assert text[0..0] == "";
  }

  lemma SliceEnd(text: string, start: nat, st: State)
    requires start <= |text|
    ensures Remaining(text[start..|text|], text[|text|..], PIPE, st) == Kept(text[start..])
  {
    assert text[start..|text|] == text[start..];
    RemainingEnd(text[start..], text, PIPE, st);
  }

  method SplitPipelineRaw(line: string) returns (parts: seq<string>, background: bool)
    ensures background == HasBackgroundMark(line)
    ensures parts == SplitParts(Foreground(line), PIPE)
  {
    var text;
    text, background := PeelPipelineBackground(line);
    parts := SplitAtPipes(text);
  }

  /** The scanning loop of `split_pipeline_raw`. */
  method SplitAtPipes(text: string) returns (parts: seq<string>)
    ensures parts == SplitParts(text, PIPE)
  {
    parts := [];
    var start := 0;
    var quote := Unquoted;
    var escaped := false;
    SliceStart(text);
    for index := 0 to |text|
      invariant 0 <= start <= index
      invariant SplitParts(text, PIPE)
             == parts + Remaining(text[start..index], text[index..], PIPE, State(quote, escaped))
    {
      var c := text[index];
      SliceTurn(parts, text, start, index, State(quote, escaped));
      if escaped {
        escaped := false;
        continue;
      }
      if c == '\\' {
        escaped := true;
        continue;
      }
      if quote != Unquoted {
        if c == quote.mark {
          quote := Unquoted;
        }
        continue;
      }
      if IsQuote(c) {
        quote := Open(c);
        continue;
      }
      if c == '|' {
        var part := Strip(text[start..index]);
        if part != "" {
          parts := parts + [part];
        }
        start := index + 1;
      }
    }
    SliceEnd(text, start, State(quote, escaped));
    var final := Strip(text[start..]);
    if final != "" {
      parts := parts + [final];
    }
  }

  /** A stage goes through the whole splitter unchanged exactly when it does not itself end in
      a background mark. */
  lemma StageResplits(line: string, p: string)
    requires p in SplitParts(Foreground(line), PIPE)
    ensures SplitParts(Foreground(p), PIPE) == [p] <==> !HasBackgroundMark(p)
  {
    PartsSplitToThemselves(Foreground(line), PIPE, p);
    if HasBackgroundMark(p) && SplitParts(Foreground(p), PIPE) == [p] {
      var f := Foreground(p);
      RStripEnds(p);
      RStripEnds(RStrip(p)[..|RStrip(p)| - 1]);
      assert |f| < |p|;
      PartsAreStripped(Segments(f, PIPE, START), p);
      var k :| 0 <= k < |Segments(f, PIPE, START)| && p == Strip(Segments(f, PIPE, START)[k]);
      SegmentsAreShort(f, PIPE, START, k);
      StripShortens(Segments(f, PIPE, START)[k]);
      assert false;
    }
  }

  /** The first stage of `a & |b` is one that does not. */
  lemma StageWithBackgroundMark()
    ensures "a &" in SplitParts(Foreground("a & |b"), PIPE)
    ensures SplitParts(Foreground("a &"), PIPE) == ["a"]
  {
    var a, text := "a & ", "a & |b";
    assert Foreground(text) == text == a + ['|'] + "b";
    assert NoCuts(a, PIPE, START) && After(a, START) == START by {
      assert a[1..] == " & " && " & "[1..] == "& " && "& "[1..] == " " && " "[1..] == "";
    }
    assert "b"[1..] == "";
    SegmentsOfOneCut(a, '|', "b", PIPE, START);
    assert Strip(a) == "a &" by {
      assert a[..3] == "a &";
    }
    assert "a &" in Parts([a, "b"]);
    assert RStrip("a &") == "a &" && "a &"[..2] == "a " && "a "[..1] == "a";
    assert !InQuotes("a &", 2) by {
      assert "a "[1..] == " " && " "[1..] == "";
    }
    assert NoCuts("a", PIPE, START) by {
      assert "a"[1..] == "";
    }
    WholeTextIsOnePart("a", PIPE);
  }

  // ---------- the `name:` prefix ----------

  predicate NameColonAt(line: string, i: nat) {
    i + 1 < |line| && LiveAt(line, i) && line[i] == ':' && IsSpace(line[i + 1])
  }

  predicate PipeAt(line: string, i: nat) {
    i < |line| && LiveAt(line, i) && line[i] == '|'
  }

  /** The first live naming colon, unless a live pipe comes before it. */
  method FindPipelineNameColon(line: string) returns (r: Option<nat>)
    ensures r.Some? ==> NameColonAt(line, r.value)
    ensures r.Some? ==> forall j: nat :: j < r.value ==> !NameColonAt(line, j) && !PipeAt(line, j)
    ensures r.None? ==> forall i: nat :: NameColonAt(line, i) ==> exists j: nat :: j < i && PipeAt(line, j)
  {
    var quote := Unquoted;
    var escaped := false;
    for index := 0 to |line|
      invariant State(quote, escaped) == After(line[..index], START)
      invariant forall j: nat :: j < index ==> !NameColonAt(line, j) && !PipeAt(line, j)
    {
      var c := line[index];
      AfterOneMore(line, index, START);
      if escaped {
        escaped := false;
        continue;
      }
      if c == '\\' {
        escaped := true;
        continue;
      }
      if quote != Unquoted {
        if c == quote.mark {
          quote := Unquoted;
        }
        continue;
      }
      if IsQuote(c) {
        quote := Open(c);
        continue;
      }
      if c == '|' {
        assert PipeAt(line, index);
        return None;
      }
      if c == ':' && index + 1 < |line| && IsSpace(line[index + 1]) {
        return Some(index);
      }
    }
    return None;
  }
}
