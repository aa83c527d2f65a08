/** The quote-and-escape automaton that Bywaf's character loops share. A backslash
    escapes the next character everywhere, single quotes included. */
module QuoteScan {
  import opened Text

  datatype Quote = Unquoted | Open(mark: char)

  datatype State = State(quote: Quote, escaped: bool)

  const START := State(Unquoted, false)

  predicate IsQuote(c: char) {
    c == '\'' || c == '"'
  }

  /** Characters the automaton itself consumes. */
  predicate IsSpecial(c: char) {
    c == '\\' || IsQuote(c)
  }

  function Step(st: State, c: char): State {
    if st.escaped then st.(escaped := false)
    else if c == '\\' then st.(escaped := true)
    else if st.quote.Open? then (if c == st.quote.mark then st.(quote := Unquoted) else st)
    else if IsQuote(c) then st.(quote := Open(c))
    else st
  }

  /** The state after reading all of `text`. */
  function After(text: string, st: State): State {
    if text == "" then st else After(text[1..], Step(st, text[0]))
  }

  /** Position `i` is outside quotes and not escaped. */
  predicate LiveAt(text: string, i: nat)
    requires i <= |text|
  {
    After(text[..i], START) == START
  }

  /** In state `st` the character `c` separates two segments. */
  predicate IsCut(st: State, c: char, seps: set<char>) {
    st == START && c in seps && !IsSpecial(c)
  }

  // ---------- segments ----------

  /** `c` put in front of the first segment. */
  function Extend(prefix: string, segments: seq<string>): seq<string>
    requires segments != []
  {
    [prefix + segments[0]] + segments[1..]
  }

  /** The raw text between cuts, empty segments included. */
  function Segments(text: string, seps: set<char>, st: State): (r: seq<string>)
    ensures r != []
  {
    if text == "" then [""]
    else if IsCut(st, text[0], seps) then [""] + Segments(text[1..], seps, START)
    else Extend([text[0]], Segments(text[1..], seps, Step(st, text[0])))
  }

  /** The separators found, in order. */
  function Separators(text: string, seps: set<char>, st: State): seq<char> {
    if text == "" then []
    else if IsCut(st, text[0], seps) then [text[0]] + Separators(text[1..], seps, START)
    else Separators(text[1..], seps, Step(st, text[0]))
  }

  /** What the loops keep of the raw segments: stripped, and only when something is left. */
  function Parts(segments: seq<string>): seq<string> {
    if segments == [] then []
    else if Strip(segments[0]) == "" then Parts(segments[1..])
    else [Strip(segments[0])] + Parts(segments[1..])
  }

  function SplitParts(text: string, seps: set<char>): seq<string> {
    Parts(Segments(text, seps, START))
  }

  // ---------- facts about the automaton ----------

  lemma {:induction false} AfterAppend(a: string, b: string, st: State)
    ensures After(a + b, st) == After(b, After(a, st))
  {
    if a == "" {
      assert a + b == b;
    } else {
      assert (a + b)[1..] == a[1..] + b;
      AfterAppend(a[1..], b, Step(st, a[0]));
    }
  }

  lemma AfterOneMore(text: string, i: nat, st: State)
    requires i < |text|
    ensures After(text[..i + 1], st) == Step(After(text[..i], st), text[i])
  {
    assert text[..i + 1] == text[..i] + [text[i]];
    AfterAppend(text[..i], [text[i]], st);
  }

  // ---------- rebuilding ----------

  function Rebuild(segments: seq<string>, marks: seq<char>): string
    requires |segments| == |marks| + 1
  {
    if marks == [] then segments[0]
    else segments[0] + [marks[0]] + Rebuild(segments[1..], marks[1..])
  }

  /** Nothing is lost: the raw segments and the separators give the input back. */
  lemma {:induction false} SegmentsRebuild(text: string, seps: set<char>, st: State)
    ensures |Segments(text, seps, st)| == |Separators(text, seps, st)| + 1
    ensures Rebuild(Segments(text, seps, st), Separators(text, seps, st)) == text
  {
    if text != "" {
      var c, rest := text[0], text[1..];
      assert text == [c] + rest;
      if IsCut(st, c, seps) {
        SegmentsRebuild(rest, seps, START);
        assert Segments(text, seps, st)[1..] == Segments(rest, seps, START);
        assert Separators(text, seps, st)[1..] == Separators(rest, seps, START);
      } else {
        var st' := Step(st, c);
        SegmentsRebuild(rest, seps, st');
        RebuildExtend([c], Segments(rest, seps, st'), Separators(rest, seps, st'));
      }
    }
  }

  lemma RebuildExtend(prefix: string, segments: seq<string>, marks: seq<char>)
    requires |segments| == |marks| + 1
    ensures Rebuild(Extend(prefix, segments), marks) == prefix + Rebuild(segments, marks)
  {
    if marks != [] {
      assert Extend(prefix, segments)[1..] == segments[1..];
      assert prefix + segments[0] + [marks[0]] + Rebuild(segments[1..], marks[1..])
          == prefix + (segments[0] + [marks[0]] + Rebuild(segments[1..], marks[1..]));
    }
  }

  // ---------- where the cuts are ----------

  /** The offsets of the separators, when the first segment starts at `base`. */
  function CutPositions(segments: seq<string>, base: nat): seq<nat>
    requires segments != []
  {
    if |segments| == 1 then []
    else [base + |segments[0]|] + CutPositions(segments[1..], base + |segments[0]| + 1)
  }

  lemma CutPositionsExtend(c: char, segments: seq<string>, base: nat)
    requires segments != []
    ensures CutPositions(Extend([c], segments), base) == CutPositions(segments, base + 1)
  {
    assert Extend([c], segments)[1..] == segments[1..];
  }

  /** Every cut is at an unquoted, unescaped separator and every such place is a cut. */
  lemma {:induction false} CutsExactlyAtLiveSeparators(text: string, seps: set<char>, st: State, base: nat, p: nat)
    ensures p in CutPositions(Segments(text, seps, st), base)
       <==> base <= p < base + |text| && IsCut(After(text[..p - base], st), text[p - base], seps)
  {
    if text == "" {
    } else {
      var c, rest := text[0], text[1..];
      var cut := IsCut(st, c, seps);
      var st' := if cut then START else Step(st, c);
      var positions := CutPositions(Segments(text, seps, st), base);
      CutsExactlyAtLiveSeparators(rest, seps, st', base + 1, p);
      if cut {
        assert Segments(text, seps, st)[1..] == Segments(rest, seps, START);
        assert positions == [base] + CutPositions(Segments(rest, seps, START), base + 1);
        assert Step(st, c) == START;
      } else {
        CutPositionsExtend(c, Segments(rest, seps, st'), base);
      }
      if base < p < base + |text| {
        assert text[..p - base] == [c] + rest[..p - base - 1];
        assert After(text[..p - base], st) == After(rest[..p - base - 1], Step(st, c));
      } else if p == base {
        assert text[..0] == "";
        PositionsAreAtLeast(Segments(rest, seps, st'), base + 1);
      }
    }
  }

  lemma {:induction false} PositionsAreAtLeast(segments: seq<string>, base: nat)
    requires segments != []
    ensures forall q :: q in CutPositions(segments, base) ==> q >= base
  {
    if |segments| > 1 {
      PositionsAreAtLeast(segments[1..], base + |segments[0]| + 1);
    }
  }
}
