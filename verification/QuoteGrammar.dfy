/** What the quote scanner recognises, as a grammar: a text is plain characters, escaped characters and
    quoted stretches, and a position is live when the text before it is made of whole ones. */
module QuoteGrammar {
  import opened QuoteScan
  import opened CommandSequence
  import opened PipelineSyntax
  import opened Selectors
  import opened SplitLaws
  import opened Text

  /** A piece of quoted text: one character, or a backslash and the character after it. */
  datatype Inner = Bare(c: char) | Hidden(c: char)

  datatype Chunk = Plain(c: char) | Escaped(c: char) | Quoted(mark: char, inner: seq<Inner>)

  function InnerText(inner: seq<Inner>): string {
    if inner == [] then ""
    else
      var last := inner[|inner| - 1];
      InnerText(inner[..|inner| - 1]) + (if last.Bare? then [last.c] else ['\\', last.c])
  }

  predicate StaysInside(inner: seq<Inner>, mark: char) {
    forall i :: 0 <= i < |inner| && inner[i].Bare? ==> inner[i].c != mark && inner[i].c != '\\'
  }

  function ChunkText(k: Chunk): string {
    match k
    case Plain(c) => [c]
    case Escaped(c) => ['\\', c]
    case Quoted(mark, inner) => [mark] + InnerText(inner) + [mark]
  }

  predicate ChunkOk(k: Chunk) {
    match k
    case Plain(c) => c != '\\' && c != '\'' && c != '"'
    case Escaped(_) => true
    case Quoted(mark, inner) => (mark == '\'' || mark == '"') && StaysInside(inner, mark)
  }

  function ChunksText(chunks: seq<Chunk>): string {
    if chunks == [] then "" else ChunksText(chunks[..|chunks| - 1]) + ChunkText(chunks[|chunks| - 1])
  }

  predicate ChunksOk(chunks: seq<Chunk>) {
    forall i :: 0 <= i < |chunks| ==> ChunkOk(chunks[i])
  }

  /** The text consists of whole chunks. */
  ghost predicate IsWhole(text: string) {
    exists chunks :: ChunksOk(chunks) && text == ChunksText(chunks)
  }

  ghost predicate WholeThen(text: string, tail: string) {
    exists whole :: IsWhole(whole) && text == whole + tail
  }

  /** Whole chunks, then a quoted stretch that is not closed. */
  ghost predicate OpensQuote(text: string, mark: char, tail: string) {
    exists inner :: (mark == '\'' || mark == '"') && StaysInside(inner, mark)
      && WholeThen(text, [mark] + InnerText(inner) + tail)
  }

  /** What a text looks like that leaves the scanner in that state. */
  ghost predicate LooksLike(text: string, st: State) {
    var tail := if st.escaped then "\\" else "";
    match st.quote
    case Unquoted => WholeThen(text, tail)
    case Open(mark) => OpensQuote(text, mark, tail)
  }

  // ---------- reading a written text ----------

  lemma {:induction false} InnerIsScanned(inner: seq<Inner>, mark: char)
    requires StaysInside(inner, mark)
    ensures After(InnerText(inner), State(Open(mark), false)) == State(Open(mark), false)
  {
    if inner != [] {
      var front, last := inner[..|inner| - 1], inner[|inner| - 1];
      var text := if last.Bare? then [last.c] else ['\\', last.c];
      InnerIsScanned(front, mark);
      AfterAppend(InnerText(front), text, State(Open(mark), false));
      AfterShort(text, State(Open(mark), false));
    }
  }

  lemma {:induction false} AfterShort(text: string, st: State)
    requires 1 <= |text| <= 2
    ensures After(text, st) == if |text| == 1 then Step(st, text[0]) else Step(Step(st, text[0]), text[1])
  {
    if |text| == 2 {
      assert text[1..] == [text[1]] && text[1..][1..] == "";
      assert After([text[1]], Step(st, text[0])) == Step(Step(st, text[0]), text[1]);
    } else {
      assert text[1..] == "";
    }
  }

  lemma {:induction false} OpeningIsScanned(mark: char, inner: seq<Inner>)
    requires (mark == '\'' || mark == '"') && StaysInside(inner, mark)
    ensures After([mark] + InnerText(inner), START) == State(Open(mark), false)
  {
    AfterAppend([mark], InnerText(inner), START);
    AfterShort([mark], START);
    InnerIsScanned(inner, mark);
  }

  lemma {:induction false} ChunkIsScanned(k: Chunk)
    requires ChunkOk(k)
    ensures After(ChunkText(k), START) == START
  {
    match k
    case Plain(c) => AfterShort([c], START);
    case Escaped(c) => AfterShort(['\\', c], START);
    case Quoted(mark, inner) =>
      OpeningIsScanned(mark, inner);
      AfterAppend([mark] + InnerText(inner), [mark], START);
      AfterShort([mark], State(Open(mark), false));
  }

  lemma {:induction false} ChunksAreScanned(chunks: seq<Chunk>)
    requires ChunksOk(chunks)
    ensures After(ChunksText(chunks), START) == START
  {
    if chunks != [] {
      var front, last := chunks[..|chunks| - 1], chunks[|chunks| - 1];
      ChunksAreScanned(front);
      ChunkIsScanned(last);
      AfterAppend(ChunksText(front), ChunkText(last), START);
    }
  }

  lemma {:induction false} TailIsScanned(text: string, whole: string, tail: string)
    requires IsWhole(whole) && text == whole + tail
    ensures After(text, START) == After(tail, START)
  {
    var chunks :| ChunksOk(chunks) && whole == ChunksText(chunks);
    ChunksAreScanned(chunks);
    AfterAppend(whole, tail, START);
  }

  lemma {:induction false} LooksAreScanned(text: string, st: State)
    requires LooksLike(text, st)
    ensures After(text, START) == st
  {
    var tail := if st.escaped then "\\" else "";
    if st.quote.Open? {
      var inner :| StaysInside(inner, st.quote.mark) && WholeThen(text, [st.quote.mark] + InnerText(inner) + tail);
      var opening := [st.quote.mark] + InnerText(inner);
      var whole :| IsWhole(whole) && text == whole + (opening + tail);
      TailIsScanned(text, whole, opening + tail);
      OpeningIsScanned(st.quote.mark, inner);
      AfterAppend(opening, tail, START);
    } else {
      var whole :| IsWhole(whole) && text == whole + tail;
      TailIsScanned(text, whole, tail);
    }
  }

  // ---------- every text is written so ----------

  lemma {:induction false} OneMoreChunk(whole: string, k: Chunk)
    requires IsWhole(whole) && ChunkOk(k)
    ensures IsWhole(whole + ChunkText(k))
  {
    var chunks :| ChunksOk(chunks) && whole == ChunksText(chunks);
    var more := chunks + [k];
    assert more[..|more| - 1] == chunks;
    assert ChunksOk(more) && ChunksText(more) == whole + ChunkText(k);
  }

  lemma {:induction false} OneMoreInner(inner: seq<Inner>, i: Inner, mark: char)
    requires StaysInside(inner, mark) && (i.Bare? ==> i.c != mark && i.c != '\\')
    ensures StaysInside(inner + [i], mark)
    ensures InnerText(inner + [i]) == InnerText(inner) + (if i.Bare? then [i.c] else ['\\', i.c])
  {
    assert (inner + [i])[..|inner|] == inner;
  }

  lemma {:induction false} QuoteCloses(whole: string, mark: char, inner: seq<Inner>)
    requires IsWhole(whole) && (mark == '\'' || mark == '"') && StaysInside(inner, mark)
    ensures LooksLike(whole + ([mark] + InnerText(inner)) + [mark], START)
  {
    OneMoreChunk(whole, Quoted(mark, inner));
    var text := whole + ([mark] + InnerText(inner)) + [mark];
    assert text == whole + ([mark] + InnerText(inner) + [mark]) + "";
  }

  lemma {:induction false} QuoteGoesOn(whole: string, mark: char, inner: seq<Inner>, tail: string)
    requires IsWhole(whole) && (mark == '\'' || mark == '"') && StaysInside(inner, mark)
    requires tail == "" || tail == "\\"
    ensures LooksLike(whole + ([mark] + InnerText(inner)) + tail, State(Open(mark), tail != ""))
  {
    var text := whole + ([mark] + InnerText(inner)) + tail;
    assert text == whole + ([mark] + InnerText(inner) + tail);
    assert WholeThen(text, [mark] + InnerText(inner) + tail);
  }

  lemma {:induction false} QuoteReads(whole: string, mark: char, inner: seq<Inner>, i: Inner)
    requires IsWhole(whole) && (mark == '\'' || mark == '"') && StaysInside(inner, mark)
    requires i.Bare? ==> i.c != mark && i.c != '\\'
    ensures LooksLike(whole + ([mark] + InnerText(inner)) + (if i.Bare? then [i.c] else ['\\', i.c]),
      State(Open(mark), false))
  {
    var more := if i.Bare? then [i.c] else ['\\', i.c];
    OneMoreInner(inner, i, mark);
    QuoteGoesOn(whole, mark, inner + [i], "");
    assert whole + ([mark] + InnerText(inner)) + more == whole + ([mark] + InnerText(inner + [i])) + "";
  }

  lemma {:induction false} WholeLooks(whole: string, tail: string)
    requires IsWhole(whole) && (tail == "" || tail == "\\")
    ensures LooksLike(whole + tail, State(Unquoted, tail != ""))
  {
  }

  lemma {:induction false} QuoteOpens(whole: string, mark: char)
    requires IsWhole(whole) && (mark == '\'' || mark == '"')
    ensures LooksLike(whole + [mark], State(Open(mark), false))
  {
    QuoteGoesOn(whole, mark, [], "");
    assert whole + ([mark] + InnerText([])) + "" == whole + [mark];
  }

  /** One more character after a text that leaves no quote open. */
  lemma {:induction false} GrowsUnquoted(text: string, c: char, st: State)
    requires LooksLike(text, st) && st.quote.Unquoted?
    ensures LooksLike(text + [c], Step(st, c))
  {
    var whole :| IsWhole(whole) && text == whole + (if st.escaped then "\\" else "");
    if st.escaped {
      OneMoreChunk(whole, Escaped(c));
      WholeLooks(whole + ['\\', c], "");
      assert text + [c] == whole + ['\\', c] + "";
    } else {
      assert text + [c] == whole + [c];
      if c == '\\' {
        WholeLooks(whole, "\\");
      } else if IsQuote(c) {
        QuoteOpens(whole, c);
      } else {
        OneMoreChunk(whole, Plain(c));
        WholeLooks(whole + [c], "");
        assert whole + [c] + "" == whole + [c];
      }
    }
  }

  lemma {:induction false} OpenText(text: string, mark: char, tail: string) returns (whole: string, inner: seq<Inner>)
    requires OpensQuote(text, mark, tail)
    ensures IsWhole(whole) && (mark == '\'' || mark == '"') && StaysInside(inner, mark)
    ensures text == whole + ([mark] + InnerText(inner)) + tail
  {
    inner :| StaysInside(inner, mark) && WholeThen(text, [mark] + InnerText(inner) + tail);
    whole :| IsWhole(whole) && text == whole + ([mark] + InnerText(inner) + tail);
  }

  lemma {:induction false} GrowsQuoted(text: string, c: char, st: State)
    requires LooksLike(text, st) && st.quote.Open?
    ensures LooksLike(text + [c], Step(st, c))
  {
    var mark := st.quote.mark;
    var whole, inner := OpenText(text, mark, if st.escaped then "\\" else "");
    var front := whole + ([mark] + InnerText(inner));
    if st.escaped {
      QuoteReads(whole, mark, inner, Hidden(c));
      assert text + [c] == front + ['\\', c];
    } else {
      assert text + [c] == front + [c];
      if c == '\\' {
        QuoteGoesOn(whole, mark, inner, "\\");
      } else if c == mark {
        QuoteCloses(whole, mark, inner);
      } else {
        QuoteReads(whole, mark, inner, Bare(c));
      }
    }
  }

  lemma {:induction false} ScannedLooks(text: string)
    ensures LooksLike(text, After(text, START))
  {
    if text == "" {
      assert ChunksOk([]) && text == ChunksText([]);
      assert IsWhole("") && text == "" + "";
    } else {
      var front, c := text[..|text| - 1], text[|text| - 1];
      ScannedLooks(front);
      AfterOneMore(text, |text| - 1, START);
      assert text[..|text|] == text == front + [c];
      if After(front, START).quote.Open? {
        GrowsQuoted(front, c, After(front, START));
      } else {
        GrowsUnquoted(front, c, After(front, START));
      }
    }
  }

  /** The scanner's state tells exactly how the text before it is written. */
  lemma {:induction false} StateMeans(text: string, st: State)
    ensures After(text, START) == st <==> LooksLike(text, st)
  {
    ScannedLooks(text);
    if LooksLike(text, st) {
      LooksAreScanned(text, st);
    }
  }

  /** A position is live exactly when whole chunks stand before it. */
  lemma {:induction false} LiveMeans(text: string, i: nat)
    requires i <= |text|
    ensures LiveAt(text, i) <==> IsWhole(text[..i])
  {
    StateMeans(text[..i], START);
    if IsWhole(text[..i]) {
      assert text[..i] == text[..i] + "";
    }
    if w :| IsWhole(w) && text[..i] == w + "" {
      assert w + "" == w;
    }
  }

  /** A position is quoted exactly when a quoted stretch before it is still open. */
  lemma {:induction false} QuotedMeans(text: string, position: int)
    requires 0 <= position < |text|
    ensures InQuotes(text, position) <==> exists mark ::
      OpensQuote(text[..position], mark, "") || OpensQuote(text[..position], mark, "\\")
  {
    var before := text[..position];
    ScannedLooks(before);
    if mark :| OpensQuote(before, mark, "") || OpensQuote(before, mark, "\\") {
      if OpensQuote(before, mark, "") {
        LooksAreScanned(before, State(Open(mark), false));
      } else {
        LooksAreScanned(before, State(Open(mark), true));
      }
    }
  }

  // ---------- where the splitters cut ----------

  lemma {:induction false} SeparatorsAreCut(text: string, seps: set<char>, p: nat)
    requires forall c :: c in seps ==> !IsSpecial(c)
    ensures p in CutPositions(Segments(text, seps, START), 0) <==>
      p < |text| && text[p] in seps && IsWhole(text[..p])
  {
    CutsExactlyAtLiveSeparators(text, seps, START, 0, p);
    if p < |text| {
      LiveMeans(text, p);
    }
  }

  /** A pipeline is cut at the bars that stand after whole chunks. */
  lemma {:induction false} PipesAreCut(line: string, p: nat)
    ensures p in CutPositions(Segments(line, PIPE, START), 0) <==> p < |line| && line[p] == '|' && IsWhole(line[..p])
  {
    SeparatorsAreCut(line, PIPE, p);
  }

  /** A command line is cut at such semicolons and, where asked for, at such line breaks. */
  lemma {:induction false} CommandsAreCut(line: string, splitNewlines: bool, p: nat)
    ensures p in CutPositions(Segments(line, SequenceSeparators(splitNewlines), START), 0) <==>
      p < |line| && (line[p] == ';' || (splitNewlines && line[p] == '\n')) && IsWhole(line[..p])
  {
    SeparatorsAreCut(line, SequenceSeparators(splitNewlines), p);
  }

  /** What the splitters return of each segment: nothing of a blank one, else the text without the whitespace
      around it; segment after segment. */
  lemma {:induction false} PartsMean(before: seq<string>, left: string, middle: string, right: string)
    requires AllSpace(left) && AllSpace(right)
    requires middle != "" ==> !IsSpace(middle[0]) && !IsSpace(middle[|middle| - 1])
    ensures Parts(before + [left + (middle + right)]) == Parts(before) + (if middle == "" then [] else [middle])
  {
    StripMeans(left, middle, right);
    PartsConcat(before, [left + (middle + right)]);
    assert Parts([left + (middle + right)][1..]) == [];
  }

  /** The background mark is an ampersand at the end, whitespace aside, that whole chunks and whitespace
      precede; what is in front of it remains. */
  lemma {:induction false} BackgroundMeans(front: string, blank: char, right: string)
    requires IsSpace(blank) && AllSpace(right)
    ensures var line := front + [blank] + ['&'] + right;
      && (HasBackgroundMark(line) <==> IsWhole(front + [blank]))
      && Foreground(line) == if IsWhole(front + [blank]) then RStrip(front) else line
  {
    var before := front + [blank];
    var s := before + ['&'];
    RStripDrops(s, right);
    assert RStrip(s) == s;
    assert s[..|before|] == before && s[..|front|] == front;
    assert s[|before|] == '&' && s[|front|] == blank;
    LiveMeans(before, |before|);
    assert before[..|before|] == before;
    AfterOneMore(before, |front|, START);
    assert before[..|front|] == front;
    RStripDrops(front, [blank]);
  }

  /** Every background mark is one of those. */
  lemma {:induction false} BackgroundIsWritten(line: string) returns (front: string, blank: char, right: string)
    requires HasBackgroundMark(line)
    ensures IsSpace(blank) && AllSpace(right) && line == front + [blank] + ['&'] + right
  {
    right := RStripTakes(line);
    var s := RStrip(line);
    front, blank := s[..|s| - 2], s[|s| - 2];
    assert s == front + [blank] + ['&'];
  }

  /** A name is cut off at a colon, and not behind a bar, that stands after whole chunks; whitespace follows the
      colon. */
  lemma {:induction false} NameColonMeans(line: string, i: nat)
    ensures NameColonAt(line, i) <==>
      i + 1 < |line| && line[i] == ':' && IsSpace(line[i + 1]) && IsWhole(line[..i])
    ensures PipeAt(line, i) <==> i < |line| && line[i] == '|' && IsWhole(line[..i])
  {
    if i < |line| {
      LiveMeans(line, i);
    }
  }

  /** A `key=` selector is found exactly where the key and the sign stand after whole chunks, at the start
      of a word. */
  lemma {:induction false} SelectorMeans(text: string, key: string, i: nat)
    requires key != ""
    ensures SelectorAt(text, key, i) <==>
      && i < |text| && IsWhole(text[..i]) && (i == 0 || IsSpace(text[i - 1]))
      && text[i] !in "\\'\"" && exists rest :: text[i..] == key + "=" + rest
  {
    if i < |text| {
      LiveMeans(text, i);
      if key + "=" <= text[i..] {
        assert text[i..] == key + "=" + text[i..][|key| + 1..];
      }
    }
  }
}
