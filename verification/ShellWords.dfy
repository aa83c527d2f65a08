/** What shell splitting reads, as a grammar: words are runs of plain characters, escaped characters and
    stretches in single or double quotes, with blanks between them. */
module ShellWords {
  import opened Results
  import opened QuoteGrammar
  import opened Shlex
  import Text

  datatype Bit = Plain(c: char) | Escaped(c: char) | Single(body: string) | Double(inner: seq<Inner>)

  /** In double quotes only a quote and a backslash are escaped; elsewhere the backslash stays. */
  function InnerValue(inner: seq<Inner>): string {
    if inner == [] then ""
    else
      var last := inner[|inner| - 1];
      InnerValue(inner[..|inner| - 1]) +
      (if last.Bare? || last.c == '"' || last.c == '\\' then [last.c] else ['\\', last.c])
  }

  function BitText(b: Bit): string {
    match b
    case Plain(c) => [c]
    case Escaped(c) => ['\\', c]
    case Single(body) => ['\''] + body + ['\'']
    case Double(inner) => ['"'] + InnerText(inner) + ['"']
  }

  function BitValue(b: Bit): string {
    match b
    case Plain(c) => [c]
    case Escaped(c) => [c]
    case Single(body) => body
    case Double(inner) => InnerValue(inner)
  }

  predicate BitOk(b: Bit) {
    match b
    case Plain(c) => c !in " \t\r\n'\"\\"
    case Escaped(_) => true
    case Single(body) => '\'' !in body
    case Double(inner) => StaysInside(inner, '"')
  }

  function BitsText(bits: seq<Bit>): string {
    if bits == [] then "" else BitsText(bits[..|bits| - 1]) + BitText(bits[|bits| - 1])
  }

  function BitsValue(bits: seq<Bit>): string {
    if bits == [] then "" else BitsValue(bits[..|bits| - 1]) + BitValue(bits[|bits| - 1])
  }

  predicate BitsOk(bits: seq<Bit>) {
    forall i :: 0 <= i < |bits| ==> BitOk(bits[i])
  }

  /** A word and the blanks before it. */
  datatype Word = Word(gap: string, bits: seq<Bit>)

  predicate Blanks(s: string) {
    forall i :: 0 <= i < |s| ==> s[i] in " \t\r\n"
  }

  function WordsText(ws: seq<Word>): string {
    if ws == [] then ""
    else WordsText(ws[..|ws| - 1]) + ws[|ws| - 1].gap + BitsText(ws[|ws| - 1].bits)
  }

  function WordsValues(ws: seq<Word>): seq<string> {
    if ws == [] then [] else WordsValues(ws[..|ws| - 1]) + [BitsValue(ws[|ws| - 1].bits)]
  }

  /** Blanks separate the words; there may be some before the first. */
  predicate WordsOk(ws: seq<Word>) {
    forall i :: 0 <= i < |ws| ==>
      Blanks(ws[i].gap) && BitsOk(ws[i].bits) && ws[i].bits != [] && (i > 0 ==> ws[i].gap != "")
  }

  /** The text is written from those words, with blanks after the last one or not. */
  ghost predicate IsWritten(text: string, words: seq<string>) {
    exists ws, gap :: WordsOk(ws) && Blanks(gap) && text == WordsText(ws) + gap && words == WordsValues(ws)
  }

  /** The text is written from those words, and another one can follow. */
  ghost predicate IsFront(text: string, words: seq<string>) {
    exists ws, gap ::
      WordsOk(ws) && Blanks(gap) && (ws != [] ==> gap != "") && text == WordsText(ws) + gap && words == WordsValues(ws)
  }

  /** What is read of the current word after its whole bits. */
  ghost predicate IsRest(mode: Mode, bits: seq<Bit>, rest: string, value: string) {
    match mode
    case Gap => bits == [] && rest == value == ""
    case InWord => bits != [] && rest == value == ""
    case InSingle => '\'' !in value && rest == ['\''] + value
    case InDouble => exists inner ::
      StaysInside(inner, '"') && rest == ['"'] + InnerText(inner) && value == InnerValue(inner)
    case EscapedInWord => rest == "\\" && value == ""
    case EscapedInDouble => exists inner ::
      StaysInside(inner, '"') && rest == ['"'] + InnerText(inner) + ['\\'] && value == InnerValue(inner)
  }

  ghost predicate Splits(text: string, lx: Lexer, front: string, bits: seq<Bit>, rest: string, value: string) {
    && IsFront(front, lx.words) && BitsOk(bits) && IsRest(lx.mode, bits, rest, value)
    && text == front + BitsText(bits) + rest && lx.word == BitsValue(bits) + value
  }

  /** What a text looks like that leaves the lexer in that state. */
  ghost predicate Looks(text: string, lx: Lexer) {
    exists front, bits, rest, value :: Splits(text, lx, front, bits, rest, value)
  }

  // ---------- reading a written text ----------

  lemma {:induction false} ReadShort(text: string, lx: Lexer)
    requires 1 <= |text| <= 2
    ensures ReadAll(text, lx) == if |text| == 1 then Read(lx, text[0]) else Read(Read(lx, text[0]), text[1])
  {
    if |text| == 2 {
      assert text[1..] == [text[1]] && text[1..][1..] == "";
      assert ReadAll([text[1]], Read(lx, text[0])) == Read(Read(lx, text[0]), text[1]);
    } else {
      assert text[1..] == "";
    }
  }

  lemma {:induction false} SingleIsRead(body: string, lx: Lexer)
    requires lx.mode == InSingle && '\'' !in body
    ensures ReadAll(body, lx) == lx.(word := lx.word + body)
  {
    if body != "" {
      var front, c := body[..|body| - 1], body[|body| - 1];
      SingleIsRead(front, lx);
      assert body == front + [c];
      ReadAppend(front, [c], lx);
      ReadShort([c], lx.(word := lx.word + front));
      Text.Associative(lx.word, front, [c]);
    } else {
      assert lx.word + body == lx.word;
    }
  }

  lemma {:induction false} InnerIsRead(inner: seq<Inner>, lx: Lexer)
    requires lx.mode == InDouble && StaysInside(inner, '"')
    ensures ReadAll(InnerText(inner), lx) == lx.(word := lx.word + InnerValue(inner))
  {
    if inner != [] {
      var front, last := inner[..|inner| - 1], inner[|inner| - 1];
      var text := if last.Bare? then [last.c] else ['\\', last.c];
      InnerIsRead(front, lx);
      ReadAppend(InnerText(front), text, lx);
      ReadShort(text, lx.(word := lx.word + InnerValue(front)));
    } else {
      assert lx.word + "" == lx.word;
    }
  }

  predicate Between(lx: Lexer) {
    lx.mode == InWord || (lx.mode == Gap && lx.word == "")
  }

  lemma {:induction false} BitIsRead(b: Bit, lx: Lexer)
    requires BitOk(b) && Between(lx)
    ensures ReadAll(BitText(b), lx) == lx.(mode := InWord, word := lx.word + BitValue(b))
  {
    match b
    case Plain(c) => ReadShort([c], lx);
    case Escaped(c) => ReadShort(['\\', c], lx);
    case Single(body) =>
      ReadOpening('\'', body, lx);
      SingleIsRead(body, lx.(mode := InSingle));
      ReadAppend(['\''] + body, ['\''], lx);
      ReadShort(['\''], lx.(mode := InSingle, word := lx.word + body));
    case Double(inner) =>
      ReadOpening('"', InnerText(inner), lx);
      InnerIsRead(inner, lx.(mode := InDouble));
      ReadAppend(['"'] + InnerText(inner), ['"'], lx);
      ReadShort(['"'], lx.(mode := InDouble, word := lx.word + InnerValue(inner)));
  }

  lemma {:induction false} ReadOpening(mark: char, body: string, lx: Lexer)
    requires (mark == '\'' || mark == '"') && Between(lx)
    ensures ReadAll([mark] + body, lx) == ReadAll(body, lx.(mode := if mark == '"' then InDouble else InSingle))
  {
    ReadOne(mark, body, lx);
  }

  lemma {:induction false} BitsAreRead(bits: seq<Bit>, lx: Lexer)
    requires BitsOk(bits) && Between(lx)
    ensures ReadAll(BitsText(bits), lx) ==
      if bits == [] then lx else lx.(mode := InWord, word := lx.word + BitsValue(bits))
  {
    if bits != [] {
      var front, last := bits[..|bits| - 1], bits[|bits| - 1];
      var lx' := if front == [] then lx else lx.(mode := InWord, word := lx.word + BitsValue(front));
      assert lx.word + "" == lx.word;
      BitsAreRead(front, lx);
      assert ReadAll(BitsText(front), lx) == lx';
      BitIsRead(last, lx');
      ReadAppend(BitsText(front), BitText(last), lx);
      assert lx'.word == lx.word + BitsValue(front);
      Text.Associative(lx.word, BitsValue(front), BitValue(last));
    }
  }

  lemma {:induction false} GapIsRead(gap: string, lx: Lexer)
    requires Blanks(gap) && Between(lx)
    ensures ReadAll(gap, lx) == if gap == "" || lx.mode == Gap then lx else Lexer(Gap, "", lx.words + [lx.word])
  {
    if gap != "" {
      var front, c := gap[..|gap| - 1], gap[|gap| - 1];
      GapIsRead(front, lx);
      assert gap == front + [c];
      ReadAppend(front, [c], lx);
      ReadShort([c], ReadAll(front, lx));
    }
  }

  /** After the last word, and after the blanks behind it. */
  lemma {:induction false} WordsAreRead(ws: seq<Word>, gap: string)
    requires WordsOk(ws) && Blanks(gap)
    ensures var lx := ReadAll(WordsText(ws) + gap, BEGIN);
      if ws == [] || gap != "" then lx == Lexer(Gap, "", WordsValues(ws))
      else lx.mode == InWord && lx.words + [lx.word] == WordsValues(ws)
    decreases |ws|
  {
    if ws == [] {
      assert WordsText(ws) + gap == gap;
      GapIsRead(gap, BEGIN);
    } else {
      var front, last := ws[..|ws| - 1], ws[|ws| - 1];
      WordsAreRead(front, last.gap);
      var lx := Lexer(Gap, "", WordsValues(front));
      BitsAreRead(last.bits, lx);
      ReadAppend(WordsText(front) + last.gap, BitsText(last.bits), BEGIN);
      assert "" + BitsValue(last.bits) == BitsValue(last.bits);
      ReadAppend(WordsText(ws), gap, BEGIN);
      GapIsRead(gap, lx.(mode := InWord, word := BitsValue(last.bits)));
    }
  }

  lemma {:induction false} RestIsRead(lx: Lexer, mode: Mode, bits: seq<Bit>, rest: string, value: string)
    requires Between(lx) && lx.mode == (if bits == [] then Gap else InWord) && IsRest(mode, bits, rest, value)
    ensures ReadAll(rest, lx) == lx.(mode := mode, word := lx.word + value)
  {
    assert lx.word + "" == lx.word;
    match mode
    case Gap =>
    case InWord =>
    case InSingle =>
      ReadOpening('\'', value, lx);
      SingleIsRead(value, lx.(mode := InSingle));
    case EscapedInWord =>
      ReadShort("\\", lx);
    case InDouble =>
      var inner :| StaysInside(inner, '"') && rest == ['"'] + InnerText(inner) && value == InnerValue(inner);
      ReadOpening('"', InnerText(inner), lx);
      InnerIsRead(inner, lx.(mode := InDouble));
    case EscapedInDouble =>
      var inner :| StaysInside(inner, '"') && rest == ['"'] + InnerText(inner) + ['\\'] && value == InnerValue(inner);
      ReadOpening('"', InnerText(inner), lx);
      InnerIsRead(inner, lx.(mode := InDouble));
      ReadAppend(['"'] + InnerText(inner), ['\\'], lx);
      ReadShort(['\\'], lx.(mode := InDouble, word := lx.word + value));
  }

  lemma {:induction false} LooksAreRead(text: string, lx: Lexer)
    requires Looks(text, lx)
    ensures ReadAll(text, BEGIN) == lx
  {
    var front, bits, rest, value :| Splits(text, lx, front, bits, rest, value);
    var ws, gap :| WordsOk(ws) && Blanks(gap) && (ws != [] ==> gap != "") && front == WordsText(ws) + gap
      && lx.words == WordsValues(ws);
    WordsAreRead(ws, gap);
    var before := Lexer(Gap, "", lx.words);
    BitsAreRead(bits, before);
    var after := if bits == [] then before else Lexer(InWord, "" + BitsValue(bits), lx.words);
    ReadAppend(front, BitsText(bits), BEGIN);
    ReadAppend(front + BitsText(bits), rest, BEGIN);
    RestIsRead(after, lx.mode, bits, rest, value);
    assert "" + BitsValue(bits) == BitsValue(bits);
  }

  // ---------- every text is written so ----------

  lemma {:induction false} OneMoreBit(bits: seq<Bit>, b: Bit)
    requires BitsOk(bits) && BitOk(b)
    ensures BitsOk(bits + [b])
    ensures BitsText(bits + [b]) == BitsText(bits) + BitText(b)
    ensures BitsValue(bits + [b]) == BitsValue(bits) + BitValue(b)
  {
    assert (bits + [b])[..|bits|] == bits;
  }

  /** A bit is finished, and the word goes on. */
  lemma {:induction false} Finishes(text: string, words: seq<string>, front: string, bits: seq<Bit>, b: Bit)
    requires IsFront(front, words) && BitsOk(bits) && BitOk(b) && text == front + BitsText(bits) + BitText(b)
    ensures Looks(text, Lexer(InWord, BitsValue(bits) + BitValue(b), words))
  {
    OneMoreBit(bits, b);
    Text.Associative(front, BitsText(bits), BitText(b));
    EndOfBits(text, words, front, bits + [b]);
  }

  lemma {:induction false} EndOfBits(text: string, words: seq<string>, front: string, bits: seq<Bit>)
    requires IsFront(front, words) && BitsOk(bits) && bits != [] && text == front + BitsText(bits)
    ensures Looks(text, Lexer(InWord, BitsValue(bits), words))
  {
    assert text + "" == text && BitsValue(bits) + "" == BitsValue(bits);
    assert Splits(text, Lexer(InWord, BitsValue(bits), words), front, bits, "", "");
  }

  /** A bit is begun or goes on. */
  lemma {:induction false} GoesOn(text: string, lx: Lexer, front: string, bits: seq<Bit>, rest: string, value: string)
    requires Splits(text, lx, front, bits, rest, value)
    ensures Looks(text, lx)
  {
  }

  lemma {:induction false} FrontLooks(text: string, words: seq<string>)
    requires IsFront(text, words)
    ensures Looks(text, Lexer(Gap, "", words))
  {
    assert text + BitsText([]) + "" == text && BitsValue([]) + "" == "";
    assert Splits(text, Lexer(Gap, "", words), text, [], "", "");
  }

  lemma {:induction false} FrontGrows(front: string, words: seq<string>, c: char)
    requires IsFront(front, words) && Shlex.IsBlank(c)
    ensures IsFront(front + [c], words)
  {
    var ws, gap :| WordsOk(ws) && Blanks(gap) && (ws != [] ==> gap != "") && front == WordsText(ws) + gap
      && words == WordsValues(ws);
    Text.Associative(WordsText(ws), gap, [c]);
    assert Blanks(gap + [c]) && gap + [c] != "";
  }

  lemma {:induction false} BlankGrows(text: string, lx: Lexer, c: char)
    requires Looks(text, lx) && Shlex.IsBlank(c) && (lx.mode == Gap || lx.mode == InWord)
    ensures Looks(text + [c], Read(lx, c))
  {
    var front, bits, rest, value :| Splits(text, lx, front, bits, rest, value);
    assert BitsValue(bits) + "" == BitsValue(bits) && front + BitsText(bits) + "" == front + BitsText(bits);
    if lx.mode == Gap {
      assert front + BitsText([]) == front;
      FrontGrows(front, lx.words, c);
    } else {
      var ws, gap :| WordsOk(ws) && Blanks(gap) && (ws != [] ==> gap != "") && front == WordsText(ws) + gap
        && lx.words == WordsValues(ws);
      WordEnds(text, c, ws, gap, bits);
    }
    FrontLooks(text + [c], Read(lx, c).words);
  }

  lemma {:induction false} OneMoreWord(ws: seq<Word>, w: Word)
    requires WordsOk(ws) && Blanks(w.gap) && (ws != [] ==> w.gap != "") && BitsOk(w.bits) && w.bits != []
    ensures WordsOk(ws + [w])
    ensures WordsText(ws + [w]) == WordsText(ws) + w.gap + BitsText(w.bits)
    ensures WordsValues(ws + [w]) == WordsValues(ws) + [BitsValue(w.bits)]
  {
    assert (ws + [w])[..|ws|] == ws;
  }

  lemma {:induction false} WordEnds(text: string, c: char, ws: seq<Word>, gap: string, bits: seq<Bit>)
    requires WordsOk(ws) && Blanks(gap) && (ws != [] ==> gap != "") && BitsOk(bits) && bits != []
    requires text == WordsText(ws) + gap + BitsText(bits) && Shlex.IsBlank(c)
    ensures IsFront(text + [c], WordsValues(ws) + [BitsValue(bits)])
  {
    OneMoreWord(ws, Word(gap, bits));
    assert Blanks([c]);
  }

  /** A bit is begun. */
  lemma {:induction false} Begins(text: string, words: seq<string>, front: string, bits: seq<Bit>, mode: Mode)
    requires IsFront(front, words) && BitsOk(bits) && (mode == InSingle || mode == InDouble || mode == EscapedInWord)
    requires text == front + BitsText(bits) +
      (if mode == InSingle then "'" else if mode == InDouble then "\"" else "\\")
    ensures Looks(text, Lexer(mode, BitsValue(bits), words))
  {
    var rest := if mode == InSingle then "'" else if mode == InDouble then "\"" else "\\";
    assert InnerText([]) == InnerValue([]) == "" && StaysInside([], '"');
    assert ['"'] + "" == "\"" && ['\''] + "" == "'" && BitsValue(bits) + "" == BitsValue(bits);
    assert IsRest(mode, bits, rest, "");
    GoesOn(text, Lexer(mode, BitsValue(bits), words), front, bits, rest, "");
  }

  lemma {:induction false} WordGrows(text: string, lx: Lexer, c: char)
    requires Looks(text, lx) && !Shlex.IsBlank(c) && (lx.mode == Gap || lx.mode == InWord)
    ensures Looks(text + [c], Read(lx, c))
  {
    var front, bits, rest, value :| Splits(text, lx, front, bits, rest, value);
    assert front + BitsText(bits) + "" == front + BitsText(bits) && BitsValue(bits) + "" == BitsValue(bits);
    if c == '\\' {
      Begins(text + [c], lx.words, front, bits, EscapedInWord);
    } else if c == '\'' {
      Begins(text + [c], lx.words, front, bits, InSingle);
    } else if c == '"' {
      Begins(text + [c], lx.words, front, bits, InDouble);
    } else {
      assert lx.mode == Gap ==> BitsValue([]) + [c] == [c];
      Finishes(text + [c], lx.words, front, bits, Bit.Plain(c));
    }
  }

  lemma {:induction false} EscapeGrows(text: string, lx: Lexer, c: char)
    requires Looks(text, lx) && lx.mode == EscapedInWord
    ensures Looks(text + [c], Read(lx, c))
  {
    var front, bits, rest, value :| Splits(text, lx, front, bits, rest, value);
    assert lx.word == BitsValue(bits);
    assert text + [c] == front + BitsText(bits) + ['\\', c];
    Finishes(text + [c], lx.words, front, bits, Bit.Escaped(c));
  }

  lemma {:induction false} SingleGrows(text: string, lx: Lexer, c: char)
    requires Looks(text, lx) && lx.mode == InSingle
    ensures Looks(text + [c], Read(lx, c))
  {
    var front, bits, rest, value :| Splits(text, lx, front, bits, rest, value);
    if c == '\'' {
      assert text + [c] == front + BitsText(bits) + (['\''] + value + ['\'']);
      Finishes(text + [c], lx.words, front, bits, Single(value));
    } else {
      assert text + [c] == front + BitsText(bits) + (['\''] + (value + [c]));
      assert lx.word + [c] == BitsValue(bits) + (value + [c]);
      GoesOn(text + [c], Read(lx, c), front, bits, ['\''] + (value + [c]), value + [c]);
    }
  }

  lemma {:induction false} OneMoreValue(inner: seq<Inner>, i: Inner)
    ensures InnerValue(inner + [i]) ==
      InnerValue(inner) + (if i.Bare? || i.c == '"' || i.c == '\\' then [i.c] else ['\\', i.c])
  {
    assert (inner + [i])[..|inner|] == inner;
  }

  lemma {:induction false} InDoubleLooks(
      text: string, words: seq<string>, front: string, bits: seq<Bit>, inner: seq<Inner>)
    requires IsFront(front, words) && BitsOk(bits) && StaysInside(inner, '"')
    requires text == front + BitsText(bits) + (['"'] + InnerText(inner))
    ensures Looks(text, Lexer(InDouble, BitsValue(bits) + InnerValue(inner), words))
  {
    GoesOn(text, Lexer(InDouble, BitsValue(bits) + InnerValue(inner), words),
      front, bits, ['"'] + InnerText(inner), InnerValue(inner));
  }

  /** A character or an escape inside double quotes. */
  lemma {:induction false} InnerGoesOn(words: seq<string>, front: string, bits: seq<Bit>, inner: seq<Inner>, i: Inner)
    requires IsFront(front, words) && BitsOk(bits) && StaysInside(inner, '"')
    requires i.Bare? ==> i.c != '"' && i.c != '\\'
    ensures Looks(front + BitsText(bits) + (['"'] + InnerText(inner)) + (if i.Bare? then [i.c] else ['\\', i.c]),
      Lexer(InDouble, BitsValue(bits) + InnerValue(inner) +
        (if i.Bare? || i.c == '"' || i.c == '\\' then [i.c] else ['\\', i.c]), words))
  {
    var text, value := if i.Bare? then [i.c] else ['\\', i.c],
      if i.Bare? || i.c == '"' || i.c == '\\' then [i.c] else ['\\', i.c];
    OneMoreInner(inner, i, '"');
    OneMoreValue(inner, i);
    Text.Associative(front + BitsText(bits), ['"'] + InnerText(inner), text);
    Text.Associative(['"'], InnerText(inner), text);
    Text.Associative(BitsValue(bits), InnerValue(inner), value);
    InDoubleLooks(front + BitsText(bits) + (['"'] + InnerText(inner)) + text, words, front, bits, inner + [i]);
  }

  lemma {:induction false} DoubleGrows(text: string, lx: Lexer, c: char)
    requires Looks(text, lx) && lx.mode == InDouble
    ensures Looks(text + [c], Read(lx, c))
  {
    var front, bits, rest, value :| Splits(text, lx, front, bits, rest, value);
    var inner :| StaysInside(inner, '"') && rest == ['"'] + InnerText(inner) && value == InnerValue(inner);
    if c == '"' {
      assert text + [c] == front + BitsText(bits) + (['"'] + InnerText(inner) + ['"']);
      Finishes(text + [c], lx.words, front, bits, Double(inner));
    } else if c == '\\' {
      assert text + [c] == front + BitsText(bits) + (['"'] + InnerText(inner) + ['\\']);
      GoesOn(text + [c], Read(lx, c), front, bits, ['"'] + InnerText(inner) + ['\\'], value);
    } else {
      InnerGoesOn(lx.words, front, bits, inner, Bare(c));
    }
  }

  lemma {:induction false} DropLastOf(front: string, opening: string, c: char)
    ensures front + (opening + ['\\']) + [c] == front + opening + ['\\', c]
  {
  }

  lemma {:induction false} DoubleEscapeGrows(text: string, lx: Lexer, c: char)
    requires Looks(text, lx) && lx.mode == EscapedInDouble
    ensures Looks(text + [c], Read(lx, c))
  {
    var front, bits, rest, value :| Splits(text, lx, front, bits, rest, value);
    var inner :| StaysInside(inner, '"') && rest == ['"'] + InnerText(inner) + ['\\'] && value == InnerValue(inner);
    InnerGoesOn(lx.words, front, bits, inner, Hidden(c));
    DropLastOf(front + BitsText(bits), ['"'] + InnerText(inner), c);
  }

  lemma {:induction false} ReadLooks(text: string)
    ensures Looks(text, ReadAll(text, BEGIN))
  {
    if text == "" {
      assert WordsOk([]) && Blanks("") && text == WordsText([]) + "" && WordsValues([]) == [];
      assert IsFront("", []);
      assert Splits(text, BEGIN, "", [], "", "") by { assert "" == "" + BitsText([]) + "" && "" == BitsValue([]) + ""; }
    } else {
      var front, c := text[..|text| - 1], text[|text| - 1];
      ReadLooks(front);
      assert text == front + [c];
      ReadAppend(front, [c], BEGIN);
      var lx := ReadAll(front, BEGIN);
      ReadShort([c], lx);
      match lx.mode
      case Gap => if Shlex.IsBlank(c) { BlankGrows(front, lx, c); } else { WordGrows(front, lx, c); }
      case InWord => if Shlex.IsBlank(c) { BlankGrows(front, lx, c); } else { WordGrows(front, lx, c); }
      case InSingle => SingleGrows(front, lx, c);
      case InDouble => DoubleGrows(front, lx, c);
      case EscapedInWord => EscapeGrows(front, lx, c);
      case EscapedInDouble => DoubleEscapeGrows(front, lx, c);
    }
  }

  // ---------- what splitting means ----------

  /** A text splits into exactly the words that it is written from. */
  lemma {:induction false} SplitMeans(text: string, words: seq<string>)
    ensures Split(text) == Ok(words) <==> IsWritten(text, words)
  {
    ReadLooks(text);
    if Split(text) == Ok(words) {
      var lx := ReadAll(text, BEGIN);
      var front, bits, rest, value :| Splits(text, lx, front, bits, rest, value);
      SplitIsWritten(text, words, lx, front, bits, rest, value);
    }
    if IsWritten(text, words) {
      var ws, gap :| WordsOk(ws) && Blanks(gap) && text == WordsText(ws) + gap && words == WordsValues(ws);
      WordsAreRead(ws, gap);
    }
  }

  lemma {:induction false} WordsAreWritten(ws: seq<Word>)
    requires WordsOk(ws)
    ensures IsWritten(WordsText(ws), WordsValues(ws))
  {
    assert Blanks("") && WordsText(ws) + "" == WordsText(ws);
  }

  lemma {:induction false} SplitIsWritten(text: string, words: seq<string>, lx: Lexer,
      front: string, bits: seq<Bit>, rest: string, value: string)
    requires Splits(text, lx, front, bits, rest, value) && Finish(lx) == Ok(words)
    ensures IsWritten(text, words)
  {
    var ws, gap :| WordsOk(ws) && Blanks(gap) && (ws != [] ==> gap != "") && front == WordsText(ws) + gap
      && lx.words == WordsValues(ws);
    assert BitsValue(bits) + "" == BitsValue(bits) && front + BitsText(bits) + "" == front + BitsText(bits);
    if lx.mode == Gap {
      assert front + BitsText([]) == front;
    } else {
      OneMoreWord(ws, Word(gap, bits));
      WordsAreWritten(ws + [Word(gap, bits)]);
    }
  }

  ghost predicate EndsIn(text: string, mode: Mode) {
    exists words, front, bits, rest, value ::
      Splits(text, Lexer(mode, BitsValue(bits) + value, words), front, bits, rest, value)
  }

  /** It fails exactly when the text ends inside quotes, or with a backslash that escapes nothing. */
  lemma {:induction false} SplitFails(text: string)
    ensures Split(text) == Error("No closing quotation") <==> EndsIn(text, InSingle) || EndsIn(text, InDouble)
    ensures Split(text) == Error("No escaped character")
       <==> EndsIn(text, EscapedInWord) || EndsIn(text, EscapedInDouble)
  {
    EndsInMeans(text, InSingle);
    EndsInMeans(text, InDouble);
    EndsInMeans(text, EscapedInWord);
    EndsInMeans(text, EscapedInDouble);
  }

  lemma {:induction false} EndsInMeans(text: string, mode: Mode)
    ensures ReadAll(text, BEGIN).mode == mode <==> EndsIn(text, mode)
  {
    ReadLooks(text);
    var lx := ReadAll(text, BEGIN);
    var front, bits, rest, value :| Splits(text, lx, front, bits, rest, value);
    assert lx == Lexer(lx.mode, BitsValue(bits) + value, lx.words);
    if EndsIn(text, mode) {
      var words', front', bits', rest', value' :|
        Splits(text, Lexer(mode, BitsValue(bits') + value', words'), front', bits', rest', value');
      LooksAreRead(text, Lexer(mode, BitsValue(bits') + value', words'));
    }
  }

  // ---------- what quoting writes ----------

  /** A letter, a digit, or one of ten other characters. */
  predicate IsBareCharacter(c: char) {
    var n := c as int;
    48 <= n <= 57 || 65 <= n <= 90 || 97 <= n <= 122 || c in {'%', '+', ',', '-', '.', '/', ':', '=', '@', '_'}
  }

  /** The fields with each apostrophe between them in double quotes of its own, outside the single ones. */
  function InApostrophes(fields: seq<string>): string
    requires fields != []
  {
    if |fields| == 1 then fields[0] + "'" else fields[0] + "'\"'\"'" + InApostrophes(fields[1..])
  }

  lemma {:induction false} TailOfField(field: string)
    requires '\'' !in field
    ensures QuotedTail(field) == field + "'"
  {
    if field != "" {
      TailOfField(field[1..]);
      Text.Associative([field[0]], field[1..], "'");
      assert field == [field[0]] + field[1..];
    }
  }

  lemma {:induction false} TailAfterField(field: string, rest: string)
    requires '\'' !in field
    ensures QuotedTail(field + (['\''] + rest)) == field + "'\"'\"'" + QuotedTail(rest)
  {
    var s := field + (['\''] + rest);
    if field == "" {
      assert s[0] == '\'' && s[1..] == rest;
    } else {
      assert s[0] == field[0] && s[1..] == field[1..] + (['\''] + rest);
      TailAfterField(field[1..], rest);
      Text.Associative([field[0]], field[1..], "'\"'\"'" + QuotedTail(rest));
      Text.Associative(field[1..], "'\"'\"'", QuotedTail(rest));
      Text.Associative(field, "'\"'\"'", QuotedTail(rest));
      assert field == [field[0]] + field[1..];
    }
  }

  lemma {:induction false} TailOfFields(fields: seq<string>)
    requires fields != [] && forall i :: 0 <= i < |fields| ==> '\'' !in fields[i]
    ensures QuotedTail(Text.JoinFields(fields, '\'')) == InApostrophes(fields)
  {
    if |fields| == 1 {
      TailOfField(fields[0]);
    } else {
      TailOfFields(fields[1..]);
      TailAfterField(fields[0], Text.JoinFields(fields[1..], '\''));
      Text.Associative(fields[0], ['\''], Text.JoinFields(fields[1..], '\''));
    }
  }

  /** A token of plain characters is written as it is, and any other in single quotes. */
  lemma {:induction false} QuoteWrites(s: string)
    ensures Quote(s) == if s != "" && (forall i :: 0 <= i < |s| ==> IsBareCharacter(s[i])) then s
                        else "'" + InApostrophes(Text.Fields(s, '\''))
  {
    Text.JoinOfFields(s, '\'');
    TailOfFields(Text.Fields(s, '\''));
    assert QuotedTail("") == "'";
  }
}
