/** What expansion and `shlex.split` together do to a stage made of bare words and double-quoted
    templates: as long as no reference follows an apostrophe, every value arrives whole, in its own
    word. */
module Templates {
  import opened Results
  import opened Text
  import opened QuoteScan
  import opened Variables
  import Shlex

  datatype Piece = Literal(text: string) | Ref(name: string, braced: bool)

  datatype Word = Bare(text: string) | Template(pieces: seq<Piece>)

  /** A word and the blanks in front of it. */
  datatype Gapped = Gapped(gap: string, word: Word)

  // ---------- how a stage is written ----------

  function RenderPiece(p: Piece): string {
    match p
    case Literal(text) => text
    case Ref(name, braced) => if braced then "${" + name + "}" else "$" + name
  }

  function RenderPieces(ps: seq<Piece>): string {
    if ps == [] then "" else RenderPiece(ps[0]) + RenderPieces(ps[1..])
  }

  function RenderWord(w: Word): string {
    match w
    case Bare(text) => text
    case Template(pieces) => "\"" + RenderPieces(pieces) + "\""
  }

  function RenderStage(ws: seq<Gapped>): string {
    if ws == [] then "" else ws[0].gap + (RenderWord(ws[0].word) + RenderStage(ws[1..]))
  }

  /** Neither backslash, double quote nor dollar sign. */
  ghost predicate IsPlainText(s: string) {
    forall i :: 0 <= i < |s| ==> s[i] != '\\' && s[i] != '"' && s[i] != '$'
  }

  ghost predicate IsBlankText(s: string) {
    forall i :: 0 <= i < |s| ==> Shlex.IsBlank(s[i])
  }

  ghost predicate PieceOk(p: Piece, cc: CharClass) {
    match p
    case Literal(text) => IsPlainText(text)
    case Ref(name, braced) =>
      name != "" &&
      if braced then '}' !in name
      else cc.StartsName(name[0]) && forall i :: 0 <= i < |name| ==> cc.InName(name[i])
  }

  /** An unbraced name is not followed by another name character. */
  ghost predicate PiecesOk(ps: seq<Piece>, cc: CharClass) {
    ps == [] || (
      && PieceOk(ps[0], cc)
      && PiecesOk(ps[1..], cc)
      && (ps[0].Ref? && !ps[0].braced && RenderPieces(ps[1..]) != "" ==> !cc.InName(RenderPieces(ps[1..])[0])))
  }

  ghost predicate WordOk(w: Word, cc: CharClass) {
    match w
    case Bare(text) => text != "" && Shlex.AllSafe(text)
    case Template(pieces) => PiecesOk(pieces, cc)
  }

  /** Words are separated by blanks. */
  ghost predicate StageOk(ws: seq<Gapped>, cc: CharClass) {
    forall i :: 0 <= i < |ws| ==> IsBlankText(ws[i].gap) && WordOk(ws[i].word, cc) && (i > 0 ==> ws[i].gap != "")
  }

  // ---------- references after an apostrophe ----------

  predicate HasApostrophe(p: Piece) {
    p.Literal? && '\'' in p.text
  }

  /** The pieces of all templates of a stage, in order. */
  function AllPieces(ws: seq<Gapped>): seq<Piece> {
    if ws == [] then [] else (if ws[0].word.Bare? then [] else ws[0].word.pieces) + AllPieces(ws[1..])
  }

  ghost predicate ReferenceAfterApostrophe(ps: seq<Piece>) {
    exists i, j :: 0 <= i < j < |ps| && HasApostrophe(ps[i]) && ps[j].Ref?
  }

  /** The same, going through the pieces; `seen` says whether an apostrophe came before them. */
  predicate Late(ps: seq<Piece>, seen: bool) {
    ps != [] && ((seen && ps[0].Ref?) || Late(ps[1..], seen || HasApostrophe(ps[0])))
  }

  predicate SeenAfter(ps: seq<Piece>, seen: bool) {
    if ps == [] then seen else SeenAfter(ps[1..], seen || HasApostrophe(ps[0]))
  }

  lemma {:induction false} LateConcat(a: seq<Piece>, b: seq<Piece>, seen: bool)
    ensures Late(a + b, seen) <==> Late(a, seen) || Late(b, SeenAfter(a, seen))
    ensures SeenAfter(a + b, seen) == SeenAfter(b, SeenAfter(a, seen))
  {
    if a == [] {
      assert a + b == b;
    } else {
      assert (a + b)[0] == a[0] && (a + b)[1..] == a[1..] + b;
      LateConcat(a[1..], b, seen || HasApostrophe(a[0]));
    }
  }

  ghost predicate HasReference(ps: seq<Piece>) {
    exists j :: 0 <= j < |ps| && ps[j].Ref?
  }

  lemma ReferenceInRest(first: Piece, rest: seq<Piece>)
    ensures HasReference([first] + rest) <==> first.Ref? || HasReference(rest)
  {
    var ps := [first] + rest;
    if j :| 0 <= j < |rest| && rest[j].Ref? {
      assert ps[j + 1].Ref?;
    }
    if first.Ref? {
      assert ps[0].Ref?;
    }
  }

  lemma ApostropheInRest(first: Piece, rest: seq<Piece>)
    ensures ReferenceAfterApostrophe([first] + rest) <==>
      ReferenceAfterApostrophe(rest) || (HasApostrophe(first) && HasReference(rest))
  {
    var ps := [first] + rest;
    if i, j :| 0 <= i < j < |ps| && HasApostrophe(ps[i]) && ps[j].Ref? {
      assert rest[j - 1].Ref? && (i > 0 ==> HasApostrophe(rest[i - 1]));
    }
    if i, j :| 0 <= i < j < |rest| && HasApostrophe(rest[i]) && rest[j].Ref? {
      assert HasApostrophe(ps[i + 1]) && ps[j + 1].Ref?;
    }
    if j :| HasApostrophe(first) && 0 <= j < |rest| && rest[j].Ref? {
      assert HasApostrophe(ps[0]) && ps[j + 1].Ref?;
    }
  }

  lemma {:induction false} LateMeans(ps: seq<Piece>, seen: bool)
    ensures Late(ps, seen) <==> ReferenceAfterApostrophe(ps) || (seen && HasReference(ps))
  {
    if ps != [] {
      assert ps == [ps[0]] + ps[1..];
      LateMeans(ps[1..], seen || HasApostrophe(ps[0]));
      ReferenceInRest(ps[0], ps[1..]);
      ApostropheInRest(ps[0], ps[1..]);
    }
  }

  // ---------- what the expansion scanner takes for quotes ----------

  /** Its quote after text without backslash and double quote. */
  function AfterText(quote: Quote, text: string): Quote
    decreases |text|
  {
    if text == "" then quote
    else AfterText(if text[0] != '\'' then quote else if quote == Open('\'') then Unquoted else Open('\''), text[1..])
  }

  /** Its quote after a double quote. */
  function AfterMark(quote: Quote): Quote {
    if quote == Open('\'') then quote else if quote == Open('"') then Unquoted else Open('"')
  }

  function AfterPiece(quote: Quote, p: Piece): Quote {
    if p.Literal? then AfterText(quote, p.text) else quote
  }

  function AfterPieces(quote: Quote, ps: seq<Piece>): Quote
    decreases |ps|
  {
    if ps == [] then quote else AfterPieces(AfterPiece(quote, ps[0]), ps[1..])
  }

  function AfterWord(quote: Quote, w: Word): Quote {
    if w.Bare? then quote else AfterMark(AfterPieces(AfterMark(quote), w.pieces))
  }

  function AfterStage(quote: Quote, ws: seq<Gapped>): Quote
    decreases |ws|
  {
    if ws == [] then quote else AfterStage(AfterWord(quote, ws[0].word), ws[1..])
  }

  /** Some reference is met inside what the scanner takes for single quotes, and copied. */
  predicate Copied(quote: Quote, ps: seq<Piece>)
    decreases |ps|
  {
    ps != [] && ((ps[0].Ref? && quote == Open('\'')) || Copied(AfterPiece(quote, ps[0]), ps[1..]))
  }

  predicate WordCopied(quote: Quote, w: Word) {
    w.Template? && Copied(AfterMark(quote), w.pieces)
  }

  predicate StageCopied(quote: Quote, ws: seq<Gapped>)
    decreases |ws|
  {
    ws != [] && (WordCopied(quote, ws[0].word) || StageCopied(AfterWord(quote, ws[0].word), ws[1..]))
  }

  /** Before the first apostrophe the scanner's quotes are the real ones. After it, it takes the inside
      of a template for single-quoted or unquoted, and what lies between for single- or double-quoted. */
  predicate Fits(quote: Quote, seen: bool, inside: bool) {
    if inside then if seen then quote == Open('\'') || quote == Unquoted else quote == Open('"')
    else if seen then quote == Open('\'') || quote == Open('"') else quote == Unquoted
  }

  lemma {:induction false} TextFits(quote: Quote, text: string, seen: bool)
    requires Fits(quote, seen, true)
    ensures Fits(AfterText(quote, text), seen || '\'' in text, true)
    ensures '\'' !in text ==> AfterText(quote, text) == quote
    decreases |text|
  {
    if text != "" {
      var next := if text[0] != '\'' then quote else if quote == Open('\'') then Unquoted else Open('\'');
      assert text == [text[0]] + text[1..];
      TextFits(next, text[1..], seen || text[0] == '\'');
    }
  }

  lemma {:induction false} TextWithoutApostrophe(quote: Quote, text: string)
    requires '\'' !in text
    ensures AfterText(quote, text) == quote
  {
    if text != "" {
      TextWithoutApostrophe(quote, text[1..]);
    }
  }

  lemma {:induction false} PiecesFit(quote: Quote, ps: seq<Piece>, seen: bool)
    requires Fits(quote, seen, true)
    ensures Fits(AfterPieces(quote, ps), SeenAfter(ps, seen), true)
    ensures !Late(ps, seen) ==> !Copied(quote, ps)
    decreases |ps|
  {
    if ps != [] {
      if ps[0].Literal? {
        TextFits(quote, ps[0].text, seen);
      }
      PiecesFit(AfterPiece(quote, ps[0]), ps[1..], seen || HasApostrophe(ps[0]));
    }
  }

  lemma WordFits(quote: Quote, w: Word, seen: bool)
    requires Fits(quote, seen, false)
    ensures var ps := if w.Bare? then [] else w.pieces;
      Fits(AfterWord(quote, w), SeenAfter(ps, seen), false) && (!Late(ps, seen) ==> !WordCopied(quote, w))
  {
    if w.Template? {
      PiecesFit(AfterMark(quote), w.pieces, seen);
    }
  }

  /** So it is after any number of words, and no reference is copied that does not come after an
      apostrophe. */
  lemma {:induction false} StageFits(quote: Quote, ws: seq<Gapped>, seen: bool)
    requires Fits(quote, seen, false)
    ensures Fits(AfterStage(quote, ws), SeenAfter(AllPieces(ws), seen), false)
    ensures !Late(AllPieces(ws), seen) ==> !StageCopied(quote, ws)
    decreases |ws|
  {
    if ws != [] {
      var ps := if ws[0].word.Bare? then [] else ws[0].word.pieces;
      LateConcat(ps, AllPieces(ws[1..]), seen);
      WordFits(quote, ws[0].word, seen);
      StageFits(AfterWord(quote, ws[0].word), ws[1..], SeenAfter(ps, seen));
    }
  }

  // ---------- what it means ----------

  function PieceResolves(p: Piece, store: VarStore, commandlet: string): bool {
    p.Ref? ==> Resolve(store, commandlet, p.name).Ok?
  }

  ghost predicate PiecesResolve(ps: seq<Piece>, store: VarStore, commandlet: string) {
    forall i :: 0 <= i < |ps| ==> PieceResolves(ps[i], store, commandlet)
  }

  ghost predicate StageResolves(ws: seq<Gapped>, store: VarStore, commandlet: string) {
    forall i :: 0 <= i < |ws| ==> ws[i].word.Template? ==> PiecesResolve(ws[i].word.pieces, store, commandlet)
  }

  /** Literals as written, references replaced by their raw values. */
  ghost function PiecesValue(ps: seq<Piece>, store: VarStore, commandlet: string): string
    requires PiecesResolve(ps, store, commandlet)
  {
    if ps == [] then ""
    else
      assert PieceResolves(ps[0], store, commandlet);
      (match ps[0]
       case Literal(text) => text
       case Ref(name, _) => Resolve(store, commandlet, name).value.value) + PiecesValue(ps[1..], store, commandlet)
  }

  ghost function WordValue(w: Word, store: VarStore, commandlet: string): string
    requires w.Template? ==> PiecesResolve(w.pieces, store, commandlet)
  {
    match w
    case Bare(text) => text
    case Template(pieces) => PiecesValue(pieces, store, commandlet)
  }

  ghost function StageValues(ws: seq<Gapped>, store: VarStore, commandlet: string): (r: seq<string>)
    requires StageResolves(ws, store, commandlet)
    ensures |r| == |ws|
  {
    if ws == [] then []
    else
      assert ws[0].word.Template? ==> PiecesResolve(ws[0].word.pieces, store, commandlet);
      [WordValue(ws[0].word, store, commandlet)] + StageValues(ws[1..], store, commandlet)
  }

  /** The variables a template refers to, as they resolve, in order. */
  ghost function PiecesNames(ps: seq<Piece>, store: VarStore, commandlet: string): seq<string>
    requires PiecesResolve(ps, store, commandlet)
  {
    if ps == [] then []
    else
      assert PieceResolves(ps[0], store, commandlet);
      (match ps[0]
       case Literal(_) => []
       case Ref(name, _) => [Resolve(store, commandlet, name).value.name]) + PiecesNames(ps[1..], store, commandlet)
  }

  ghost function StageNames(ws: seq<Gapped>, store: VarStore, commandlet: string): seq<string>
    requires StageResolves(ws, store, commandlet)
  {
    if ws == [] then []
    else
      assert ws[0].word.Template? ==> PiecesResolve(ws[0].word.pieces, store, commandlet);
      (if ws[0].word.Bare? then [] else PiecesNames(ws[0].word.pieces, store, commandlet)) +
        StageNames(ws[1..], store, commandlet)
  }

  // ---------- expansion, piece by piece ----------

  function Chain(first: Result<Expansion>, rest: Result<Expansion>): Result<Expansion> {
    match first
    case Error(message) => Error(message)
    case Ok(e) => Then(e.text, e.names, rest)
  }

  lemma ThenThen(a: string, x: seq<string>, b: string, y: seq<string>, rest: Result<Expansion>)
    ensures Then(a, x, Then(b, y, rest)) == Then(a + b, x + y, rest)
  {
    if rest.Ok? {
      Associative(a, b, rest.value.text);
      Associative(x, y, rest.value.names);
    }
  }

  lemma ChainThen(a: string, x: seq<string>, first: Result<Expansion>, rest: Result<Expansion>)
    ensures Chain(Then(a, x, first), rest) == Then(a, x, Chain(first, rest))
  {
    if first.Ok? {
      ThenThen(a, x, first.value.text, first.value.names, rest);
    }
  }

  lemma {:induction false} ExpandPlain(s: string, rest: string, quote: Quote, store: VarStore, commandlet: string,
      cc: CharClass)
    requires IsPlainText(s)
    ensures Expand(s + rest, State(quote, false), store, commandlet, cc)
         == Then(s, [], Expand(rest, State(AfterText(quote, s), false), store, commandlet, cc))
  {
    var more := Expand(rest, State(AfterText(quote, s), false), store, commandlet, cc);
    if s == "" {
      assert s + rest == rest;
      if more.Ok? {
        assert "" + more.value.text == more.value.text && [] + more.value.names == more.value.names;
      }
    } else {
      var next := if s[0] != '\'' then quote else if quote == Open('\'') then Unquoted else Open('\'');
      assert (s + rest)[1..] == s[1..] + rest;
      ExpandPlain(s[1..], rest, next, store, commandlet, cc);
      ThenThen([s[0]], [], s[1..], [], more);
      assert [s[0]] + s[1..] == s && NO_NAMES + NO_NAMES == NO_NAMES;
    }
  }

  const NO_NAMES: seq<string> := []

  lemma {:induction false} NameRunStops(name: string, rest: string, cc: CharClass)
    requires forall i :: 0 <= i < |name| ==> cc.InName(name[i])
    requires rest == "" || !cc.InName(rest[0])
    ensures NameRun(name + rest, cc) == name
  {
    if name == "" {
      assert name + rest == rest;
    } else {
      assert (name + rest)[1..] == name[1..] + rest;
      NameRunStops(name[1..], rest, cc);
      assert [name[0]] + name[1..] == name;
    }
  }

  lemma {:induction false} FindCloseAfter(name: string, rest: string)
    requires '}' !in name
    ensures FindClose(name + "}" + rest) == Some(|name|)
  {
    var text := name + "}" + rest;
    if name != "" {
      assert text[1..] == name[1..] + "}" + rest;
      FindCloseAfter(name[1..], rest);
    }
  }

  lemma ParseBraced(name: string, rest: string, cc: CharClass)
    requires name != "" && '}' !in name
    ensures ParseReference("${" + name + "}" + rest, cc) == Ok(Some(Reference(name, 3 + |name|)))
  {
    var text := "${" + name + "}" + rest;
    FindCloseAfter(name, rest);
    assert text[2..] == name + "}" + rest;
    assert text[2..2 + |name|] == name;
  }

  lemma ParseUnbraced(name: string, rest: string, cc: CharClass)
    requires cc.Sensible() && name != "" && cc.StartsName(name[0])
    requires forall i :: 0 <= i < |name| ==> cc.InName(name[i])
    requires rest != "" ==> !cc.InName(rest[0])
    ensures ParseReference("$" + name + rest, cc) == Ok(Some(Reference(name, 1 + |name|)))
  {
    var text := "$" + name + rest;
    assert text[1] == name[0] && text[2..] == name[1..] + rest;
    NameRunStops(name[1..], rest, cc);
    assert [name[0]] + name[1..] == name;
  }

  function PieceOutcome(p: Piece, quote: Quote, store: VarStore, commandlet: string): Result<Expansion> {
    match p
    case Literal(text) => Ok(Expansion(text, []))
    case Ref(name, _) =>
      match Resolve(store, commandlet, name)
      case Error(message) => Error(message)
      case Ok(found) => Ok(Expansion(Inserted(found.value, State(quote, false)), [found.name]))
  }

  /** The expansion of a template's inside, when no reference is copied. */
  function PiecesOutcome(ps: seq<Piece>, quote: Quote, store: VarStore, commandlet: string): Result<Expansion> {
    if ps == [] then Ok(Expansion("", []))
    else
      Chain(PieceOutcome(ps[0], quote, store, commandlet),
            PiecesOutcome(ps[1..], AfterPiece(quote, ps[0]), store, commandlet))
  }

  lemma {:induction false} ExpandPiece(
      p: Piece, rest: string, quote: Quote, store: VarStore, commandlet: string, cc: CharClass)
    requires cc.Sensible() && PieceOk(p, cc) && (p.Ref? ==> quote != Open('\''))
    requires p.Ref? && !p.braced && rest != "" ==> !cc.InName(rest[0])
    ensures Expand(RenderPiece(p) + rest, State(quote, false), store, commandlet, cc)
         == Chain(PieceOutcome(p, quote, store, commandlet),
                  Expand(rest, State(AfterPiece(quote, p), false), store, commandlet, cc))
  {
    match p {
      case Literal(text) =>
        ExpandPlain(text, rest, quote, store, commandlet, cc);
      case Ref(name, braced) =>
        if braced { ParseBraced(name, rest, cc); } else { ParseUnbraced(name, rest, cc); }
        ExpandReference(RenderPiece(p), name, rest, quote, store, commandlet, cc);
    }
  }

  lemma ExpandReference(
      written: string, name: string, rest: string, quote: Quote, store: VarStore, commandlet: string, cc: CharClass)
    requires written != "" && written[0] == '$' && quote != Open('\'')
    requires ParseReference(written + rest, cc) == Ok(Some(Reference(name, |written|)))
    ensures Expand(written + rest, State(quote, false), store, commandlet, cc)
         == Chain(PieceOutcome(Ref(name, true), quote, store, commandlet),
                  Expand(rest, State(quote, false), store, commandlet, cc))
  {
    var text := written + rest;
    assert text[0] == '$' && text[|written|..] == rest;
  }

  lemma ChainChain(first: Result<Expansion>, second: Result<Expansion>, rest: Result<Expansion>)
    ensures Chain(first, Chain(second, rest)) == Chain(Chain(first, second), rest)
  {
    if first.Ok? {
      ChainThen(first.value.text, first.value.names, second, rest);
    }
  }

  lemma {:induction false} ExpandPieces(
      ps: seq<Piece>, rest: string, quote: Quote, store: VarStore, commandlet: string, cc: CharClass)
    requires cc.Sensible() && PiecesOk(ps, cc) && rest != "" && rest[0] == '"' && !Copied(quote, ps)
    ensures Expand(RenderPieces(ps) + rest, State(quote, false), store, commandlet, cc)
         == Chain(PiecesOutcome(ps, quote, store, commandlet),
                  Expand(rest, State(AfterPieces(quote, ps), false), store, commandlet, cc))
  {
    var end := Expand(rest, State(AfterPieces(quote, ps), false), store, commandlet, cc);
    if ps == [] {
      assert RenderPieces(ps) + rest == rest;
      if end.Ok? {
        assert "" + end.value.text == end.value.text && NO_NAMES + end.value.names == end.value.names;
      }
    } else {
      var next := AfterPiece(quote, ps[0]);
      Associative(RenderPiece(ps[0]), RenderPieces(ps[1..]), rest);
      ExpandPiece(ps[0], RenderPieces(ps[1..]) + rest, quote, store, commandlet, cc);
      ExpandPieces(ps[1..], rest, next, store, commandlet, cc);
      ChainChain(PieceOutcome(ps[0], quote, store, commandlet), PiecesOutcome(ps[1..], next, store, commandlet), end);
    }
  }

  function WordOutcome(w: Word, quote: Quote, store: VarStore, commandlet: string): Result<Expansion> {
    match w
    case Bare(text) => Ok(Expansion(text, []))
    case Template(pieces) =>
      Then("\"", [], Chain(PiecesOutcome(pieces, AfterMark(quote), store, commandlet), Ok(Expansion("\"", []))))
  }

  lemma ExpandWord(w: Word, rest: string, quote: Quote, store: VarStore, commandlet: string, cc: CharClass)
    requires cc.Sensible() && WordOk(w, cc) && !WordCopied(quote, w)
    ensures Expand(RenderWord(w) + rest, State(quote, false), store, commandlet, cc)
         == Chain(WordOutcome(w, quote, store, commandlet),
                  Expand(rest, State(AfterWord(quote, w), false), store, commandlet, cc))
  {
    match w {
      case Bare(text) => ExpandBare(text, rest, quote, store, commandlet, cc);
      case Template(pieces) =>
        TemplateText(pieces, rest);
        ExpandTemplate(pieces, rest, quote, store, commandlet, cc);
        Requote(PiecesOutcome(pieces, AfterMark(quote), store, commandlet),
                Expand(rest, State(AfterWord(quote, w), false), store, commandlet, cc));
    }
  }

  lemma {:induction false} ExpandBare(
      text: string, rest: string, quote: Quote, store: VarStore, commandlet: string, cc: CharClass)
    requires Shlex.AllSafe(text)
    ensures Expand(text + rest, State(quote, false), store, commandlet, cc)
         == Then(text, [], Expand(rest, State(quote, false), store, commandlet, cc))
  {
    ExpandPlain(text, rest, quote, store, commandlet, cc);
    TextWithoutApostrophe(quote, text);
  }

  lemma TemplateText(pieces: seq<Piece>, rest: string)
    ensures RenderWord(Template(pieces)) + rest == "\"" + (RenderPieces(pieces) + ("\"" + rest))
  {
  }

  lemma ExpandTemplate(
      pieces: seq<Piece>, rest: string, quote: Quote, store: VarStore, commandlet: string, cc: CharClass)
    requires cc.Sensible() && PiecesOk(pieces, cc) && !Copied(AfterMark(quote), pieces)
    ensures var inside := AfterMark(quote);
      Expand("\"" + (RenderPieces(pieces) + ("\"" + rest)), State(quote, false), store, commandlet, cc)
      == Then("\"", [], Chain(PiecesOutcome(pieces, inside, store, commandlet),
           Then("\"", [], Expand(rest, State(AfterMark(AfterPieces(inside, pieces)), false), store, commandlet, cc))))
  {
    var inside := AfterMark(quote);
    ExpandMark(RenderPieces(pieces) + ("\"" + rest), quote, store, commandlet, cc);
    ExpandPieces(pieces, "\"" + rest, inside, store, commandlet, cc);
    ExpandMark(rest, AfterPieces(inside, pieces), store, commandlet, cc);
  }

  lemma ExpandMark(rest: string, quote: Quote, store: VarStore, commandlet: string, cc: CharClass)
    ensures Expand("\"" + rest, State(quote, false), store, commandlet, cc)
         == Then("\"", [], Expand(rest, State(AfterMark(quote), false), store, commandlet, cc))
  {
    assert ("\"" + rest)[1..] == rest;
  }

  lemma Requote(first: Result<Expansion>, end: Result<Expansion>)
    ensures Then("\"", [], Chain(first, Then("\"", [], end)))
         == Chain(Then("\"", [], Chain(first, Ok(Expansion("\"", [])))), end)
  {
    if first.Ok? {
      ThenThen(first.value.text, first.value.names, "\"", [], end);
    }
    ChainThen("\"", [], Chain(first, Ok(Expansion("\"", []))), end);
  }

  function StageOutcome(ws: seq<Gapped>, quote: Quote, store: VarStore, commandlet: string): Result<Expansion> {
    if ws == [] then Ok(Expansion("", []))
    else
      Then(ws[0].gap, [], Chain(WordOutcome(ws[0].word, quote, store, commandlet),
                                StageOutcome(ws[1..], AfterWord(quote, ws[0].word), store, commandlet)))
  }

  lemma ExpandGap(gap: string, rest: string, quote: Quote, store: VarStore, commandlet: string, cc: CharClass)
    requires IsBlankText(gap)
    ensures Expand(gap + rest, State(quote, false), store, commandlet, cc)
         == Then(gap, [], Expand(rest, State(quote, false), store, commandlet, cc))
  {
    ExpandPlain(gap, rest, quote, store, commandlet, cc);
    TextWithoutApostrophe(quote, gap);
  }

  lemma {:induction false} ExpandStage(ws: seq<Gapped>, quote: Quote, store: VarStore, commandlet: string,
      cc: CharClass)
    requires cc.Sensible() && StageOk(ws, cc) && !StageCopied(quote, ws)
    ensures Expand(RenderStage(ws), State(quote, false), store, commandlet, cc) ==
      StageOutcome(ws, quote, store, commandlet)
  {
    if ws != [] {
      var rest := RenderStage(ws[1..]);
      ExpandStage(ws[1..], AfterWord(quote, ws[0].word), store, commandlet, cc);
      ExpandGap(ws[0].gap, RenderWord(ws[0].word) + rest, quote, store, commandlet, cc);
      ExpandWord(ws[0].word, rest, quote, store, commandlet, cc);
    }
  }

  // ---------- an unresolved reference is an error ----------

  lemma {:induction false} PiecesOutcomeOk(ps: seq<Piece>, quote: Quote, store: VarStore, commandlet: string)
    ensures PiecesOutcome(ps, quote, store, commandlet).Ok? <==> PiecesResolve(ps, store, commandlet)
  {
    if ps != [] {
      PiecesOutcomeOk(ps[1..], AfterPiece(quote, ps[0]), store, commandlet);
      assert ps == [ps[0]] + ps[1..];
      if PiecesResolve(ps, store, commandlet) {
        assert PieceResolves(ps[0], store, commandlet);
      }
    }
  }

  lemma {:induction false} StageOutcomeOk(ws: seq<Gapped>, quote: Quote, store: VarStore, commandlet: string)
    ensures StageOutcome(ws, quote, store, commandlet).Ok? <==> StageResolves(ws, store, commandlet)
  {
    if ws != [] {
      StageOutcomeOk(ws[1..], AfterWord(quote, ws[0].word), store, commandlet);
      assert ws == [ws[0]] + ws[1..];
      if ws[0].word.Template? {
        PiecesOutcomeOk(ws[0].word.pieces, AfterMark(quote), store, commandlet);
      }
    }
  }

  lemma {:induction false} PiecesOutcomeNames(ps: seq<Piece>, quote: Quote, store: VarStore, commandlet: string)
    requires PiecesResolve(ps, store, commandlet) && PiecesOutcome(ps, quote, store, commandlet).Ok?
    ensures PiecesOutcome(ps, quote, store, commandlet).value.names == PiecesNames(ps, store, commandlet)
  {
    if ps != [] {
      assert PieceResolves(ps[0], store, commandlet);
      PiecesOutcomeOk(ps[1..], AfterPiece(quote, ps[0]), store, commandlet);
      PiecesOutcomeNames(ps[1..], AfterPiece(quote, ps[0]), store, commandlet);
    }
  }

  lemma {:induction false} StageOutcomeNames(ws: seq<Gapped>, quote: Quote, store: VarStore, commandlet: string)
    requires StageResolves(ws, store, commandlet) && StageOutcome(ws, quote, store, commandlet).Ok?
    ensures StageOutcome(ws, quote, store, commandlet).value.names == StageNames(ws, store, commandlet)
  {
    if ws != [] {
      var w := ws[0].word;
      StageOutcomeOk(ws[1..], AfterWord(quote, ws[0].word), store, commandlet);
      StageOutcomeNames(ws[1..], AfterWord(quote, ws[0].word), store, commandlet);
      if w.Template? {
        PiecesOutcomeOk(w.pieces, AfterMark(quote), store, commandlet);
        PiecesOutcomeNames(w.pieces, AfterMark(quote), store, commandlet);
      }
      WordNames(w, quote, store, commandlet);
    }
  }

  lemma WordNames(w: Word, quote: Quote, store: VarStore, commandlet: string)
    requires WordOutcome(w, quote, store, commandlet).Ok?
    ensures WordOutcome(w, quote, store, commandlet).value.names
         == if w.Bare? then [] else PiecesOutcome(w.pieces, AfterMark(quote), store, commandlet).value.names
  {
    if w.Template? {
      var names := PiecesOutcome(w.pieces, AfterMark(quote), store, commandlet).value.names;
      assert NO_NAMES + (names + NO_NAMES) == names;
    }
  }

  // ---------- the expanded text splits into the values ----------

  function EscapedChar(c: char): string {
    if c == '\\' then "\\\\" else if c == '"' then "\\\"" else [c]
  }

  lemma EscapeOne(v: string)
    requires v != ""
    ensures EscapeDoubleQuotedValue(v) == EscapedChar(v[0]) + EscapeDoubleQuotedValue(v[1..])
  {
    var more := ReplaceChar(v[1..], '\\', "\\\\");
    var first := if v[0] == '\\' then "\\\\" else [v[0]];
    var text := first + more;
    if v[0] == '\\' {
      assert text[1..] == "\\" + more && ("\\" + more)[1..] == more;
      assert ReplaceChar(text, '"', "\\\"") == "\\" + ("\\" + ReplaceChar(more, '"', "\\\""));
    } else {
      assert text[1..] == more;
    }
  }

  lemma EscapedCharIsRead(c: char, more: string, lx: Shlex.Lexer)
    requires lx.mode == Shlex.InDouble
    ensures Shlex.ReadAll(EscapedChar(c) + more, lx) == Shlex.ReadAll(more, lx.(word := lx.word + [c]))
  {
    if c == '\\' || c == '"' {
      assert EscapedChar(c) + more == ['\\'] + ([c] + more);
      Shlex.ReadOne('\\', [c] + more, lx);
      Shlex.ReadOne(c, more, lx.(mode := Shlex.EscapedInDouble));
    } else {
      Shlex.ReadOne(c, more, lx);
    }
  }

  /** Inside double quotes the escaped value reads as the value, whatever it contains. */
  lemma {:induction false} EscapedValueIsRead(v: string, lx: Shlex.Lexer)
    requires lx.mode == Shlex.InDouble
    ensures Shlex.ReadAll(EscapeDoubleQuotedValue(v), lx) == lx.(word := lx.word + v)
  {
    if v == "" {
      assert lx.word + v == lx.word;
    } else {
      var c, lx' := v[0], lx.(word := lx.word + [v[0]]);
      EscapeOne(v);
      EscapedCharIsRead(c, EscapeDoubleQuotedValue(v[1..]), lx);
      EscapedValueIsRead(v[1..], lx');
      Associative(lx.word, [c], v[1..]);
      assert [c] + v[1..] == v;
    }
  }

  lemma {:induction false} PlainIsRead(s: string, lx: Shlex.Lexer)
    requires IsPlainText(s) && lx.mode == Shlex.InDouble
    ensures Shlex.ReadAll(s, lx) == lx.(word := lx.word + s)
  {
    if s == "" {
      assert lx.word + s == lx.word;
    } else {
      PlainIsRead(s[1..], lx.(word := lx.word + [s[0]]));
      Associative(lx.word, [s[0]], s[1..]);
      assert [s[0]] + s[1..] == s;
    }
  }

  /** The value that a raw insertion makes easy to follow: two backslashes, read back as one. */
  const PAIR: string := "\\\\"

  /** Every reference met outside what the scanner takes for double quotes, and so inserted raw, has
      that value. */
  ghost predicate RawIsPair(ps: seq<Piece>, quote: Quote, store: VarStore, commandlet: string) {
    ps == [] || (
      && (ps[0].Ref? && quote != Open('"') ==>
            Resolve(store, commandlet, ps[0].name).Ok? && Resolve(store, commandlet, ps[0].name).value.value == PAIR)
      && RawIsPair(ps[1..], AfterPiece(quote, ps[0]), store, commandlet))
  }

  ghost predicate StageRawIsPair(ws: seq<Gapped>, quote: Quote, store: VarStore, commandlet: string) {
    ws == [] || (
      && (ws[0].word.Template? ==> RawIsPair(ws[0].word.pieces, AfterMark(quote), store, commandlet))
      && StageRawIsPair(ws[1..], AfterWord(quote, ws[0].word), store, commandlet))
  }

  ghost function PieceRead(p: Piece, quote: Quote, store: VarStore, commandlet: string): string
    requires PieceResolves(p, store, commandlet)
  {
    match p
    case Literal(text) => text
    case Ref(name, _) => if quote == Open('"') then Resolve(store, commandlet, name).value.value else "\\"
  }

  /** What tokenising reads from an expanded template. */
  ghost function PiecesRead(ps: seq<Piece>, quote: Quote, store: VarStore, commandlet: string): string
    requires PiecesResolve(ps, store, commandlet)
  {
    if ps == [] then ""
    else
      assert PieceResolves(ps[0], store, commandlet);
      PieceRead(ps[0], quote, store, commandlet) + PiecesRead(ps[1..], AfterPiece(quote, ps[0]), store, commandlet)
  }

  ghost function WordRead(w: Word, quote: Quote, store: VarStore, commandlet: string): string
    requires w.Template? ==> PiecesResolve(w.pieces, store, commandlet)
  {
    match w
    case Bare(text) => text
    case Template(pieces) => PiecesRead(pieces, AfterMark(quote), store, commandlet)
  }

  ghost function StageRead(ws: seq<Gapped>, quote: Quote, store: VarStore, commandlet: string): (r: seq<string>)
    requires StageResolves(ws, store, commandlet)
    ensures |r| == |ws|
  {
    if ws == [] then []
    else
      assert ws[0].word.Template? ==> PiecesResolve(ws[0].word.pieces, store, commandlet);
      [WordRead(ws[0].word, quote, store, commandlet)] +
        StageRead(ws[1..], AfterWord(quote, ws[0].word), store, commandlet)
  }

  lemma PieceIsRead(p: Piece, quote: Quote, store: VarStore, commandlet: string, cc: CharClass, lx: Shlex.Lexer)
    requires PieceOk(p, cc) && PieceResolves(p, store, commandlet) && RawIsPair([p], quote, store, commandlet)
    requires lx.mode == Shlex.InDouble
    ensures PieceOutcome(p, quote, store, commandlet).Ok?
    ensures Shlex.ReadAll(PieceOutcome(p, quote, store, commandlet).value.text, lx)
         == lx.(word := lx.word + PieceRead(p, quote, store, commandlet))
  {
    match p {
      case Literal(text) => PlainIsRead(text, lx);
      case Ref(name, _) =>
        if quote == Open('"') {
          EscapedValueIsRead(Resolve(store, commandlet, name).value.value, lx);
        } else {
          Shlex.ReadOne('\\', "\\", lx);
          Shlex.ReadOne('\\', "", lx.(mode := Shlex.EscapedInDouble));
          assert ['\\'] + "\\" == PAIR && ['\\'] + "" == "\\";
        }
    }
  }

  lemma {:induction false} PiecesAreRead(
      ps: seq<Piece>, quote: Quote, store: VarStore, commandlet: string, cc: CharClass, lx: Shlex.Lexer)
    requires PiecesOk(ps, cc) && PiecesResolve(ps, store, commandlet) && lx.mode == Shlex.InDouble
    requires RawIsPair(ps, quote, store, commandlet) && PiecesOutcome(ps, quote, store, commandlet).Ok?
    ensures Shlex.ReadAll(PiecesOutcome(ps, quote, store, commandlet).value.text, lx)
         == lx.(word := lx.word + PiecesRead(ps, quote, store, commandlet))
  {
    if ps == [] {
      assert lx.word + "" == lx.word;
    } else {
      var next := AfterPiece(quote, ps[0]);
      assert PieceResolves(ps[0], store, commandlet);
      assert [ps[0]][1..] == [];
      PiecesOutcomeOk(ps[1..], next, store, commandlet);
      var more := PiecesOutcome(ps[1..], next, store, commandlet).value.text;
      var read := PieceRead(ps[0], quote, store, commandlet);
      PieceIsRead(ps[0], quote, store, commandlet, cc, lx);
      Shlex.ReadAppend(PieceOutcome(ps[0], quote, store, commandlet).value.text, more, lx);
      PiecesAreRead(ps[1..], next, store, commandlet, cc, lx.(word := lx.word + read));
      Associative(lx.word, read, PiecesRead(ps[1..], next, store, commandlet));
    }
  }

  lemma WordIsRead(w: Word, quote: Quote, store: VarStore, commandlet: string, cc: CharClass, lx: Shlex.Lexer)
    requires WordOk(w, cc) && lx.mode == Shlex.Gap && lx.word == ""
    requires w.Template? ==>
      PiecesResolve(w.pieces, store, commandlet) && RawIsPair(w.pieces, AfterMark(quote), store, commandlet)
    requires WordOutcome(w, quote, store, commandlet).Ok?
    ensures Shlex.ReadAll(WordOutcome(w, quote, store, commandlet).value.text, lx)
         == lx.(mode := Shlex.InWord, word := WordRead(w, quote, store, commandlet))
  {
    match w {
      case Bare(text) =>
        Shlex.QuoteIsRead(text, lx);
      case Template(pieces) =>
        var inner := PiecesOutcome(pieces, AfterMark(quote), store, commandlet).value.text;
        var inQuotes := lx.(mode := Shlex.InDouble);
        var value := PiecesRead(pieces, AfterMark(quote), store, commandlet);
        PiecesAreRead(pieces, AfterMark(quote), store, commandlet, cc, inQuotes);
        assert inQuotes.word + value == value;
        Shlex.ReadOne('"', inner + "\"", lx);
        Shlex.ReadAppend(inner, "\"", inQuotes);
        Shlex.ReadOne('"', "", inQuotes.(word := value));
        assert ['"'] + "" == "\"";
    }
  }

  lemma {:induction false} BlanksAreSkipped(gap: string, lx: Shlex.Lexer)
    requires IsBlankText(gap) && lx.mode == Shlex.Gap
    ensures Shlex.ReadAll(gap, lx) == lx
  {
    if gap != "" {
      BlanksAreSkipped(gap[1..], lx);
    }
  }

  /** Blanks end a pending word, or do nothing between words. */
  function AtGap(lx: Shlex.Lexer): Shlex.Lexer {
    if lx.mode == Shlex.InWord then Shlex.Lexer(Shlex.Gap, "", lx.words + [lx.word]) else lx
  }

  lemma GapIsRead(gap: string, lx: Shlex.Lexer)
    requires IsBlankText(gap)
    requires lx.mode == Shlex.Gap || (lx.mode == Shlex.InWord && gap != "")
    ensures Shlex.ReadAll(gap, lx) == AtGap(lx)
  {
    if lx.mode == Shlex.Gap {
      BlanksAreSkipped(gap, lx);
    } else {
      BlanksAreSkipped(gap[1..], AtGap(lx));
    }
  }

  lemma {:induction false} StageIsRead(
      ws: seq<Gapped>, quote: Quote, store: VarStore, commandlet: string, cc: CharClass, lx: Shlex.Lexer)
    requires StageOk(ws, cc) && StageResolves(ws, store, commandlet) && StageRawIsPair(ws, quote, store, commandlet)
    requires StageOutcome(ws, quote, store, commandlet).Ok?
    requires (lx.mode == Shlex.Gap && lx.word == "") || (lx.mode == Shlex.InWord && (ws != [] ==> ws[0].gap != ""))
    ensures Shlex.Finish(Shlex.ReadAll(StageOutcome(ws, quote, store, commandlet).value.text, lx))
         == Ok(AtGap(lx).words + StageRead(ws, quote, store, commandlet))
  {
    var values := StageRead(ws, quote, store, commandlet);
    if ws == [] {
      assert AtGap(lx).words + values == AtGap(lx).words;
    } else {
      var gap, w, next := ws[0].gap, ws[0].word, AfterWord(quote, ws[0].word);
      var text := WordOutcome(w, quote, store, commandlet).value.text;
      var more := StageOutcome(ws[1..], next, store, commandlet).value.text;
      var value := WordRead(w, quote, store, commandlet);
      var between := AtGap(lx);
      var wordRead := between.(mode := Shlex.InWord, word := value);
      assert StageOutcome(ws, quote, store, commandlet).value.text == gap + (text + more);
      GapIsRead(gap, lx);
      Shlex.ReadAppend(gap, text + more, lx);
      WordIsRead(w, quote, store, commandlet, cc, between);
      Shlex.ReadAppend(text, more, between);
      StageIsRead(ws[1..], next, store, commandlet, cc, wordRead);
      Associative(between.words, [value], StageRead(ws[1..], next, store, commandlet));
    }
  }

  /** Before the first apostrophe nothing is inserted raw. */
  lemma {:induction false} PiecesReadValues(ps: seq<Piece>, quote: Quote, seen: bool, store: VarStore,
      commandlet: string)
    requires PiecesResolve(ps, store, commandlet) && Fits(quote, seen, true) && !Late(ps, seen)
    ensures RawIsPair(ps, quote, store, commandlet)
    ensures PiecesRead(ps, quote, store, commandlet) == PiecesValue(ps, store, commandlet)
  {
    if ps != [] {
      assert PieceResolves(ps[0], store, commandlet);
      if ps[0].Literal? {
        TextFits(quote, ps[0].text, seen);
      }
      PiecesReadValues(ps[1..], AfterPiece(quote, ps[0]), seen || HasApostrophe(ps[0]), store, commandlet);
    }
  }

  lemma {:induction false} StageReadValues(ws: seq<Gapped>, quote: Quote, seen: bool, store: VarStore,
      commandlet: string)
    requires StageResolves(ws, store, commandlet) && Fits(quote, seen, false) && !Late(AllPieces(ws), seen)
    ensures StageRawIsPair(ws, quote, store, commandlet)
    ensures StageRead(ws, quote, store, commandlet) == StageValues(ws, store, commandlet)
  {
    if ws != [] {
      var ps := if ws[0].word.Bare? then [] else ws[0].word.pieces;
      LateConcat(ps, AllPieces(ws[1..]), seen);
      WordFits(quote, ws[0].word, seen);
      if ws[0].word.Template? {
        PiecesReadValues(ps, AfterMark(quote), seen, store, commandlet);
      }
      StageReadValues(ws[1..], AfterWord(quote, ws[0].word), SeenAfter(ps, seen), store, commandlet);
    }
  }

  /** Unless a reference follows an apostrophe, expanding and then splitting gives exactly the words
      with the raw values in place; the number of words is the number of words written, and the audited
      names are those of the references in order. It fails exactly when a reference is unknown. */
  lemma ExpandThenSplit(ws: seq<Gapped>, store: VarStore, commandlet: string, cc: CharClass)
    requires cc.Sensible() && StageOk(ws, cc) && !ReferenceAfterApostrophe(AllPieces(ws))
    ensures var r := Expand(RenderStage(ws), START, store, commandlet, cc);
      && (r.Ok? <==> StageResolves(ws, store, commandlet))
      && (r.Ok? ==> Shlex.Split(r.value.text) == Ok(StageValues(ws, store, commandlet)))
      && (r.Ok? ==> r.value.names == StageNames(ws, store, commandlet))
  {
    LateMeans(AllPieces(ws), false);
    StageFits(Unquoted, ws, false);
    ExpandStage(ws, Unquoted, store, commandlet, cc);
    StageOutcomeOk(ws, Unquoted, store, commandlet);
    if StageResolves(ws, store, commandlet) {
      StageOutcomeNames(ws, Unquoted, store, commandlet);
      StageReadValues(ws, Unquoted, false, store, commandlet);
      StageIsRead(ws, Unquoted, store, commandlet, cc, Shlex.BEGIN);
      assert [] + StageValues(ws, store, commandlet) == StageValues(ws, store, commandlet);
    }
  }
}
