/** Where templates stop working: for every stage with a reference after an apostrophe there are values
    that do not arrive whole. */
module TemplateLimits {
  import opened Results
  import opened Text
  import opened QuoteScan
  import opened Variables
  import opened Templates
  import Shlex

  // ---------- a copied reference leaves its dollar sign ----------

  ghost predicate KeepsDollar(r: Result<Expansion>) {
    r.Ok? ==> '$' in r.value.text
  }

  lemma ThenKeepsDollar(text: string, names: seq<string>, rest: Result<Expansion>)
    requires '$' in text || KeepsDollar(rest)
    ensures KeepsDollar(Then(text, names, rest))
  {
  }

  lemma {:induction false} CopiedReference(p: Piece, more: string, store: VarStore, commandlet: string, cc: CharClass)
    requires cc.Sensible() && p.Ref?
    ensures KeepsDollar(Expand(RenderPiece(p) + more, State(Open('\''), false), store, commandlet, cc))
  {
    var text := RenderPiece(p) + more;
    assert text[0] == '$';
    ThenKeepsDollar("$", [], Expand(text[1..], State(Open('\''), false), store, commandlet, cc));
  }

  lemma {:induction false} CopiedPieces(
      ps: seq<Piece>, rest: string, quote: Quote, store: VarStore, commandlet: string, cc: CharClass)
    requires cc.Sensible() && PiecesOk(ps, cc) && rest != "" && rest[0] == '"' && Copied(quote, ps)
    ensures KeepsDollar(Expand(RenderPieces(ps) + rest, State(quote, false), store, commandlet, cc))
    decreases |ps|
  {
    var more := RenderPieces(ps[1..]) + rest;
    Associative(RenderPiece(ps[0]), RenderPieces(ps[1..]), rest);
    if ps[0].Ref? && quote == Open('\'') {
      CopiedReference(ps[0], more, store, commandlet, cc);
    } else {
      ExpandPiece(ps[0], more, quote, store, commandlet, cc);
      CopiedPieces(ps[1..], rest, AfterPiece(quote, ps[0]), store, commandlet, cc);
    }
  }

  lemma CopiedWord(w: Word, rest: string, quote: Quote, store: VarStore, commandlet: string, cc: CharClass)
    requires cc.Sensible() && WordOk(w, cc) && WordCopied(quote, w)
    ensures KeepsDollar(Expand(RenderWord(w) + rest, State(quote, false), store, commandlet, cc))
  {
    var inside := RenderPieces(w.pieces) + ("\"" + rest);
    assert RenderWord(w) + rest == "\"" + inside;
    ExpandMark(inside, quote, store, commandlet, cc);
    CopiedPieces(w.pieces, "\"" + rest, AfterMark(quote), store, commandlet, cc);
  }

  lemma {:induction false} CopiedStage(ws: seq<Gapped>, quote: Quote, store: VarStore, commandlet: string,
      cc: CharClass)
    requires cc.Sensible() && StageOk(ws, cc) && StageCopied(quote, ws)
    ensures KeepsDollar(Expand(RenderStage(ws), State(quote, false), store, commandlet, cc))
    decreases |ws|
  {
    var w, rest := ws[0].word, RenderStage(ws[1..]);
    ExpandGap(ws[0].gap, RenderWord(w) + rest, quote, store, commandlet, cc);
    if WordCopied(quote, w) {
      CopiedWord(w, rest, quote, store, commandlet, cc);
    } else {
      ExpandWord(w, rest, quote, store, commandlet, cc);
      CopiedStage(ws[1..], AfterWord(quote, w), store, commandlet, cc);
    }
  }

  // ---------- a store that shows it ----------

  function Names(ps: seq<Piece>): set<string> {
    set p | p in ps && p.Ref? :: p.name
  }

  /** Every variable of the stage has the value of two backslashes. */
  function PairStore(ws: seq<Gapped>): VarStore {
    map name | name in Names(AllPieces(ws)) :: PAIR
  }

  ghost predicate AllPairs(ps: seq<Piece>, store: VarStore) {
    forall p :: p in ps && p.Ref? ==> p.name in store && store[p.name] == PAIR
  }

  lemma {:induction false} PairPieces(ps: seq<Piece>, quote: Quote, store: VarStore, commandlet: string)
    requires AllPairs(ps, store)
    ensures PiecesResolve(ps, store, commandlet) && RawIsPair(ps, quote, store, commandlet)
    decreases |ps|
  {
    if ps != [] {
      assert ps[0] in ps && forall p :: p in ps[1..] ==> p in ps;
      PairPieces(ps[1..], AfterPiece(quote, ps[0]), store, commandlet);
    }
  }

  lemma {:induction false} PairStage(ws: seq<Gapped>, quote: Quote, store: VarStore, commandlet: string)
    requires AllPairs(AllPieces(ws), store)
    ensures StageResolves(ws, store, commandlet) && StageRawIsPair(ws, quote, store, commandlet)
    decreases |ws|
  {
    if ws != [] {
      var ps := if ws[0].word.Bare? then [] else ws[0].word.pieces;
      assert forall p :: p in ps || p in AllPieces(ws[1..]) ==> p in AllPieces(ws);
      PairPieces(ps, AfterMark(quote), store, commandlet);
      PairStage(ws[1..], AfterWord(quote, ws[0].word), store, commandlet);
      assert ws == [ws[0]] + ws[1..];
    }
  }

  // ---------- what is lost ----------

  function TotalLength(words: seq<string>): nat {
    if words == [] then 0 else |words[0]| + TotalLength(words[1..])
  }

  /** A late reference that is not copied reads as one backslash instead of two. */
  lemma {:induction false} PiecesLoseText(ps: seq<Piece>, quote: Quote, seen: bool, store: VarStore, commandlet: string)
    requires AllPairs(ps, store) && PiecesResolve(ps, store, commandlet) && Fits(quote, seen, true)
    ensures var read, value := PiecesRead(ps, quote, store, commandlet), PiecesValue(ps, store, commandlet);
      |read| <= |value| && (Late(ps, seen) ==> |read| < |value|)
    decreases |ps|
  {
    if ps != [] {
      assert ps[0] in ps && forall p :: p in ps[1..] ==> p in ps;
      assert PieceResolves(ps[0], store, commandlet);
      if ps[0].Literal? {
        TextFits(quote, ps[0].text, seen);
      }
      PiecesLoseText(ps[1..], AfterPiece(quote, ps[0]), seen || HasApostrophe(ps[0]), store, commandlet);
    }
  }

  lemma {:induction false} StageLosesText(ws: seq<Gapped>, quote: Quote, seen: bool, store: VarStore,
      commandlet: string)
    requires AllPairs(AllPieces(ws), store) && StageResolves(ws, store, commandlet) && Fits(quote, seen, false)
    ensures var read, values := StageRead(ws, quote, store, commandlet), StageValues(ws, store, commandlet);
      TotalLength(read) <= TotalLength(values) &&
        (Late(AllPieces(ws), seen) ==> TotalLength(read) < TotalLength(values))
    decreases |ws|
  {
    if ws != [] {
      var ps := if ws[0].word.Bare? then [] else ws[0].word.pieces;
      assert forall p :: p in ps || p in AllPieces(ws[1..]) ==> p in AllPieces(ws);
      LateConcat(ps, AllPieces(ws[1..]), seen);
      WordFits(quote, ws[0].word, seen);
      if ws[0].word.Template? {
        PiecesLoseText(ps, AfterMark(quote), seen, store, commandlet);
      }
      StageLosesText(ws[1..], AfterWord(quote, ws[0].word), SeenAfter(ps, seen), store, commandlet);
    }
  }

  lemma {:induction false} PiecesHaveNoDollar(ps: seq<Piece>, store: VarStore, commandlet: string, cc: CharClass)
    requires PiecesOk(ps, cc) && AllPairs(ps, store) && PiecesResolve(ps, store, commandlet)
    ensures '$' !in PiecesValue(ps, store, commandlet)
  {
    if ps != [] {
      assert ps[0] in ps && forall p :: p in ps[1..] ==> p in ps;
      assert PieceResolves(ps[0], store, commandlet);
      PiecesHaveNoDollar(ps[1..], store, commandlet, cc);
    }
  }

  lemma {:induction false} StageHasNoDollar(ws: seq<Gapped>, store: VarStore, commandlet: string, cc: CharClass)
    requires StageOk(ws, cc) && AllPairs(AllPieces(ws), store) && StageResolves(ws, store, commandlet)
    ensures forall v :: v in StageValues(ws, store, commandlet) ==> '$' !in v
  {
    if ws != [] {
      var ps := if ws[0].word.Bare? then [] else ws[0].word.pieces;
      assert forall p :: p in ps || p in AllPieces(ws[1..]) ==> p in AllPieces(ws);
      if ws[0].word.Template? {
        PiecesHaveNoDollar(ps, store, commandlet, cc);
      }
      StageHasNoDollar(ws[1..], store, commandlet, cc);
    }
  }

  // ---------- exactly when values arrive whole ----------

  /** Expanding and splitting gives exactly the words with the raw values in place. */
  ghost predicate ArrivesWhole(ws: seq<Gapped>, store: VarStore, commandlet: string, cc: CharClass)
    requires StageResolves(ws, store, commandlet)
  {
    var r := Expand(RenderStage(ws), START, store, commandlet, cc);
    r.Ok? && Shlex.Split(r.value.text) == Ok(StageValues(ws, store, commandlet))
  }

  lemma PairsDoNotArrive(ws: seq<Gapped>, commandlet: string, cc: CharClass)
    requires cc.Sensible() && StageOk(ws, cc) && Late(AllPieces(ws), false)
    ensures StageResolves(ws, PairStore(ws), commandlet) && !ArrivesWhole(ws, PairStore(ws), commandlet, cc)
  {
    var store := PairStore(ws);
    var r := Expand(RenderStage(ws), START, store, commandlet, cc);
    PairStage(ws, Unquoted, store, commandlet);
    if StageCopied(Unquoted, ws) {
      CopiedStage(ws, Unquoted, store, commandlet, cc);
      StageHasNoDollar(ws, store, commandlet, cc);
      if r.Ok? {
        Shlex.SplitCarries(r.value.text, '$');
      }
    } else {
      ExpandStage(ws, Unquoted, store, commandlet, cc);
      StageOutcomeOk(ws, Unquoted, store, commandlet);
      StageIsRead(ws, Unquoted, store, commandlet, cc, Shlex.BEGIN);
      StageLosesText(ws, Unquoted, false, store, commandlet);
      assert [] + StageRead(ws, Unquoted, store, commandlet) == StageRead(ws, Unquoted, store, commandlet);
    }
  }

  /** Whatever the values are, they arrive whole: that is so exactly for the stages in which no
      reference follows an apostrophe. */
  lemma ValuesArriveWholeExactly(ws: seq<Gapped>, commandlet: string, cc: CharClass)
    requires cc.Sensible() && StageOk(ws, cc)
    ensures (forall store: VarStore :: StageResolves(ws, store, commandlet) ==> ArrivesWhole(ws, store, commandlet, cc))
       <==> !ReferenceAfterApostrophe(AllPieces(ws))
  {
    LateMeans(AllPieces(ws), false);
    if ReferenceAfterApostrophe(AllPieces(ws)) {
      PairsDoNotArrive(ws, commandlet, cc);
    } else {
      forall store: VarStore | StageResolves(ws, store, commandlet)
        ensures ArrivesWhole(ws, store, commandlet, cc)
      {
        ExpandThenSplit(ws, store, commandlet, cc);
      }
    }
  }

  // ---------- the two ways to go wrong ----------

  /** After one apostrophe nothing is expanded: the scanner takes it for the start of a single-quoted
      span. */
  lemma ApostropheSuppressesExpansion(head: string, tail: string, store: VarStore, commandlet: string, cc: CharClass)
    requires IsPlainText(head) && '\'' !in head && '\'' !in tail && '\\' !in tail
    ensures var text := "\"" + (head + ("'" + tail));
      Expand(text, START, store, commandlet, cc) == Ok(Expansion(text, []))
  {
    ExpandMark(head + ("'" + tail), Unquoted, store, commandlet, cc);
    ExpandPlain(head, "'" + tail, Open('"'), store, commandlet, cc);
    TextWithoutApostrophe(Open('"'), head);
    assert ("'" + tail)[1..] == tail;
    SingleQuotedIsCopied(tail, store, commandlet, cc);
    assert NO_NAMES + NO_NAMES == NO_NAMES;
  }

  lemma {:induction false} SingleQuotedIsCopied(s: string, store: VarStore, commandlet: string, cc: CharClass)
    requires '\'' !in s && '\\' !in s
    ensures Expand(s, State(Open('\''), false), store, commandlet, cc) == Ok(Expansion(s, []))
  {
    if s != "" {
      SingleQuotedIsCopied(s[1..], store, commandlet, cc);
      assert [s[0]] + s[1..] == s && NO_NAMES + NO_NAMES == NO_NAMES;
    }
  }

  /** After two apostrophes a value is inserted raw, inside double quotes: a value with two double
      quotes around a blank ends the word and starts another. */
  lemma SecondApostropheInsertsRaw(p: string, q: string, commandlet: string, cc: CharClass)
    requires cc.Sensible() && cc.StartsName('x') && IsPlainText(p) && IsPlainText(q)
    ensures var value := p + ("\"" + (" " + ("\"" + q)));
      var r := Expand("\"" + ("''" + ("$x" + "\"")), START, map["x" := value], commandlet, cc);
      && r == Ok(Expansion("\"" + ("''" + (value + "\"")), ["x"]))
      && Shlex.Split(r.value.text) == Ok(["''" + p, q])
  {
    var value := p + ("\"" + (" " + ("\"" + q)));
    RawInsertion(value, commandlet, cc);
    TwoWordsAreRead(p, q);
  }

  lemma RawInsertion(value: string, commandlet: string, cc: CharClass)
    requires cc.Sensible() && cc.StartsName('x')
    ensures Expand("\"" + ("''" + ("$x" + "\"")), START, map["x" := value], commandlet, cc)
         == Ok(Expansion("\"" + ("''" + (value + "\"")), ["x"]))
  {
    var store, mark: string, reference := map["x" := value], "\"", "$x";
    ExpandMark("''" + (reference + mark), Unquoted, store, commandlet, cc);
    ExpandPlain("''", reference + mark, Open('"'), store, commandlet, cc);
    TwoApostrophes();
    ExpandPiece(Ref("x", false), mark, Unquoted, store, commandlet, cc);
    assert RenderPiece(Ref("x", false)) == reference;
    LastMark(store, commandlet, cc);
    RawChain(value, mark);
  }

  lemma TwoApostrophes()
    ensures AfterText(Open('"'), "''") == Unquoted
  {
    assert "''"[1..] == "'" && "'"[1..] == "";
  }

  lemma LastMark(store: VarStore, commandlet: string, cc: CharClass)
    ensures Expand("\"", State(Unquoted, false), store, commandlet, cc) == Ok(Expansion("\"", []))
  {
    assert "\""[1..] == "" && "\"" + "" == "\"" && NO_NAMES + NO_NAMES == NO_NAMES;
  }

  lemma RawChain(value: string, mark: string)
    ensures Then("\"", [], Then("''", [], Chain(Ok(Expansion(value, ["x"])), Ok(Expansion(mark, [])))))
         == Ok(Expansion("\"" + ("''" + (value + mark)), ["x"]))
  {
    assert NO_NAMES + (NO_NAMES + (["x"] + NO_NAMES)) == ["x"];
  }

  lemma TwoWordsText(p: string, rest: string)
    ensures "\"" + ("''" + (p + ("\"" + (" " + ("\"" + rest))) + "\""))
         == ['"'] + (("''" + p) + (['"'] + ([' '] + (['"'] + (rest + "\"")))))
  {
  }

  lemma TwoWordsAreRead(p: string, q: string)
    requires IsPlainText(p) && IsPlainText(q)
    ensures Shlex.Split("\"" + ("''" + (p + ("\"" + (" " + ("\"" + q))) + "\""))) == Ok(["''" + p, q])
  {
    var inDouble := Shlex.BEGIN.(mode := Shlex.InDouble);
    var second := ['"'] + (q + "\"");
    var head := "''" + p;
    TwoWordsText(p, q);
    FirstWordIsRead(head, second, inDouble);
    SecondWordIsRead(head, q);
  }

  lemma FirstWordIsRead(head: string, second: string, inDouble: Shlex.Lexer)
    requires IsPlainText(head) && inDouble == Shlex.BEGIN.(mode := Shlex.InDouble)
    ensures Shlex.ReadAll(['"'] + (head + (['"'] + ([' '] + second))), Shlex.BEGIN)
         == Shlex.ReadAll(second, Shlex.Lexer(Shlex.Gap, "", [head]))
  {
    var gap := [' '] + second;
    Shlex.ReadOne('"', head + (['"'] + gap), Shlex.BEGIN);
    PlainIsRead(head, inDouble);
    Shlex.ReadAppend(head, ['"'] + gap, inDouble);
    assert inDouble.word + head == head;
    Shlex.ReadOne('"', gap, inDouble.(word := head));
    Shlex.ReadOne(' ', second, inDouble.(mode := Shlex.InWord, word := head));
    assert [] + [head] == [head];
  }

  lemma SecondWordIsRead(first: string, q: string)
    requires IsPlainText(q)
    ensures Shlex.Finish(Shlex.ReadAll(['"'] + (q + "\""), Shlex.Lexer(Shlex.Gap, "", [first]))) == Ok([first, q])
  {
    var next := Shlex.Lexer(Shlex.Gap, "", [first]);
    Shlex.ReadOne('"', q + "\"", next);
    PlainIsRead(q, next.(mode := Shlex.InDouble));
    Shlex.ReadAppend(q, "\"", next.(mode := Shlex.InDouble));
    assert "" + q == q && ['"'] + "" == "\"" && [first] + [q] == [first, q];
    Shlex.ReadOne('"', "", next.(mode := Shlex.InDouble, word := q));
  }
}
