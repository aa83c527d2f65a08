/** What comment stripping recognises, as a grammar: quoted stretches without escapes, `\#` outside them,
    and the first other hash outside them, which begins the comment. */
module CommentGrammar {
  import opened QuoteScan
  import opened CommandSequence

  datatype Piece = Kept(c: char) | Hash | Quoted(mark: char, body: string)

  function PieceText(p: Piece): string {
    match p
    case Kept(c) => [c]
    case Hash => "\\#"
    case Quoted(mark, body) => [mark] + body + [mark]
  }

  function PieceValue(p: Piece): string {
    match p
    case Kept(c) => [c]
    case Hash => "#"
    case Quoted(mark, body) => [mark] + body + [mark]
  }

  predicate PieceOk(p: Piece) {
    match p
    case Kept(c) => c != '\'' && c != '"' && c != '#'
    case Hash => true
    case Quoted(mark, body) => (mark == '\'' || mark == '"') && mark !in body
  }

  function LineText(pieces: seq<Piece>, tail: string): string {
    if pieces == [] then tail else PieceText(pieces[0]) + LineText(pieces[1..], tail)
  }

  function Stripped(pieces: seq<Piece>, tail: string): string {
    if pieces == [] then (if tail != "" && tail[0] == '#' then "" else tail)
    else PieceValue(pieces[0]) + Stripped(pieces[1..], tail)
  }

  /** Nothing, a comment, or a quoted stretch that is not closed. */
  predicate IsTail(tail: string) {
    tail == "" || tail[0] == '#' || ((tail[0] == '\'' || tail[0] == '"') && tail[0] !in tail[1..])
  }

  /** No kept backslash stands before the comment. */
  predicate IsLine(pieces: seq<Piece>, tail: string) {
    && IsTail(tail)
    && (forall i :: 0 <= i < |pieces| ==> PieceOk(pieces[i]))
    && (pieces != [] && pieces[|pieces| - 1] == Kept('\\') ==> tail == "" || tail[0] != '#')
  }

  lemma {:induction false} QuotedIsKept(mark: char, body: string, rest: string)
    requires (mark == '\'' || mark == '"') && mark !in body
    ensures WithoutComment(body + ([mark] + rest), Open(mark)) == body + ([mark] + WithoutComment(rest, Unquoted))
  {
    var line := body + ([mark] + rest);
    if body == "" {
      assert line[0] == mark && line[1..] == rest;
    } else {
      assert line[0] == body[0] && line[1..] == body[1..] + ([mark] + rest);
      QuotedIsKept(mark, body[1..], rest);
      assert body == [body[0]] + body[1..];
    }
  }

  lemma {:induction false} OpenIsKept(mark: char, body: string)
    requires (mark == '\'' || mark == '"') && mark !in body
    ensures WithoutComment(body, Open(mark)) == body
  {
    if body != "" {
      OpenIsKept(mark, body[1..]);
    }
  }

  lemma {:induction false} StretchIsKept(mark: char, body: string, rest: string)
    requires (mark == '\'' || mark == '"') && mark !in body
    ensures WithoutComment([mark] + body + [mark] + rest, Unquoted)
         == [mark] + body + [mark] + WithoutComment(rest, Unquoted)
  {
    var line, after := [mark] + body + [mark] + rest, body + ([mark] + rest);
    assert line[0] == mark && line[1..] == after;
    QuotedIsKept(mark, body, rest);
    assert WithoutComment(line, Unquoted) == [mark] + WithoutComment(after, Open(mark));
    assert forall w: string :: [mark] + (body + ([mark] + w)) == [mark] + body + [mark] + w;
  }

  lemma {:induction false} PieceIsStripped(p: Piece, rest: string)
    requires PieceOk(p) && (p == Kept('\\') ==> rest == "" || rest[0] != '#')
    ensures WithoutComment(PieceText(p) + rest, Unquoted) == PieceValue(p) + WithoutComment(rest, Unquoted)
  {
    match p
    case Kept(c) =>
      assert ([c] + rest)[1..] == rest;
    case Hash =>
      assert ("\\#" + rest)[2..] == rest;
    case Quoted(mark, body) =>
      StretchIsKept(mark, body, rest);
  }

  lemma {:induction false} TailIsStripped(tail: string)
    requires IsTail(tail)
    ensures WithoutComment(tail, Unquoted) == Stripped([], tail)
  {
    if tail != "" && tail[0] != '#' {
      OpenIsKept(tail[0], tail[1..]);
    }
  }

  /** A line is read piece by piece: pieces keep their text, `\#` becomes `#`, and a comment is dropped. */
  lemma {:induction false} CommentIsStripped(pieces: seq<Piece>, tail: string)
    requires IsLine(pieces, tail)
    ensures WithoutComment(LineText(pieces, tail), Unquoted) == Stripped(pieces, tail)
  {
    if pieces == [] {
      TailIsStripped(tail);
    } else {
      var rest := LineText(pieces[1..], tail);
      CommentIsStripped(pieces[1..], tail);
      assert rest == "" || rest[0] != '#' || pieces[1..] == [];
      PieceIsStripped(pieces[0], rest);
    }
  }

  /** Every line can be read so. */
  lemma {:induction false} EveryLineIsRead(line: string) returns (pieces: seq<Piece>, tail: string)
    ensures IsLine(pieces, tail) && LineText(pieces, tail) == line
    decreases |line|
  {
    if IsTail(line) {
      pieces, tail := [], line;
    } else {
      var p, rest := FirstPiece(line);
      var more;
      more, tail := EveryLineIsRead(rest);
      pieces := [p] + more;
      assert pieces[1..] == more;
    }
  }

  lemma {:induction false} FirstPiece(line: string) returns (p: Piece, rest: string)
    requires !IsTail(line)
    ensures PieceOk(p) && line == PieceText(p) + rest && |rest| < |line|
    ensures p == Kept('\\') ==> rest == "" || rest[0] != '#'
  {
    if line[0] == '\'' || line[0] == '"' {
      var i := FirstOf(line[0], line[1..]);
      p, rest := Quoted(line[0], line[1..][..i]), line[1..][i + 1..];
      assert line == [line[0]] + line[1..][..i] + [line[0]] + rest;
    } else if |line| >= 2 && line[0] == '\\' && line[1] == '#' {
      p, rest := Hash, line[2..];
    } else {
      p, rest := Kept(line[0]), line[1..];
    }
  }

  lemma {:induction false} FirstOf(c: char, s: string) returns (i: nat)
    requires c in s
    ensures i < |s| && s[i] == c && c !in s[..i]
  {
    if s[0] == c {
      i := 0;
    } else {
      var k := FirstOf(c, s[1..]);
      i := k + 1;
      assert s[..i] == [s[0]] + s[1..][..k];
    }
  }
}
