/** Expanding `$name` references in a command stage before it is tokenised. */
module Variables {
  import opened Results
  import opened Sequences
  import opened Text
  import opened QuoteScan
  import Shlex

  type VarStore = map<string, string>

  /** `str.isalpha` and `str.isalnum`, whatever the Unicode tables say, as far as ASCII
      punctuation and blanks are concerned. */
  datatype CharClass = CharClass(isAlpha: char -> bool, isAlnum: char -> bool) {
    ghost predicate Sensible() {
      && (forall c :: isAlpha(c) ==> isAlnum(c))
      && (forall c :: isAlnum(c) ==> !IsSpecial(c) && c != '$' && c != '{' && c != '}' && !Shlex.IsBlank(c))
    }

    predicate StartsName(c: char) {
      isAlpha(c) || c == '_'
    }

    predicate InName(c: char) {
      isAlnum(c) || c == '_'
    }
  }

  // ---------- references ----------

  /** A reference at the start of a text: its name and how many characters it takes. */
  datatype Reference = Reference(name: string, length: nat)

  /** The longest run of name characters at the start. */
  function NameRun(text: string, cc: CharClass): (r: string)
    ensures r <= text && (forall i :: 0 <= i < |r| ==> cc.InName(r[i]))
    ensures |r| < |text| ==> !cc.InName(text[|r|])
  {
    if text != "" && cc.InName(text[0]) then [text[0]] + NameRun(text[1..], cc) else ""
  }

  /** The index of the first `}`, or none. */
  function FindClose(text: string): (r: Option<nat>)
    ensures r.Some? ==> r.value < |text| && text[r.value] == '}' && '}' !in text[..r.value]
    ensures r.None? <==> '}' !in text
  {
    if text == "" then None
    else if text[0] == '}' then Some(0)
    else
      match FindClose(text[1..])
      case None => None
      case Some(i) =>
        assert text[..i + 1] == [text[0]] + text[1..][..i];
        Some(i + 1)
  }

  /** `parse_variable_reference`, on the text that starts with the dollar sign. */
  function ParseReference(text: string, cc: CharClass): (r: Result<Option<Reference>>)
    requires text != ""
    ensures r.Error? <==> |text| >= 2 && text[1] == '{' && ('}' !in text[2..] || text[2] == '}')
    ensures r == Ok(None) <==> |text| == 1 || (text[1] != '{' && !cc.StartsName(text[1]))
    ensures r.Ok? && r.value.Some? ==>
      var ref := r.value.value;
      && 2 <= ref.length <= |text| && ref.name != ""
      && if text[1] == '{' then '}' !in ref.name && text[2..ref.length] == ref.name + "}"
         else text[1..ref.length] == ref.name && (forall i :: 1 <= i < |ref.name| ==> cc.InName(ref.name[i]))
              && (ref.length < |text| ==> !cc.InName(text[ref.length]))
  {
    if |text| == 1 then Ok(None)
    else if text[1] == '{' then
      match FindClose(text[2..])
      case None => Error("unterminated variable reference")
      case Some(end) =>
        if end == 0 then Error("empty variable reference")
        else Ok(Some(Reference(text[2..2 + end], 3 + end)))
    else if !cc.StartsName(text[1]) then Ok(None)
    else
      var name := [text[1]] + NameRun(text[2..], cc);
      Ok(Some(Reference(name, 1 + |name|)))
  }

  datatype Resolved = Resolved(value: string, name: string)

  /** Exact name first; names without `/` and `.` then in the commandlet's and the global scope. */
  function Resolve(store: VarStore, commandlet: string, name: string): Result<Resolved> {
    var local, shared := commandlet + "." + name, "global." + name;
    if name in store then Ok(Resolved(store[name], name))
    else if '/' in name || '.' in name then Error("unknown variable: $" + name)
    else if local in store then Ok(Resolved(store[local], local))
    else if shared in store then Ok(Resolved(store[shared], shared))
    else Error("unknown variable: $" + name)
  }

  /** `value.replace(c, replacement)` for a single character. */
  function ReplaceChar(value: string, c: char, replacement: string): string {
    if value == "" then ""
    else (if value[0] == c then replacement else [value[0]]) + ReplaceChar(value[1..], c, replacement)
  }

  function EscapeDoubleQuotedValue(value: string): string {
    ReplaceChar(ReplaceChar(value, '\\', "\\\\"), '"', "\\\"")
  }

  // ---------- the expansion ----------

  datatype Expansion = Expansion(text: string, names: seq<string>)

  function Then(text: string, names: seq<string>, rest: Result<Expansion>): Result<Expansion> {
    match rest
    case Ok(e) => Ok(Expansion(text + e.text, names + e.names))
    case Error(message) => Error(message)
  }

  /** The expansion of `text` when the scan stands at its start in state `st`. */
  function Expand(text: string, st: State, store: VarStore, commandlet: string, cc: CharClass): Result<Expansion>
    decreases |text|
  {
    if text == "" then Ok(Expansion("", []))
    else
      var c := text[0];
      if st.escaped then Then([c], [], Expand(text[1..], st.(escaped := false), store, commandlet, cc))
      else if c == '\\' then Then([c], [], Expand(text[1..], st.(escaped := true), store, commandlet, cc))
      else if st.quote == Open('\'') then
        Then([c], [], Expand(text[1..], st.(quote := if c == '\'' then Unquoted else st.quote), store, commandlet, cc))
      else if c == '"' then
        var quote := if st.quote == Open('"') then Unquoted else Open('"');
        Then([c], [], Expand(text[1..], st.(quote := quote), store, commandlet, cc))
      else if c == '\'' then
        // Even inside double quotes.
        Then([c], [], Expand(text[1..], st.(quote := Open('\'')), store, commandlet, cc))
      else if c == '$' then
        match ParseReference(text, cc)
        case Error(message) => Error(message)
        case Ok(None) => Then([c], [], Expand(text[1..], st, store, commandlet, cc))
        case Ok(Some(ref)) =>
          match Resolve(store, commandlet, ref.name)
          case Error(message) => Error(message)
          case Ok(found) =>
            Then(Inserted(found.value, st), [found.name], Expand(text[ref.length..], st, store, commandlet, cc))
      else Then([c], [], Expand(text[1..], st, store, commandlet, cc))
  }

  /** How a value is written into the output. */
  function Inserted(value: string, st: State): string {
    if st.quote == Open('"') then EscapeDoubleQuotedValue(value) else value
  }

  function Concat(pieces: seq<string>): string {
    if pieces == [] then "" else Concat(pieces[..|pieces| - 1]) + pieces[|pieces| - 1]
  }

  /** Mutable state of one expansion pass. */
  class ExpansionScan {
    var output: seq<string>
    var expanded: seq<string>
    var quote: Quote
    var escaped: bool

    constructor ()
      ensures output == [] && expanded == [] && quote == Unquoted && !escaped
    {
      output, expanded, quote, escaped := [], [], Unquoted, false;
    }

    ghost function Scan(): State
      reads this
    {
      State(quote, escaped)
    }

    /** What the pass would finally return if `rest` is still to be read. */
    ghost function Outcome(rest: string, store: VarStore, commandlet: string, cc: CharClass): Result<Expansion>
      reads this
    {
      Then(Concat(output), expanded, Expand(rest, Scan(), store, commandlet, cc))
    }

    method ConsumeEscapedChar(c: char)
      modifies this
      ensures output == old(output) + [[c]] && expanded == old(expanded) && quote == old(quote) && !escaped
    {
      output := output + [[c]];
      escaped := false;
    }

    method BeginEscape(c: char)
      modifies this
      ensures output == old(output) + [[c]] && expanded == old(expanded) && quote == old(quote) && escaped
    {
      output := output + [[c]];
      escaped := true;
    }

    method ConsumeSingleQuotedChar(c: char)
      modifies this
      ensures output == old(output) + [[c]] && expanded == old(expanded) && escaped == old(escaped)
      ensures quote == if c == '\'' then Unquoted else old(quote)
    {
      output := output + [[c]];
      if c == '\'' {
        quote := Unquoted;
      }
    }

    method ToggleDoubleQuote(c: char)
      modifies this
      ensures output == old(output) + [[c]] && expanded == old(expanded) && escaped == old(escaped)
      ensures quote == if old(quote) == Open('"') then Unquoted else Open('"')
    {
      output := output + [[c]];
      quote := if quote == Open('"') then Unquoted else Open('"');
    }

    method BeginSingleQuote(c: char)
      modifies this
      ensures output == old(output) + [[c]] && expanded == old(expanded) && escaped == old(escaped)
      ensures quote == Open('\'')
    {
      output := output + [[c]];
      quote := Open('\'');
    }

    /** A reference adds its value and its resolved name; a bare dollar sign is copied; a raised
        error leaves the scan as it was. */
    method ConsumeVariableReference(text: string, index: nat, store: VarStore, commandlet: string, cc: CharClass)
      returns (r: Result<nat>)
      requires index < |text| && text[index] == '$'
      modifies this
      ensures quote == old(quote) && escaped == old(escaped)
      ensures match ParseReference(text[index..], cc)
        case Error(message) => r == Error(message) && output == old(output) && expanded == old(expanded)
        case Ok(None) => r == Ok(index + 1) && output == old(output) + ["$"] && expanded == old(expanded)
        case Ok(Some(ref)) =>
          match Resolve(store, commandlet, ref.name)
          case Error(message) => r == Error(message) && output == old(output) && expanded == old(expanded)
          case Ok(found) =>
            && r == Ok(index + ref.length)
            && output == old(output) + [Inserted(found.value, old(Scan()))]
            && expanded == old(expanded) + [found.name]
    {
      var parsed := ParseReference(text[index..], cc);
      match parsed {
        case Error(message) => r := Error(message);
        case Ok(None) =>
          output := output + [[text[index]]];
          r := Ok(index + 1);
        case Ok(Some(ref)) =>
          var found := Resolve(store, commandlet, ref.name);
          match found {
            case Error(message) => r := Error(message);
            case Ok(f) =>
              var replacement := if quote == Open('"') then EscapeDoubleQuotedValue(f.value) else f.value;
              output := output + [replacement];
              expanded := expanded + [f.name];
              r := Ok(index + ref.length);
          }
      }
    }

    /** One turn of the scan keeps the outcome of the whole pass. */
    method ConsumeScanChar(text: string, index: nat, store: VarStore, commandlet: string, cc: CharClass)
      returns (r: Result<nat>)
      requires index < |text|
      modifies this
      ensures r.Ok? ==> index < r.value <= |text|
      ensures r.Ok? ==>
        Outcome(text[r.value..], store, commandlet, cc) == old(Outcome(text[index..], store, commandlet, cc))
      ensures r.Error? ==> old(Outcome(text[index..], store, commandlet, cc)) == Error(r.message)
    {
      var c := text[index];
      ghost var rest := text[index..];
      assert rest[0] == c && rest[1..] == text[index + 1..];
      if escaped {
        ConsumeEscapedChar(c);
        r := Ok(index + 1);
      } else if c == '\\' {
        BeginEscape(c);
        r := Ok(index + 1);
      } else if quote == Open('\'') {
        ConsumeSingleQuotedChar(c);
        r := Ok(index + 1);
      } else if c == '"' {
        ToggleDoubleQuote(c);
        r := Ok(index + 1);
      } else if c == '\'' {
        BeginSingleQuote(c);
        r := Ok(index + 1);
      } else if c == '$' {
        r := ConsumeVariableReference(text, index, store, commandlet, cc);
      } else {
        output := output + [[c]];
        r := Ok(index + 1);
      }
      if r.Ok? {
        assert text[r.value..] == rest[r.value - index..];
        ghost var added := if |expanded| == |old(expanded)| then [] else [expanded[|expanded| - 1]];
        assert expanded == old(expanded) + added;
        OutputGrows(old(output), output[|output| - 1], old(expanded), added,
                    Expand(text[r.value..], Scan(), store, commandlet, cc));
        assert output == old(output) + [output[|output| - 1]];
      }
    }
  }

  lemma OutputGrows(output: seq<string>, piece: string, names: seq<string>, added: seq<string>, rest: Result<Expansion>)
    ensures Then(Concat(output + [piece]), names + added, rest) == Then(Concat(output), names, Then(piece, added, rest))
  {
    assert (output + [piece])[..|output|] == output;
    if rest.Ok? {
      Associative(Concat(output), piece, rest.value.text);
      Associative(names, added, rest.value.names);
    }
  }

  method ExpandVariablesInText(text: string, store: VarStore, commandlet: string, cc: CharClass)
    returns (r: Result<Expansion>)
    ensures match Expand(text, START, store, commandlet, cc)
      case Error(message) => r == Error(message)
      case Ok(e) => r == Ok(Expansion(e.text, Distinct(e.names)))
  {
    var scan := new ExpansionScan();
    var index := 0;
    assert text[0..] == text;
    ghost var whole := Expand(text, START, store, commandlet, cc);
    assert scan.Outcome(text, store, commandlet, cc) == whole by {
      if whole.Ok? {
        assert "" + whole.value.text == whole.value.text && [] + whole.value.names == whole.value.names;
      }
    }
    while index < |text|
      invariant 0 <= index <= |text|
      invariant fresh(scan)
      invariant scan.Outcome(text[index..], store, commandlet, cc) == whole
    {
      var next := scan.ConsumeScanChar(text, index, store, commandlet, cc);
      if next.Error? {
        return Error(next.message);
      }
      index := next.value;
    }
    assert text[index..] == "";
    assert Concat(scan.output) + "" == Concat(scan.output) && scan.expanded + [] == scan.expanded;
    return Ok(Expansion(Concat(scan.output), Distinct(scan.expanded)));
  }
}
