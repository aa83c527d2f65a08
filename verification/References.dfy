/** What the `$name` references of a stage stand for: the first present of a few candidates, and
    nothing else in the store matters. */
module References {
  import opened QuoteScan
  import opened Results
  import opened Templates
  import opened Text
  import opened Variables

  // ---------- candidates ----------

  /** Where a name is looked up, in order. */
  function Candidates(name: string, commandlet: string): seq<string> {
    if (exists i :: 0 <= i < |name| && (name[i] == '/' || name[i] == '.')) then [name]
    else [name, commandlet + "." + name, "global." + name]
  }

  /** The candidate at `i` is the first one in the store. */
  ghost predicate IsFirst(store: VarStore, candidates: seq<string>, i: int) {
    0 <= i < |candidates| && candidates[i] in store && forall j :: 0 <= j < i ==> candidates[j] !in store
  }

  ghost predicate NonePresent(store: VarStore, candidates: seq<string>) {
    forall j :: 0 <= j < |candidates| ==> candidates[j] !in store
  }

  lemma ResolveIsFirst(store: VarStore, commandlet: string, name: string)
    ensures var cs := Candidates(name, commandlet);
      && (forall i :: IsFirst(store, cs, i) ==> Resolve(store, commandlet, name) == Ok(Resolved(store[cs[i]], cs[i])))
      && (NonePresent(store, cs) ==> Resolve(store, commandlet, name) == Error("unknown variable: $" + name))
  {
    var cs := Candidates(name, commandlet);
    assert '/' in name || '.' in name <==> exists i :: 0 <= i < |name| && (name[i] == '/' || name[i] == '.');
    assert cs[0] == name && (|cs| == 1 || (cs[1] == commandlet + "." + name && cs[2] == "global." + name));
    forall i | IsFirst(store, cs, i)
      ensures Resolve(store, commandlet, name) == Ok(Resolved(store[cs[i]], cs[i]))
    {
      assert i > 0 ==> cs[0] !in store;
      assert i > 1 ==> cs[1] !in store;
    }
  }

  lemma SomeFirst(store: VarStore, candidates: seq<string>) returns (i: nat)
    ensures IsFirst(store, candidates, i) || NonePresent(store, candidates)
  {
    i := 0;
    while i < |candidates| && candidates[i] !in store
      invariant i <= |candidates| && forall j :: 0 <= j < i ==> candidates[j] !in store
    {
      i := i + 1;
    }
  }

  // ---------- how a reference is written ----------

  predicate IsNameCharacter(c: char, cc: CharClass) {
    c == '_' || cc.isAlnum(c)
  }

  /** A letter or underscore, then letters, digits and underscores. */
  predicate IsName(name: string, cc: CharClass) {
    && name != "" && (name[0] == '_' || cc.isAlpha(name[0]))
    && forall i :: 1 <= i < |name| ==> IsNameCharacter(name[i], cc)
  }

  lemma {:induction false} NameRunIs(run: string, rest: string, cc: CharClass)
    requires forall i :: 0 <= i < |run| ==> IsNameCharacter(run[i], cc)
    requires rest == "" || !IsNameCharacter(rest[0], cc)
    ensures NameRun(run + rest, cc) == run
  {
    if run == "" {
      assert run + rest == rest;
    } else {
      assert (run + rest)[0] == run[0] && (run + rest)[1..] == run[1..] + rest;
      NameRunIs(run[1..], rest, cc);
    }
  }

  /** A dollar sign refers to the longest name that follows it. */
  lemma {:induction false} PlainReference(name: string, rest: string, cc: CharClass)
    requires IsName(name, cc) && (rest == "" || !IsNameCharacter(rest[0], cc))
    requires cc.Sensible()
    ensures ParseReference(['$'] + (name + rest), cc) == Ok(Some(Reference(name, 1 + |name|)))
  {
    var text := ['$'] + (name + rest);
    assert text[1] == name[0] && text[2..] == name[1..] + rest;
    NameRunIs(name[1..], rest, cc);
    assert name == [name[0]] + name[1..];
  }

  /** Without a name or a brace behind it, it refers to nothing. */
  lemma {:induction false} NoReference(rest: string, cc: CharClass)
    requires rest == "" || (rest[0] != '{' && rest[0] != '_' && !cc.isAlpha(rest[0]))
    ensures ParseReference(['$'] + rest, cc) == Ok(None)
  {
    assert rest != "" ==> (['$'] + rest)[1] == rest[0];
  }

  lemma {:induction false} CloseIs(name: string, rest: string)
    requires '}' !in name
    ensures FindClose(name + (['}'] + rest)) == Some(|name|)
  {
    var text := name + (['}'] + rest);
    if name != "" {
      assert text[0] == name[0] && text[1..] == name[1..] + (['}'] + rest);
      CloseIs(name[1..], rest);
    }
  }

  /** Braces hold any name but the empty one, up to the first closing brace. */
  lemma {:induction false} BracedReference(name: string, rest: string, cc: CharClass)
    requires '}' !in name
    ensures ParseReference("${" + (name + (['}'] + rest)), cc) ==
      if name == "" then Error("empty variable reference") else Ok(Some(Reference(name, 3 + |name|)))
  {
    BraceSlices(name, ['}'] + rest);
    CloseIs(name, rest);
    BracesAreRead("${" + (name + (['}'] + rest)), name, cc);
  }

  lemma {:induction false} BraceSlices(name: string, more: string)
    ensures var text := "${" + (name + more);
      |text| >= 2 + |name| && text[1] == '{' && text[2..] == name + more && text[2..2 + |name|] == name
  {
  }

  lemma {:induction false} BracesAreRead(text: string, name: string, cc: CharClass)
    requires |text| >= 2 + |name| && text[1] == '{' && FindClose(text[2..]) == Some(|name|)
    requires text[2..2 + |name|] == name
    ensures ParseReference(text, cc) ==
      if name == "" then Error("empty variable reference") else Ok(Some(Reference(name, 3 + |name|)))
  {
  }

  /** Braces that are not closed are an error. */
  lemma {:induction false} OpenReference(rest: string, cc: CharClass)
    requires '}' !in rest
    ensures ParseReference("${" + rest, cc) == Error("unterminated variable reference")
  {
    assert ("${" + rest)[1] == '{' && ("${" + rest)[2..] == rest;
  }

  // ---------- one reference ----------

  /** Outside single quotes a reference stands for the first present candidate, which is also the name
      that is audited; it is an error exactly when there is none. */
  lemma ReferenceExpands(text: string, st: State, ref: Reference, store: VarStore, commandlet: string, cc: CharClass)
    requires text != "" && text[0] == '$' && !st.escaped && st.quote != Open('\'')
    requires ParseReference(text, cc) == Ok(Some(ref))
    ensures var cs, rest := Candidates(ref.name, commandlet), Expand(text[ref.length..], st, store, commandlet, cc);
      && (forall i :: IsFirst(store, cs, i) ==>
            Expand(text, st, store, commandlet, cc) == Then(Inserted(store[cs[i]], st), [cs[i]], rest))
      && (NonePresent(store, cs) ==>
            Expand(text, st, store, commandlet, cc) == Error("unknown variable: $" + ref.name))
  {
    ResolveIsFirst(store, commandlet, ref.name);
  }

  // ---------- all references of a text ----------

  /** The state after a character that is copied. */
  function AfterCopy(c: char, st: State): State {
    if st.escaped || c == '\\' then st.(escaped := !st.escaped)
    else if st.quote == Open('\'') then st.(quote := if c == '\'' then Unquoted else st.quote)
    else if c == '"' then st.(quote := if st.quote == Open(c) then Unquoted else Open(c))
    else if c == '\'' then st.(quote := Open(c))
    else st
  }

  /** The scan copies the first character: it does not start a live reference. */
  predicate CopiesOne(text: string, st: State, cc: CharClass) {
    text != "" && (st.escaped || st.quote == Open('\'') || text[0] != '$' || ParseReference(text, cc) == Ok(None))
  }

  /** The references that a scan meets, in order, up to the end or to a malformed one. */
  datatype Met = Met(names: seq<string>, malformed: Option<string>)

  function References(text: string, st: State, cc: CharClass): Met
    decreases |text|
  {
    if text == "" then Met([], None)
    else if CopiesOne(text, st, cc) then References(text[1..], AfterCopy(text[0], st), cc)
    else
      match ParseReference(text, cc)
      case Error(message) => Met([], Some(message))
      case Ok(ref) =>
        var rest := References(text[ref.value.length..], st, cc);
        Met([ref.value.name] + rest.names, rest.malformed)
  }

  /** The names that were audited are those of the references, each as its first present candidate. */
  ghost predicate Audited(names: seq<string>, references: seq<string>, store: VarStore, commandlet: string) {
    && |names| == |references|
    && forall k, i :: 0 <= k < |names| && IsFirst(store, Candidates(references[k], commandlet), i) ==>
      names[k] == Candidates(references[k], commandlet)[i]
  }

  ghost predicate AllPresent(references: seq<string>, store: VarStore, commandlet: string) {
    forall k :: 0 <= k < |references| ==> !NonePresent(store, Candidates(references[k], commandlet))
  }

  lemma AuditedMore(name: string, c: string, names: seq<string>, references: seq<string>, store: VarStore,
      commandlet: string)
    requires Audited(names, references, store, commandlet)
    requires forall i :: IsFirst(store, Candidates(name, commandlet), i) ==> c == Candidates(name, commandlet)[i]
    ensures Audited([c] + names, [name] + references, store, commandlet)
  {
    var ns, rs := [c] + names, [name] + references;
    forall k, i | 0 <= k < |ns| && IsFirst(store, Candidates(rs[k], commandlet), i)
      ensures ns[k] == Candidates(rs[k], commandlet)[i]
    {
      if k > 0 {
        assert rs[k] == references[k - 1] && ns[k] == names[k - 1];
      }
    }
  }

  lemma PresentMore(name: string, references: seq<string>, store: VarStore, commandlet: string)
    ensures AllPresent([name] + references, store, commandlet) <==>
      !NonePresent(store, Candidates(name, commandlet)) && AllPresent(references, store, commandlet)
  {
    var rs := [name] + references;
    assert rs[0] == name && forall k :: 0 <= k < |references| ==> rs[k + 1] == references[k];
  }

  lemma CopyExpands(text: string, st: State, store: VarStore, commandlet: string, cc: CharClass)
    requires CopiesOne(text, st, cc)
    ensures Expand(text, st, store, commandlet, cc)
         == Then([text[0]], [], Expand(text[1..], AfterCopy(text[0], st), store, commandlet, cc))
  {
  }

  /** Expansion fails exactly on a malformed reference or on one without a present candidate; otherwise
      the audited names are the first present candidates of the references, in order. */
  lemma {:induction false} ExpansionAudits(text: string, st: State, store: VarStore, commandlet: string, cc: CharClass)
    ensures var met, e := References(text, st, cc), Expand(text, st, store, commandlet, cc);
      && (e.Ok? <==> met.malformed.None? && AllPresent(met.names, store, commandlet))
      && (e.Ok? ==> Audited(e.value.names, met.names, store, commandlet))
    decreases |text|
  {
    if text == "" {
    } else if CopiesOne(text, st, cc) {
      CopyExpands(text, st, store, commandlet, cc);
      ExpansionAudits(text[1..], AfterCopy(text[0], st), store, commandlet, cc);
    } else if ParseReference(text, cc).Ok? {
      ReferenceAudits(text, st, ParseReference(text, cc).value.value, store, commandlet, cc);
    }
  }

  lemma {:induction false} ReferenceAudits(
      text: string, st: State, ref: Reference, store: VarStore, commandlet: string, cc: CharClass)
    requires text != "" && !CopiesOne(text, st, cc) && ParseReference(text, cc) == Ok(Some(ref))
    ensures var met, e := References(text, st, cc), Expand(text, st, store, commandlet, cc);
      && (e.Ok? <==> met.malformed.None? && AllPresent(met.names, store, commandlet))
      && (e.Ok? ==> Audited(e.value.names, met.names, store, commandlet))
    decreases |text|, 0
  {
    var rest := text[ref.length..];
    var met, e := References(rest, st, cc), Expand(rest, st, store, commandlet, cc);
    ReferenceExpands(text, st, ref, store, commandlet, cc);
    ExpansionAudits(rest, st, store, commandlet, cc);
    PresentMore(ref.name, met.names, store, commandlet);
    var cs := Candidates(ref.name, commandlet);
    var i := SomeFirst(store, cs);
    if IsFirst(store, cs, i) && e.Ok? {
      AuditedMore(ref.name, cs[i], e.value.names, met.names, store, commandlet);
    }
  }

  // ---------- what else is in the store ----------

  /** Two stores look alike to a reference. */
  ghost predicate SameFirst(a: VarStore, b: VarStore, candidates: seq<string>) {
    || (NonePresent(a, candidates) && NonePresent(b, candidates))
    || exists i :: IsFirst(a, candidates, i) && IsFirst(b, candidates, i) && a[candidates[i]] == b[candidates[i]]
  }

  lemma {:induction false} SameReference(
      text: string, st: State, ref: Reference, a: VarStore, b: VarStore, commandlet: string, cc: CharClass)
    requires text != "" && text[0] == '$' && !st.escaped && st.quote != Open('\'')
    requires ParseReference(text, cc) == Ok(Some(ref)) && SameFirst(a, b, Candidates(ref.name, commandlet))
    requires Expand(text[ref.length..], st, a, commandlet, cc) == Expand(text[ref.length..], st, b, commandlet, cc)
    ensures Expand(text, st, a, commandlet, cc) == Expand(text, st, b, commandlet, cc)
  {
    ReferenceExpands(text, st, ref, a, commandlet, cc);
    ReferenceExpands(text, st, ref, b, commandlet, cc);
  }

  /** Expansion looks at the first present candidates of the references and at nothing else. */
  lemma {:induction false} ExpansionDependsOnFirst(
      text: string, st: State, a: VarStore, b: VarStore, commandlet: string, cc: CharClass)
    requires forall name :: name in References(text, st, cc).names ==> SameFirst(a, b, Candidates(name, commandlet))
    ensures Expand(text, st, a, commandlet, cc) == Expand(text, st, b, commandlet, cc)
    decreases |text|
  {
    if text == "" {
    } else if CopiesOne(text, st, cc) {
      CopyExpands(text, st, a, commandlet, cc);
      CopyExpands(text, st, b, commandlet, cc);
      ExpansionDependsOnFirst(text[1..], AfterCopy(text[0], st), a, b, commandlet, cc);
    } else if ParseReference(text, cc).Ok? {
      var ref := ParseReference(text, cc).value.value;
      var names := References(text, st, cc).names;
      assert names == [ref.name] + References(text[ref.length..], st, cc).names;
      assert ref.name in names;
      ExpansionDependsOnFirst(text[ref.length..], st, a, b, commandlet, cc);
      SameReference(text, st, ref, a, b, commandlet, cc);
    }
  }

  /** The key is no candidate, or a candidate after the first present one. */
  ghost predicate DoesNotMatter(store: VarStore, candidates: seq<string>, key: string) {
    forall j :: 0 <= j < |candidates| && candidates[j] == key ==> exists i :: 0 <= i < j && candidates[i] in store
  }

  lemma LooksTheSame(store: VarStore, candidates: seq<string>, key: string, other: VarStore)
    requires DoesNotMatter(store, candidates, key)
    requires forall k :: k != key ==> (k in store <==> k in other) && (k in store ==> store[k] == other[k])
    ensures SameFirst(store, other, candidates)
  {
    var i := SomeFirst(store, candidates);
    if IsFirst(store, candidates, i) {
      assert forall j :: 0 <= j <= i ==> candidates[j] != key;
      assert IsFirst(other, candidates, i);
    } else {
      assert forall j :: 0 <= j < |candidates| ==> candidates[j] != key;
    }
  }

  /** Setting or deleting a variable changes nothing, unless some reference has it as a candidate that is
      not behind a present one. */
  lemma {:induction false} OtherVariablesDoNotMatter(
      text: string, st: State, store: VarStore, key: string, value: string, commandlet: string, cc: CharClass)
    requires forall name :: name in References(text, st, cc).names ==>
      DoesNotMatter(store, Candidates(name, commandlet), key)
    ensures Expand(text, st, store[key := value], commandlet, cc) == Expand(text, st, store, commandlet, cc)
    ensures Expand(text, st, store - {key}, commandlet, cc) == Expand(text, st, store, commandlet, cc)
  {
    forall name | name in References(text, st, cc).names
      ensures SameFirst(store, store[key := value], Candidates(name, commandlet))
      ensures SameFirst(store, store - {key}, Candidates(name, commandlet))
    {
      LooksTheSame(store, Candidates(name, commandlet), key, store[key := value]);
      LooksTheSame(store, Candidates(name, commandlet), key, store - {key});
    }
    ExpansionDependsOnFirst(text, st, store, store[key := value], commandlet, cc);
    ExpansionDependsOnFirst(text, st, store, store - {key}, commandlet, cc);
  }

  // ---------- references in templates ----------

  lemma {:induction false} ResolveTogether(a: seq<Piece>, b: seq<Piece>, store: VarStore, commandlet: string)
    requires PiecesResolve(a, store, commandlet) && PiecesResolve(b, store, commandlet)
    ensures PiecesResolve(a + b, store, commandlet)
  {
    forall k | 0 <= k < |a + b|
      ensures PieceResolves((a + b)[k], store, commandlet)
    {
      if k < |a| { assert PieceResolves(a[k], store, commandlet); }
      if k >= |a| { assert PieceResolves(b[k - |a|], store, commandlet); }
    }
  }

  lemma {:induction false} ValuesConcat(a: seq<Piece>, b: seq<Piece>, store: VarStore, commandlet: string)
    requires PiecesResolve(a, store, commandlet) && PiecesResolve(b, store, commandlet)
    requires PiecesResolve(a + b, store, commandlet)
    ensures PiecesValue(a + b, store, commandlet)
         == PiecesValue(a, store, commandlet) + PiecesValue(b, store, commandlet)
    decreases |a|
  {
    if a == [] {
      assert a + b == b;
    } else {
      assert (a + b)[0] == a[0] && (a + b)[1..] == a[1..] + b;
      RestResolves(a, store, commandlet);
      RestResolves(a + b, store, commandlet);
      ValuesConcat(a[1..], b, store, commandlet);
      assert PieceResolves(a[0], store, commandlet);
      var head := if a[0].Literal? then a[0].text else Resolve(store, commandlet, a[0].name).value.value;
      Associative(head, PiecesValue(a[1..], store, commandlet), PiecesValue(b, store, commandlet));
    }
  }

  lemma {:induction false} NamesConcat(a: seq<Piece>, b: seq<Piece>, store: VarStore, commandlet: string)
    requires PiecesResolve(a, store, commandlet) && PiecesResolve(b, store, commandlet)
    requires PiecesResolve(a + b, store, commandlet)
    ensures PiecesNames(a + b, store, commandlet)
         == PiecesNames(a, store, commandlet) + PiecesNames(b, store, commandlet)
    decreases |a|
  {
    if a == [] {
      assert a + b == b;
    } else {
      assert (a + b)[0] == a[0] && (a + b)[1..] == a[1..] + b;
      RestResolves(a, store, commandlet);
      RestResolves(a + b, store, commandlet);
      NamesConcat(a[1..], b, store, commandlet);
      assert PieceResolves(a[0], store, commandlet);
      var head := if a[0].Literal? then [] else [Resolve(store, commandlet, a[0].name).value.name];
      Associative(head, PiecesNames(a[1..], store, commandlet), PiecesNames(b, store, commandlet));
    }
  }

  lemma {:induction false} PiecesConcat(a: seq<Piece>, b: seq<Piece>, store: VarStore, commandlet: string)
    requires PiecesResolve(a, store, commandlet) && PiecesResolve(b, store, commandlet)
    ensures PiecesResolve(a + b, store, commandlet)
    ensures PiecesValue(a + b, store, commandlet)
         == PiecesValue(a, store, commandlet) + PiecesValue(b, store, commandlet)
    ensures PiecesNames(a + b, store, commandlet)
         == PiecesNames(a, store, commandlet) + PiecesNames(b, store, commandlet)
  {
    ResolveTogether(a, b, store, commandlet);
    ValuesConcat(a, b, store, commandlet);
    NamesConcat(a, b, store, commandlet);
  }

  lemma {:induction false} OneReference(name: string, braced: bool, store: VarStore, commandlet: string, i: int)
    requires IsFirst(store, Candidates(name, commandlet), i)
    ensures var ps, c := [Ref(name, braced)], Candidates(name, commandlet)[i];
      && PiecesResolve(ps, store, commandlet)
      && PiecesValue(ps, store, commandlet) == store[c] && PiecesNames(ps, store, commandlet) == [c]
  {
    ResolveIsFirst(store, commandlet, name);
    var ps := [Ref(name, braced)];
    assert PiecesResolve(ps, store, commandlet);
    assert ps[1..] == [];
  }

  /** In a template too, a reference contributes the value and the name of its first present candidate. */
  lemma {:induction false} TemplateReference(
      before: seq<Piece>, name: string, braced: bool, after: seq<Piece>, store: VarStore, commandlet: string, i: int)
    requires IsFirst(store, Candidates(name, commandlet), i)
    requires PiecesResolve(before, store, commandlet) && PiecesResolve(after, store, commandlet)
    ensures var ps, c := before + [Ref(name, braced)] + after, Candidates(name, commandlet)[i];
      && PiecesResolve(ps, store, commandlet)
      && PiecesValue(ps, store, commandlet)
        == PiecesValue(before, store, commandlet) + store[c] + PiecesValue(after, store, commandlet)
      && PiecesNames(ps, store, commandlet)
        == PiecesNames(before, store, commandlet) + [c] + PiecesNames(after, store, commandlet)
  {
    OneReference(name, braced, store, commandlet, i);
    PiecesConcat(before, [Ref(name, braced)], store, commandlet);
    PiecesConcat(before + [Ref(name, braced)], after, store, commandlet);
  }

  lemma {:induction false} RestResolves(ps: seq<Piece>, store: VarStore, commandlet: string)
    requires ps != [] && PiecesResolve(ps, store, commandlet)
    ensures PiecesResolve(ps[1..], store, commandlet)
  {
    forall k | 0 <= k < |ps[1..]|
      ensures PieceResolves(ps[1..][k], store, commandlet)
    {
      assert PieceResolves(ps[k + 1], store, commandlet);
    }
  }

  /** A template resolves exactly when each of its references has a present candidate. */
  lemma TemplateResolves(ps: seq<Piece>, store: VarStore, commandlet: string)
    ensures PiecesResolve(ps, store, commandlet) <==>
      forall k :: 0 <= k < |ps| && ps[k].Ref? ==> !NonePresent(store, Candidates(ps[k].name, commandlet))
  {
    forall k | 0 <= k < |ps| && ps[k].Ref?
      ensures PieceResolves(ps[k], store, commandlet) <==> !NonePresent(store, Candidates(ps[k].name, commandlet))
    {
      ResolveIsFirst(store, commandlet, ps[k].name);
      var i := SomeFirst(store, Candidates(ps[k].name, commandlet));
    }
  }
}
