/** Selector expressions over event payload values: exact text, CIDR blocks, and ranges of the last
    octet. */
module EventFilters {
  import opened Ipv4
  import opened Ipv4Ranges
  import opened Results
  import opened Text

  // ---------- numbers ----------

  /** Digits, with single underscores between them. */
  predicate IsGrouped(s: string) {
    && s != "" && IsDigit(s[0]) && IsDigit(s[|s| - 1])
    && (forall i :: 0 <= i < |s| ==> IsDigit(s[i]) || s[i] == '_')
    && forall i, j :: 0 <= i < |s| && 0 <= j < |s| && j == i + 1 ==> !(s[i] == '_' && s[j] == '_')
  }

  function DigitsOnly(s: string): (r: string)
    ensures AllDigits(r)
    ensures AllDigits(s) ==> r == s
  {
    if s == "" then ""
    else
      var rest := DigitsOnly(s[1..]);
      assert s == [s[0]] + s[1..];
      if IsDigit(s[0]) then [s[0]] + rest else rest
  }

  /** `int(s)`, for ASCII digits. */
  function ParseInt(s: string): Option<int> {
    SignedInt(Strip(s))
  }

  function SignedInt(t: string): Option<int> {
    var signed := t != "" && (t[0] == '-' || t[0] == '+');
    var body := if signed then t[1..] else t;
    var magnitude: int := DecimalValue(DigitsOnly(body));
    if !IsGrouped(body) then None else Some(if signed && t[0] == '-' then -magnitude else magnitude)
  }

  lemma DigitsAreTheirValue(s: string)
    requires IsDigits(s)
    ensures ParseInt(s) == Some(DecimalValue(s))
  {
    DigitsStandAlone(s);
    DigitsAreGrouped(s);
    assert DigitsOnly(s) == s;
  }

  lemma DigitsAreGrouped(s: string)
    requires IsDigits(s)
    ensures IsGrouped(s)
  {
  }

  lemma DigitsStandAlone(s: string)
    requires IsDigits(s)
    ensures Strip(s) == s && s[0] != '-' && s[0] != '+'
  {
    assert LStrip(s) == s by { assert IsDigit(s[0]); }
    assert RStrip(s) == s by { assert IsDigit(s[|s| - 1]); }
  }

  // ---------- matching ----------

  datatype Bounds = Bounds(start: int, stop: int)

  /** The numbers around the first dash. */
  function ParseBounds(end: string): Option<Bounds> {
    if '-' !in end then None
    else
      var cut := IndexIn('-', end);
      var start, stop := ParseInt(end[..cut]), ParseInt(end[cut + 1..]);
      if start.Some? && stop.Some? then Some(Bounds(start.value, stop.value)) else None
  }

  predicate OctetsWithin(octets: seq<string>, prefix: string, b: Bounds) {
    0 <= b.start <= b.stop <= 255 && |octets| == 4 && JoinFields(octets[..3], '.') == prefix &&
    var last := ParseInt(octets[3]);
    last.Some? && b.start <= last.value <= b.stop
  }

  /** `ipv4_octet_range_matches` */
  predicate Ipv4OctetRangeMatches(value: string, pattern: string) {
    var fields := Fields(pattern, '.');
    var n := |fields| - 1;
    '-' in pattern && n > 0 && EndMatches(value, JoinFields(fields[..n], '.'), fields[n])
  }

  predicate EndMatches(value: string, prefix: string, end: string) {
    && ParseBounds(end).Some? && ParseAddress(value).Some?
    && OctetsWithin(Fields(value, '.'), prefix, ParseBounds(end).value)
  }

  /** `selector_value_matches` */
  predicate SelectorValueMatches(value: string, pattern: string) {
    || value == pattern
    || Ipv4OctetRangeMatches(value, pattern)
    || ('/' in pattern && ParseAddress(value).Some? && ParseNetwork(pattern).Some?
        && Holds(ParseNetwork(pattern).value, ParseAddress(value).value))
  }

  /** A dash in the last octet only, and the others written as an address writes them. */
  predicate IsLastOctetPattern(pattern: string) {
    var parts := Fields(pattern, '.');
    |parts| == 4 && '-' in parts[3] && forall i :: 0 <= i < 3 ==> IsNumeral(parts[i])
  }

  lemma JoinInjective(a: seq<string>, b: seq<string>)
    requires a != [] && b != []
    requires forall i :: 0 <= i < |a| ==> '.' !in a[i]
    requires forall i :: 0 <= i < |b| ==> '.' !in b[i]
    ensures JoinFields(a, '.') == JoinFields(b, '.') <==> a == b
  {
    FieldsOfJoin(a, '.');
    FieldsOfJoin(b, '.');
  }

  lemma BoundsOfRange(part: string)
    requires '-' in part && ParseOctetRange(part).Ok?
    ensures ParseBounds(part) == Some(Bounds(ParseOctetRange(part).value.low, ParseOctetRange(part).value.high))
  {
    var cut, span := IndexIn('-', part), ParseOctetRange(part).value;
    assert ParseOctet(part[..cut]) == Ok(span.low) && ParseOctet(part[cut + 1..]) == Ok(span.high);
    OctetIsInt(part[..cut]);
    OctetIsInt(part[cut + 1..]);
  }

  lemma OctetIsInt(text: string)
    requires ParseOctet(text).Ok?
    ensures ParseInt(text) == Some(ParseOctet(text).value)
  {
    DigitsAreTheirValue(text);
  }

  lemma OctetsWithinMeans(o: Octets, front: seq<string>, low: nat, high: nat)
    requires |front| == 3 && (forall i :: 0 <= i < 3 ==> '.' !in front[i]) && low <= high <= 255
    ensures OctetsWithin(Numerals(o), JoinFields(front, '.'), Bounds(low, high)) <==>
      Numerals(o)[..3] == front && low <= o[3] <= high
  {
    JoinInjective(Numerals(o)[..3], front);
    DigitsAreTheirValue(Decimal(o[3]));
    DecimalRoundTrip(o[3]);
  }

  /** What the selector tests, on the octets of an address. */
  lemma MatchesOctets(o: Octets, pattern: string, spans: seq<Span>)
    requires ParseAddress(Dotted(o)).Some?
    requires RangeSpans(pattern) == Ok(spans) && '-' in Fields(pattern, '.')[3]
    ensures Ipv4OctetRangeMatches(Dotted(o), pattern) <==>
      Numerals(o)[..3] == Fields(pattern, '.')[..3] && spans[3].low <= o[3] <= spans[3].high
  {
    var fields := Fields(pattern, '.');
    BoundsOfRange(fields[3]);
    DashInPattern(pattern, 3);
    NumeralsHaveNoDots(o);
    OctetsWithinMeans(o, fields[..3], spans[3].low, spans[3].high);
    MatchesUnfolds(Dotted(o), pattern, Bounds(spans[3].low, spans[3].high));
  }

  lemma MatchesUnfolds(value: string, pattern: string, b: Bounds)
    requires '-' in pattern && |Fields(pattern, '.')| == 4 && ParseAddress(value).Some?
    requires ParseBounds(Fields(pattern, '.')[3]) == Some(b)
    ensures Ipv4OctetRangeMatches(value, pattern)
       <==> OctetsWithin(Fields(value, '.'), JoinFields(Fields(pattern, '.')[..3], '.'), b)
  {
  }

  /** The first three parts agree as texts exactly when they agree as octets, if they are numerals. */
  lemma FrontAgrees(o: Octets, parts: seq<string>, spans: seq<Span>)
    requires |parts| == |spans| == 4
    requires forall i :: 0 <= i < 4 ==> ParseOctetRange(parts[i]) == Ok(spans[i])
    ensures Numerals(o)[..3] == parts[..3] <==>
      (forall i :: 0 <= i < 3 ==> IsNumeral(parts[i])) &&
        (forall i :: 0 <= i < 3 ==> spans[i].low <= o[i] <= spans[i].high)
  {
    var front := Numerals(o)[..3];
    forall i | 0 <= i < 3
      ensures front[i] == parts[i] <==> IsNumeral(parts[i]) && spans[i].low <= o[i] <= spans[i].high
    {
      PartAgrees(o[i], parts[i], spans[i]);
    }
    assert front == parts[..3] <==> forall i :: 0 <= i < 3 ==> front[i] == parts[i];
  }

  lemma PartAgrees(n: nat, part: string, span: Span)
    requires ParseOctetRange(part) == Ok(span)
    ensures Decimal(n) == part <==> IsNumeral(part) && span.low <= n <= span.high
  {
    DecimalRoundTrip(n);
    if IsNumeral(part) {
      NumeralRoundTrip(part);
      assert '-' !in part;
      assert span == Span(DecimalValue(part), DecimalValue(part));
    }
  }

  lemma MatchAndExpansionAgree(o: Octets, pattern: string)
    requires IsIpv4Range(pattern) && ExpandIpv4Range(pattern).Ok?
    ensures Ipv4OctetRangeMatches(Dotted(o), pattern) <==>
      IsLastOctetPattern(pattern) && Dotted(o) in ExpandIpv4Range(pattern).value
  {
    var parts, spans := Fields(pattern, '.'), RangeSpans(pattern).value;
    InExpansion(o, pattern);
    FrontAgrees(o, parts, spans);
    if '-' in parts[3] {
      MatchesOctets(o, pattern, spans);
    }
  }

  lemma OnlyAddressesMatch(value: string, pattern: string)
    requires ExpandIpv4Range(pattern).Ok?
    requires Ipv4OctetRangeMatches(value, pattern) || value in ExpandIpv4Range(pattern).value
    ensures exists o: Octets :: value == Dotted(o)
  {
    ExpansionMembers(pattern);
    if x: nat :| InRange(pattern, x) && value == AddressText(x) {
      assert value == Dotted(OctetsOf(x));
    } else {
      var x := ParseAddress(value).value;
      ParseAddressIs(value, x);
      assert value == Dotted(OctetsOf(x));
    }
  }

  /** On a range expression that expands, the event selector matches exactly the expansion if the
      expression has its dash in the last octet only and writes the others as an address does;
      otherwise it matches nothing at all. */
  lemma SelectorMatchesExpansion(value: string, pattern: string)
    requires IsIpv4Range(pattern) && ExpandIpv4Range(pattern).Ok?
    ensures Ipv4OctetRangeMatches(value, pattern) <==>
      IsLastOctetPattern(pattern) && value in ExpandIpv4Range(pattern).value
  {
    if Ipv4OctetRangeMatches(value, pattern) || value in ExpandIpv4Range(pattern).value {
      OnlyAddressesMatch(value, pattern);
      var o: Octets :| value == Dotted(o);
      MatchAndExpansionAgree(o, pattern);
    }
  }

  /** So the two readings of one text agree on every value exactly for that form. */
  lemma ReadingsAgreeExactly(pattern: string)
    requires IsIpv4Range(pattern) && ExpandIpv4Range(pattern).Ok?
    ensures (forall value :: Ipv4OctetRangeMatches(value, pattern) <==> value in ExpandIpv4Range(pattern).value)
       <==> IsLastOctetPattern(pattern)
  {
    forall value
      ensures Ipv4OctetRangeMatches(value, pattern) <==>
        IsLastOctetPattern(pattern) && value in ExpandIpv4Range(pattern).value
    {
      SelectorMatchesExpansion(value, pattern);
    }
    var addresses := ExpansionIsProduct(pattern);
    assert ExpandIpv4Range(pattern).value[0] in ExpandIpv4Range(pattern).value;
  }

  /** A block pattern matches exactly the addresses of the block, and its own text. */
  lemma BlockPatternMatches(value: string, pattern: string)
    requires '/' in pattern && '-' !in pattern && ParseNetwork(pattern).Some?
    ensures SelectorValueMatches(value, pattern) <==>
      || value == pattern
      || exists x: nat :: x < ADDRESSES && value == AddressText(x) && Holds(ParseNetwork(pattern).value, x)
  {
    forall x: nat
      ensures ParseAddress(value) == Some(x) <==> x < ADDRESSES && value == AddressText(x)
    {
      ParseAddressIs(value, x);
    }
  }

  // ---------- expressions ----------

  /** Patterns of which one has to match, and patterns that must not. */
  datatype Selector = Selector(wanted: seq<string>, unwanted: seq<string>)

  function AddTerm(front: Selector, raw: string, key: string): Result<Selector> {
    var value := Strip(raw);
    if value == "" then Error(key + "= contains an empty selector value")
    else if value[0] == '!' then
      var excluded := Strip(value[1..]);
      if excluded == "" then Error(key + "= contains an empty excluded value")
      else Ok(front.(unwanted := front.unwanted + [excluded]))
    else Ok(front.(wanted := front.wanted + [value]))
  }

  function AddTerms(fields: seq<string>, key: string): Result<Selector> {
    if fields == [] then Ok(Selector([], []))
    else
      match AddTerms(fields[..|fields| - 1], key)
      case Error(message) => Error(message)
      case Ok(front) => AddTerm(front, fields[|fields| - 1], key)
  }

  /** `parse_selector_expression` */
  function Parsed(raw: string, key: string): Result<Selector> {
    AddTerms(Fields(raw, ','), key)
  }

  /** There is always a term: the check for an expression without values never fails. */
  lemma {:induction false} SomeTerm(fields: seq<string>, key: string)
    requires fields != [] && AddTerms(fields, key).Ok?
    ensures AddTerms(fields, key).value.wanted != [] || AddTerms(fields, key).value.unwanted != []
  {
  }

  method ParseSelectorExpression(raw: string, key: string) returns (r: Result<Selector>)
    ensures r == Parsed(raw, key)
  {
    var fields := Fields(raw, ',');
    var found := Selector([], []);
    for i := 0 to |fields|
      invariant AddTerms(fields[..i], key) == Ok(found)
    {
      assert fields[..i + 1][..i] == fields[..i];
      var next := AddTerm(found, fields[i], key);
      if next.Error? {
        ErrorStays(fields, key, i + 1);
        return next;
      }
      found := next.value;
    }
    assert fields[..|fields|] == fields;
    if found.wanted == [] && found.unwanted == [] {
      SomeTerm(fields, key);
      assert false;
    }
    r := Ok(found);
  }

  lemma {:induction false} ErrorStays(fields: seq<string>, key: string, i: nat)
    requires i <= |fields| && AddTerms(fields[..i], key).Error?
    ensures AddTerms(fields, key) == AddTerms(fields[..i], key)
    decreases |fields|
  {
    if i < |fields| {
      var front := fields[..|fields| - 1];
      assert front[..i] == fields[..i];
      ErrorStays(front, key, i);
    } else {
      assert fields[..i] == fields;
    }
  }

  predicate AnyMatches(values: seq<Option<string>>, patterns: seq<string>) {
    exists i, j :: 0 <= i < |values| && 0 <= j < |patterns| && values[i].Some? &&
      SelectorValueMatches(values[i].value, patterns[j])
  }

  /** `selector_matches_values`; absent values do not take part. */
  predicate SelectorMatchesValues(selector: Selector, values: seq<Option<string>>) {
    && (exists i :: 0 <= i < |values| && values[i].Some?)
    && (selector.wanted == [] || AnyMatches(values, selector.wanted))
    && !AnyMatches(values, selector.unwanted)
  }

  // ---------- what an expression says ----------

  datatype Term = Wanted(pattern: string) | Unwanted(pattern: string)

  /** A pattern that can be written in an expression. */
  predicate Writable(t: Term) {
    && t.pattern != "" && ',' !in t.pattern
    && !IsSpace(t.pattern[0]) && !IsSpace(t.pattern[|t.pattern| - 1])
    && (t.Wanted? ==> t.pattern[0] != '!')
  }

  function TermText(t: Term): string {
    match t
    case Wanted(pattern) => pattern
    case Unwanted(pattern) => "!" + pattern
  }

  function TermTexts(terms: seq<Term>): (r: seq<string>)
    ensures |r| == |terms| && forall i :: 0 <= i < |r| ==> r[i] == TermText(terms[i])
  {
    seq(|terms|, i requires 0 <= i < |terms| => TermText(terms[i]))
  }

  function WantedOf(terms: seq<Term>): seq<string> {
    if terms == [] then []
    else WantedOf(terms[..|terms| - 1]) + (if terms[|terms| - 1].Wanted? then [terms[|terms| - 1].pattern] else [])
  }

  function UnwantedOf(terms: seq<Term>): seq<string> {
    if terms == [] then []
    else UnwantedOf(terms[..|terms| - 1]) + (if terms[|terms| - 1].Unwanted? then [terms[|terms| - 1].pattern] else [])
  }

  lemma {:induction false} AddTermsOfTexts(terms: seq<Term>, key: string)
    requires forall i :: 0 <= i < |terms| ==> Writable(terms[i])
    ensures AddTerms(TermTexts(terms), key) == Ok(Selector(WantedOf(terms), UnwantedOf(terms)))
  {
    if terms != [] {
      var front, last := terms[..|terms| - 1], terms[|terms| - 1];
      var texts := TermTexts(terms);
      AddTermsOfTexts(front, key);
      assert texts[..|texts| - 1] == TermTexts(front);
      AddTermOfText(Selector(WantedOf(front), UnwantedOf(front)), last, key);
    }
  }

  lemma AddTermOfText(front: Selector, t: Term, key: string)
    requires Writable(t)
    ensures AddTerm(front, TermText(t), key) == Ok(Selector(
      front.wanted + (if t.Wanted? then [t.pattern] else []),
        front.unwanted + (if t.Unwanted? then [t.pattern] else [])))
  {
    StripStripped(t.pattern);
    StripStripped(TermText(t));
    assert t.Unwanted? ==> TermText(t)[1..] == t.pattern;
    assert front.wanted + [] == front.wanted && front.unwanted + [] == front.unwanted;
  }

  /** Reading a written expression gives its terms back, in their order. */
  lemma ExpressionRoundTrip(terms: seq<Term>, key: string)
    requires terms != [] && forall i :: 0 <= i < |terms| ==> Writable(terms[i])
    ensures Parsed(JoinFields(TermTexts(terms), ','), key) == Ok(Selector(WantedOf(terms), UnwantedOf(terms)))
  {
    FieldsOfJoin(TermTexts(terms), ',');
    AddTermsOfTexts(terms, key);
  }

  lemma {:induction false} OfTerms(terms: seq<Term>, pattern: string)
    ensures pattern in WantedOf(terms) <==> Wanted(pattern) in terms
    ensures pattern in UnwantedOf(terms) <==> Unwanted(pattern) in terms
  {
    if terms != [] {
      var front, last := terms[..|terms| - 1], terms[|terms| - 1];
      assert terms == front + [last];
      OfTerms(front, pattern);
    }
  }

  ghost predicate SomeValueMatches(values: seq<Option<string>>, pattern: string) {
    exists i :: 0 <= i < |values| && values[i].Some? && SelectorValueMatches(values[i].value, pattern)
  }

  /** A written expression accepts values, in whatever order its terms stand: when there is a value,
      some wanted term matches one (or none is written), and no unwanted term does. */
  lemma ExpressionMeans(terms: seq<Term>, key: string, values: seq<Option<string>>)
    requires terms != [] && forall i :: 0 <= i < |terms| ==> Writable(terms[i])
    ensures var r := Parsed(JoinFields(TermTexts(terms), ','), key);
      && r.Ok?
      && (SelectorMatchesValues(r.value, values) <==>
          && (exists i :: 0 <= i < |values| && values[i].Some?)
          && ((forall pattern :: Wanted(pattern) !in terms)
              || exists pattern :: Wanted(pattern) in terms && SomeValueMatches(values, pattern))
          && (forall pattern :: Unwanted(pattern) in terms ==> !SomeValueMatches(values, pattern)))
  {
    ExpressionRoundTrip(terms, key);
    var selector := Selector(WantedOf(terms), UnwantedOf(terms));
    forall pattern
      ensures pattern in selector.wanted <==> Wanted(pattern) in terms
      ensures pattern in selector.unwanted <==> Unwanted(pattern) in terms
    {
      OfTerms(terms, pattern);
    }
    SelectorBySets(selector, values);
  }

  lemma SelectorBySets(selector: Selector, values: seq<Option<string>>)
    ensures SelectorMatchesValues(selector, values) <==>
      && (exists i :: 0 <= i < |values| && values[i].Some?)
      && ((forall pattern :: pattern !in selector.wanted)
          || exists pattern :: pattern in selector.wanted && SomeValueMatches(values, pattern))
      && (forall pattern :: pattern in selector.unwanted ==> !SomeValueMatches(values, pattern))
  {
    AnyMatchesOne(values, selector.wanted);
    AnyMatchesOne(values, selector.unwanted);
    assert selector.wanted != [] ==> selector.wanted[0] in selector.wanted;
  }

  lemma AnyMatchesOne(values: seq<Option<string>>, patterns: seq<string>)
    ensures AnyMatches(values, patterns) <==> exists pattern :: pattern in patterns && SomeValueMatches(values, pattern)
  {
    if AnyMatches(values, patterns) {
      var i, j :| 0 <= i < |values| && 0 <= j < |patterns| && values[i].Some? &&
        SelectorValueMatches(values[i].value, patterns[j]);
      assert patterns[j] in patterns && SomeValueMatches(values, patterns[j]);
    }
    if pattern :| pattern in patterns && SomeValueMatches(values, pattern) {
      var j :| 0 <= j < |patterns| && patterns[j] == pattern;
      var i :| 0 <= i < |values| && values[i].Some? && SelectorValueMatches(values[i].value, pattern);
    }
  }
}
