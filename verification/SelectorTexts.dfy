/** What selector patterns match and how selector texts are written, in terms of texts alone. */
module SelectorTexts {
  import opened EventFilters
  import opened Ipv4
  import opened Ipv4Ranges
  import opened Results
  import opened Text

  // ---------- which patterns match ----------

  /** The pattern is written from those parts. */
  predicate IsRangePattern(pattern: string, front: string, start: string, stop: string) {
    pattern == front + ['.'] + (start + ['-'] + stop) && '.' !in start && '.' !in stop && '-' !in start
  }

  /** The text of an address with that front and a last octet from `a` to `b`. */
  ghost predicate IsAddressWithin(value: string, front: string, a: int, b: int) {
    exists x: nat, last: nat :: a <= last <= b && x < ADDRESSES && value == AddressText(x)
      && value == front + ['.'] + Decimal(last)
  }

  /** The pattern is a front of three octets and two numbers, with the last octet of `value` in between. */
  ghost predicate IsInOctetRange(value: string, pattern: string) {
    exists front, start, stop, a: int, b: int :: IsInParts(value, pattern, front, start, stop, a, b)
  }

  ghost predicate IsInParts(
      value: string, pattern: string, front: string, start: string, stop: string, a: int, b: int) {
    && IsRangePattern(pattern, front, start, stop) && ParseInt(start) == Some(a) && ParseInt(stop) == Some(b)
    && 0 <= a <= b <= 255 && IsAddressWithin(value, front, a, b)
  }

  /** An address text is its first three octets and its last one. */
  lemma AddressSplits(value: string, x: nat, front: string, last: nat)
    requires x < ADDRESSES && value == AddressText(x)
    ensures |Fields(value, '.')| == 4
    ensures value == front + ['.'] + Decimal(last) <==>
      JoinFields(Fields(value, '.')[..3], '.') == front && Fields(value, '.')[3] == Decimal(last)
  {
    var o := OctetsOf(x);
    var fields := Fields(value, '.');
    NumeralsHaveNoDots(o);
    FieldsOfJoin(Numerals(o), '.');
    assert fields == Numerals(o);
    assert fields == fields[..3] + [fields[3]];
    JoinFieldsBack(fields[..3], fields[3], '.');
    DecimalRoundTrip(last);
    if value == front + ['.'] + Decimal(last) {
      DigitsHaveNoDot(last);
      FieldsOfBack(front, '.', Decimal(last));
      assert (Fields(front, '.') + [Decimal(last)])[..3] == Fields(front, '.');
      JoinOfFields(front, '.');
    }
  }

  lemma DigitsHaveNoDot(n: nat)
    ensures '.' !in Decimal(n)
  {
  }

  lemma WithinMeans(value: string, front: string, b: Bounds, x: nat)
    requires x < ADDRESSES && value == AddressText(x) && 0 <= b.start <= b.stop <= 255
    ensures OctetsWithin(Fields(value, '.'), front, b) <==> IsAddressWithin(value, front, b.start, b.stop)
  {
    var o := OctetsOf(x);
    NumeralsHaveNoDots(o);
    FieldsOfJoin(Numerals(o), '.');
    DecimalRoundTrip(o[3]);
    DigitsAreTheirValue(Decimal(o[3]));
    assert Fields(value, '.')[3] == Decimal(o[3]);
    AddressSplits(value, x, front, o[3]);
    if IsAddressWithin(value, front, b.start, b.stop) {
      var y: nat, last: nat :| b.start <= last <= b.stop && y < ADDRESSES && value == AddressText(y)
        && value == front + ['.'] + Decimal(last);
      AddressSplits(value, y, front, last);
      DecimalInjective(last, o[3]);
    }
  }

  /** Where the parts of a range pattern are found. */
  lemma {:induction false} PatternParts(pattern: string, front: string, end: string)
    requires pattern == front + ['.'] + end && '.' !in end
    ensures SplitsInto(pattern, front, end)
  {
    FieldsOfBack(front, '.', end);
    assert (Fields(front, '.') + [end])[..|Fields(front, '.')|] == Fields(front, '.');
    JoinOfFields(front, '.');
  }

  lemma {:induction false} BoundsOf(start: string, stop: string)
    requires '-' !in start
    ensures var end := start + ['-'] + stop;
      && '-' in end
      && ParseBounds(end) == if ParseInt(start).Some? && ParseInt(stop).Some?
           then Some(Bounds(ParseInt(start).value, ParseInt(stop).value)) else None
  {
    var end := start + ['-'] + stop;
    FirstPlace('-', end, start, stop);
    assert end[..|start|] == start && end[|start| + 1..] == stop;
  }

  lemma {:induction false} DashSplits(end: string)
    requires '-' in end
    ensures end == end[..IndexIn('-', end)] + ['-'] + end[IndexIn('-', end) + 1..] && '-' !in end[..IndexIn('-', end)]
  {
    NoneBefore('-', end);
  }

  lemma {:induction false} LastFieldSplits(s: string, c: char)
    requires |Fields(s, c)| > 1
    ensures var n := |Fields(s, c)| - 1; s == JoinFields(Fields(s, c)[..n], c) + [c] + Fields(s, c)[n]
  {
    var fields, n := Fields(s, c), |Fields(s, c)| - 1;
    assert fields == fields[..n] + [fields[n]];
    JoinFieldsBack(fields[..n], fields[n], c);
    JoinOfFields(s, c);
  }

  /** Every pattern with bounds has such parts. */
  lemma {:induction false} PartsOfPattern(pattern: string, front: string, end: string)
    requires pattern == front + ['.'] + end && '.' !in end && '-' in end
    ensures IsRangePattern(pattern, front, end[..IndexIn('-', end)], end[IndexIn('-', end) + 1..])
  {
    DashSplits(end);
    SlicesLack(end, '.', IndexIn('-', end));
  }

  lemma {:induction false} SlicesLack(s: string, c: char, i: nat)
    requires c !in s && i < |s|
    ensures c !in s[..i] && c !in s[i + 1..]
  {
  }

  /** Both numbers are read, and the last octet is between them. */
  ghost predicate IsBetween(value: string, front: string, start: string, stop: string) {
    && ParseInt(start).Some? && ParseInt(stop).Some? && ParseAddress(value).Some?
    && OctetsWithin(Fields(value, '.'), front, Bounds(ParseInt(start).value, ParseInt(stop).value))
  }

  predicate SplitsInto(pattern: string, front: string, end: string) {
    var fields := Fields(pattern, '.');
    var n := |fields| - 1;
    n > 0 && fields[n] == end && JoinFields(fields[..n], '.') == front
  }

  lemma {:induction false} MatchesUnfolds(value: string, pattern: string, front: string, end: string)
    requires SplitsInto(pattern, front, end) && '-' in pattern
    ensures Ipv4OctetRangeMatches(value, pattern) <==> EndMatches(value, front, end)
  {
  }

  lemma {:induction false} MatchesParts(value: string, pattern: string, front: string, start: string, stop: string)
    requires IsRangePattern(pattern, front, start, stop)
    ensures Ipv4OctetRangeMatches(value, pattern) <==> IsBetween(value, front, start, stop)
  {
    BoundsOf(start, stop);
    assert pattern[|front| + 1 + |start|] == '-';
    PatternParts(pattern, front, start + ['-'] + stop);
    MatchesUnfolds(value, pattern, front, start + ['-'] + stop);
  }

  lemma {:induction false} MatchHasEnd(value: string, pattern: string) returns (front: string, end: string)
    requires Ipv4OctetRangeMatches(value, pattern)
    ensures pattern == front + ['.'] + end && '.' !in end && '-' in end && ParseBounds(end).Some?
  {
    LastFieldSplits(pattern, '.');
    var n := |Fields(pattern, '.')| - 1;
    front, end := JoinFields(Fields(pattern, '.')[..n], '.'), Fields(pattern, '.')[n];
  }

  lemma {:induction false} MatchIsInRange(value: string, pattern: string)
    requires Ipv4OctetRangeMatches(value, pattern)
    ensures IsInOctetRange(value, pattern)
  {
    var front, end := MatchHasEnd(value, pattern);
    PartsOfPattern(pattern, front, end);
    EndIsInRange(value, pattern, front, end[..IndexIn('-', end)], end[IndexIn('-', end) + 1..]);
  }

  lemma {:induction false} EndIsInRange(value: string, pattern: string, front: string, start: string, stop: string)
    requires Ipv4OctetRangeMatches(value, pattern) && IsRangePattern(pattern, front, start, stop)
    ensures IsInOctetRange(value, pattern)
  {
    MatchesParts(value, pattern, front, start, stop);
    var a, b := ParseInt(start).value, ParseInt(stop).value;
    BetweenIsWithin(value, front, a, b);
    assert IsInParts(value, pattern, front, start, stop, a, b);
  }

  lemma {:induction false} BetweenIsWithin(value: string, front: string, a: int, b: int)
    requires ParseAddress(value).Some? && OctetsWithin(Fields(value, '.'), front, Bounds(a, b))
    ensures 0 <= a <= b <= 255 && IsAddressWithin(value, front, a, b)
  {
    var x := ParseAddress(value).value;
    ParseAddressIs(value, x);
    WithinMeans(value, front, Bounds(a, b), x);
  }

  lemma {:induction false} WithinIsBetween(value: string, front: string, a: int, b: int)
    requires 0 <= a <= b <= 255 && IsAddressWithin(value, front, a, b)
    ensures ParseAddress(value).Some? && OctetsWithin(Fields(value, '.'), front, Bounds(a, b))
  {
    var x: nat, last: nat :| a <= last <= b && x < ADDRESSES && value == AddressText(x)
      && value == front + ['.'] + Decimal(last);
    ParseAddressIs(value, x);
    WithinMeans(value, front, Bounds(a, b), x);
  }

  lemma {:induction false} InRangeMatches(value: string, pattern: string)
    requires IsInOctetRange(value, pattern)
    ensures Ipv4OctetRangeMatches(value, pattern)
  {
    var front, start, stop, a: int, b: int :| IsInParts(value, pattern, front, start, stop, a, b);
    WithinIsBetween(value, front, a, b);
    MatchesParts(value, pattern, front, start, stop);
  }

  /** A pattern matches its own text, the addresses of its range of last octets, and those of its block;
      nothing else. */
  lemma {:induction false} PatternMatches(value: string, pattern: string)
    ensures SelectorValueMatches(value, pattern) <==>
      || value == pattern
      || IsInOctetRange(value, pattern)
      || ('/' in pattern && ParseNetwork(pattern).Some? && IsAddressIn(value, ParseNetwork(pattern).value))
  {
    if Ipv4OctetRangeMatches(value, pattern) {
      MatchIsInRange(value, pattern);
    }
    if IsInOctetRange(value, pattern) {
      InRangeMatches(value, pattern);
    }
    if ParseNetwork(pattern).Some? {
      AddressIn(value, ParseNetwork(pattern).value);
    }
  }

  ghost predicate IsAddressIn(value: string, b: Block) {
    exists x: nat :: x < ADDRESSES && value == AddressText(x) && Holds(b, x)
  }

  lemma {:induction false} AddressIn(value: string, b: Block)
    ensures IsAddressIn(value, b) <==> ParseAddress(value).Some? && Holds(b, ParseAddress(value).value)
  {
    forall x: nat
      ensures ParseAddress(value) == Some(x) <==> x < ADDRESSES && value == AddressText(x)
    {
      ParseAddressIs(value, x);
    }
  }

  // ---------- how a bound is written ----------

  function Flat(groups: seq<string>): string {
    if groups == [] then "" else groups[0] + Flat(groups[1..])
  }

  predicate AreDigits(groups: seq<string>) {
    groups != [] && forall i :: 0 <= i < |groups| ==> IsDigits(groups[i])
  }

  lemma {:induction false} DigitsOnlyJoins(a: string, b: string)
    ensures DigitsOnly(a + b) == DigitsOnly(a) + DigitsOnly(b)
  {
    if a == "" {
      assert a + b == b;
    } else {
      DigitsOnlyJoins(a[1..], b);
      assert (a + b)[1..] == a[1..] + b && (a + b)[0] == a[0];
    }
  }

  lemma {:induction false} GroupsAreGrouped(groups: seq<string>)
    requires AreDigits(groups)
    ensures IsGrouped(JoinFields(groups, '_')) && DigitsOnly(JoinFields(groups, '_')) == Flat(groups)
    ensures AllDigits(Flat(groups))
  {
    if |groups| == 1 {
      DigitsAreGrouped(groups[0]);
      assert Flat(groups) == groups[0] + "";
    } else {
      GroupsAreGrouped(groups[1..]);
      GroupedTogether(groups[0], JoinFields(groups[1..], '_'));
      DigitsOnlySkips(groups[0], JoinFields(groups[1..], '_'));
    }
  }

  lemma {:induction false} DigitsOnlySkips(digits: string, rest: string)
    requires IsDigits(digits)
    ensures DigitsOnly(digits + ['_'] + rest) == digits + DigitsOnly(rest)
  {
    DigitsOnlyJoins(digits + ['_'], rest);
    DigitsOnlyJoins(digits, ['_']);
    assert ['_'][1..] == "" && DigitsOnly(['_']) == "" && digits + "" == digits;
  }

  lemma {:induction false} GroupedTogether(digits: string, rest: string)
    requires IsDigits(digits) && IsGrouped(rest)
    ensures IsGrouped(digits + ['_'] + rest)
  {
    var s, n := digits + ['_'] + rest, |digits| + 1;
    forall i | 0 <= i < |s|
      ensures s[i] == if i < |digits| then digits[i] else if i == |digits| then '_' else rest[i - n]
    {
    }
  }

  /** Between single underscores there are digits. */
  lemma {:induction false} GroupedFields(s: string)
    requires forall i :: 0 <= i < |s| ==> IsDigit(s[i]) || s[i] == '_'
    requires forall i, j :: 0 <= i < |s| && 0 <= j < |s| && j == i + 1 ==> !(s[i] == '_' && s[j] == '_')
    requires s != "" ==> s[|s| - 1] != '_'
    ensures var r := Fields(s, '_');
      && AllDigits(r[0]) && (r[0] == "" <==> s == "" || s[0] == '_')
      && forall k :: 1 <= k < |r| ==> IsDigits(r[k])
  {
    if s != "" {
      GroupedFields(s[1..]);
    }
  }

  /** Between whitespace, with a sign or without, digits with single underscores between them. */
  ghost predicate IsIntText(s: string, n: int) {
    exists left, sign, groups, right :: IsIntWritten(s, left, sign, groups, right, n)
  }

  ghost predicate IsIntWritten(s: string, left: string, sign: string, groups: seq<string>, right: string, n: int) {
    && AllSpace(left) && AllSpace(right) && (sign == "" || sign == "+" || sign == "-")
    && AreDigits(groups) && s == left + (sign + JoinFields(groups, '_') + right)
    && AllDigits(Flat(groups)) && n == Signed(sign, DecimalValue(Flat(groups)))
  }

  function Signed(sign: string, magnitude: int): int {
    if sign == "-" then -magnitude else magnitude
  }

  lemma {:induction false} UnsignedIsRead(body: string)
    requires IsGrouped(body)
    ensures SignedInt(body) == Some(DecimalValue(DigitsOnly(body)))
  {
  }

  lemma {:induction false} SignIsRead(t: string, body: string)
    requires t != "" && t[1..] == body && (t[0] == '+' || t[0] == '-') && IsGrouped(body)
    ensures SignedInt(t) == Some(Signed([t[0]], DecimalValue(DigitsOnly(body))))
  {
  }

  lemma {:induction false} SignedIsRead(s: string, sign: string, body: string)
    requires Strip(s) == sign + body && (sign == "" || sign == "+" || sign == "-") && IsGrouped(body)
    ensures ParseInt(s) == Some(Signed(sign, DecimalValue(DigitsOnly(body))))
  {
    if sign == "" {
      assert "" + body == body;
      UnsignedIsRead(body);
    } else {
      assert sign == [sign[0]] && (sign + body)[1..] == body;
      SignIsRead(sign + body, body);
    }
  }

  lemma {:induction false} WrittenIntIsRead(s: string, left: string, sign: string, groups: seq<string>, right: string,
      n: int)
    requires IsIntWritten(s, left, sign, groups, right, n)
    ensures ParseInt(s) == Some(n)
  {
    var body := JoinFields(groups, '_');
    GroupsAreGrouped(groups);
    assert (sign + body)[|sign + body| - 1] == body[|body| - 1];
    StripMeans(left, sign + body, right);
    SignedIsRead(s, sign, body);
  }

  lemma {:induction false} ReadIntHasSign(s: string) returns (sign: string, body: string)
    requires ParseInt(s).Some?
    ensures Strip(s) == sign + body && (sign == "" || sign == "+" || sign == "-") && IsGrouped(body)
  {
    var t := Strip(s);
    if t[0] == '-' || t[0] == '+' {
      sign, body := [t[0]], t[1..];
    } else {
      sign, body := "", t;
    }
  }

  lemma {:induction false} GroupsOf(body: string) returns (groups: seq<string>)
    requires IsGrouped(body)
    ensures AreDigits(groups) && JoinFields(groups, '_') == body
  {
    groups := Fields(body, '_');
    GroupedFields(body);
    JoinOfFields(body, '_');
  }

  lemma {:induction false} ReadIntIsWritten(s: string)
    requires ParseInt(s).Some?
    ensures IsIntText(s, ParseInt(s).value)
  {
    var left, right := StripLeaves(s);
    var sign, body := ReadIntHasSign(s);
    var groups := GroupsOf(body);
    GroupsAreGrouped(groups);
    SignedIsRead(s, sign, body);
    assert IsIntWritten(s, left, sign, groups, right, ParseInt(s).value);
  }

  /** A bound is read exactly from such a text. */
  lemma {:induction false} BoundTexts(s: string, n: int)
    ensures ParseInt(s) == Some(n) <==> IsIntText(s, n)
  {
    if ParseInt(s).Some? {
      ReadIntIsWritten(s);
    }
    if left, sign, groups, right :| IsIntWritten(s, left, sign, groups, right, n) {
      WrittenIntIsRead(s, left, sign, groups, right, n);
    }
  }

  // ---------- which expressions are refused ----------

  /** An expression is refused exactly when some term is blank, or blank behind its exclamation mark. */
  lemma {:induction false} ExpressionFails(raw: string, key: string)
    ensures Parsed(raw, key).Error? <==> exists term :: term in Fields(raw, ',') && IsRefused(term)
  {
    TermsFail(Fields(raw, ','), key);
  }

  /** The error tells of the first such term. */
  lemma {:induction false} FirstRefusal(raw: string, key: string, i: nat)
    requires i < |Fields(raw, ',')| && IsRefused(Fields(raw, ',')[i])
    requires forall j :: 0 <= j < i ==> !IsRefused(Fields(raw, ',')[j])
    ensures Parsed(raw, key) == Error(key + (if AllSpace(Fields(raw, ',')[i])
      then "= contains an empty selector value" else "= contains an empty excluded value"))
  {
    var fields := Fields(raw, ',');
    var before, upto := fields[..i], fields[..i + 1];
    TermsFail(before, key);
    TermsFail(upto, key);
    assert upto[..i] == before && fields[i] in upto;
    RefusalText(AddTerms(before, key).value, fields[i], key);
    ErrorStays(fields, key, i + 1);
  }

  lemma {:induction false} RefusalText(front: Selector, term: string, key: string)
    requires IsRefused(term)
    ensures AddTerm(front, term, key) == Error(key + (if AllSpace(term)
      then "= contains an empty selector value" else "= contains an empty excluded value"))
  {
    if AllSpace(term) {
      StripMeans(term, "", "");
      assert term + ("" + "") == term;
    } else {
      var left, right :| AllSpace(left) && AllSpace(right) && term == left + (['!'] + right);
      StripMeans(left, ['!'], right);
      assert Strip("") == "";
    }
  }

  ghost predicate IsRefused(term: string) {
    AllSpace(term) || exists left, right :: AllSpace(left) && AllSpace(right) && term == left + (['!'] + right)
  }

  lemma {:induction false} BlankFails(front: Selector, term: string, key: string)
    requires AllSpace(term)
    ensures AddTerm(front, term, key).Error?
  {
    StripMeans(term, "", "");
    assert term + ("" + "") == term;
  }

  lemma {:induction false} LoneMarkFails(front: Selector, left: string, right: string, key: string)
    requires AllSpace(left) && AllSpace(right)
    ensures AddTerm(front, left + (['!'] + right), key).Error?
  {
    StripMeans(left, ['!'], right);
    assert Strip("") == "";
  }

  lemma {:induction false} TermFails(front: Selector, term: string, key: string)
    ensures AddTerm(front, term, key).Error? <==> IsRefused(term)
  {
    if AddTerm(front, term, key).Error? {
      FailureIsRefused(front, term, key);
    }
    if AllSpace(term) {
      BlankFails(front, term, key);
    } else if IsRefused(term) {
      var left, right :| AllSpace(left) && AllSpace(right) && term == left + (['!'] + right);
      LoneMarkFails(front, left, right, key);
    }
  }

  lemma {:induction false} FailureIsRefused(front: Selector, term: string, key: string)
    requires AddTerm(front, term, key).Error?
    ensures IsRefused(term)
  {
    var left, right := StripLeaves(term);
    var value := Strip(term);
    if value == "" {
      assert AllSpace(term);
    } else {
      var before, after := StripLeaves(value[1..]);
      assert value == ['!'] + value[1..] && term == left + (['!'] + (value[1..] + right));
      assert AllSpace(value[1..] + right);
    }
  }

  lemma {:induction false} TermsFail(fields: seq<string>, key: string)
    ensures AddTerms(fields, key).Error? <==> exists term :: term in fields && IsRefused(term)
  {
    if fields != [] {
      var front, last := fields[..|fields| - 1], fields[|fields| - 1];
      assert fields == front + [last];
      TermsFail(front, key);
      if AddTerms(front, key).Ok? {
        TermFails(AddTerms(front, key).value, last, key);
      }
    }
  }

  // ---------- whitespace around terms ----------

  /** The text of a term, with whitespace around it and behind its exclamation mark. */
  ghost predicate IsTermText(text: string, t: Term) {
    exists left, middle, right :: IsSpaced(text, t, left, middle, right)
  }

  ghost predicate IsSpaced(text: string, t: Term, left: string, middle: string, right: string) {
    && AllSpace(left) && AllSpace(middle) && AllSpace(right)
    && text == left + ((if t.Wanted? then t.pattern else ['!'] + (middle + t.pattern)) + right)
  }

  lemma {:induction false} WantedTerm(front: Selector, raw: string, pattern: string, key: string)
    requires Strip(raw) == pattern && pattern != "" && pattern[0] != '!'
    ensures AddTerm(front, raw, key) == Ok(front.(wanted := front.wanted + [pattern]))
  {
  }

  lemma {:induction false} UnwantedTerm(front: Selector, raw: string, marked: string, pattern: string, key: string)
    requires Strip(raw) == marked && marked != "" && marked[0] == '!' && Strip(marked[1..]) == pattern && pattern != ""
    ensures AddTerm(front, raw, key) == Ok(front.(unwanted := front.unwanted + [pattern]))
  {
  }

  lemma {:induction false} SpacedTerm(front: Selector, text: string, t: Term, key: string)
    requires Writable(t) && IsTermText(text, t)
    ensures AddTerm(front, text, key) ==
      Ok(if t.Wanted? then front.(wanted := front.wanted + [t.pattern])
         else front.(unwanted := front.unwanted + [t.pattern]))
  {
    var left, middle, right :| IsSpaced(text, t, left, middle, right);
    if t.Wanted? {
      StripMeans(left, t.pattern, right);
      WantedTerm(front, text, t.pattern, key);
    } else {
      var marked := ['!'] + (middle + t.pattern);
      MarkedEnds(middle, t.pattern, marked);
      StripMeans(left, marked, right);
      StripMeans(middle, t.pattern, "");
      UnwantedTerm(front, text, marked, t.pattern, key);
    }
  }

  lemma {:induction false} MarkedEnds(middle: string, pattern: string, marked: string)
    requires pattern != "" && marked == ['!'] + (middle + pattern)
    ensures marked[|marked| - 1] == pattern[|pattern| - 1] && marked[1..] == middle + pattern
    ensures middle + (pattern + "") == middle + pattern
  {
  }

  /** Whitespace around the terms of an expression changes nothing. */
  lemma {:induction false} SpacesDoNotMatter(texts: seq<string>, terms: seq<Term>, key: string)
    requires |texts| == |terms| > 0
    requires forall i :: 0 <= i < |terms| ==> Writable(terms[i]) && IsTermText(texts[i], terms[i]) && ',' !in texts[i]
    ensures Parsed(JoinFields(texts, ','), key) == Ok(Selector(WantedOf(terms), UnwantedOf(terms)))
  {
    FieldsOfJoin(texts, ',');
    SpacedTerms(texts, terms, key);
  }

  lemma {:induction false} SpacedTerms(texts: seq<string>, terms: seq<Term>, key: string)
    requires |texts| == |terms|
    requires forall i :: 0 <= i < |terms| ==> Writable(terms[i]) && IsTermText(texts[i], terms[i])
    ensures AddTerms(texts, key) == Ok(Selector(WantedOf(terms), UnwantedOf(terms)))
  {
    if terms != [] {
      var n := |terms| - 1;
      SpacedTerms(texts[..n], terms[..n], key);
      var front := Selector(WantedOf(terms[..n]), UnwantedOf(terms[..n]));
      SpacedTerm(front, texts[n], terms[n], key);
      assert front.wanted + [] == front.wanted && front.unwanted + [] == front.unwanted;
    }
  }
}
