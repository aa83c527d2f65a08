/** How dotted range expressions are written, and which addresses they stand for. */
module RangeTexts {
  import opened Ipv4
  import opened Ipv4Ranges
  import opened Results
  import opened Text

  predicate IsOctetText(text: string, n: nat) {
    IsDigits(text) && DecimalValue(text) == n && n <= 255
  }

  /** One octet, or two with a dash between them, the smaller one first. */
  ghost predicate IsPartText(text: string, a: nat, b: nat) {
    || (a == b && IsOctetText(text, a))
    || (a <= b && exists first, second ::
          IsDashed(text, first, second) && IsOctetText(first, a) && IsOctetText(second, b))
  }

  predicate IsDashed(text: string, first: string, second: string) {
    text == first + ['-'] + second && '-' !in first
  }

  lemma {:induction false} OctetMeans(text: string, n: nat)
    ensures ParseOctet(text) == Ok(n) <==> IsOctetText(text, n)
  {
  }

  lemma {:induction false} DashedParts(text: string, first: string, second: string)
    requires IsDashed(text, first, second)
    ensures '-' in text && text[..IndexIn('-', text)] == first && text[IndexIn('-', text) + 1..] == second
  {
    FirstPlace('-', text, first, second);
    assert text[..|first|] == first && text[|first| + 1..] == second;
  }

  lemma {:induction false} DashedAt(text: string)
    requires '-' in text
    ensures IsDashed(text, text[..IndexIn('-', text)], text[IndexIn('-', text) + 1..])
  {
    NoneBefore('-', text);
  }

  /** A part of a range expression is read exactly as it is written. */
  lemma {:induction false} PartMeans(text: string, a: nat, b: nat)
    ensures ParseOctetRange(text) == Ok(Span(a, b)) <==> IsPartText(text, a, b)
  {
    if '-' in text {
      var first, second := text[..IndexIn('-', text)], text[IndexIn('-', text) + 1..];
      DashedAt(text);
      OctetMeans(first, a);
      OctetMeans(second, b);
      assert !IsOctetText(text, a);
      forall f, s | IsDashed(text, f, s)
        ensures f == first && s == second
      {
        DashedParts(text, f, s);
      }
    } else {
      OctetMeans(text, a);
      assert forall f, s :: IsDashed(text, f, s) ==> '-' in text;
    }
  }

  ghost predicate IsPart(text: string) {
    exists a: nat, b: nat :: IsPartText(text, a, b)
  }

  ghost predicate PartHolds(text: string, n: nat) {
    exists a: nat, b: nat :: IsPartText(text, a, b) && a <= n <= b
  }

  predicate SpanHolds(r: Result<Span>, n: nat) {
    r.Ok? && r.value.low <= n <= r.value.high
  }

  lemma {:induction false} PartIs(text: string, n: nat)
    ensures IsPart(text) <==> ParseOctetRange(text).Ok?
    ensures PartHolds(text, n) <==> SpanHolds(ParseOctetRange(text), n)
  {
    forall a: nat, b: nat
      ensures ParseOctetRange(text) == Ok(Span(a, b)) <==> IsPartText(text, a, b)
    {
      PartMeans(text, a, b);
    }
  }

  /** Four parts without dots of their own, with dots between them. */
  predicate AreParts(parts: seq<string>) {
    |parts| == 4 && forall i :: 0 <= i < 4 ==> '.' !in parts[i]
  }

  /** It is a range expression when some part has a dash, whatever the parts are otherwise. */
  lemma {:induction false} RangeIsWritten(parts: seq<string>)
    requires AreParts(parts)
    ensures IsIpv4Range(JoinFields(parts, '.')) <==> exists i :: 0 <= i < 4 && '-' in parts[i]
  {
    FieldsOfJoin(parts, '.');
  }

  /** No other text is one. */
  lemma {:induction false} RangesAreWritten(text: string) returns (parts: seq<string>)
    requires IsIpv4Range(text)
    ensures AreParts(parts) && text == JoinFields(parts, '.')
  {
    parts := Fields(text, '.');
    JoinOfFields(text, '.');
  }

  lemma {:induction false} PartsAre(parts: seq<string>, o: Octets)
    requires |parts| == 4
    ensures (forall i :: 0 <= i < 4 ==> IsPart(parts[i])) <==> ParseSpans(parts).Ok?
    ensures ParseSpans(parts).Ok? ==>
      ((forall i :: 0 <= i < 4 ==> PartHolds(parts[i], o[i])) <==> Within(o, ParseSpans(parts).value))
  {
    forall i | 0 <= i < 4
      ensures IsPart(parts[i]) <==> ParseOctetRange(parts[i]).Ok?
      ensures PartHolds(parts[i], o[i]) <==> SpanHolds(ParseOctetRange(parts[i]), o[i])
    {
      PartIs(parts[i], o[i]);
    }
  }

  /** The candidates of a range expression: the addresses each of whose bytes lies in its part, if every part is
      an octet or two ascending ones; otherwise it is an error. */
  lemma {:induction false} RangeCandidates(parts: seq<string>, o: Octets)
    requires AreParts(parts) && IsIpv4Range(JoinFields(parts, '.'))
    ensures var r := HostCandidates(JoinFields(parts, '.'));
      && (r.Ok? <==> forall i :: 0 <= i < 4 ==> IsPart(parts[i]))
      && (r.Ok? ==> (Dotted(o) in r.value <==> forall i :: 0 <= i < 4 ==> PartHolds(parts[i], o[i])))
  {
    var text := JoinFields(parts, '.');
    SpansOfParts(parts);
    PartsAre(parts, o);
    if ExpandIpv4Range(text).Ok? {
      InExpansion(o, text);
    }
  }

  lemma {:induction false} SpansOfParts(parts: seq<string>)
    requires AreParts(parts)
    ensures RangeSpans(JoinFields(parts, '.')) == ParseSpans(parts)
  {
    FieldsOfJoin(parts, '.');
  }

  /** A text that is neither a range nor a block stands for itself. */
  lemma {:induction false} OtherCandidates(text: string)
    requires !IsIpv4Range(text) && ParseNetwork(text).None?
    ensures HostCandidates(text) == Ok([text])
  {
  }
}
