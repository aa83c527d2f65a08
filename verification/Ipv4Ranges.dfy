/** Dotted range expressions such as `192.168.1-3.1-255` and their expansion. */
module Ipv4Ranges {
  import opened Ipv4
  import opened Results
  import opened Text

  // ---------- the syntax ----------

  predicate IsIpv4Range(value: string) {
    var parts := Fields(value, '.');
    |parts| == 4 && exists i :: 0 <= i < 4 && '-' in parts[i]
  }

  /** Unlike an address, an octet of a range may have leading zeros. */
  function ParseOctet(value: string): (r: Result<nat>)
    ensures r.Ok? ==> r.value <= 255
  {
    if !IsDigits(value) then Error("invalid IPv4 octet: " + value)
    else if DecimalValue(value) > 255 then Error("IPv4 octet out of range: " + value)
    else Ok(DecimalValue(value))
  }

  /** The octets from `low` to `high`. */
  datatype Span = Span(low: nat, high: nat)

  function ParseOctetRange(value: string): (r: Result<Span>)
    ensures r.Ok? ==> r.value.low <= r.value.high <= 255
  {
    if '-' in value then
      var cut := IndexIn('-', value);
      match ParseOctet(value[..cut])
      case Error(message) => Error(message)
      case Ok(low) =>
        match ParseOctet(value[cut + 1..])
        case Error(message) => Error(message)
        case Ok(high) =>
          if low > high then Error("invalid descending IPv4 octet range: " + value) else Ok(Span(low, high))
    else
      match ParseOctet(value)
      case Error(message) => Error(message)
      case Ok(n) => Ok(Span(n, n))
  }

  /** All parts, or the error of the first that fails. */
  function ParseSpans(parts: seq<string>): (r: Result<seq<Span>>)
    ensures r.Ok? ==> |r.value| == |parts|
    ensures r.Ok? ==> forall i :: 0 <= i < |parts| ==> ParseOctetRange(parts[i]) == Ok(r.value[i])
    ensures r.Ok? <==> forall i :: 0 <= i < |parts| ==> ParseOctetRange(parts[i]).Ok?
  {
    if parts == [] then Ok([])
    else
      match ParseOctetRange(parts[0])
      case Error(message) => Error(message)
      case Ok(span) =>
        match ParseSpans(parts[1..])
        case Error(message) => Error(message)
        case Ok(spans) => Ok([span] + spans)
  }

  function RangeSpans(value: string): (r: Result<seq<Span>>)
    ensures r.Ok? ==> |r.value| == 4 && forall i :: 0 <= i < 4 ==> r.value[i].low <= r.value[i].high <= 255
  {
    var parts := Fields(value, '.');
    if |parts| != 4 then Error("invalid IPv4 range: " + value) else ParseSpans(parts)
  }

  lemma DashInPattern(pattern: string, k: nat)
    requires k < |Fields(pattern, '.')| && '-' in Fields(pattern, '.')[k]
    ensures '-' in pattern
  {
    JoinOfFields(pattern, '.');
    DashInJoin(Fields(pattern, '.'), k);
  }

  lemma {:induction false} DashInJoin(fields: seq<string>, k: nat)
    requires k < |fields| && '-' in fields[k]
    ensures '-' in JoinFields(fields, '.')
  {
    if |fields| > 1 && k > 0 {
      DashInJoin(fields[1..], k - 1);
    }
  }

  /** A text without a dash is no range. */
  lemma RangeHasDash(value: string)
    requires '-' !in value
    ensures !IsIpv4Range(value)
  {
    if IsIpv4Range(value) {
      var i :| 0 <= i < 4 && '-' in Fields(value, '.')[i];
      DashInPattern(value, i);
    }
  }

  // ---------- the expansion ----------

  /** `range(low, high + 1)` */
  function Counting(low: nat, high: nat): (r: seq<nat>)
    ensures forall x: nat :: x in r <==> low <= x <= high
    ensures Ascends(r)
    decreases high + 1 - low
  {
    if low > high then []
    else
      var rest := Counting(low + 1, high);
      assert forall i :: 0 <= i < |rest| ==> rest[i] in rest;
      [low] + rest
  }

  ghost predicate Ascends(xs: seq<nat>) {
    forall i, j :: 0 <= i < j < |xs| ==> xs[i] < xs[j]
  }

  function Prefixed(x: nat, tails: seq<seq<nat>>): (r: seq<seq<nat>>)
    ensures |r| == |tails| && forall i :: 0 <= i < |r| ==> r[i] == [x] + tails[i]
  {
    seq(|tails|, i requires 0 <= i < |tails| => [x] + tails[i])
  }

  function Spread(xs: seq<nat>, tails: seq<seq<nat>>): seq<seq<nat>> {
    if xs == [] then [] else Prefixed(xs[0], tails) + Spread(xs[1..], tails)
  }

  /** `itertools.product(*lists)`: the last list varies fastest. */
  function Product(lists: seq<seq<nat>>): seq<seq<nat>> {
    if lists == [] then [[]] else Spread(lists[0], Product(lists[1..]))
  }

  function Counts(spans: seq<Span>): (r: seq<seq<nat>>)
    ensures |r| == |spans| && forall i :: 0 <= i < |r| ==> r[i] == Counting(spans[i].low, spans[i].high)
  {
    seq(|spans|, i requires 0 <= i < |spans| => Counting(spans[i].low, spans[i].high))
  }

  function Texts(combos: seq<seq<nat>>): (r: seq<string>)
    requires forall i :: 0 <= i < |combos| ==> combos[i] != []
    ensures |r| == |combos| && forall i :: 0 <= i < |r| ==> r[i] == Dotted(combos[i])
  {
    seq(|combos|, i requires 0 <= i < |combos| => Dotted(combos[i]))
  }

  lemma {:induction false} SpreadMembers(xs: seq<nat>, tails: seq<seq<nat>>, c: seq<nat>)
    ensures c in Spread(xs, tails) <==> c != [] && c[0] in xs && c[1..] in tails
  {
    if xs != [] {
      SpreadMembers(xs[1..], tails, c);
      assert xs == [xs[0]] + xs[1..];
      PrefixedMembers(xs[0], tails, c);
    }
  }

  lemma PrefixedMembers(x: nat, tails: seq<seq<nat>>, c: seq<nat>)
    ensures c in Prefixed(x, tails) <==> c != [] && c[0] == x && c[1..] in tails
  {
    var r := Prefixed(x, tails);
    if c in r {
      var i :| 0 <= i < |r| && r[i] == c;
      assert c[1..] == tails[i];
    }
    if c != [] && c[0] == x && c[1..] in tails {
      var i :| 0 <= i < |tails| && tails[i] == c[1..];
      assert r[i] == [x] + tails[i] == c;
    }
  }

  /** The product holds exactly the choices of one element of each list. */
  lemma {:induction false} ProductMembers(lists: seq<seq<nat>>, c: seq<nat>)
    ensures c in Product(lists) <==> |c| == |lists| && forall i :: 0 <= i < |c| ==> c[i] in lists[i]
  {
    if lists != [] {
      SpreadMembers(lists[0], Product(lists[1..]), c);
      if c != [] {
        ProductMembers(lists[1..], c[1..]);
        assert forall i :: 0 < i < |c| && |c| == |lists| ==> (c[i] in lists[i] <==> c[1..][i - 1] in lists[1..][i - 1]);
        assert (forall i :: 0 <= i < |c[1..]| && |c| == |lists| ==> c[1..][i] in lists[1..][i])
          <==> (forall i :: 0 < i < |c| && |c| == |lists| ==> c[i] in lists[i]);
      }
    }
  }

  /** Lexicographic order on choices. */
  predicate LexLess(a: seq<nat>, b: seq<nat>) {
    a != [] && b != [] && (a[0] < b[0] || (a[0] == b[0] && LexLess(a[1..], b[1..])))
  }

  ghost predicate LexAscends(cs: seq<seq<nat>>) {
    forall i, j :: 0 <= i < j < |cs| ==> LexLess(cs[i], cs[j])
  }

  lemma LexPrefix(x: nat, a: seq<nat>, b: seq<nat>)
    requires LexLess(a, b)
    ensures LexLess([x] + a, [x] + b)
  {
    assert ([x] + a)[1..] == a && ([x] + b)[1..] == b;
  }

  lemma PrefixedAscends(x: nat, tails: seq<seq<nat>>)
    requires LexAscends(tails)
    ensures LexAscends(Prefixed(x, tails))
  {
    forall i, j | 0 <= i < j < |tails|
      ensures LexLess(Prefixed(x, tails)[i], Prefixed(x, tails)[j])
    {
      LexPrefix(x, tails[i], tails[j]);
    }
  }

  lemma LexAscendsConcat(a: seq<seq<nat>>, b: seq<seq<nat>>)
    requires LexAscends(a) && LexAscends(b)
    requires forall i, j :: 0 <= i < |a| && 0 <= j < |b| ==> LexLess(a[i], b[j])
    ensures LexAscends(a + b)
  {
  }

  lemma {:induction false} SpreadAscends(xs: seq<nat>, tails: seq<seq<nat>>)
    requires Ascends(xs) && LexAscends(tails)
    ensures LexAscends(Spread(xs, tails))
  {
    if xs != [] {
      var first, rest := Prefixed(xs[0], tails), Spread(xs[1..], tails);
      SpreadAscends(xs[1..], tails);
      PrefixedAscends(xs[0], tails);
      forall i, j | 0 <= i < |first| && 0 <= j < |rest|
        ensures LexLess(first[i], rest[j])
      {
        assert rest[j] in rest;
        SpreadMembers(xs[1..], tails, rest[j]);
        var k :| 0 <= k < |xs[1..]| && xs[1..][k] == rest[j][0];
        assert xs[0] < xs[k + 1];
      }
      LexAscendsConcat(first, rest);
    }
  }

  /** A product of ascending lists comes in lexicographic order. */
  lemma {:induction false} ProductAscends(lists: seq<seq<nat>>)
    requires forall i :: 0 <= i < |lists| ==> Ascends(lists[i])
    ensures LexAscends(Product(lists))
  {
    if lists != [] {
      ProductAscends(lists[1..]);
      SpreadAscends(lists[0], Product(lists[1..]));
    }
  }

  /** For octets that is the order of the addresses as numbers. */
  lemma LexIsNumeric(a: Octets, b: Octets)
    ensures LexLess(a, b) <==> ValueOf(a) < ValueOf(b)
  {
    LexStep(a, b, 0);
    LexStep(a, b, 1);
    LexStep(a, b, 2);
    LexStep(a, b, 3);
    assert a[0..] == a && b[0..] == b && !LexLess(a[4..], b[4..]);
    assert a[0] < b[0] ==> ValueOf(a) < ValueOf(b);
    assert a[0] > b[0] ==> ValueOf(a) > ValueOf(b);
  }

  lemma LexStep(a: seq<nat>, b: seq<nat>, i: nat)
    requires |a| == |b| && i < |a|
    ensures LexLess(a[i..], b[i..]) <==> a[i] < b[i] || (a[i] == b[i] && LexLess(a[i + 1..], b[i + 1..]))
  {
    assert a[i..][1..] == a[i + 1..] && b[i..][1..] == b[i + 1..];
  }

  /** The choices of four octets. */
  function Choices(spans: seq<Span>): (r: seq<seq<nat>>)
    requires |spans| == 4
    ensures forall i :: 0 <= i < |r| ==> |r[i]| == 4
  {
    ChoicesMembers(spans);
    Product(Counts(spans))
  }

  predicate Within(c: seq<nat>, spans: seq<Span>) {
    |c| == |spans| && forall i :: 0 <= i < |c| ==> spans[i].low <= c[i] <= spans[i].high
  }

  lemma ChoicesMembers(spans: seq<Span>)
    ensures forall c :: c in Product(Counts(spans)) <==> Within(c, spans)
    ensures forall i :: 0 <= i < |Product(Counts(spans))| ==> Product(Counts(spans))[i] in Product(Counts(spans))
  {
    forall c
      ensures c in Product(Counts(spans)) <==> Within(c, spans)
    {
      ProductMembers(Counts(spans), c);
    }
  }

  /** `expand_ipv4_range` */
  function ExpandIpv4Range(value: string): Result<seq<string>> {
    match RangeSpans(value)
    case Error(message) => Error(message)
    case Ok(spans) => Ok(Texts(Choices(spans)))
  }

  /** The addresses a range expression stands for. */
  predicate InRange(value: string, x: nat) {
    x < ADDRESSES && RangeSpans(value).Ok? && Within(OctetsOf(x), RangeSpans(value).value)
  }

  function Values(combos: seq<seq<nat>>): (r: seq<nat>)
    requires forall i :: 0 <= i < |combos| ==> |combos[i]| == 4 && forall k :: 0 <= k < 4 ==> combos[i][k] <= 255
    ensures |r| == |combos| && forall i :: 0 <= i < |r| ==> r[i] == ValueOf(combos[i])
  {
    seq(|combos|, i requires 0 <= i < |combos| => ValueOf(combos[i]))
  }

  lemma ValuesAscend(combos: seq<seq<nat>>)
    requires forall i :: 0 <= i < |combos| ==> |combos[i]| == 4 && forall k :: 0 <= k < 4 ==> combos[i][k] <= 255
    requires LexAscends(combos)
    ensures Ascends(Values(combos))
  {
    forall i, j | 0 <= i < j < |combos|
      ensures ValueOf(combos[i]) < ValueOf(combos[j])
    {
      LexIsNumeric(combos[i], combos[j]);
    }
  }

  lemma ChoicesAreOctets(spans: seq<Span>)
    requires |spans| == 4 && forall i :: 0 <= i < 4 ==> spans[i].high <= 255
    ensures forall i :: 0 <= i < |Choices(spans)| ==> Within(Choices(spans)[i], spans)
    ensures LexAscends(Choices(spans))
  {
    ChoicesMembers(spans);
    ProductAscends(Counts(spans));
  }

  /** The expansion lists, as address texts, exactly the addresses whose octets lie in the ranges, in
      strictly increasing order; it is never empty. */
  lemma ExpansionIsProduct(value: string) returns (addresses: seq<nat>)
    requires ExpandIpv4Range(value).Ok?
    ensures var texts := ExpandIpv4Range(value).value;
      && |texts| == |addresses| > 0
      && (forall i :: 0 <= i < |texts| ==> addresses[i] < ADDRESSES && texts[i] == AddressText(addresses[i]))
    ensures Ascends(addresses)
    ensures forall x: nat :: x in addresses <==> InRange(value, x)
  {
    var spans := RangeSpans(value).value;
    var combos := Choices(spans);
    ChoicesAreOctets(spans);
    SomeChoice(spans);
    addresses := Values(combos);
    ValuesAscend(combos);
    forall i | 0 <= i < |addresses|
      ensures addresses[i] < ADDRESSES && Dotted(combos[i]) == AddressText(addresses[i]) && InRange(value, addresses[i])
    {
      OctetsRoundTrip(addresses[i], combos[i]);
    }
    forall x | InRange(value, x)
      ensures x in addresses
    {
      OctetsRoundTrip(x, OctetsOf(x));
      ChoicesMembers(spans);
      var i :| 0 <= i < |combos| && combos[i] == OctetsOf(x);
      assert addresses[i] == x;
    }
  }

  lemma SomeChoice(spans: seq<Span>)
    requires |spans| == 4 && forall i :: 0 <= i < 4 ==> spans[i].low <= spans[i].high <= 255
    ensures Choices(spans) != []
  {
    ChoicesMembers(spans);
    assert Within([spans[0].low, spans[1].low, spans[2].low, spans[3].low], spans);
    assert [spans[0].low, spans[1].low, spans[2].low, spans[3].low] in Choices(spans);
  }

  /** So an address text is in the expansion exactly when its address is in the range, and nothing else
      is; no text is there twice. */
  lemma ExpansionMembers(value: string)
    requires ExpandIpv4Range(value).Ok?
    ensures var texts := ExpandIpv4Range(value).value;
      && (forall t :: t in texts <==> exists x: nat :: InRange(value, x) && t == AddressText(x))
      && (forall i, j :: 0 <= i < j < |texts| ==> texts[i] != texts[j])
  {
    var addresses := ExpansionIsProduct(value);
    var texts := ExpandIpv4Range(value).value;
    forall t | t in texts
      ensures exists x: nat :: InRange(value, x) && t == AddressText(x)
    {
      var i :| 0 <= i < |texts| && texts[i] == t;
      assert addresses[i] in addresses;
    }
    forall x: nat | InRange(value, x)
      ensures AddressText(x) in texts
    {
      var i :| 0 <= i < |addresses| && addresses[i] == x;
      assert texts[i] == AddressText(x);
    }
    forall i, j | 0 <= i < j < |texts|
      ensures texts[i] != texts[j]
    {
      ParseAddressIs(texts[i], addresses[i]);
      ParseAddressIs(texts[i], addresses[j]);
    }
  }

  // ---------- candidates ----------

  /** A text is in the expansion exactly when it is an address within the ranges. */
  lemma InExpansion(o: Octets, pattern: string)
    requires ExpandIpv4Range(pattern).Ok?
    ensures ParseAddress(Dotted(o)) == Some(ValueOf(o))
    ensures Dotted(o) in ExpandIpv4Range(pattern).value <==> Within(o, RangeSpans(pattern).value)
  {
    var x := ValueOf(o);
    OctetsRoundTrip(x, o);
    ParseAddressIs(Dotted(o), x);
    ExpansionMembers(pattern);
    if Dotted(o) in ExpandIpv4Range(pattern).value {
      var y: nat :| InRange(pattern, y) && Dotted(o) == AddressText(y);
      ParseAddressIs(Dotted(o), y);
    }
    if Within(o, RangeSpans(pattern).value) {
      assert InRange(pattern, x);
    }
  }

  function AddressTexts(addresses: seq<nat>): (r: seq<string>)
    requires forall i :: 0 <= i < |addresses| ==> addresses[i] < ADDRESSES
    ensures |r| == |addresses| && forall i :: 0 <= i < |r| ==> r[i] == AddressText(addresses[i])
  {
    seq(|addresses|, i requires 0 <= i < |addresses| => AddressText(addresses[i]))
  }

  /** `network.hosts()`: a block of four or more leaves out its first and last address. */
  function HostAddresses(b: Block): (r: seq<nat>)
    ensures r != [] && forall i :: 0 <= i < |r| ==> r[i] < ADDRESSES
    ensures forall x: nat :: x in r <==> Holds(b, x) && (b.prefix >= 31 || (x != b.address && x != Broadcast(b)))
  {
    SizesOfBlocks(b);
    BlockIsInterval(b);
    var ends := if b.prefix >= 31 then 0 else 1;
    var low, high := b.address + ends, Broadcast(b) - ends;
    var r := Counting(low, high);
    assert low in r && forall i :: 0 <= i < |r| ==> r[i] in r;
    r
  }

  lemma BlockIsInterval(b: Block)
    ensures forall x: nat :: Holds(b, x) <==> b.address <= x <= Broadcast(b)
  {
    forall x: nat
      ensures Holds(b, x) <==> b.address <= x <= Broadcast(b)
    {
      HoldsInterval(b, x);
    }
  }

  lemma SizesOfBlocks(b: Block)
    ensures Broadcast(b) < ADDRESSES
    ensures b.prefix <= 30 ==> Size(b.prefix) >= 4
  {
    if b.prefix <= 30 {
      assert Pow2(32 - b.prefix) == 4 * Pow2(30 - b.prefix);
    }
    BlockFits(b.address, 32 - b.prefix, b.prefix);
  }

  lemma {:induction false} BlockFits(x: nat, bits: nat, more: nat)
    requires bits + more == 32 && x < ADDRESSES && Shift(Cut(x, bits), bits) == x
    ensures x + Pow2(bits) <= ADDRESSES
  {
    AllAddresses();
    CutBelow(x, bits, more);
    ShiftBelow(Cut(x, bits), bits, more);
  }

  lemma AllAddresses()
    ensures Pow2(32) == ADDRESSES
  {
    assert Pow2(8) == 0x100;
    assert Pow2(16) == 0x1_0000;
    assert Pow2(24) == 0x100_0000;
  }

  lemma {:induction false} CutBelow(x: nat, bits: nat, more: nat)
    requires x < Pow2(bits + more)
    ensures Cut(x, bits) < Pow2(more)
    decreases bits
  {
    if bits > 0 {
      CutBelow(x / 2, bits - 1, more);
    }
  }

  lemma {:induction false} ShiftBelow(q: nat, bits: nat, more: nat)
    requires q < Pow2(more)
    ensures Shift(q, bits) + Pow2(bits) <= Pow2(bits + more)
    decreases bits
  {
    if bits > 0 {
      ShiftBelow(q, bits - 1, more);
    }
  }

  /** `host_candidates` */
  function HostCandidates(value: string): Result<seq<string>> {
    if IsIpv4Range(value) then ExpandIpv4Range(value)
    else if ParseNetwork(value).Some? then Ok(AddressTexts(HostAddresses(ParseNetwork(value).value)))
    else Ok([value])
  }

  /** The candidates of a block are its addresses, without the first and the last of a larger one. */
  lemma BlockCandidates(value: string, x: nat)
    requires !IsIpv4Range(value) && ParseNetwork(value).Some? && x < ADDRESSES
    ensures var b := ParseNetwork(value).value;
      && HostCandidates(value).Ok?
      && (AddressText(x) in HostCandidates(value).value <==>
            Holds(b, x) && (b.prefix >= 31 || (x != b.address && x != Broadcast(b))))
  {
    AddressTextsMembers(HostAddresses(ParseNetwork(value).value), x);
  }

  lemma AddressTextsMembers(addresses: seq<nat>, x: nat)
    requires x < ADDRESSES && forall i :: 0 <= i < |addresses| ==> addresses[i] < ADDRESSES
    ensures AddressText(x) in AddressTexts(addresses) <==> x in addresses
  {
    var texts := AddressTexts(addresses);
    if AddressText(x) in texts {
      var i :| 0 <= i < |texts| && texts[i] == AddressText(x);
      ParseAddressIs(AddressText(x), x);
      ParseAddressIs(AddressText(x), addresses[i]);
    }
    if x in addresses {
      var i :| 0 <= i < |addresses| && addresses[i] == x;
      assert texts[i] == AddressText(x);
    }
  }
}
