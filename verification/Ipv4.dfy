/** IPv4 addresses as text and as numbers, and CIDR blocks as aligned intervals. */
module Ipv4 {
  import opened Results
  import opened Text

  // ---------- octets ----------

  /** The octets of an address, first to last. */
  type Octets = o: seq<nat> | |o| == 4 && forall i :: 0 <= i < 4 ==> o[i] <= 255
    witness [0, 0, 0, 0]

  const ADDRESSES: nat := 0x1_0000_0000

  function ValueOf(o: Octets): (x: nat)
    ensures x < ADDRESSES
  {
    ((o[0] * 256 + o[1]) * 256 + o[2]) * 256 + o[3]
  }

  function OctetsOf(x: nat): Octets
    requires x < ADDRESSES
  {
    [x / 256 / 256 / 256, x / 256 / 256 % 256, x / 256 % 256, x % 256]
  }

  lemma OctetsRoundTrip(x: nat, o: Octets)
    requires x < ADDRESSES
    ensures ValueOf(OctetsOf(x)) == x && (ValueOf(o) == x <==> o == OctetsOf(x))
  {
    DivideBack(o[0] * 256 * 256 + o[1] * 256 + o[2], o[3]);
    DivideBack(o[0] * 256 + o[1], o[2]);
    DivideBack(o[0], o[1]);
    assert OctetsOf(ValueOf(o)) == o;
  }

  lemma DivideBack(high: nat, low: nat)
    requires low < 256
    ensures (high * 256 + low) / 256 == high && (high * 256 + low) % 256 == low
  {
  }

  function Numerals(o: seq<nat>): (r: seq<string>)
    ensures |r| == |o| && forall i :: 0 <= i < |r| ==> r[i] == Decimal(o[i])
  {
    seq(|o|, i requires 0 <= i < |o| => Decimal(o[i]))
  }

  /** `".".join(str(octet) for octet in o)` */
  function Dotted(o: seq<nat>): string
    requires o != []
  {
    JoinFields(Numerals(o), '.')
  }

  lemma NumeralsHaveNoDots(o: seq<nat>)
    requires o != []
    ensures Fields(Dotted(o), '.') == Numerals(o)
  {
    FieldsOfJoin(Numerals(o), '.');
  }

  // ---------- addresses ----------

  /** The strict octet syntax of `ipaddress`: at most three digits and no leading zero. */
  function StrictOctet(part: string): (r: Option<nat>)
    ensures r.Some? ==> r.value <= 255
  {
    if IsNumeral(part) && |part| <= 3 && DecimalValue(part) <= 255 then Some(DecimalValue(part)) else None
  }

  /** Only the decimal text of an octet has that syntax. */
  lemma StrictOctetIs(part: string, n: nat)
    ensures StrictOctet(part) == Some(n) <==> n <= 255 && part == Decimal(n)
  {
    DecimalRoundTrip(n);
    if IsNumeral(part) {
      NumeralRoundTrip(part);
    }
    if n <= 255 {
      assert n >= 100 ==> |Decimal(n / 10)| == |Decimal(n / 10 / 10)| + 1;
      assert |Decimal(n)| <= 3;
    }
  }

  function StrictOctets(parts: seq<string>): (r: Option<Octets>) {
    if |parts| == 4 && forall i :: 0 <= i < 4 ==> StrictOctet(parts[i]).Some?
    then Some([StrictOctet(parts[0]).value, StrictOctet(parts[1]).value,
               StrictOctet(parts[2]).value, StrictOctet(parts[3]).value])
    else None
  }

  /** `ipaddress.ip_address`, for IPv4. */
  function ParseAddress(text: string): (r: Option<nat>)
    ensures r.Some? ==> r.value < ADDRESSES
  {
    var octets := StrictOctets(Fields(text, '.'));
    if octets.Some? then Some(ValueOf(octets.value)) else None
  }

  /** `str` of an address. */
  function AddressText(x: nat): string
    requires x < ADDRESSES
  {
    Dotted(OctetsOf(x))
  }

  lemma StrictOctetsIs(parts: seq<string>, o: Octets)
    ensures StrictOctets(parts) == Some(o) <==> parts == Numerals(o)
  {
    forall i | 0 <= i < 4 && i < |parts|
      ensures StrictOctet(parts[i]) == Some(o[i]) <==> parts[i] == Decimal(o[i])
    {
      StrictOctetIs(parts[i], o[i]);
    }
    if StrictOctets(parts) == Some(o) {
      assert forall i :: 0 <= i < 4 ==> parts[i] == Decimal(o[i]);
    }
    if parts == Numerals(o) {
      assert forall i :: 0 <= i < 4 ==> StrictOctet(parts[i]) == Some(o[i]);
      assert StrictOctets(parts).value == o;
    }
  }

  /** An address has exactly one text. */
  lemma ParseAddressIs(text: string, x: nat)
    ensures ParseAddress(text) == Some(x) <==> x < ADDRESSES && text == AddressText(x)
  {
    JoinOfFields(text, '.');
    if x < ADDRESSES {
      var o := OctetsOf(x);
      NumeralsHaveNoDots(o);
      StrictOctetsIs(Fields(text, '.'), o);
      var octets := StrictOctets(Fields(text, '.'));
      if octets.Some? {
        OctetsRoundTrip(x, octets.value);
      } else {
        OctetsRoundTrip(x, o);
      }
    }
  }

  // ---------- blocks ----------

  function Pow2(n: nat): (r: nat)
    ensures r > 0
  {
    if n == 0 then 1 else 2 * Pow2(n - 1)
  }

  /** `x >> bits` */
  function Cut(x: nat, bits: nat): nat
    decreases bits
  {
    if bits == 0 then x else Cut(x / 2, bits - 1)
  }

  /** `x << bits` */
  function Shift(x: nat, bits: nat): nat {
    if bits == 0 then x else 2 * Shift(x, bits - 1)
  }

  /** How many addresses a prefix length leaves. */
  function Size(prefix: nat): (r: nat)
    requires prefix <= 32
    ensures r > 0
  {
    Pow2(32 - prefix)
  }

  /** The address without its host bits. */
  function Masked(x: nat, prefix: nat): nat
    requires prefix <= 32
  {
    Shift(Cut(x, 32 - prefix), 32 - prefix)
  }

  /** The numbers with the same high bits are an aligned interval. */
  lemma {:induction false} CutIs(x: nat, bits: nat, q: nat)
    ensures Cut(x, bits) == q <==> Shift(q, bits) <= x < Shift(q, bits) + Pow2(bits)
    decreases bits
  {
    if bits > 0 {
      CutIs(x / 2, bits - 1, q);
    }
  }

  lemma {:induction false} CutTwice(x: nat, m: nat, n: nat)
    ensures Cut(x, m + n) == Cut(Cut(x, m), n)
    decreases m
  {
    if m > 0 {
      CutTwice(x / 2, m - 1, n);
    }
  }

  /** Two numbers have the same mask exactly when they have the same high bits. */
  lemma SameMaskSameCut(x: nat, y: nat, bits: nat)
    ensures Shift(Cut(x, bits), bits) == Shift(Cut(y, bits), bits) <==> Cut(x, bits) == Cut(y, bits)
  {
    var p, q := Cut(x, bits), Cut(y, bits);
    CutIs(Shift(p, bits), bits, p);
    CutIs(Shift(p, bits), bits, q);
  }

  /** A network address and a prefix length. */
  datatype Network = Network(address: nat, prefix: nat)

  ghost predicate Aligned(b: Network) {
    b.prefix <= 32 && b.address < ADDRESSES && Masked(b.address, b.prefix) == b.address
  }

  /** A CIDR block: an aligned interval of addresses. */
  type Block = b: Network | Aligned(b) ghost witness (SizeIs(); Network(0, 32))

  function Broadcast(b: Block): nat {
    b.address + Size(b.prefix) - 1
  }

  /** `address in network` */
  predicate Holds(b: Block, x: nat) {
    Masked(x, b.prefix) == b.address
  }

  /** `a.overlaps(b)` */
  predicate Overlaps(a: Block, b: Block) {
    Holds(b, a.address) || Holds(b, Broadcast(a)) || Holds(a, b.address) || Holds(a, Broadcast(b))
  }

  /** `a.subnet_of(b)` */
  predicate SubnetOf(a: Block, b: Block) {
    b.address <= a.address && Broadcast(b) >= Broadcast(a)
  }

  lemma SizeIs()
    ensures Size(32) == 1 && Masked(0, 32) == 0
  {
  }

  /** A block holds exactly the interval from its address to its broadcast address. */
  lemma HoldsInterval(b: Block, x: nat)
    ensures Holds(b, x) <==> b.address <= x <= Broadcast(b)
  {
    var bits := 32 - b.prefix;
    CutIs(x, bits, Cut(b.address, bits));
    SameMaskSameCut(x, b.address, bits);
  }

  lemma BlockHoldsItsEnds(b: Block)
    ensures Holds(b, b.address) && Holds(b, Broadcast(b)) && b.address <= Broadcast(b)
  {
    HoldsInterval(b, b.address);
    HoldsInterval(b, Broadcast(b));
  }

  ghost predicate Share(a: Block, b: Block) {
    exists x: nat :: Holds(a, x) && Holds(b, x)
  }

  ghost predicate Inside(a: Block, b: Block) {
    forall x: nat :: Holds(a, x) ==> Holds(b, x)
  }

  /** `overlaps` means a shared address. */
  lemma OverlapsMeans(a: Block, b: Block)
    ensures Overlaps(a, b) <==> Share(a, b)
  {
    BlockHoldsItsEnds(a);
    BlockHoldsItsEnds(b);
    if x: nat :| Holds(a, x) && Holds(b, x) {
      HoldsInterval(a, x);
      HoldsInterval(b, x);
      HoldsInterval(b, a.address);
      HoldsInterval(a, b.address);
    }
  }

  /** `subnet_of` means that every address is shared. */
  lemma SubnetOfMeans(a: Block, b: Block)
    ensures SubnetOf(a, b) <==> Inside(a, b)
  {
    BlockHoldsItsEnds(a);
    HoldsInterval(b, a.address);
    HoldsInterval(b, Broadcast(a));
    if SubnetOf(a, b) {
      forall x: nat | Holds(a, x)
        ensures Holds(b, x)
      {
        HoldsInterval(a, x);
        HoldsInterval(b, x);
      }
    }
  }

  /** Two blocks are nested or disjoint: the smaller one lies in the other as soon as they share an
      address. */
  lemma NestedOrDisjoint(a: Block, b: Block)
    requires a.prefix >= b.prefix
    ensures Overlaps(a, b) <==> SubnetOf(a, b)
  {
    OverlapsMeans(a, b);
    SubnetOfMeans(a, b);
    BlockHoldsItsEnds(a);
    if x: nat :| Holds(a, x) && Holds(b, x) {
      forall y: nat | Holds(a, y)
        ensures Holds(b, y)
      {
        SameMask(x, y, a.prefix, b.prefix);
      }
    }
  }

  lemma SameMask(x: nat, y: nat, long: nat, short: nat)
    requires short <= long <= 32 && Masked(x, long) == Masked(y, long)
    ensures Masked(x, short) == Masked(y, short)
  {
    SameMaskSameCut(x, y, 32 - long);
    CutTwice(x, 32 - long, long - short);
    CutTwice(y, 32 - long, long - short);
  }

  // ---------- blocks as text ----------

  function NetworkOf(x: nat, prefix: nat): Block
    requires x < ADDRESSES && prefix <= 32
  {
    MaskedAgain(x, prefix);
    Network(Masked(x, prefix), prefix)
  }

  lemma MaskedAgain(x: nat, prefix: nat)
    requires prefix <= 32
    ensures Masked(Masked(x, prefix), prefix) == Masked(x, prefix) <= x
  {
    var bits := 32 - prefix;
    CutIs(x, bits, Cut(x, bits));
    CutIs(Masked(x, prefix), bits, Cut(x, bits));
  }

  /** The prefix length of a netmask, or else of a host mask, looking from `p` on. */
  function MaskPrefix(mask: nat, isNetmask: bool, p: nat): (r: Option<nat>)
    requires p <= 33
    ensures r.Some? ==> r.value <= 32
    decreases 33 - p
  {
    if p == 33 then None
    else if mask == (if isNetmask then ADDRESSES - Size(p) else Size(p) - 1) then Some(p)
    else MaskPrefix(mask, isNetmask, p + 1)
  }

  function ParsePrefix(text: string): (r: Option<nat>)
    ensures r.Some? ==> r.value <= 32
  {
    if IsDigits(text) && DecimalValue(text) <= 32 then Some(DecimalValue(text))
    else
      var mask := ParseAddress(text);
      if mask.None? then None
      else
        var p := MaskPrefix(mask.value, true, 0);
        if p.Some? then p else MaskPrefix(mask.value, false, 0)
  }

  /** `ipaddress.ip_network(text, strict=False)`, for IPv4. */
  function ParseNetwork(text: string): Option<Block> {
    var fields := Fields(text, '/');
    var address := ParseAddress(fields[0]);
    if |fields| > 2 || address.None? then None
    else if |fields| == 1 then Some(NetworkOf(address.value, 32))
    else
      var prefix := ParsePrefix(fields[1]);
      if prefix.Some? then Some(NetworkOf(address.value, prefix.value)) else None
  }

  lemma {:induction false} JoinedContains(fields: seq<string>, c: char, d: char)
    requires fields != [] && c != d && forall i :: 0 <= i < |fields| ==> d !in fields[i]
    ensures d !in JoinFields(fields, c)
  {
    if |fields| > 1 {
      JoinedContains(fields[1..], c, d);
    }
  }

  lemma AddressTextCharacters(o: seq<nat>, d: char)
    requires o != [] && d != '.' && !IsDigit(d)
    ensures d !in Dotted(o)
  {
    JoinedContains(Numerals(o), '.', d);
  }

  /** An address is also the block of that one address. */
  lemma AddressIsNetwork(x: nat)
    requires x < ADDRESSES
    ensures ParseNetwork(AddressText(x)) == Some(Network(x, 32))
    ensures forall y: nat :: Holds(NetworkOf(x, 32), y) <==> y == x
  {
    AddressTextCharacters(OctetsOf(x), '/');
    FieldsOfOne(AddressText(x), '/');
    ParseAddressIs(AddressText(x), x);
  }

  /** Reading back an address and a prefix length gives the block around the address. */
  lemma CidrRoundTrip(x: nat, prefix: nat)
    requires x < ADDRESSES && prefix <= 32
    ensures ParseNetwork(AddressText(x) + "/" + Decimal(prefix)) == Some(NetworkOf(x, prefix))
    ensures Holds(NetworkOf(x, prefix), x)
  {
    var p := Decimal(prefix);
    AddressTextCharacters(OctetsOf(x), '/');
    FieldsOfFront(AddressText(x), '/', p);
    FieldsOfOne(p, '/');
    ParseAddressIs(AddressText(x), x);
    DecimalRoundTrip(prefix);
  }
}
