/** The texts of addresses, prefix lengths and blocks, with their numbers written out. */
module Ipv4Texts {
  import opened Ipv4
  import opened Results
  import opened Text

  /** An address is written as its four bytes, the highest first. */
  lemma {:induction false} AddressIsWritten(a: nat, b: nat, c: nat, d: nat)
    requires a <= 255 && b <= 255 && c <= 255 && d <= 255
    ensures AddressText(a * 0x100_0000 + b * 0x1_0000 + c * 0x100 + d) ==
      Decimal(a) + "." + Decimal(b) + "." + Decimal(c) + "." + Decimal(d)
  {
    var o: Octets := [a, b, c, d];
    OctetsRoundTrip(ValueOf(o), o);
    var n := Numerals(o);
    assert n[1..][1..] == n[2..] && n[2..][1..] == n[3..] && n[3..] == [n[3]];
    assert JoinFields(n[2..], '.') == n[2] + ['.'] + n[3];
    assert JoinFields(n[1..], '.') == n[1] + ['.'] + (n[2] + ['.'] + n[3]);
    assert n[0] + ['.'] + (n[1] + ['.'] + (n[2] + ['.'] + n[3]))
        == Decimal(a) + "." + Decimal(b) + "." + Decimal(c) + "." + Decimal(d);
  }

  // ---------- prefix lengths ----------

  lemma {:induction false} PowersGrow(m: nat, n: nat)
    requires m < n
    ensures Pow2(m) < Pow2(n)
    decreases n
  {
    if m < n - 1 {
      PowersGrow(m, n - 1);
    }
  }

  lemma {:induction false} PowersDiffer(m: nat, n: nat)
    ensures Pow2(m) == Pow2(n) <==> m == n
  {
    if m < n {
      PowersGrow(m, n);
    } else if n < m {
      PowersGrow(n, m);
    }
  }

  /** The address whose first `p` bits are ones, and the one whose other bits are. */
  function MaskAddress(isNetmask: bool, p: nat): int
    requires p <= 32
  {
    if isNetmask then 0x1_0000_0000 - Pow2(32 - p) else Pow2(32 - p) - 1
  }

  lemma {:induction false} MaskAddressFits(isNetmask: bool, p: nat)
    requires p <= 32
    ensures 0 <= MaskAddress(isNetmask, p) < ADDRESSES
  {
    PowersAre();
    if p > 0 {
      PowersGrow(32 - p, 32);
    }
  }

  lemma {:induction false} MaskPrefixIs(mask: nat, isNetmask: bool, start: nat, p: nat)
    requires start <= p <= 32
    ensures MaskPrefix(mask, isNetmask, start) == Some(p) <==> mask == MaskAddress(isNetmask, p)
    decreases 33 - start
  {
    PowersDiffer(32 - start, 32 - p);
    if start < p {
      MaskPrefixIs(mask, isNetmask, start + 1, p);
    } else {
      MaskPrefixAtLeast(mask, isNetmask, start + 1);
    }
  }

  lemma {:induction false} MaskPrefixAtLeast(mask: nat, isNetmask: bool, start: nat)
    requires start <= 33
    ensures MaskPrefix(mask, isNetmask, start).Some? ==> MaskPrefix(mask, isNetmask, start).value >= start
    decreases 33 - start
  {
    if start < 33 {
      MaskPrefixAtLeast(mask, isNetmask, start + 1);
    }
  }

  ghost predicate IsMaskText(text: string, isNetmask: bool, p: nat)
    requires p <= 32
  {
    MaskAddressFits(isNetmask, p);
    text == AddressText(MaskAddress(isNetmask, p))
  }

  ghost predicate IsNetmaskText(text: string) {
    exists p: nat :: p <= 32 && IsMaskText(text, true, p)
  }

  lemma {:induction false} MaskTextIs(text: string, isNetmask: bool, p: nat)
    requires p <= 32
    ensures IsMaskText(text, isNetmask, p) <==>
      ParseAddress(text).Some? && MaskPrefix(ParseAddress(text).value, isNetmask, 0) == Some(p)
  {
    MaskAddressFits(isNetmask, p);
    ParseAddressIs(text, MaskAddress(isNetmask, p));
    if ParseAddress(text).Some? {
      MaskPrefixIs(ParseAddress(text).value, isNetmask, 0, p);
    }
  }

  lemma {:induction false} NetmaskTextIs(text: string)
    ensures IsNetmaskText(text) <==>
      ParseAddress(text).Some? && MaskPrefix(ParseAddress(text).value, true, 0).Some?
  {
    if p: nat :| p <= 32 && IsMaskText(text, true, p) {
      MaskTextIs(text, true, p);
    }
    if ParseAddress(text).Some? && MaskPrefix(ParseAddress(text).value, true, 0).Some? {
      MaskTextIs(text, true, MaskPrefix(ParseAddress(text).value, true, 0).value);
    }
  }

  /** A prefix length is written as a number up to 32, as a network mask, or as a host mask that is not
      itself a network mask. */
  lemma {:induction false} PrefixTexts(text: string, p: nat)
    requires p <= 32
    ensures ParsePrefix(text) == Some(p) <==>
      || (IsDigits(text) && DecimalValue(text) == p)
      || IsMaskText(text, true, p)
      || (IsMaskText(text, false, p) && !IsNetmaskText(text))
  {
    MaskTextIs(text, true, p);
    MaskTextIs(text, false, p);
    NetmaskTextIs(text);
    if IsDigits(text) {
      NumberIsNoAddress(text);
    }
  }

  lemma {:induction false} NumberIsNoAddress(text: string)
    requires IsDigits(text)
    ensures ParseAddress(text).None?
  {
    FieldsOfOne(text, '.');
    assert StrictOctets([text]).None?;
  }

  // ---------- blocks ----------

  /** A block is written as an address alone, or as an address, a slash and a prefix length. */
  lemma {:induction false} BlockTexts(text: string, b: Block)
    ensures ParseNetwork(text) == Some(b) <==>
      || (exists x: nat :: x < ADDRESSES && text == AddressText(x) && b == NetworkOf(x, 32))
      || exists x: nat, prefix: string :: IsBlockText(text, b, x, prefix)
  {
    if ParseNetwork(text) == Some(b) {
      ParsedBlock(text, b);
    }
    if x: nat :| x < ADDRESSES && text == AddressText(x) && b == NetworkOf(x, 32) {
      AddressIsNetwork(x);
      assert NetworkOf(x, 32) == Network(x, 32);
    }
    if x: nat, prefix: string :| IsBlockText(text, b, x, prefix) {
      AddressTextCharacters(OctetsOf(x), '/');
      FieldsOfFront(AddressText(x), '/', prefix);
      FieldsOfOne(prefix, '/');
      ParseAddressIs(AddressText(x), x);
    }
  }

  predicate IsBlockText(text: string, b: Block, x: nat, prefix: string) {
    && x < ADDRESSES && text == AddressText(x) + ['/'] + prefix && '/' !in prefix
    && ParsePrefix(prefix).Some? && b == NetworkOf(x, ParsePrefix(prefix).value)
  }

  lemma {:induction false} ParsedBlock(text: string, b: Block)
    requires ParseNetwork(text) == Some(b)
    ensures (exists x: nat :: x < ADDRESSES && text == AddressText(x) && b == NetworkOf(x, 32)) ||
      exists x: nat, prefix: string :: IsBlockText(text, b, x, prefix)
  {
    var fields := Fields(text, '/');
    var x := ParseAddress(fields[0]).value;
    ParseAddressIs(fields[0], x);
    JoinOfFields(text, '/');
    if |fields| == 2 {
      assert fields[1..] == [fields[1]];
      assert IsBlockText(text, b, x, fields[1]);
    }
  }

  lemma {:induction false} ShiftMultiplies(x: nat, bits: nat)
    ensures Shift(x, bits) == x * Pow2(bits)
  {
    if bits > 0 {
      ShiftMultiplies(x, bits - 1);
      assert 2 * (x * Pow2(bits - 1)) == x * (2 * Pow2(bits - 1));
    }
  }

  /** The block around `x` with that prefix length holds the addresses with the same quotient by the power of
      two that its length leaves. */
  lemma {:induction false} BlockHolds(x: nat, prefix: nat, y: nat)
    requires x < ADDRESSES && prefix <= 32
    ensures Holds(NetworkOf(x, prefix), y) <==> y / Pow2(32 - prefix) == x / Pow2(32 - prefix)
  {
    var bits := 32 - prefix;
    SameMaskSameCut(x, y, bits);
    CutDivides(x, bits);
    CutDivides(y, bits);
  }

  lemma {:induction false} CutDivides(x: nat, bits: nat)
    ensures Cut(x, bits) == x / Pow2(bits)
  {
    var q := Cut(x, bits);
    CutIs(x, bits, q);
    ShiftMultiplies(q, bits);
    QuotientIs(x, Pow2(bits), q);
  }

  lemma {:induction false} QuotientIs(x: nat, d: nat, q: nat)
    requires d > 0 && q * d <= x < q * d + d
    ensures x / d == q
  {
    var k := x / d;
    assert x == k * d + x % d;
    if k < q {
      MultiplesGrow(k + 1, q, d);
    } else if q < k {
      MultiplesGrow(q + 1, k, d);
    }
  }

  lemma {:induction false} MultiplesGrow(m: nat, n: nat, d: nat)
    requires m <= n
    ensures m * d <= n * d
  {
  }

  lemma {:induction false} PowersAre()
    ensures Pow2(0) == 1 && Pow2(8) == 0x100 && Pow2(16) == 0x1_0000 && Pow2(24) == 0x100_0000
    ensures Pow2(32) == 0x1_0000_0000
  {
    assert Pow2(4) == 16;
    assert Pow2(8) == 256;
    assert Pow2(12) == 4096;
    assert Pow2(16) == 65536;
    assert Pow2(20) == 1048576;
    assert Pow2(24) == 16777216;
    assert Pow2(28) == 268435456;
  }
}
