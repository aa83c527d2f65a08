/** Durable serials: fixed-width Crockford Base32 text, lookup that forgives case and the letters
    that look like digits, and resolution of a unique match. */
module Serials {
  import opened Results
  import opened Sorting
  import opened Text

  const ALPHABET: string := "0123456789ABCDEFGHJKMNPQRSTVWXYZ"
  const BODY_LENGTH: nat := 26

  // ---------- the alphabet ----------

  /** The digits, and the letters without I, L, O and U. */
  predicate IsSymbol(c: char) {
    IsDigit(c) || ('A' <= c <= 'Z' && c !in "ILOU")
  }

  function At(s: string, i: nat): char
    requires i < |s|
  {
    if i == 0 then s[0] else At(s[1..], i - 1)
  }

  lemma {:induction false} AtIs(s: string, i: nat)
    requires i < |s|
    ensures At(s, i) == s[i]
  {
    if i > 0 {
      AtIs(s[1..], i - 1);
    }
  }

  lemma AlphabetIsSymbols()
    ensures forall d :: 0 <= d < 32 ==> IsSymbol(ALPHABET[d])
  {
  }

  lemma SymbolsAreInAlphabet()
    ensures forall c :: IsSymbol(c) ==> c in ALPHABET
  {
    assert forall c :: IsSymbol(c) && c <= '9' ==> c == ALPHABET[c as int - 48];
    assert forall c :: IsSymbol(c) && 'A' <= c <= 'H' ==> c == ALPHABET[c as int - 55];
  }

  lemma AlphabetAscends()
    ensures forall i, j :: 0 <= i < j < 32 ==> ALPHABET[i] < ALPHABET[j]
  {
    assert forall i :: 0 <= i < 10 ==> ALPHABET[i] as int == 48 + i;
    assert forall i :: 10 <= i < 18 ==> ALPHABET[i] as int == 55 + i;
    assert forall i :: 18 <= i < 31 ==> ALPHABET[i] < ALPHABET[i + 1];
    assert |ALPHABET| == 32;
    NeighboursAscend(ALPHABET);
  }

  lemma {:induction false} NeighboursAscend(s: string)
    requires forall i :: 0 <= i < |s| - 1 ==> s[i] < s[i + 1]
    ensures forall i, j :: 0 <= i < j < |s| ==> s[i] < s[j]
  {
    if s != "" {
      var n := |s| - 1;
      NeighboursAscend(s[..n]);
      assert n > 0 ==> s[n - 1] < s[n - 1 + 1];
      assert forall i :: 0 <= i < n ==> s[i] == s[..n][i];
      assert n > 0 ==> forall i :: 0 <= i < n - 1 ==> s[..n][i] < s[..n][n - 1];
    }
  }

  /** The symbol of a digit. */
  function Symbol(d: nat): (c: char)
    requires d < 32
    ensures IsSymbol(c)
  {
    AtIs(ALPHABET, d);
    AlphabetIsSymbols();
    At(ALPHABET, d)
  }

  lemma SymbolsAscend()
    ensures forall i, j :: 0 <= i < j < 32 ==> Symbol(i) < Symbol(j)
  {
    forall i, j | 0 <= i < j < 32
      ensures Symbol(i) < Symbol(j)
    {
      AtIs(ALPHABET, i);
      AtIs(ALPHABET, j);
      AlphabetAscends();
    }
  }

  // ---------- encoding ----------

  function Pow32(n: nat): (r: nat)
    ensures r > 0
  {
    if n == 0 then 1 else 32 * Pow32(n - 1)
  }

  /** The last `n` Base32 digits of a value. */
  function Encoded(value: int, n: nat): (r: string)
    ensures |r| == n && forall i :: 0 <= i < n ==> IsSymbol(r[i])
    decreases n
  {
    if n == 0 then "" else Encoded(value / 32, n - 1) + [Symbol(value % 32)]
  }

  function Reversed(s: string): string {
    if s == "" then "" else Reversed(s[1..]) + [s[0]]
  }

  lemma {:induction false} ReversedOneMore(s: string, c: char)
    ensures Reversed(s + [c]) == [c] + Reversed(s)
  {
    if s != "" {
      assert (s + [c])[0] == s[0] && (s + [c])[1..] == s[1..] + [c];
      ReversedOneMore(s[1..], c);
    }
  }

  method CrockfordBase32(value: int, length: nat) returns (text: string)
    ensures text == Encoded(value, length)
  {
    var rest, chars := value, "";
    for i := 0 to length
      invariant Encoded(value, length) == Encoded(rest, length - i) + Reversed(chars)
    {
      ReversedOneMore(chars, Symbol(rest % 32));
      Associative(Encoded(rest / 32, length - i - 1), [Symbol(rest % 32)], Reversed(chars));
      rest, chars := rest / 32, chars + [Symbol(rest % 32)];
    }
    text := Reversed(chars);
  }

  function DigitValue(c: char): (d: nat)
    requires IsSymbol(c)
    ensures d < 32 && Symbol(d) == c
  {
    SymbolsAreInAlphabet();
    var d := IndexIn(c, ALPHABET);
    AtIs(ALPHABET, d);
    d
  }

  /** The value a numeral stands for. */
  function Decode(s: string): nat
    requires forall i :: 0 <= i < |s| ==> IsSymbol(s[i])
  {
    if s == "" then 0 else 32 * Decode(s[..|s| - 1]) + DigitValue(s[|s| - 1])
  }

  /** A value without its last `k` Base32 digits. */
  function Leading(v: int, k: nat): int
    decreases k
  {
    if k == 0 then v else Leading(v / 32, k - 1)
  }

  /** A value with `k` zeros after it. */
  function Shifted(v: int, k: nat): int {
    if k == 0 then v else 32 * Shifted(v, k - 1)
  }

  lemma {:induction false} LeadingFits(v: nat, n: nat, k: nat)
    requires k <= n && v < Pow32(n)
    ensures 0 <= Leading(v, n - k) < Pow32(k)
    decreases n
  {
    if k < n {
      LeadingFits(v / 32, n - 1, k);
    }
  }

  lemma {:induction false} ShiftedZero(k: nat)
    ensures Shifted(0, k) == 0
  {
    if k > 0 {
      ShiftedZero(k - 1);
    }
  }

  /** Decoding an encoding gives the value but for the digits that do not fit the width; so it inverts
      encoding on every value that fits. */
  lemma {:induction false} DecodeEncoded(value: int, n: nat)
    ensures value == Shifted(Leading(value, n), n) + Decode(Encoded(value, n))
    ensures 0 <= value < Pow32(n) ==> Decode(Encoded(value, n)) == value
    decreases n
  {
    if n > 0 {
      DecodeEncoded(value / 32, n - 1);
      DecodeOneMore(Encoded(value / 32, n - 1), value % 32);
    }
    if 0 <= value < Pow32(n) {
      LeadingFits(value, n, 0);
      ShiftedZero(n);
    }
  }

  lemma DecodeOneMore(s: string, d: nat)
    requires d < 32 && forall i :: 0 <= i < |s| ==> IsSymbol(s[i])
    ensures Decode(s + [Symbol(d)]) == 32 * Decode(s) + d
  {
    assert (s + [Symbol(d)])[..|s|] == s;
    SymbolsAscend();
    assert DigitValue(Symbol(d)) == d;
  }

  /** 26 digits hold the 128 random bits, and up to 130. */
  lemma BodyRange()
    ensures Pow32(BODY_LENGTH) == 0x4_0000_0000_0000_0000_0000_0000_0000_0000
  {
    assert Pow32(13) == 0x2_0000_0000_0000_0000 by {
      assert Pow32(6) == 0x4000_0000;
    }
    assert Pow32(19) == 0x8000_0000_0000_0000_0000_0000 by {
      assert Pow32(16) == 0x1_0000_0000_0000_0000_0000;
    }
    assert Pow32(22) == 0x4000_0000_0000_0000_0000_0000_0000;
  }

  // ---------- order ----------

  lemma {:induction false} AtMostAppend(a: string, b: string, c: char, d: char)
    requires |a| == |b|
    ensures AtMost(a + [c], b + [d]) <==> if a == b then c <= d else AtMost(a, b)
  {
    var s, t := a + [c], b + [d];
    if a == "" {
      assert s == [c] && t == [d] && s[1..] == "";
    } else {
      assert s[0] == a[0] && t[0] == b[0] && s[1..] == a[1..] + [c] && t[1..] == b[1..] + [d];
      assert a == [a[0]] + a[1..] && b == [b[0]] + b[1..];
      AtMostAppend(a[1..], b[1..], c, d);
    }
  }

  /** Text order is numeric order. */
  lemma {:induction false} TextOrderIsNumericOrder(v: nat, w: nat, n: nat)
    requires v < Pow32(n) && w < Pow32(n)
    ensures AtMost(Encoded(v, n), Encoded(w, n)) <==> v <= w
    decreases n
  {
    if n > 0 {
      TextOrderIsNumericOrder(v / 32, w / 32, n - 1);
      EncodedInjective(v / 32, w / 32, n - 1);
      AtMostAppend(Encoded(v / 32, n - 1), Encoded(w / 32, n - 1), Symbol(v % 32), Symbol(w % 32));
      SymbolsAscend();
      assert AtMost(Encoded(v / 32, n - 1), Encoded(w / 32, n - 1)) <==> v / 32 <= w / 32;
    }
  }

  lemma EncodedInjective(v: nat, w: nat, n: nat)
    requires v < Pow32(n) && w < Pow32(n)
    ensures Encoded(v, n) == Encoded(w, n) <==> v == w
  {
    DecodeEncoded(v, n);
    DecodeEncoded(w, n);
  }

  lemma Front(s: string, t: string, k: nat)
    requires k <= |s|
    ensures (s + t)[..k] == s[..k]
  {
  }

  /** A text prefix of an encoding is the encoding of the leading digits. */
  lemma {:induction false} EncodedPrefix(v: int, n: nat, k: nat)
    requires k <= n
    ensures Encoded(v, n)[..k] == Encoded(Leading(v, n - k), k)
    decreases n
  {
    if k == n {
      assert Encoded(v, n)[..n] == Encoded(v, n);
    } else {
      EncodedPrefix(v / 32, n - 1, k);
      Front(Encoded(v / 32, n - 1), [Symbol(v % 32)], k);
    }
  }

  /** Two encodings share their first `k` digits exactly when the values agree on the leading digits. */
  lemma SharedPrefix(v: nat, w: nat, n: nat, k: nat)
    requires k <= n && v < Pow32(n) && w < Pow32(n)
    ensures Encoded(v, n)[..k] == Encoded(w, n)[..k] <==> Leading(v, n - k) == Leading(w, n - k)
  {
    EncodedPrefix(v, n, k);
    EncodedPrefix(w, n, k);
    LeadingFits(v, n, k);
    LeadingFits(w, n, k);
    EncodedInjective(Leading(v, n - k), Leading(w, n - k), k);
  }

  // ---------- lookup ----------

  function Upper(c: char): char {
    if 'a' <= c <= 'z' then (c as int - 32) as char else c
  }

  function NormalChar(c: char): char {
    var u := Upper(c);
    if u == 'I' || u == 'L' then '1' else if u == 'O' then '0' else u
  }

  function NormalizeSerialLookup(value: string): (r: string)
    ensures |r| == |value| && forall i :: 0 <= i < |r| ==> r[i] == NormalChar(value[i])
  {
    seq(|value|, i requires 0 <= i < |value| => NormalChar(value[i]))
  }

  /** The text after the first hyphen. */
  function SerialBody(value: string): string {
    if '-' in value then value[IndexIn('-', value) + 1..] else value
  }

  predicate SerialMatches(stored: string, query: string) {
    var s, q := NormalizeSerialLookup(stored), NormalizeSerialLookup(query);
    s == q || (if '-' in q then q <= s else q <= SerialBody(s))
  }

  /** The ways to type a Base32 digit. */
  ghost predicate Types(c: char, digit: char) {
    || c == digit
    || ('a' <= c <= 'z' && c as int - 'a' as int == digit as int - 'A' as int)
    || (digit == '1' && c in "iIlL")
    || (digit == '0' && c in "oO")
  }

  /** `typed` is a way to type the first digits of `body`. */
  ghost predicate TypesPrefix(typed: string, body: string) {
    |typed| <= |body| && forall i :: 0 <= i < |typed| ==> Types(typed[i], body[i])
  }

  ghost predicate InAlphabet(s: string) {
    forall i :: 0 <= i < |s| ==> IsSymbol(s[i])
  }

  lemma TypingADigit(c: char, digit: char)
    requires IsSymbol(digit)
    ensures NormalChar(c) == digit <==> Types(c, digit)
    ensures NormalChar(digit) == digit && digit != '-'
  {
  }

  /** Normalising gives a prefix of a body exactly for the ways to type it. */
  lemma TypingAPrefix(typed: string, body: string)
    requires InAlphabet(body)
    ensures NormalizeSerialLookup(typed) <= body <==> TypesPrefix(typed, body)
    ensures TypesPrefix(typed, body) ==> '-' !in typed
  {
    var q := NormalizeSerialLookup(typed);
    forall i | 0 <= i < |body| && i < |typed|
      ensures q[i] == body[i] <==> Types(typed[i], body[i])
    {
      TypingADigit(typed[i], body[i]);
    }
    assert TypesPrefix(typed, body) ==> q == body[..|q|];
    assert forall i :: 0 <= i < |typed| && |typed| <= |body| && Types(typed[i], body[i]) ==> IsSymbol(body[i]);
  }

  lemma NormalHyphens(s: string)
    ensures '-' in s <==> '-' in NormalizeSerialLookup(s)
  {
    var r := NormalizeSerialLookup(s);
    assert forall i :: 0 <= i < |s| ==> (s[i] == '-' <==> r[i] == '-');
    if '-' in s { var i :| 0 <= i < |s| && s[i] == '-'; assert r[i] == '-'; }
    if '-' in r { var i :| 0 <= i < |r| && r[i] == '-'; assert s[i] == '-'; }
  }

  lemma {:induction false} FirstHyphen(prefix: string, rest: string)
    requires '-' !in prefix
    ensures IndexIn('-', prefix + "-" + rest) == |prefix|
  {
    var s := prefix + "-" + rest;
    if prefix != "" {
      assert s[0] == prefix[0] && s[1..] == prefix[1..] + "-" + rest;
      FirstHyphen(prefix[1..], rest);
    } else {
      assert s[0] == '-';
    }
  }

  lemma BodyAfterPrefix(prefix: string, rest: string)
    requires '-' !in prefix
    ensures SerialBody(prefix + "-" + rest) == rest && '-' in prefix + "-" + rest
  {
    var s := prefix + "-" + rest;
    FirstHyphen(prefix, rest);
    assert s[|prefix|] == '-' && s[|prefix| + 1..] == rest;
  }

  lemma NormalSerial(prefix: string, body: string)
    requires InAlphabet(body)
    ensures NormalizeSerialLookup(prefix + "-" + body) == NormalizeSerialLookup(prefix) + "-" + body
  {
    forall i | 0 <= i < |body|
      ensures NormalChar(body[i]) == body[i]
    {
      TypingADigit(body[i], body[i]);
    }
  }

  /** With a one-word prefix, a query without a hyphen matches exactly when it types the first digits
      of the body. */
  lemma BareBodyLookup(prefix: string, body: string, query: string)
    requires '-' !in prefix && InAlphabet(body) && '-' !in query
    ensures SerialMatches(prefix + "-" + body, query) <==> TypesPrefix(query, body)
  {
    var stored := prefix + "-" + body;
    var p := NormalizeSerialLookup(prefix);
    NormalSerial(prefix, body);
    NormalHyphens(prefix);
    NormalHyphens(query);
    BodyAfterPrefix(p, body);
    TypingAPrefix(query, body);
  }

  lemma {:induction false} HyphenCutsOnce(p: string, t: string, rest: string, more: string)
    requires '-' !in p && '-' !in t
    ensures p + "-" + rest == t + "-" + more <==> p == t && rest == more
  {
    var s := p + "-" + rest;
    if s == t + "-" + more {
      FirstHyphen(p, rest);
      FirstHyphen(t, more);
      assert rest == s[|p| + 1..] && more == s[|t| + 1..];
      assert p == s[..|p|] && t == s[..|t|];
    }
  }

  lemma PrefixAfterHyphen(p: string, t: string, q: string, body: string)
    requires '-' !in p && '-' !in t
    ensures t + "-" + q <= p + "-" + body <==> t == p && q <= body
  {
    var s, full := p + "-" + body, t + "-" + q;
    if full <= s {
      var more := s[|full|..];
      assert s == t + "-" + (q + more);
      HyphenCutsOnce(p, t, body, q + more);
    }
    if t == p && q <= body {
      assert s == full + body[|q|..];
    }
  }

  /** With the prefix typed too, in any case, the rest types the first digits of the body. */
  lemma PrefixedLookup(prefix: string, body: string, typed: string, query: string)
    requires '-' !in prefix && '-' !in typed && InAlphabet(body)
    ensures SerialMatches(prefix + "-" + body, typed + "-" + query)
       <==> NormalizeSerialLookup(typed) == NormalizeSerialLookup(prefix) && TypesPrefix(query, body)
  {
    var p, t, q := NormalizeSerialLookup(prefix), NormalizeSerialLookup(typed), NormalizeSerialLookup(query);
    NormalSerial(prefix, body);
    NormalHyphens(prefix);
    NormalHyphens(typed);
    assert NormalizeSerialLookup(typed + "-" + query) == t + "-" + q;
    assert (t + "-" + q)[|t|] == '-';
    TypingAPrefix(query, body);
    PrefixAfterHyphen(p, t, q, body);
  }

  /** A hyphen inside the prefix hides the body: a bare query then has to start with the second word. */
  lemma TwoWordPrefixHidesBody(word: string, rest: string, body: string, query: string)
    requires '-' !in word && InAlphabet(body) && '-' !in query
    ensures SerialMatches(word + "-" + rest + "-" + body, query)
       <==> NormalizeSerialLookup(query) <= NormalizeSerialLookup(rest)
  {
    var w, r, q := NormalizeSerialLookup(word), NormalizeSerialLookup(rest), NormalizeSerialLookup(query);
    NormalSerial(word + "-" + rest, body);
    assert NormalizeSerialLookup(word + "-" + rest) == w + "-" + r;
    Associative(w + "-", r, "-" + body);
    Associative(w + "-" + r, "-", body);
    Associative(r, "-", body);
    NormalHyphens(word);
    NormalHyphens(query);
    BodyAfterPrefix(w, r + "-" + body);
    PrefixBeforeHyphen(q, r, body);
  }

  lemma PrefixBeforeHyphen(q: string, r: string, body: string)
    requires '-' !in q
    ensures q <= r + "-" + body <==> q <= r
  {
    var s := r + "-" + body;
    assert s[|r|] == '-' && s[..|r|] == r;
    assert q <= s ==> forall i :: 0 <= i < |q| ==> q[i] == s[i];
  }

  // ---------- resolution ----------

  /** Tells exactly whether none, one or several of the values match. */
  function ResolveSerialMatch(query: string, values: seq<string>): (r: Result<Option<string>>)
    ensures r == Ok(None) <==> forall v :: v in values ==> !SerialMatches(v, query)
    ensures forall v :: r == Ok(Some(v)) <==>
      v in values && SerialMatches(v, query) && forall w :: w in values && SerialMatches(w, query) ==> w == v
    ensures r.Error? <==>
      exists v, w :: v in values && w in values && v != w && SerialMatches(v, query) && SerialMatches(w, query)
  {
    var matches := set v | v in values && SerialMatches(v, query);
    var found := SortedKeys(matches);
    assert forall v :: v in values && SerialMatches(v, query) ==> v in found;
    if found == [] then Ok(None)
    else if |found| > 1 then Error("ambiguous serial prefix: " + query)
    else
      assert found == [found[0]];
      Ok(Some(found[0]))
  }

  function IsAlnum(c: char): bool {
    'a' <= c <= 'z' || 'A' <= c <= 'Z' || IsDigit(c)
  }

  function TrimHyphens(s: string): string {
    if s != "" && s[0] == '-' then TrimHyphens(s[1..])
    else if s != "" && s[|s| - 1] == '-' then TrimHyphens(s[..|s| - 1])
    else s
  }

  function SafeText(s: string): (r: string)
    ensures |r| == |s| && forall i :: 0 <= i < |r| ==> r[i] == if IsAlnum(s[i]) then s[i] else '-'
  {
    seq(|s|, i requires 0 <= i < |s| => if IsAlnum(s[i]) then s[i] else '-')
  }

  function SafePrefix(prefix: string): string {
    TrimHyphens(SafeText(prefix))
  }

  /** A serial with a body of `n` digits. */
  function SerialText(prefix: string, value: nat, n: nat): string {
    SafePrefix(prefix) + "-" + Encoded(value, n)
  }

  /** `new_serial` on its random value. */
  function NewSerial(prefix: string, value: nat): string {
    SerialText(prefix, value, BODY_LENGTH)
  }

  /** Every stored serial is found by its full body. */
  lemma NewSerialsAreFound(prefix: string, values: seq<nat>, v: nat)
    requires '-' !in SafePrefix(prefix) && v in values && forall w :: w in values ==> w < Pow32(BODY_LENGTH)
    ensures ResolveSerialMatch(Encoded(v, BODY_LENGTH), SerialTexts(prefix, values, BODY_LENGTH)) ==
      Ok(Some(NewSerial(prefix, v)))
  {
    TypedBodyResolves(prefix, values, v, BODY_LENGTH, Encoded(v, BODY_LENGTH));
  }

  function SerialTexts(prefix: string, values: seq<nat>, n: nat): (r: seq<string>)
    ensures |r| == |values| && forall i :: 0 <= i < |r| ==> r[i] == SerialText(prefix, values[i], n)
  {
    seq(|values|, i requires 0 <= i < |values| => SerialText(prefix, values[i], n))
  }

  /** A bare query that types the first digits of `v` matches exactly the serials whose values have
      the same leading digits. */
  lemma TypedBodyMatches(prefix: string, v: nat, w: nat, n: nat, query: string)
    requires '-' !in SafePrefix(prefix) && v < Pow32(n) && w < Pow32(n)
    requires TypesPrefix(query, Encoded(v, n))
    ensures SerialMatches(SerialText(prefix, w, n), query) <==> Leading(v, n - |query|) == Leading(w, n - |query|)
  {
    TypedDigits(v, w, n, query);
    BareBodyLookup(SafePrefix(prefix), Encoded(w, n), query);
  }

  lemma TypedDigits(v: nat, w: nat, n: nat, query: string)
    requires v < Pow32(n) && w < Pow32(n)
    requires TypesPrefix(query, Encoded(v, n))
    ensures TypesPrefix(query, Encoded(w, n)) <==> Leading(v, n - |query|) == Leading(w, n - |query|)
    ensures '-' !in query
  {
    TypedPrefixes(Encoded(v, n), Encoded(w, n), query);
    SharedPrefix(v, w, n, |query|);
  }

  lemma TypedPrefixes(a: string, b: string, query: string)
    requires InAlphabet(a) && InAlphabet(b) && |a| == |b| && TypesPrefix(query, a)
    ensures TypesPrefix(query, b) <==> a[..|query|] == b[..|query|]
    ensures '-' !in query
  {
    TypingAPrefix(query, a);
    TypingAPrefix(query, b);
    assert NormalizeSerialLookup(query) == a[..|query|];
  }

  /** Such a query resolves to the serial of `v` exactly when no other stored value has the same
      leading digits, and is ambiguous otherwise. */
  lemma TypedBodyResolves(prefix: string, values: seq<nat>, v: nat, n: nat, query: string)
    requires '-' !in SafePrefix(prefix) && v in values
    requires forall w :: w in values ==> w < Pow32(n)
    requires TypesPrefix(query, Encoded(v, n))
    ensures var r := ResolveSerialMatch(query, SerialTexts(prefix, values, n));
      if forall w :: w in values && Leading(w, n - |query|) == Leading(v, n - |query|) ==> w == v
      then r == Ok(Some(SerialText(prefix, v, n)))
      else r.Error?
  {
    var stored := SerialTexts(prefix, values, n);
    forall w | w in values
      ensures SerialText(prefix, w, n) in stored
      ensures SerialMatches(SerialText(prefix, w, n), query) <==> Leading(v, n - |query|) == Leading(w, n - |query|)
      ensures SerialText(prefix, w, n) == SerialText(prefix, v, n) <==> w == v
    {
      var i :| 0 <= i < |values| && values[i] == w;
      assert stored[i] == SerialText(prefix, w, n);
      TypedBodyMatches(prefix, v, w, n, query);
      DifferentSerials(prefix, v, w, n);
    }
    forall s | s in stored
      ensures exists w :: w in values && s == SerialText(prefix, w, n)
    {
      var i :| 0 <= i < |stored| && stored[i] == s;
      assert values[i] in values;
    }
  }

  /** Different values have different serials. */
  lemma DifferentSerials(prefix: string, v: nat, w: nat, n: nat)
    requires v < Pow32(n) && w < Pow32(n)
    ensures SerialText(prefix, v, n) == SerialText(prefix, w, n) <==> v == w
  {
    var front := SafePrefix(prefix) + "-";
    if SerialText(prefix, v, n) == SerialText(prefix, w, n) {
      SamePrefixLength(front, front, Encoded(v, n), Encoded(w, n));
    }
    EncodedInjective(v, w, n);
  }

  // ---------- how serials are written ----------

  lemma {:induction false} OneDigit(value: int, last: string)
    requires last == [Symbol(value % 32)]
    ensures Encoded(value, 1) == last
  {
    assert Encoded(value / 32, 0) == "";
  }

  /** The digits, in their order. */
  lemma {:induction false} DigitsAre(d: nat)
    requires d < 32
    ensures |Encoded(d, 1)| == 1 && Encoded(d, 1)[0] == "0123456789ABCDEFGHJKMNPQRSTVWXYZ"[d]
  {
    SymbolIs(d);
    OneDigit(d, [Symbol(d)]);
  }

  lemma {:induction false} SymbolIs(d: nat)
    requires d < 32
    ensures Symbol(d) == "0123456789ABCDEFGHJKMNPQRSTVWXYZ"[d]
  {
    AtIs(ALPHABET, d);
  }

  predicate NoAlnum(s: string) {
    forall i :: 0 <= i < |s| ==> !IsAlnum(s[i])
  }

  predicate AllHyphens(s: string) {
    forall i :: 0 <= i < |s| ==> s[i] == '-'
  }

  lemma {:induction false} TrimFront(left: string, s: string)
    requires AllHyphens(left)
    ensures TrimHyphens(left + s) == TrimHyphens(s)
  {
    if left == "" {
      assert left + s == s;
    } else {
      TrimFront(left[1..], s);
      assert (left + s)[1..] == left[1..] + s;
    }
  }

  lemma {:induction false} TrimBack(s: string, right: string)
    requires AllHyphens(right) && s != "" && s[0] != '-' && s[|s| - 1] != '-'
    ensures TrimHyphens(s + right) == s
  {
    if right == "" {
      assert s + right == s;
    } else {
      var front := right[..|right| - 1];
      TrimBack(s, front);
      assert (s + right)[..|s + right| - 1] == s + front;
      assert (s + right)[|s + right| - 1] == '-' && (s + right)[0] == s[0];
    }
  }

  lemma {:induction false} TrimAround(left: string, middle: string, right: string)
    requires AllHyphens(left) && AllHyphens(right)
    requires middle != "" ==> middle[0] != '-' && middle[|middle| - 1] != '-'
    ensures TrimHyphens(left + (middle + right)) == middle
  {
    TrimFront(left, middle + right);
    if middle == "" {
      assert middle + right == right + "";
      TrimFront(right, "");
    } else {
      TrimBack(middle, right);
    }
  }

  /** A prefix loses what surrounds its first and last letter or digit, and gets hyphens for its other
      characters. */
  lemma {:induction false} PrefixIsShown(left: string, middle: string, right: string)
    requires NoAlnum(left) && NoAlnum(right)
    requires middle != "" ==> IsAlnum(middle[0]) && IsAlnum(middle[|middle| - 1])
    ensures var shown := SafePrefix(left + (middle + right));
      && |shown| == |middle|
      && forall i :: 0 <= i < |shown| ==> shown[i] == if IsAlnum(middle[i]) then middle[i] else '-'
  {
    TrimAround(SafeText(left), SafeText(middle), SafeText(right));
    assert SafeText(left + (middle + right)) == SafeText(left) + (SafeText(middle) + SafeText(right));
  }

  /** A new serial is the prefix so shown, a hyphen, and 26 digits that write its value. */
  lemma {:induction false} NewSerialIsWritten(prefix: string, value: nat) returns (body: string)
    requires value < 0x4_0000_0000_0000_0000_0000_0000_0000_0000
    ensures NewSerial(prefix, value) == SafePrefix(prefix) + "-" + body
    ensures |body| == 26 && InAlphabet(body) && Decode(body) == value
  {
    body := Encoded(value, BODY_LENGTH);
    BodyRange();
    DecodeEncoded(value, BODY_LENGTH);
  }
}
