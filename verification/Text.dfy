/** Plain text facts shared by the other modules: Python whitespace and stripping,
    code-point order, and decimal numerals. */
module Text {

  // ---------- whitespace ----------

  /** `str.isspace` on one character: the Unicode whitespace that `strip` removes. */
  predicate IsSpace(c: char) {
    var n := c as int;
    || 0x09 <= n <= 0x0d || 0x1c <= n <= 0x20 || n == 0x85 || n == 0xa0 || n == 0x1680
    || 0x2000 <= n <= 0x200a || n == 0x2028 || n == 0x2029 || n == 0x202f || n == 0x205f || n == 0x3000
  }

  function LStrip(s: string): string {
    if s != "" && IsSpace(s[0]) then LStrip(s[1..]) else s
  }

  function RStrip(s: string): string {
    if s != "" && IsSpace(s[|s| - 1]) then RStrip(s[..|s| - 1]) else s
  }

  function Strip(s: string): string {
    RStrip(LStrip(s))
  }

  // ---------- stripping ----------

  lemma {:induction false} StripIgnoresTrailingSpace(s: string, c: char)
    requires IsSpace(c)
    ensures Strip(s + [c]) == Strip(s)
  {
    LStripAppend(s, c);
    if LStrip(s) == "" {
      assert LStrip(s + [c]) == "";
    } else {
      assert (LStrip(s) + [c])[..|LStrip(s)|] == LStrip(s);
    }
  }

  lemma {:induction false} LStripAppend(s: string, c: char)
    requires IsSpace(c)
    ensures LStrip(s + [c]) == if LStrip(s) == "" then "" else LStrip(s) + [c]
  {
    if s == "" {
      assert s + [c] == [c] && [c][1..] == "";
    } else {
      assert (s + [c])[1..] == s[1..] + [c];
      if IsSpace(s[0]) {
        LStripAppend(s[1..], c);
      }
    }
  }

  /** Stripping leaves no whitespace at either end. */
  lemma {:induction false} StripEnds(s: string)
    ensures Strip(s) == "" || (!IsSpace(Strip(s)[0]) && !IsSpace(Strip(s)[|Strip(s)| - 1]))
  {
    LStripHead(s);
    RStripEnds(LStrip(s));
  }

  lemma {:induction false} LStripHead(s: string)
    ensures LStrip(s) == "" || !IsSpace(LStrip(s)[0])
  {
    if s != "" && IsSpace(s[0]) {
      LStripHead(s[1..]);
    }
  }

  lemma {:induction false} RStripEnds(s: string)
    ensures RStrip(s) == "" || !IsSpace(RStrip(s)[|RStrip(s)| - 1])
    ensures RStrip(s) <= s
  {
    if s != "" && IsSpace(s[|s| - 1]) {
      RStripEnds(s[..|s| - 1]);
    }
  }

  lemma StripStripped(s: string)
    requires s != "" ==> !IsSpace(s[0]) && !IsSpace(s[|s| - 1])
    ensures Strip(s) == s
  {
  }

  lemma {:induction false} StripShortens(s: string)
    ensures |Strip(s)| <= |s|
  {
    LStripShortens(s);
    RStripEnds(LStrip(s));
  }

  lemma {:induction false} LStripShortens(s: string)
    ensures |LStrip(s)| <= |s|
  {
    if s != "" && IsSpace(s[0]) {
      LStripShortens(s[1..]);
    }
  }

  predicate AllSpace(s: string) {
    forall i :: 0 <= i < |s| ==> IsSpace(s[i])
  }

  /** The whitespace characters: control characters, the space, and the Unicode ones. */
  lemma {:induction false} SpaceCharacters(c: char)
    ensures IsSpace(c) == (c in
      "\t\n\U{0b}\U{0c}\r\U{1c}\U{1d}\U{1e}\U{1f} \U{85}\U{a0}\U{1680}\U{2000}\U{2001}\U{2002}\U{2003}\U{2004}\U{2005}"
      + "\U{2006}\U{2007}\U{2008}\U{2009}\U{200a}\U{2028}\U{2029}\U{202f}\U{205f}\U{3000}")
  {
  }

  lemma {:induction false} RStripDrops(s: string, right: string)
    requires AllSpace(right)
    ensures RStrip(s + right) == RStrip(s)
  {
    if right == "" {
      assert s + right == s;
    } else {
      var front := right[..|right| - 1];
      RStripDrops(s, front);
      assert (s + right)[..|s + right| - 1] == s + front;
      assert (s + right)[|s + right| - 1] == right[|right| - 1];
    }
  }

  lemma {:induction false} LStripDrops(left: string, s: string)
    requires AllSpace(left)
    ensures LStrip(left + s) == LStrip(s)
  {
    if left == "" {
      assert left + s == s;
    } else {
      LStripDrops(left[1..], s);
      assert (left + s)[1..] == left[1..] + s;
    }
  }

  /** Stripping takes away exactly the whitespace around a text that has none at its ends. */
  lemma {:induction false} StripMeans(left: string, middle: string, right: string)
    requires AllSpace(left) && AllSpace(right)
    requires middle != "" ==> !IsSpace(middle[0]) && !IsSpace(middle[|middle| - 1])
    ensures Strip(left + (middle + right)) == middle
    ensures RStrip(left + middle + right) == if middle == "" then "" else left + middle
  {
    LStripDrops(left, middle + right);
    if middle == "" {
      assert left + middle + right == "" + (left + right) && middle + right == right;
      RStripDrops("", left + right);
      LStripDrops(right, "");
      assert right + "" == right;
      assert LStrip(right) == "" && RStrip("") == "";
    } else {
      RStripDrops(middle, right);
      RStripDrops(left + middle, right);
    }
  }

  /** Every text is whitespace around what stripping leaves of it. */
  lemma {:induction false} StripLeaves(s: string) returns (left: string, right: string)
    ensures AllSpace(left) && AllSpace(right) && s == left + (Strip(s) + right)
  {
    left := LStripTakes(s);
    right := RStripTakes(LStrip(s));
  }

  lemma {:induction false} LStripTakes(s: string) returns (left: string)
    ensures AllSpace(left) && s == left + LStrip(s)
  {
    if s != "" && IsSpace(s[0]) {
      var rest := LStripTakes(s[1..]);
      left := [s[0]] + rest;
      assert s == [s[0]] + s[1..];
      Associative([s[0]], rest, LStrip(s));
    } else {
      left := "";
    }
  }

  lemma {:induction false} RStripTakes(s: string) returns (right: string)
    ensures AllSpace(right) && s == RStrip(s) + right
  {
    if s != "" && IsSpace(s[|s| - 1]) {
      var rest := RStripTakes(s[..|s| - 1]);
      right := rest + [s[|s| - 1]];
      assert s == s[..|s| - 1] + [s[|s| - 1]];
    } else {
      right := "";
    }
  }

  // ---------- concatenation ----------

  lemma SamePrefixLength<T>(a: seq<T>, b: seq<T>, s: seq<T>, t: seq<T>)
    requires |a| == |b| && a + s == b + t
    ensures a == b && s == t
  {
    assert a == (a + s)[..|a|] && b == (b + t)[..|b|];
    assert s == (a + s)[|a|..] && t == (b + t)[|b|..];
  }

  lemma Associative<T>(a: seq<T>, b: seq<T>, c: seq<T>)
    ensures a + b + c == a + (b + c)
  {
  }

  /** `s.index(c)` */
  function IndexIn(c: char, s: string): (i: nat)
    requires c in s
    ensures i < |s| && s[i] == c
  {
    if s[0] == c then 0 else 1 + IndexIn(c, s[1..])
  }

  lemma {:induction false} FirstPlace(c: char, s: string, start: string, stop: string)
    requires s == start + [c] + stop && c !in start
    ensures c in s && IndexIn(c, s) == |start|
  {
    assert s[|start|] == c;
    if start != "" {
      assert s[0] == start[0] && s[1..] == start[1..] + [c] + stop;
      FirstPlace(c, s[1..], start[1..], stop);
    }
  }

  lemma {:induction false} NoneBefore(c: char, s: string)
    requires c in s
    ensures c !in s[..IndexIn(c, s)]
  {
    if s[0] != c {
      NoneBefore(c, s[1..]);
      assert s[..IndexIn(c, s)] == [s[0]] + s[1..][..IndexIn(c, s[1..])];
    }
  }

  // ---------- fields ----------

  /** `s.split(c)` */
  function Fields(s: string, c: char): (r: seq<string>)
    ensures r != []
    ensures forall k :: 0 <= k < |r| ==> c !in r[k]
  {
    if s == "" then [""]
    else
      var r := Fields(s[1..], c);
      if s[0] == c then [""] + r else [[s[0]] + r[0]] + r[1..]
  }

  /** `c.join(fields)` */
  function JoinFields(fields: seq<string>, c: char): string
    requires fields != []
  {
    if |fields| == 1 then fields[0] else fields[0] + [c] + JoinFields(fields[1..], c)
  }

  lemma {:induction false} FieldsOfOne(s: string, c: char)
    requires c !in s
    ensures Fields(s, c) == [s]
  {
    if s != "" {
      FieldsOfOne(s[1..], c);
      assert [s[0]] + s[1..] == s;
    }
  }

  lemma {:induction false} FieldsOfFront(a: string, c: char, rest: string)
    requires c !in a
    ensures Fields(a + [c] + rest, c) == [a] + Fields(rest, c)
  {
    var s := a + [c] + rest;
    if a == "" {
      assert s[1..] == rest;
    } else {
      assert s[1..] == a[1..] + [c] + rest;
      FieldsOfFront(a[1..], c, rest);
      assert [a[0]] + a[1..] == a;
    }
  }

  /** Fields without the separator survive joining and splitting. */
  lemma {:induction false} FieldsOfJoin(fields: seq<string>, c: char)
    requires fields != [] && forall k :: 0 <= k < |fields| ==> c !in fields[k]
    ensures Fields(JoinFields(fields, c), c) == fields
  {
    if |fields| == 1 {
      FieldsOfOne(fields[0], c);
    } else {
      FieldsOfJoin(fields[1..], c);
      FieldsOfFront(fields[0], c, JoinFields(fields[1..], c));
    }
  }

  lemma JoinAfterChar(x: char, fields: seq<string>, c: char)
    requires fields != []
    ensures JoinFields([[x] + fields[0]] + fields[1..], c) == [x] + JoinFields(fields, c)
  {
    assert ([[x] + fields[0]] + fields[1..])[1..] == fields[1..];
    if |fields| > 1 {
      Associative([x], fields[0] + [c], JoinFields(fields[1..], c));
      Associative([x], fields[0], [c]);
    }
  }

  lemma {:induction false} JoinOfFields(s: string, c: char)
    ensures JoinFields(Fields(s, c), c) == s
  {
    if s != "" {
      var r := Fields(s[1..], c);
      JoinOfFields(s[1..], c);
      assert [s[0]] + s[1..] == s;
      if s[0] == c {
        assert ([""] + r)[1..] == r;
        assert "" + [c] == [c];
      } else {
        JoinAfterChar(s[0], r, c);
      }
    }
  }

  lemma {:induction false} JoinFieldsBack(front: seq<string>, last: string, c: char)
    requires front != []
    ensures JoinFields(front + [last], c) == JoinFields(front, c) + [c] + last
  {
    var all := front + [last];
    assert all[1..] == front[1..] + [last];
    if |front| > 1 {
      JoinFieldsBack(front[1..], last, c);
      Associative(front[0] + [c], JoinFields(front[1..], c) + [c], last);
      Associative(front[0] + [c], JoinFields(front[1..], c), [c]);
    }
  }

  lemma {:induction false} FieldsOfBack(s: string, c: char, last: string)
    requires c !in last
    ensures Fields(s + [c] + last, c) == Fields(s, c) + [last]
  {
    var all := s + [c] + last;
    if s == "" {
      assert all[1..] == last;
      FieldsOfOne(last, c);
    } else {
      assert all[1..] == s[1..] + [c] + last && all[0] == s[0];
      FieldsOfBack(s[1..], c, last);
      var r := Fields(s[1..], c);
      assert (r + [last])[1..] == r[1..] + [last];
    }
  }

  // ---------- code-point order ----------

  /** Python's `<=` on `str`: lexicographic by code point. */
  predicate AtMost(a: string, b: string) {
    a == "" || (b != "" && (a[0] < b[0] || (a[0] == b[0] && AtMost(a[1..], b[1..]))))
  }

  lemma {:induction false} AtMostTotal(a: string, b: string)
    ensures AtMost(a, b) || AtMost(b, a)
    ensures AtMost(a, b) && AtMost(b, a) ==> a == b
  {
    if a != "" && b != "" && a[0] == b[0] {
      AtMostTotal(a[1..], b[1..]);
      assert a == [a[0]] + a[1..] && b == [b[0]] + b[1..];
    }
  }

  lemma {:induction false} AtMostTransitive(a: string, b: string, c: string)
    requires AtMost(a, b) && AtMost(b, c)
    ensures AtMost(a, c)
  {
    if a != "" && a[0] == b[0] == c[0] {
      AtMostTransitive(a[1..], b[1..], c[1..]);
    }
  }

  // ---------- decimal numerals ----------

  predicate IsDigit(c: char) {
    '0' <= c <= '9'
  }

  predicate AllDigits(s: string) {
    forall i :: 0 <= i < |s| ==> IsDigit(s[i])
  }

  /** `str.isdigit`, for ASCII digits. */
  predicate IsDigits(s: string) {
    s != "" && AllDigits(s)
  }

  function DigitOf(n: nat): (c: char)
    requires n < 10
    ensures IsDigit(c)
  {
    (('0' as int) + n) as char
  }

  /** `str(n)` for a natural number. */
  function Decimal(n: nat): (s: string)
    ensures s != "" && AllDigits(s)
  {
    if n < 10 then [DigitOf(n)] else Decimal(n / 10) + [DigitOf(n % 10)]
  }

  /** `int(s)` on a string of ASCII digits. */
  function DecimalValue(s: string): nat
    requires AllDigits(s)
  {
    if s == "" then 0 else 10 * DecimalValue(s[..|s| - 1]) + (s[|s| - 1] as int - '0' as int)
  }

  /** A numeral that `str` could have printed: no superfluous leading zero. */
  predicate IsNumeral(s: string) {
    s != "" && AllDigits(s) && (s[0] == '0' ==> |s| == 1)
  }

  lemma {:induction false} DecimalRoundTrip(n: nat)
    ensures DecimalValue(Decimal(n)) == n && IsNumeral(Decimal(n))
    ensures Decimal(n)[0] == '0' ==> n == 0
  {
    if n >= 10 {
      DecimalRoundTrip(n / 10);
      var s := Decimal(n);
      assert s[..|s| - 1] == Decimal(n / 10);
    }
  }

  lemma {:induction false} NumeralRoundTrip(s: string)
    requires IsNumeral(s)
    ensures Decimal(DecimalValue(s)) == s
    ensures DecimalValue(s) == 0 ==> s == "0"
  {
    if |s| == 1 {
      assert s[..0] == "" && DecimalValue("") == 0;
      assert s == [s[0]];
    } else {
      var p, d := s[..|s| - 1], s[|s| - 1] as int - '0' as int;
      NumeralRoundTrip(p);
      var n := DecimalValue(p);
      assert n > 0 && (10 * n + d) / 10 == n && (10 * n + d) % 10 == d;
      assert s == p + [s[|s| - 1]];
    }
  }

  lemma DecimalInjective(m: nat, n: nat)
    requires Decimal(m) == Decimal(n)
    ensures m == n
  {
    DecimalRoundTrip(m);
    DecimalRoundTrip(n);
  }

  /** The text right after a numeral: nothing, or something that is not a digit. */
  ghost predicate EndsNumeral(rest: string) {
    rest == "" || !IsDigit(rest[0])
  }

  /** A numeral followed by a non-digit can be read back in only one way. */
  lemma DigitRunUnique(a: string, b: string, s: string, t: string)
    requires AllDigits(a) && AllDigits(b) && EndsNumeral(s) && EndsNumeral(t)
    requires a + s == b + t
    ensures a == b && s == t
  {
    assert forall i :: 0 <= i < |a| ==> IsDigit((a + s)[i]);
    assert forall i :: 0 <= i < |b| ==> IsDigit((b + t)[i]);
    assert |a| < |a + s| ==> !IsDigit((a + s)[|a|]);
    assert |b| < |b + t| ==> !IsDigit((b + t)[|b|]);
    SamePrefixLength(a, b, s, t);
  }
}
