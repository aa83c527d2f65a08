/** The JSON text that `json.dumps(value, sort_keys=True, separators=(",", ":"))` writes
    (sections 4 to 7 of RFC 8259), and the proof that it can be read back in one way only. */
module Json {
  import opened JsonValues
  import opened Sorting
  import opened Text

  // ---------- strings ----------

  function HexDigit(n: nat): char
    requires n < 16
  {
    if n < 10 then (('0' as int) + n) as char else (('a' as int) + (n - 10)) as char
  }

  /** `\uXXXX` */
  function UnicodeEscape(n: nat): string
    requires n < 0x10000
  {
    ['\\', 'u', HexDigit(n / 4096), HexDigit(n / 256 % 16), HexDigit(n / 16 % 16), HexDigit(n % 16)]
  }

  predicate IsPlain(c: char) {
    ' ' <= c <= '~' && c != '"' && c != '\\'
  }

  /** One character as `ensure_ascii` writes it; beyond the BMP as a surrogate pair. */
  function EscapeChar(c: char): string {
    if IsPlain(c) then [c]
    else if c == '"' then "\\\""
    else if c == '\\' then "\\\\"
    else if c == '\n' then "\\n"
    else if c == '\r' then "\\r"
    else if c == '\t' then "\\t"
    else if c as int == 8 then "\\b"
    else if c as int == 12 then "\\f"
    else if c as int < 0x10000 then UnicodeEscape(c as int)
    else
      var n := c as int - 0x10000;
      UnicodeEscape(0xd800 + n / 1024) + UnicodeEscape(0xdc00 + n % 1024)
  }

  /** The rest of a string literal, closing quote included. */
  function JsonStringTail(s: string): string {
    if s == "" then "\"" else EscapeChar(s[0]) + JsonStringTail(s[1..])
  }

  function JsonString(s: string): string {
    "\"" + JsonStringTail(s)
  }

  // ---------- values ----------

  ghost function Dumps(v: Value): string
    decreases v, 0
  {
    match v
    case Null => "null"
    case Bool(b) => if b then "true" else "false"
    case Int(n) => if n < 0 then "-" + Decimal(-n) else Decimal(n)
    case Str(s) => JsonString(s)
    case List(items) => "[" + (if items == [] then "]" else Dumps(items[0]) + JsonItemsTail(items[1..]))
    case Table(entries) => "{" + JsonEntriesHead(v, SortedKeys(entries.Keys))
  }

  /** The rest of an array after an element, closing bracket included. */
  ghost function JsonItemsTail(items: seq<Value>): string
    decreases items, 0
  {
    if items == [] then "]" else "," + Dumps(items[0]) + JsonItemsTail(items[1..])
  }

  ghost function JsonEntriesHead(v: Value, keys: seq<string>): string
    requires v.Table? && forall k :: k in keys ==> k in v.entries
    decreases v, 0, |keys|, 1
  {
    if keys == [] then "}" else JsonEntry(v, keys[0]) + JsonEntriesTail(v, keys[1..])
  }

  /** The rest of an object after a member, closing brace included. */
  ghost function JsonEntriesTail(v: Value, keys: seq<string>): string
    requires v.Table? && forall k :: k in keys ==> k in v.entries
    decreases v, 0, |keys|, 0
  {
    if keys == [] then "}" else "," + JsonEntry(v, keys[0]) + JsonEntriesTail(v, keys[1..])
  }

  ghost function JsonEntry(v: Value, key: string): string
    requires v.Table? && key in v.entries
    decreases v, 0, 0
  {
    JsonString(key) + ":" + Dumps(v.entries[key])
  }

  // ---------- unique reading ----------

  lemma UnicodeEscapeInjective(m: nat, n: nat)
    requires m < 0x10000 && n < 0x10000
    requires UnicodeEscape(m) == UnicodeEscape(n)
    ensures m == n
  {
    var a, b := UnicodeEscape(m), UnicodeEscape(n);
    assert a[2] == b[2] && a[3] == b[3] && a[4] == b[4] && a[5] == b[5];
    HexDigitInjective(m / 4096, n / 4096);
    HexDigitInjective(m / 256 % 16, n / 256 % 16);
    HexDigitInjective(m / 16 % 16, n / 16 % 16);
    HexDigitInjective(m % 16, n % 16);
    FourHexDigits(m);
    FourHexDigits(n);
  }

  lemma HexDigitInjective(m: nat, n: nat)
    requires m < 16 && n < 16 && HexDigit(m) == HexDigit(n)
    ensures m == n
  {
  }

  lemma FourHexDigits(n: nat)
    ensures n == 4096 * (n / 4096) + 256 * (n / 256 % 16) + 16 * (n / 16 % 16) + n % 16
  {
    assert n / 16 / 16 == n / 256 && n / 256 / 16 == n / 4096;
  }

  /** Neither a quote nor a backslash nor a control character with a short escape. */
  predicate NeedsUnicodeEscape(c: char) {
    !IsPlain(c) && c !in "\"\\\n\r\t" && c as int != 8 && c as int != 12
  }

  /** The code unit of a character of the BMP, or the leading surrogate. */
  function FirstUnit(c: char): (n: nat)
    ensures n < 0x10000
    ensures c as int < 0x10000 ==> n == c as int && !(0xd800 <= n < 0xdc00)
    ensures c as int >= 0x10000 ==> 0xd800 <= n < 0xdc00
  {
    if c as int < 0x10000 then c as int else 0xd800 + (c as int - 0x10000) / 1024
  }

  function SecondUnit(c: char): (n: nat)
    requires c as int >= 0x10000
    ensures n < 0x10000
  {
    0xdc00 + (c as int - 0x10000) % 1024
  }

  lemma EscapeUnits(c: char, s: string)
    requires NeedsUnicodeEscape(c)
    ensures |EscapeChar(c) + s| >= 6 && (EscapeChar(c) + s)[..6] == UnicodeEscape(FirstUnit(c))
    ensures c as int >= 0x10000 ==>
      |EscapeChar(c) + s| >= 12 && (EscapeChar(c) + s)[6..12] == UnicodeEscape(SecondUnit(c))
  {
  }

  lemma UnitsDetermine(c: char, d: char)
    requires FirstUnit(c) == FirstUnit(d)
    requires c as int >= 0x10000 && d as int >= 0x10000 ==> SecondUnit(c) == SecondUnit(d)
    ensures c == d
  {
  }

  lemma UnicodeEscapedUnique(c: char, d: char, s: string, t: string)
    requires NeedsUnicodeEscape(c) && NeedsUnicodeEscape(d)
    requires EscapeChar(c) + s == EscapeChar(d) + t
    ensures c == d
  {
    EscapeUnits(c, s);
    EscapeUnits(d, t);
    UnicodeEscapeInjective(FirstUnit(c), FirstUnit(d));
    if c as int >= 0x10000 {
      // A character of the BMP is never a surrogate, so both characters lie beyond the BMP.
      UnicodeEscapeInjective(SecondUnit(c), SecondUnit(d));
    }
    UnitsDetermine(c, d);
  }

  /** What follows the backslash of an escape. */
  function EscapeKind(c: char): char
    requires !IsPlain(c)
  {
    if c == '"' || c == '\\' then c
    else if c == '\n' then 'n'
    else if c == '\r' then 'r'
    else if c == '\t' then 't'
    else if c as int == 8 then 'b'
    else if c as int == 12 then 'f'
    else 'u'
  }

  lemma EscapeStarts(c: char, s: string)
    ensures var x := EscapeChar(c) + s;
      && x != "" && (if IsPlain(c) then x[0] == c else x[0] == '\\')
      && (!IsPlain(c) ==> |x| > 1 && x[1] == EscapeKind(c))
  {
  }

  lemma KindDetermines(c: char, d: char)
    requires !IsPlain(c) && !IsPlain(d) && EscapeKind(c) == EscapeKind(d)
    ensures c == d || (NeedsUnicodeEscape(c) && NeedsUnicodeEscape(d))
  {
  }

  lemma EscapeCharUnique(c: char, d: char, s: string, t: string)
    requires EscapeChar(c) + s == EscapeChar(d) + t
    ensures c == d && s == t
  {
    var x := EscapeChar(c) + s;
    var y := EscapeChar(d) + t;
    EscapeStarts(c, s);
    EscapeStarts(d, t);
    if !IsPlain(c) && !IsPlain(d) {
      KindDetermines(c, d);
      if c != d {
        UnicodeEscapedUnique(c, d, s, t);
      }
    }
    assert c == d;
    assert s == x[|EscapeChar(c)|..] && t == y[|EscapeChar(d)|..];
  }

  lemma EscapeCharHead(c: char)
    ensures EscapeChar(c) != "" && EscapeChar(c)[0] != '"'
  {
  }

  lemma {:induction false} StringTailUnique(a: string, b: string, s: string, t: string)
    requires JsonStringTail(a) + s == JsonStringTail(b) + t
    ensures a == b && s == t
  {
    if a != "" { EscapeCharHead(a[0]); }
    if b != "" { EscapeCharHead(b[0]); }
    var x, y := JsonStringTail(a) + s, JsonStringTail(b) + t;
    assert x[0] == y[0];
    if a == "" {
      SamePrefixLength("\"", "\"", s, t);
    } else {
      var a', b' := JsonStringTail(a[1..]), JsonStringTail(b[1..]);
      Associative(EscapeChar(a[0]), a', s);
      Associative(EscapeChar(b[0]), b', t);
      EscapeCharUnique(a[0], b[0], a' + s, b' + t);
      StringTailUnique(a[1..], b[1..], s, t);
      assert a == [a[0]] + a[1..] && b == [b[0]] + b[1..];
    }
  }

  lemma StringUnique(a: string, b: string, s: string, t: string)
    requires JsonString(a) + s == JsonString(b) + t
    ensures a == b && s == t
  {
    Associative("\"", JsonStringTail(a), s);
    Associative("\"", JsonStringTail(b), t);
    SamePrefixLength("\"", "\"", JsonStringTail(a) + s, JsonStringTail(b) + t);
    StringTailUnique(a, b, s, t);
  }

  /** The first character of a value's text tells which kind of value it is. */
  lemma FirstCharacter(v: Value)
    ensures Dumps(v) != ""
    ensures var c := Dumps(v)[0];
      match v
      case Null => c == 'n'
      case Bool(b) => c == (if b then 't' else 'f')
      case Int(n) => if n < 0 then c == '-' else IsDigit(c)
      case Str(_) => c == '"'
      case List(_) => c == '['
      case Table(_) => c == '{'
  {
  }

  lemma IntUnique(m: int, n: int, s: string, t: string)
    requires EndsNumeral(s) && EndsNumeral(t)
    requires Dumps(Int(m)) + s == Dumps(Int(n)) + t
    ensures m == n && s == t
  {
    var x, y := Dumps(Int(m)) + s, Dumps(Int(n)) + t;
    FirstCharacter(Int(m));
    FirstCharacter(Int(n));
    assert x[0] == y[0];
    var a, b := Decimal(if m < 0 then -m else m), Decimal(if n < 0 then -n else n);
    if m < 0 {
      assert x[1..] == a + s && y[1..] == b + t;
    }
    DigitRunUnique(a, b, s, t);
    DecimalInjective(if m < 0 then -m else m, if n < 0 then -n else n);
  }

  /** A value's text followed by something that is not a digit can be read in one way only. */
  lemma {:induction false} JsonUnique(u: Value, v: Value, s: string, t: string)
    requires EndsNumeral(s) && EndsNumeral(t)
    requires Dumps(u) + s == Dumps(v) + t
    ensures u == v && s == t
    decreases u, 2
  {
    var x, y := Dumps(u) + s, Dumps(v) + t;
    FirstCharacter(u);
    FirstCharacter(v);
    assert x[0] == y[0];
    match u {
      case Null | Bool(_) =>
        assert u == v;
        assert s == x[|Dumps(u)|..] && t == y[|Dumps(u)|..];
      case Int(m) =>
        IntUnique(m, v.n, s, t);
      case Str(a) =>
        StringUnique(a, v.s, s, t);
      case List(_) =>
        ListUnique(u, v, s, t);
      case Table(_) =>
        TableUnique(u, v, s, t);
    }
  }

  lemma Regroup(a: string, b: string, c: string, d: string)
    ensures a + b + c + d == a + (b + (c + d))
  {
  }

  lemma RegroupList(first: string, tail: string, rest: string)
    ensures "[" + (first + tail) + rest == "[" + (first + (tail + rest))
  {
  }

  lemma {:induction false} ListUnique(u: Value, v: Value, s: string, t: string)
    requires u.List? && v.List?
    requires Dumps(u) + s == Dumps(v) + t
    ensures u == v && s == t
    decreases u, 1
  {
    var a, b := u.items, v.items;
    if a != [] { FirstCharacter(a[0]); }
    if b != [] { FirstCharacter(b[0]); }
    assert (Dumps(u) + s)[1] == (Dumps(v) + t)[1];
    if a == [] {
      assert b == [] && Dumps(u) == "[]" && Dumps(v) == "[]";
      SamePrefixLength("[]", "[]", s, t);
    } else {
      var a', b' := JsonItemsTail(a[1..]), JsonItemsTail(b[1..]);
      RegroupList(Dumps(a[0]), a', s);
      RegroupList(Dumps(b[0]), b', t);
      SamePrefixLength("[", "[", Dumps(a[0]) + (a' + s), Dumps(b[0]) + (b' + t));
      JsonUnique(a[0], b[0], a' + s, b' + t);
      ItemsTailUnique(a[1..], b[1..], s, t);
      assert a == [a[0]] + a[1..] && b == [b[0]] + b[1..];
    }
  }

  lemma {:induction false} ItemsTailUnique(a: seq<Value>, b: seq<Value>, s: string, t: string)
    requires JsonItemsTail(a) + s == JsonItemsTail(b) + t
    ensures a == b && s == t
    decreases a, 0
  {
    assert (JsonItemsTail(a) + s)[0] == (JsonItemsTail(b) + t)[0];
    if a == [] {
      SamePrefixLength("]", "]", s, t);
    } else {
      var a', b' := JsonItemsTail(a[1..]), JsonItemsTail(b[1..]);
      Regroup(",", Dumps(a[0]), a', s);
      Regroup(",", Dumps(b[0]), b', t);
      SamePrefixLength(",", ",", Dumps(a[0]) + (a' + s), Dumps(b[0]) + (b' + t));
      JsonUnique(a[0], b[0], a' + s, b' + t);
      ItemsTailUnique(a[1..], b[1..], s, t);
      assert a == [a[0]] + a[1..] && b == [b[0]] + b[1..];
    }
  }

  lemma {:induction false} EntryUnique(u: Value, v: Value, k: string, l: string, s: string, t: string)
    requires u.Table? && v.Table? && k in u.entries && l in v.entries
    requires EndsNumeral(s) && EndsNumeral(t)
    requires JsonEntry(u, k) + s == JsonEntry(v, l) + t
    ensures k == l && u.entries[k] == v.entries[l] && s == t
    decreases u, 0, 0
  {
    var a, b := Dumps(u.entries[k]), Dumps(v.entries[l]);
    Regroup(JsonString(k), ":", a, s);
    Regroup(JsonString(l), ":", b, t);
    StringUnique(k, l, ":" + (a + s), ":" + (b + t));
    SamePrefixLength(":", ":", a + s, b + t);
    JsonUnique(u.entries[k], v.entries[l], s, t);
  }

  lemma {:induction false} EntriesTailUnique(u: Value, v: Value, a: seq<string>, b: seq<string>, s: string, t: string)
    requires u.Table? && v.Table?
    requires (forall k :: k in a ==> k in u.entries) && (forall k :: k in b ==> k in v.entries)
    requires JsonEntriesTail(u, a) + s == JsonEntriesTail(v, b) + t
    ensures a == b && s == t
    ensures forall k :: k in a ==> u.entries[k] == v.entries[k]
    decreases u, 0, |a|
  {
    assert (JsonEntriesTail(u, a) + s)[0] == (JsonEntriesTail(v, b) + t)[0];
    if a == [] {
      SamePrefixLength("}", "}", s, t);
    } else {
      var a', b' := JsonEntriesTail(u, a[1..]), JsonEntriesTail(v, b[1..]);
      Regroup(",", JsonEntry(u, a[0]), a', s);
      Regroup(",", JsonEntry(v, b[0]), b', t);
      SamePrefixLength(",", ",", JsonEntry(u, a[0]) + (a' + s), JsonEntry(v, b[0]) + (b' + t));
      EntryUnique(u, v, a[0], b[0], a' + s, b' + t);
      EntriesTailUnique(u, v, a[1..], b[1..], s, t);
      assert a == [a[0]] + a[1..] && b == [b[0]] + b[1..];
    }
  }

  lemma {:induction false} TableUnique(u: Value, v: Value, s: string, t: string)
    requires u.Table? && v.Table?
    requires Dumps(u) + s == Dumps(v) + t
    ensures u == v && s == t
    decreases u, 1
  {
    var a, b := SortedKeys(u.entries.Keys), SortedKeys(v.entries.Keys);
    var x, y := JsonEntriesHead(u, a), JsonEntriesHead(v, b);
    Associative("{", x, s);
    Associative("{", y, t);
    SamePrefixLength("{", "{", x + s, y + t);
    EntriesHeadUnique(u, v, a, b, s, t);
    SameEntries(u.entries, v.entries, a);
  }

  lemma SameEntries(m: map<string, Value>, n: map<string, Value>, keys: seq<string>)
    requires (forall k :: k in keys <==> k in m) && (forall k :: k in keys <==> k in n)
    requires forall k :: k in keys ==> m[k] == n[k]
    ensures m == n
  {
  }

  lemma {:induction false} EntriesHeadUnique(u: Value, v: Value, a: seq<string>, b: seq<string>, s: string, t: string)
    requires u.Table? && v.Table?
    requires (forall k :: k in a ==> k in u.entries) && (forall k :: k in b ==> k in v.entries)
    requires JsonEntriesHead(u, a) + s == JsonEntriesHead(v, b) + t
    ensures a == b && s == t
    ensures forall k :: k in a ==> u.entries[k] == v.entries[k]
    decreases u, 0, |a|, 1
  {
    assert (JsonEntriesHead(u, a) + s)[0] == (JsonEntriesHead(v, b) + t)[0];
    if a == [] {
      SamePrefixLength("}", "}", s, t);
    } else {
      var a', b' := JsonEntriesTail(u, a[1..]), JsonEntriesTail(v, b[1..]);
      Associative(JsonEntry(u, a[0]), a', s);
      Associative(JsonEntry(v, b[0]), b', t);
      EntryUnique(u, v, a[0], b[0], a' + s, b' + t);
      EntriesTailUnique(u, v, a[1..], b[1..], s, t);
      assert a == [a[0]] + a[1..] && b == [b[0]] + b[1..];
    }
  }

  /** Different values have different texts. */
  lemma JsonInjective(u: Value, v: Value)
    requires Dumps(u) == Dumps(v)
    ensures u == v
  {
    assert Dumps(u) + "" == Dumps(u) && Dumps(v) + "" == Dumps(v);
    JsonUnique(u, v, "", "");
  }
}
