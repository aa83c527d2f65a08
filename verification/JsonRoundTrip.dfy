/** The reader reads what was written as exactly the value, and what it does not look at is fixed too. */
module JsonRoundTrip {
  import opened Json
  import opened JsonReader
  import opened JsonValues
  import opened Results
  import opened Sorting
  import opened Text

  // ---------- strings ----------

  lemma HexIsRead(n: nat)
    requires n < 16
    ensures HexValue(HexDigit(n)) == Some(n)
  {
  }

  lemma {:induction false} UnitIsRead(n: nat, text: string)
    requires n < 0x10000
    ensures var x := UnicodeEscape(n) + text;
      "\\u" <= x && x[0] == '\\' && x[1] == 'u' && ReadUnit(x[2..]) == Some(Read(n, text))
  {
    var x := UnicodeEscape(n) + text;
    HexIsRead(n / 4096);
    HexIsRead(n / 256 % 16);
    HexIsRead(n / 16 % 16);
    HexIsRead(n % 16);
    FourHexDigits(n);
    assert x[2..][4..] == text;
  }

  /** The text begins with the escape of one character, by its code. */
  predicate ReadsAs(x: string, c: char, text: string) {
    |x| > 2 && x[0] == '\\' && x[1] == 'u' && ReadUnicode(x[2..]) == Some(Read(c, text))
  }

  lemma {:induction false} PairIsRead(x: string, n: nat, rest: string, m: nat, text: string)
    requires n < 0x400 && m < 0x400
    requires ReadUnit(x) == Some(Read(0xd800 + n, rest))
    requires "\\u" <= rest && ReadUnit(rest[2..]) == Some(Read(0xdc00 + m, text))
    ensures ReadUnicode(x) == Some(Read((0x10000 + n * 0x400 + m) as char, text))
  {
  }

  lemma {:induction false} SurrogatesAreRead(n: nat, m: nat, text: string)
    requires n < 0x400 && m < 0x400
    ensures ReadsAs(UnicodeEscape(0xd800 + n) + UnicodeEscape(0xdc00 + m) + text,
      (0x10000 + n * 0x400 + m) as char, text)
  {
    var second := UnicodeEscape(0xdc00 + m) + text;
    var x := UnicodeEscape(0xd800 + n) + second;
    Associative(UnicodeEscape(0xd800 + n), UnicodeEscape(0xdc00 + m), text);
    UnitIsRead(0xdc00 + m, text);
    UnitIsRead(0xd800 + n, second);
    PairIsRead(x[2..], n, second, m, text);
  }

  lemma {:induction false} EscapeIsUnits(c: char)
    requires NeedsUnicodeEscape(c)
    ensures c as int < 0x10000 ==> EscapeChar(c) == UnicodeEscape(FirstUnit(c))
    ensures c as int >= 0x10000 ==> EscapeChar(c) == UnicodeEscape(FirstUnit(c)) + UnicodeEscape(SecondUnit(c))
  {
  }

  lemma {:induction false} Surrogates(c: char) returns (high: nat, low: nat)
    requires c as int >= 0x10000
    ensures high < 0x400 && low < 0x400 && FirstUnit(c) == 0xd800 + high && SecondUnit(c) == 0xdc00 + low
    ensures 0x10000 + high * 0x400 + low == c as int
  {
    high, low := (c as int - 0x10000) / 1024, (c as int - 0x10000) % 1024;
  }

  lemma {:induction false} UnicodeIsRead(c: char, text: string)
    requires NeedsUnicodeEscape(c)
    ensures ReadsAs(EscapeChar(c) + text, c, text)
  {
    EscapeIsUnits(c);
    if c as int < 0x10000 {
      OneUnitIsRead(c, text);
    } else {
      TwoUnitsAreRead(c, text);
    }
  }

  lemma {:induction false} TwoUnitsAreRead(c: char, text: string)
    requires c as int >= 0x10000
    ensures ReadsAs(UnicodeEscape(FirstUnit(c)) + UnicodeEscape(SecondUnit(c)) + text, c, text)
  {
    var high, low := Surrogates(c);
    SurrogatesAreRead(high, low, text);
  }

  lemma {:induction false} OneUnitIsRead(c: char, text: string)
    requires NeedsUnicodeEscape(c) && c as int < 0x10000
    ensures ReadsAs(UnicodeEscape(FirstUnit(c)) + text, c, text)
  {
    UnitIsRead(FirstUnit(c), text);
  }

  lemma {:induction false} ShortEscapeIsRead(c: char, text: string)
    requires !IsPlain(c) && !NeedsUnicodeEscape(c)
    ensures var x := EscapeChar(c) + text;
      |x| > 1 && x[0] == '\\' && ReadEscape(x[1..]) == Some(Read(c, text))
  {
    var x := EscapeChar(c) + text;
    assert |EscapeChar(c)| == 2 && x[2..] == text;
    assert x[1..][1..] == text;
  }

  lemma {:induction false} CharIsRead(c: char, text: string)
    ensures var x := EscapeChar(c) + text;
      x != "" && x[0] != '"' && ReadChar(x) == Some(Read(c, text))
  {
    var x := EscapeChar(c) + text;
    if IsPlain(c) {
      assert x[1..] == text;
    } else if NeedsUnicodeEscape(c) {
      UnicodeIsRead(c, text);
      assert x[1..][1..] == x[2..];
    } else {
      ShortEscapeIsRead(c, text);
    }
  }

  lemma {:induction false} CharsAreRead(s: string, text: string)
    ensures ReadChars(JsonStringTail(s) + text) == Some(Read(s, text))
  {
    if s == "" {
      assert ("\"" + text)[1..] == text;
    } else {
      Associative(EscapeChar(s[0]), JsonStringTail(s[1..]), text);
      CharIsRead(s[0], JsonStringTail(s[1..]) + text);
      CharsAreRead(s[1..], text);
      assert [s[0]] + s[1..] == s;
    }
  }

  // ---------- numbers ----------

  /** What follows a value: the end, or a separator. */
  ghost predicate Stops(text: string) {
    text == "" || text[0] in ",]}"
  }

  lemma {:induction false} RunIsRead(digits: string, text: string)
    requires AllDigits(digits) && Stops(text)
    ensures DigitRun(digits + text) == digits
  {
    if digits == "" {
      assert digits + text == text;
    } else {
      assert (digits + text)[1..] == digits[1..] + text;
      RunIsRead(digits[1..], text);
      assert [digits[0]] + digits[1..] == digits;
    }
  }

  lemma {:induction false} NumeralIsRead(n: nat)
    ensures NumberOf(Decimal(n)) == n
  {
    if n < 10 {
      assert Decimal(n)[..0] == "";
    } else {
      NumeralIsRead(n / 10);
      assert Decimal(n)[..|Decimal(n)| - 1] == Decimal(n / 10);
    }
  }

  lemma {:induction false} DigitsAreRead(digits: string, text: string)
    requires IsNumeral(digits) && Stops(text)
    ensures ReadNumber(digits + text) == Some(Read(NumberOf(digits), text))
    ensures ReadNumber("-" + (digits + text)) == Some(Read(-NumberOf(digits), text))
  {
    var t := digits + text;
    RunIsRead(digits, text);
    assert t[|digits|..] == text && t[0] == digits[0] && ("-" + t)[1..] == t;
  }

  lemma {:induction false} NumberIsRead(n: int, text: string)
    requires Stops(text)
    ensures ReadNumber(Dumps(Int(n)) + text) == Some(Read(n, text))
  {
    var size: nat := if n < 0 then -n else n;
    DecimalRoundTrip(size);
    NumeralIsRead(size);
    DigitsAreRead(Decimal(size), text);
    if n < 0 {
      Associative("-", Decimal(size), text);
    }
  }

  // ---------- what is expected ----------

  /** The written value as a node. */
  ghost function NodeOf(v: Value): Node
    decreases v, 1
  {
    Node(Dumps(v), FormOf(v))
  }

  ghost function FormOf(v: Value): Form
    decreases v, 0
  {
    match v
    case Null => NullForm
    case Bool(b) => BoolForm(b)
    case Int(n) => NumberForm(n)
    case Str(s) => StringForm(s)
    case List(items) => ArrayForm(NodesOf(items))
    case Table(entries) => ObjectForm(MembersOf(v, SortedKeys(entries.Keys)))
  }

  ghost function NodesOf(items: seq<Value>): (r: seq<Node>)
    ensures |r| == |items|
    decreases items, 0
  {
    if items == [] then [] else [NodeOf(items[0])] + NodesOf(items[1..])
  }

  ghost function MembersOf(v: Value, keys: seq<string>): (r: seq<Member>)
    requires v.Table? && forall k :: k in keys ==> k in v.entries
    ensures |r| == |keys|
    decreases v, 0, |keys|
  {
    if keys == [] then []
    else [Member(keys[0], NodeOf(v.entries[keys[0]]))] + MembersOf(v, keys[1..])
  }

  lemma {:induction false} NodeAt(items: seq<Value>, i: nat)
    requires i < |items|
    ensures NodesOf(items)[i] == NodeOf(items[i])
  {
    if i > 0 {
      NodeAt(items[1..], i - 1);
    }
  }

  lemma {:induction false} MemberAt(v: Value, keys: seq<string>, i: nat)
    requires v.Table? && i < |keys| && forall k :: k in keys ==> k in v.entries
    ensures keys[i] in keys && MembersOf(v, keys)[i] == Member(keys[i], NodeOf(v.entries[keys[i]]))
  {
    if i > 0 {
      MemberAt(v, keys[1..], i - 1);
    }
  }

  // ---------- one step of the reader ----------

  lemma {:induction false} ArrayStep(u: string, items: seq<Node>, text: string)
    requires u != "" && u[0] != ']' && !IsBlank(u[0]) && ReadItems(u) == Some(Read(items, text))
    ensures ReadForm("[" + u) == Some(Read(ArrayForm(items), text))
  {
    var x := "[" + u;
    assert x[0] == '[' && x[1..] == u;
    NotLiteral(x);
    NoBlankToSkip(u);
  }

  lemma {:induction false} ObjectStep(u: string, members: seq<Member>, text: string)
    requires u != "" && u[0] == '"' && ReadMembers(u) == Some(Read(members, text))
    ensures ReadForm("{" + u) == Some(Read(ObjectForm(members), text))
  {
    var x := "{" + u;
    assert x[0] == '{' && x[1..] == u;
    NotLiteral(x);
    NoBlankToSkip(u);
  }

  lemma {:induction false} EmptyIsRead(text: string)
    ensures ReadForm("[]" + text) == Some(Read(ArrayForm([]), text))
    ensures ReadForm("{}" + text) == Some(Read(ObjectForm([]), text))
  {
    var x, y := "[]" + text, "{}" + text;
    assert x[0] == '[' && x[1..] == "]" + text && x[1..][1..] == text;
    assert y[0] == '{' && y[1..] == "}" + text && y[1..][1..] == text;
    NotLiteral(x);
    NotLiteral(y);
    NoBlankToSkip(x[1..]);
    NoBlankToSkip(y[1..]);
  }

  lemma {:induction false} LastItem(x: string, node: Node, text: string)
    requires ReadValue(x) == Some(Read(node, "]" + text))
    ensures ReadItems(x) == Some(Read([node], text))
  {
    NoBlankToSkip("]" + text);
    assert ("]" + text)[1..] == text;
  }

  lemma {:induction false} NextItem(x: string, node: Node, y: string, items: seq<Node>, text: string)
    requires ReadValue(x) == Some(Read(node, "," + y)) && ReadItems(y) == Some(Read(items, text))
    ensures ReadItems(x) == Some(Read([node] + items, text))
  {
    NoBlankToSkip("," + y);
    assert ("," + y)[1..] == y;
  }

  lemma {:induction false} LastMember(x: string, member: Member, text: string)
    requires ReadMember(x) == Some(Read(member, "}" + text))
    ensures ReadMembers(x) == Some(Read([member], text))
  {
    NoBlankToSkip("}" + text);
    assert ("}" + text)[1..] == text;
  }

  lemma {:induction false} NextMember(x: string, member: Member, y: string, members: seq<Member>, text: string)
    requires ReadMember(x) == Some(Read(member, "," + y)) && ReadMembers(y) == Some(Read(members, text))
    ensures ReadMembers(x) == Some(Read([member] + members, text))
  {
    NoBlankToSkip("," + y);
    assert ("," + y)[1..] == y;
  }

  lemma {:induction false} MemberStep(tail: string, key: string, u: string, node: Node, text: string)
    requires ReadChars(tail) == Some(Read(key, ":" + u)) && ReadValue(u) == Some(Read(node, text))
    ensures ReadMember("\"" + tail) == Some(Read(Member(key, node), text))
  {
    var x := "\"" + tail;
    assert x[0] == '"' && x[1..] == tail && (":" + u)[1..] == u;
    NoBlankToSkip(x);
    NoBlankToSkip(":" + u);
  }

  // ---------- values ----------

  lemma {:induction false} NoBlankToSkip(text: string)
    requires text == "" || !IsBlank(text[0])
    ensures SkipBlanks(text) == text
  {
  }

  lemma {:induction false} FormIsValue(v: Value, text: string)
    requires ReadForm(Dumps(v) + text) == Some(Read(FormOf(v), text))
    ensures ReadValue(Dumps(v) + text) == Some(Read(NodeOf(v), text))
  {
    var x := Dumps(v) + text;
    FirstCharacter(v);
    assert x[0] == Dumps(v)[0];
    NoBlankToSkip(x);
    assert x[..|x| - |text|] == Dumps(v);
  }

  lemma {:induction false} LiteralIsRead(v: Value, text: string)
    requires v.Null? || v.Bool?
    ensures ReadForm(Dumps(v) + text) == Some(Read(FormOf(v), text))
  {
    var x := Dumps(v) + text;
    assert x[0] == Dumps(v)[0] && Dumps(v) <= x && x[|Dumps(v)|..] == text;
  }

  lemma {:induction false} NotLiteral(x: string)
    requires x != "" && x[0] != 'n' && x[0] != 't' && x[0] != 'f'
    ensures !("null" <= x) && !("true" <= x) && !("false" <= x)
  {
  }

  lemma {:induction false} NumberFormIsRead(n: int, text: string)
    requires Stops(text)
    ensures ReadForm(Dumps(Int(n)) + text) == Some(Read(FormOf(Int(n)), text))
  {
    var x := Dumps(Int(n)) + text;
    FirstCharacter(Int(n));
    assert x[0] == Dumps(Int(n))[0];
    NotLiteral(x);
    NumberIsRead(n, text);
  }

  lemma {:induction false} StringFormIsRead(s: string, text: string)
    ensures ReadForm(Dumps(Str(s)) + text) == Some(Read(FormOf(Str(s)), text))
  {
    var x := Dumps(Str(s)) + text;
    assert x[0] == '"' && x[1..] == JsonStringTail(s) + text;
    NotLiteral(x);
    CharsAreRead(s, text);
  }

  /** Followed by the end or a separator, every written value is read as itself. */
  lemma {:induction false} ValueIsRead(v: Value, text: string)
    requires Stops(text)
    ensures ReadValue(Dumps(v) + text) == Some(Read(NodeOf(v), text))
    decreases v, 3
  {
    match v {
      case Null | Bool(_) => LiteralIsRead(v, text);
      case Int(n) => NumberFormIsRead(n, text);
      case Str(s) => StringFormIsRead(s, text);
      case List(items) => ListIsRead(items, text);
      case Table(entries) => TableIsRead(v, text);
    }
    FormIsValue(v, text);
  }

  lemma {:induction false} ListIsRead(items: seq<Value>, text: string)
    ensures ReadForm(Dumps(List(items)) + text) == Some(Read(FormOf(List(items)), text))
    decreases items, 2
  {
    if items == [] {
      EmptyIsRead(text);
    } else {
      var u := ItemsAreRead(items, text);
      ListText(items, text);
      FirstCharacter(items[0]);
      ArrayStep(u, NodesOf(items), text);
    }
  }

  lemma {:induction false} ListText(items: seq<Value>, text: string)
    requires items != []
    ensures Dumps(List(items)) + text == "[" + (Dumps(items[0]) + (JsonItemsTail(items[1..]) + text))
    ensures FormOf(List(items)) == ArrayForm(NodesOf(items))
  {
    RegroupList(Dumps(items[0]), JsonItemsTail(items[1..]), text);
  }

  lemma {:induction false} ItemsAreRead(items: seq<Value>, text: string) returns (u: string)
    requires items != []
    ensures u == Dumps(items[0]) + (JsonItemsTail(items[1..]) + text)
    ensures ReadItems(u) == Some(Read(NodesOf(items), text))
    decreases items, 1
  {
    var more := items[1..];
    var rest := JsonItemsTail(more) + text;
    u := Dumps(items[0]) + rest;
    TailStops(more, text);
    ValueIsRead(items[0], rest);
    assert NodesOf(items) == [NodeOf(items[0])] + NodesOf(more);
    if more == [] {
      assert NodesOf(items) == [NodeOf(items[0])];
      LastItem(u, NodeOf(items[0]), text);
    } else {
      var y := ItemsAreRead(more, text);
      Regroup(",", Dumps(more[0]), JsonItemsTail(more[1..]), text);
      NextItem(u, NodeOf(items[0]), y, NodesOf(more), text);
    }
  }

  lemma {:induction false} TailStops(items: seq<Value>, text: string)
    ensures Stops(JsonItemsTail(items) + text)
  {
  }

  lemma {:induction false} EntriesTailStops(v: Value, keys: seq<string>, text: string)
    requires v.Table? && forall k :: k in keys ==> k in v.entries
    ensures Stops(JsonEntriesTail(v, keys) + text)
  {
  }

  lemma {:induction false} MemberIsRead(v: Value, key: string, text: string)
    requires v.Table? && key in v.entries && Stops(text)
    ensures ReadMember(JsonEntry(v, key) + text) == Some(Read(Member(key, NodeOf(v.entries[key])), text))
    decreases v, 1, 0
  {
    var u := Dumps(v.entries[key]) + text;
    ValueIsRead(v.entries[key], text);
    CharsAreRead(key, ":" + u);
    MemberStep(JsonStringTail(key) + (":" + u), key, u, NodeOf(v.entries[key]), text);
    RegroupEntry(JsonStringTail(key), Dumps(v.entries[key]), text);
  }

  lemma RegroupEntry(tail: string, value: string, text: string)
    ensures "\"" + tail + ":" + value + text == "\"" + (tail + (":" + (value + text)))
  {
  }

  lemma {:induction false} MembersAreRead(v: Value, keys: seq<string>, text: string) returns (u: string)
    requires v.Table? && keys != [] && forall k :: k in keys ==> k in v.entries
    ensures u == JsonEntry(v, keys[0]) + (JsonEntriesTail(v, keys[1..]) + text)
    ensures ReadMembers(u) == Some(Read(MembersOf(v, keys), text))
    decreases v, 1, |keys|
  {
    var more := keys[1..];
    var rest := JsonEntriesTail(v, more) + text;
    var member := Member(keys[0], NodeOf(v.entries[keys[0]]));
    u := JsonEntry(v, keys[0]) + rest;
    EntriesTailStops(v, more, text);
    MemberIsRead(v, keys[0], rest);
    assert MembersOf(v, keys) == [member] + MembersOf(v, more);
    if more == [] {
      assert MembersOf(v, keys) == [member];
      LastMember(u, member, text);
    } else {
      var y := MembersAreRead(v, more, text);
      Regroup(",", JsonEntry(v, more[0]), JsonEntriesTail(v, more[1..]), text);
      NextMember(u, member, y, MembersOf(v, more), text);
    }
  }

  lemma {:induction false} TableIsRead(v: Value, text: string)
    requires v.Table?
    ensures ReadForm(Dumps(v) + text) == Some(Read(FormOf(v), text))
    decreases v, 2
  {
    var keys := SortedKeys(v.entries.Keys);
    if keys == [] {
      EmptyIsRead(text);
    } else {
      var u := MembersAreRead(v, keys, text);
      Regroup("{", JsonEntry(v, keys[0]), JsonEntriesTail(v, keys[1..]), text);
      Associative("{", JsonEntry(v, keys[0]), JsonEntriesTail(v, keys[1..]));
      assert JsonEntry(v, keys[0])[0] == '"';
      ObjectStep(u, MembersOf(v, keys), text);
    }
  }

  // ---------- what the expected node means ----------

  lemma {:induction false} NodeMeans(v: Value)
    ensures Meaning(NodeOf(v)) == v
    decreases v, 2
  {
    match v {
      case List(items) => NodesMean(items);
      case Table(entries) => TableMeans(v);
      case _ =>
    }
  }

  lemma {:induction false} TableMeans(v: Value)
    requires v.Table?
    ensures Meaning(NodeOf(v)) == v
    decreases v, 1, |v.entries| + 1
  {
    var keys := SortedKeys(v.entries.Keys);
    var m := MembersMean(v, keys);
    SameEntries(m, v.entries, keys);
    TableForm(v);
    ObjectMeans(NodeOf(v), MembersOf(v, keys));
  }

  lemma {:induction false} TableForm(v: Value)
    requires v.Table?
    ensures NodeOf(v).form == ObjectForm(MembersOf(v, SortedKeys(v.entries.Keys)))
  {
  }

  lemma {:induction false} ObjectMeans(node: Node, members: seq<Member>)
    requires node.form == ObjectForm(members)
    ensures Meaning(node) == Table(Entries(members))
  {
  }

  lemma {:induction false} NodesMean(items: seq<Value>)
    ensures Meanings(NodesOf(items)) == items
    decreases items, 1
  {
    if items != [] {
      NodeMeans(items[0]);
      NodesMean(items[1..]);
      assert NodesOf(items)[1..] == NodesOf(items[1..]);
      assert [items[0]] + items[1..] == items;
    }
  }

  lemma {:induction false} MembersFront(v: Value, keys: seq<string>)
    requires v.Table? && keys != [] && forall k :: k in keys ==> k in v.entries
    ensures var front, last := keys[..|keys| - 1], keys[|keys| - 1];
      MembersOf(v, keys) == MembersOf(v, front) + [Member(last, NodeOf(v.entries[last]))]
  {
    var front, last := keys[..|keys| - 1], keys[|keys| - 1];
    var a, b := MembersOf(v, keys), MembersOf(v, front) + [Member(last, NodeOf(v.entries[last]))];
    forall i | 0 <= i < |keys|
      ensures a[i] == b[i]
    {
      MemberAt(v, keys, i);
      if i < |front| { MemberAt(v, front, i); }
    }
  }

  lemma EntriesStep(members: seq<Member>, last: Member)
    ensures Entries(members + [last]) == Entries(members)[last.key := Meaning(last.value)]
  {
    assert (members + [last])[..|members|] == members;
  }

  lemma {:induction false} MembersMean(v: Value, keys: seq<string>) returns (m: map<string, Value>)
    requires v.Table? && forall k :: k in keys ==> k in v.entries
    ensures m == Entries(MembersOf(v, keys))
    ensures (forall k :: k in keys <==> k in m) && forall k :: k in keys ==> m[k] == v.entries[k]
    decreases v, 1, |keys|
  {
    if keys == [] {
      m := map[];
    } else {
      var front, last := keys[..|keys| - 1], keys[|keys| - 1];
      assert keys == front + [last];
      var before := MembersMean(v, front);
      NodeMeans(v.entries[last]);
      MembersFront(v, keys);
      EntriesStep(MembersOf(v, front), Member(last, NodeOf(v.entries[last])));
      m := before[last := v.entries[last]];
    }
  }

  // ---------- order and blanks ----------

  lemma {:induction false} AtMostMeans(a: string, b: string)
    ensures AtMost(a, b) <==> a == b || ComesBefore(a, b)
  {
    if a == "" {
      assert b != "" ==> a < b;
    } else if b == "" {
    } else if a[0] == b[0] {
      AtMostMeans(a[1..], b[1..]);
      assert a == [a[0]] + a[1..] && b == [b[0]] + b[1..];
      FirstAgrees(a, b);
    } else {
      FirstDiffers(a, b);
    }
  }

  lemma FirstDiffers(a: string, b: string)
    requires a != "" && b != "" && a[0] != b[0]
    ensures ComesBefore(a, b) <==> a[0] < b[0]
  {
    if a[0] < b[0] {
      assert a[..0] == b[..0];
    }
    if i :| 0 <= i < |a| && i < |b| && a[..i] == b[..i] && a[i] < b[i] {
      if i > 0 {
        assert a[..i][0] == b[..i][0];
      }
    }
  }

  lemma FirstAgrees(a: string, b: string)
    requires a != "" && b != "" && a[0] == b[0]
    ensures ComesBefore(a, b) <==> ComesBefore(a[1..], b[1..])
  {
    if ComesBefore(a, b) { TailComesBefore(a, b); }
    if ComesBefore(a[1..], b[1..]) { WholeComesBefore(a, b); }
  }

  lemma TailComesBefore(a: string, b: string)
    requires a != "" && b != "" && a[0] == b[0] && ComesBefore(a, b)
    ensures ComesBefore(a[1..], b[1..])
  {
    if a < b {
      assert a[1..] < b[1..];
    } else {
      var i :| 0 <= i < |a| && i < |b| && a[..i] == b[..i] && a[i] < b[i];
      assert a[1..][..i - 1] == a[..i][1..] && b[1..][..i - 1] == b[..i][1..];
      assert a[1..][i - 1] < b[1..][i - 1];
    }
  }

  lemma WholeComesBefore(a: string, b: string)
    requires a != "" && b != "" && a[0] == b[0] && ComesBefore(a[1..], b[1..])
    ensures ComesBefore(a, b)
  {
    if a[1..] < b[1..] {
      assert a == [a[0]] + a[1..] && b == [b[0]] + b[1..];
    } else {
      var i :| 0 <= i < |a[1..]| && i < |b[1..]| && a[1..][..i] == b[1..][..i] && a[1..][i] < b[1..][i];
      assert a[..i + 1] == [a[0]] + a[1..][..i] && b[..i + 1] == [b[0]] + b[1..][..i];
      assert a[i + 1] < b[i + 1];
    }
  }

  lemma {:induction false} WrittenNamesAscend(v: Value)
    ensures NamesAscend(NodeOf(v))
    decreases v, 1
  {
    match v {
      case List(items) =>
        var nodes := NodesOf(items);
        forall i | 0 <= i < |nodes|
          ensures NamesAscend(nodes[i])
        {
          WrittenNamesAscend(items[i]);
          NodeAt(items, i);
        }
        assert NodeOf(v).form == ArrayForm(nodes);
      case Table(entries) => MemberNamesAscend(v, SortedKeys(entries.Keys), MembersOf(v, SortedKeys(entries.Keys)));
      case _ =>
    }
  }

  lemma {:induction false} MemberNamesAscend(v: Value, keys: seq<string>, members: seq<Member>)
    requires v.Table? && keys == SortedKeys(v.entries.Keys) && members == MembersOf(v, keys)
    ensures forall i :: 0 <= i < |members| ==> NamesAscend(members[i].value)
    ensures forall i, j :: 0 <= i < j < |members| ==> ComesBefore(members[i].key, members[j].key)
    decreases v, 0
  {
    forall i | 0 <= i < |members|
      ensures NamesAscend(members[i].value) && members[i].key == keys[i]
    {
      MemberAt(v, keys, i);
      WrittenNamesAscend(v.entries[keys[i]]);
    }
    KeysAscend(v.entries.Keys);
  }

  lemma KeysAscend(keys: set<string>)
    ensures forall i, j :: 0 <= i < j < |SortedKeys(keys)| ==> ComesBefore(SortedKeys(keys)[i], SortedKeys(keys)[j])
  {
    var r := SortedKeys(keys);
    KeysDiffer(keys, r);
    forall i, j | 0 <= i < j < |r|
      ensures ComesBefore(r[i], r[j])
    {
      AtMostMeans(r[i], r[j]);
    }
  }

  lemma {:induction false} KeysDiffer(keys: set<string>, r: seq<string>)
    requires |r| == |keys| && forall k :: k in r <==> k in keys
    ensures forall i, j :: 0 <= i < j < |r| ==> r[i] != r[j]
  {
    if r != [] {
      var front, last := r[..|r| - 1], r[|r| - 1];
      assert r == front + [last];
      if last in front {
        assert forall k :: k in front <==> k in keys;
        NotMoreThanListed(keys, front);
      } else {
        assert forall k :: k in front <==> k in keys - {last};
        KeysDiffer(keys - {last}, front);
      }
    }
  }

  lemma {:induction false} NotMoreThanListed(keys: set<string>, r: seq<string>)
    requires forall k :: k in keys ==> k in r
    ensures |keys| <= |r|
  {
    if r != [] {
      var front, last := r[..|r| - 1], r[|r| - 1];
      assert r == front + [last];
      NotMoreThanListed(keys - {last}, front);
    } else {
      assert keys == {};
    }
  }

  lemma {:induction false} PlaceConcat(a: string, b: string, p: Place)
    ensures PlaceAfter(a + b, p) == PlaceAfter(b, PlaceAfter(a, p))
    ensures IsCompact(a + b, p) <==> IsCompact(a, p) && IsCompact(b, PlaceAfter(a, p))
  {
    if a == "" {
      assert a + b == b;
    } else {
      assert (a + b)[1..] == a[1..] + b;
      PlaceConcat(a[1..], b, Move(p, a[0]));
    }
  }

  /** A text that starts and ends between tokens, with no blank there. */
  ghost predicate IsToken(text: string) {
    IsCompact(text, Outside) && PlaceAfter(text, Outside) == Outside
  }

  lemma TokensConcat(a: string, b: string)
    requires IsToken(a) && IsToken(b)
    ensures IsToken(a + b)
  {
    PlaceConcat(a, b, Outside);
  }

  lemma {:induction false} PlainToken(text: string)
    requires forall i :: 0 <= i < |text| ==> text[i] != '"' && !IsBlank(text[i])
    ensures IsToken(text)
  {
    if text != "" {
      PlainToken(text[1..]);
    }
  }

  lemma {:induction false} UnitStaysInside(n: nat)
    requires n < 0x10000
    ensures PlaceAfter(UnicodeEscape(n), Inside) == Inside && IsCompact(UnicodeEscape(n), Inside)
  {
    var x := UnicodeEscape(n);
    assert x == "\\u" + x[2..] && "\\u"[1..] == "u" && "u"[1..] == "";
    PlaceConcat("\\u", x[2..], Inside);
    HexStaysInside(x[2..]);
  }

  lemma {:induction false} HexStaysInside(text: string)
    requires forall i :: 0 <= i < |text| ==> text[i] != '"' && text[i] != '\\'
    ensures PlaceAfter(text, Inside) == Inside && IsCompact(text, Inside)
  {
    if text != "" {
      HexStaysInside(text[1..]);
    }
  }

  lemma {:induction false} ShortStaysInside(x: string)
    requires |x| == 2 && x[0] == '\\'
    ensures PlaceAfter(x, Inside) == Inside && IsCompact(x, Inside)
  {
    assert x[1..] == [x[1]] && [x[1]][1..] == "";
    assert PlaceAfter([x[1]], Escaped) == PlaceAfter("", Inside) && IsCompact([x[1]], Escaped);
  }

  lemma {:induction false} ShortEscape(c: char)
    requires !IsPlain(c) && !NeedsUnicodeEscape(c)
    ensures |EscapeChar(c)| == 2 && EscapeChar(c)[0] == '\\'
  {
  }

  lemma {:induction false} EscapeStaysInside(c: char)
    ensures PlaceAfter(EscapeChar(c), Inside) == Inside && IsCompact(EscapeChar(c), Inside)
  {
    if IsPlain(c) {
      HexStaysInside([c]);
    } else if NeedsUnicodeEscape(c) {
      EscapeIsUnits(c);
      UnitStaysInside(FirstUnit(c));
      if c as int >= 0x10000 {
        UnitStaysInside(SecondUnit(c));
        PlaceConcat(UnicodeEscape(FirstUnit(c)), UnicodeEscape(SecondUnit(c)), Inside);
      }
    } else {
      ShortEscape(c);
      ShortStaysInside(EscapeChar(c));
    }
  }

  lemma {:induction false} TailEndsOutside(s: string)
    ensures PlaceAfter(JsonStringTail(s), Inside) == Outside && IsCompact(JsonStringTail(s), Inside)
  {
    if s == "" {
      assert "\""[1..] == "";
    } else {
      EscapeStaysInside(s[0]);
      TailEndsOutside(s[1..]);
      PlaceConcat(EscapeChar(s[0]), JsonStringTail(s[1..]), Inside);
    }
  }

  lemma {:induction false} StringIsToken(s: string)
    ensures IsToken(JsonString(s))
  {
    TailEndsOutside(s);
    assert JsonString(s)[0] == '"' && JsonString(s)[1..] == JsonStringTail(s);
  }

  lemma {:induction false} WrittenIsToken(v: Value)
    ensures IsToken(Dumps(v))
    decreases v, 1
  {
    match v {
      case Null | Bool(_) | Int(_) => PlainToken(Dumps(v));
      case Str(s) => StringIsToken(s);
      case List(items) =>
        PlainToken("[");
        if items == [] {
          PlainToken("[]");
        } else {
          WrittenIsToken(items[0]);
          ItemsTailIsToken(items[1..]);
          TokensConcat(Dumps(items[0]), JsonItemsTail(items[1..]));
          TokensConcat("[", Dumps(items[0]) + JsonItemsTail(items[1..]));
        }
      case Table(entries) =>
        var keys := SortedKeys(entries.Keys);
        PlainToken("{");
        PlainToken("}");
        if keys != [] {
          EntryIsToken(v, keys[0]);
          EntriesTailIsToken(v, keys[1..]);
          TokensConcat(JsonEntry(v, keys[0]), JsonEntriesTail(v, keys[1..]));
        }
        TokensConcat("{", JsonEntriesHead(v, keys));
    }
  }

  lemma {:induction false} ItemsTailIsToken(items: seq<Value>)
    ensures IsToken(JsonItemsTail(items))
    decreases items, 0
  {
    PlainToken("]");
    PlainToken(",");
    if items != [] {
      WrittenIsToken(items[0]);
      ItemsTailIsToken(items[1..]);
      TokensConcat(",", Dumps(items[0]));
      TokensConcat("," + Dumps(items[0]), JsonItemsTail(items[1..]));
    }
  }

  lemma {:induction false} EntryIsToken(v: Value, key: string)
    requires v.Table? && key in v.entries
    ensures IsToken(JsonEntry(v, key))
    decreases v, 0, 0
  {
    StringIsToken(key);
    PlainToken(":");
    WrittenIsToken(v.entries[key]);
    TokensConcat(JsonString(key), ":");
    TokensConcat(JsonString(key) + ":", Dumps(v.entries[key]));
  }

  lemma {:induction false} EntriesTailIsToken(v: Value, keys: seq<string>)
    requires v.Table? && forall k :: k in keys ==> k in v.entries
    ensures IsToken(JsonEntriesTail(v, keys))
    decreases v, 0, 1 + |keys|
  {
    PlainToken("}");
    PlainToken(",");
    if keys != [] {
      EntryIsToken(v, keys[0]);
      EntriesTailIsToken(v, keys[1..]);
      TokensConcat(",", JsonEntry(v, keys[0]));
      TokensConcat("," + JsonEntry(v, keys[0]), JsonEntriesTail(v, keys[1..]));
    }
  }

  // ---------- the round trip ----------

  /** Every written value is JSON text for exactly that value, without blanks between tokens and with the
      members of every object in the order of their names. */
  lemma {:induction false} WrittenTextIsRead(v: Value) returns (node: Node)
    ensures node == NodeOf(v)
    ensures ReadText(Dumps(v)) == Some(node) && node.text == Dumps(v)
    ensures Meaning(node) == v
    ensures IsCompact(Dumps(v), Outside) && NamesAscend(node)
  {
    node := NodeOf(v);
    assert Dumps(v) + "" == Dumps(v);
    ValueIsRead(v, "");
    NodeMeans(v);
    WrittenNamesAscend(v);
    WrittenIsToken(v);
  }

  // ---------- which of the possible texts of a string ----------

  /** One character in quotes: as itself, as a short escape, or as one or two code units in small
      hexadecimal digits. */
  lemma {:induction false} CharacterText(c: char)
    ensures var text := Dumps(Str([c]));
      && (|text| == 3 <==> ' ' <= c <= '~' && c != '"' && c != '\\')
      && (|text| == 4 <==> c == '"' || c == '\\' || c == '\n' || c == '\r' || c == '\t' || c as int in {8, 12})
      && (|text| == 3 || |text| == 4 || |text| == if c as int < 0x10000 then 8 else 14)
      && (forall i :: 0 <= i < |text| && 'A' <= text[i] <= 'Z' ==> text[i] == c)
  {
    OneCharacter(c);
    if NeedsUnicodeEscape(c) {
      EscapeIsUnits(c);
      UnitIsSmall(FirstUnit(c));
      if c as int >= 0x10000 { UnitIsSmall(SecondUnit(c)); }
    }
  }

  lemma {:induction false} OneCharacter(c: char)
    ensures Dumps(Str([c])) == "\"" + (EscapeChar(c) + "\"")
  {
    assert [c][1..] == "" && JsonStringTail("") == "\"";
    assert JsonStringTail([c]) == EscapeChar(c) + JsonStringTail([c][1..]);
  }

  lemma UnitIsSmall(n: nat)
    requires n < 0x10000
    ensures |UnicodeEscape(n)| == 6
    ensures forall i :: 0 <= i < 6 ==> !('A' <= UnicodeEscape(n)[i] <= 'Z')
  {
  }

  lemma {:induction false} TailConcat(s: string, t: string)
    ensures JsonStringTail(s + t) == JsonStringTail(s)[..|JsonStringTail(s)| - 1] + JsonStringTail(t)
  {
    if s == "" {
      assert s + t == t;
    } else {
      assert (s + t)[0] == s[0] && (s + t)[1..] == s[1..] + t;
      TailConcat(s[1..], t);
      var rest := JsonStringTail(s[1..]);
      ButLast(EscapeChar(s[0]), rest);
      Associative(EscapeChar(s[0]), rest[..|rest| - 1], JsonStringTail(t));
    }
  }

  lemma ButLast(a: string, b: string)
    requires b != ""
    ensures (a + b)[..|a + b| - 1] == a + b[..|b| - 1]
  {
  }

  /** A string is written character by character. */
  lemma {:induction false} StringTextConcat(s: string, t: string)
    ensures Dumps(Str(s + t)) == Dumps(Str(s))[..|Dumps(Str(s))| - 1] + Dumps(Str(t))[1..]
  {
    TailConcat(s, t);
    QuotedConcat(JsonStringTail(s), JsonStringTail(t));
  }

  lemma QuotedConcat(a: string, b: string)
    requires a != ""
    ensures "\"" + (a[..|a| - 1] + b) == ("\"" + a)[..|a|] + ("\"" + b)[1..]
  {
  }
}
