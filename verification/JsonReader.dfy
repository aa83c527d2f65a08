/** A reader of JSON text after sections 2 to 7 of RFC 8259, for integers only: fractions and exponents
    are refused. It keeps the order of members and the text of every part. */
module JsonReader {
  import opened JsonValues
  import opened Results

  // ---------- what is read ----------

  /** A value as it stands in a text. */
  datatype Node = Node(text: string, form: Form)

  datatype Form =
    | NullForm
    | BoolForm(b: bool)
    | NumberForm(n: int)
    | StringForm(s: string)
    | ArrayForm(items: seq<Node>)
    | ObjectForm(members: seq<Member>)

  datatype Member = Member(key: string, value: Node)

  datatype Read<+T> = Read(what: T, rest: string)

  // ---------- blanks ----------

  predicate IsBlank(c: char) {
    c == ' ' || c == '\t' || c == '\n' || c == '\r'
  }

  function SkipBlanks(text: string): (r: string)
    ensures |r| <= |text|
  {
    if text != "" && IsBlank(text[0]) then SkipBlanks(text[1..]) else text
  }

  // ---------- strings ----------

  function HexValue(c: char): (r: Option<nat>)
    ensures r.Some? ==> r.value < 16
  {
    if '0' <= c <= '9' then Some(c as int - '0' as int)
    else if 'a' <= c <= 'f' then Some(c as int - 'a' as int + 10)
    else if 'A' <= c <= 'F' then Some(c as int - 'A' as int + 10)
    else None
  }

  /** Four hexadecimal digits. */
  function ReadUnit(text: string): (r: Option<Read<nat>>)
    ensures r.Some? ==> r.value.what < 0x10000 && |r.value.rest| < |text|
  {
    if |text| < 4 then None
    else
      var a, b, c, d := HexValue(text[0]), HexValue(text[1]), HexValue(text[2]), HexValue(text[3]);
      if a.None? || b.None? || c.None? || d.None? then None
      else Some(Read(a.value * 4096 + b.value * 256 + c.value * 16 + d.value, text[4..]))
  }

  /** A code unit, or two surrogates that stand for one character. */
  function ReadUnicode(text: string): (r: Option<Read<char>>)
    ensures r.Some? ==> |r.value.rest| < |text|
  {
    match ReadUnit(text)
    case None => None
    case Some(Read(n, rest)) =>
      if n < 0xd800 || n >= 0xe000 then Some(Read(n as char, rest))
      else if n < 0xdc00 && "\\u" <= rest then
        match ReadUnit(rest[2..])
        case None => None
        case Some(Read(m, rest')) =>
          if 0xdc00 <= m < 0xe000 then Some(Read((0x10000 + (n - 0xd800) * 0x400 + (m - 0xdc00)) as char, rest'))
          else None
      else None
  }

  /** What follows a backslash. */
  function ReadEscape(text: string): (r: Option<Read<char>>)
    ensures r.Some? ==> |r.value.rest| < |text|
  {
    if text == "" then None
    else
      var c, rest := text[0], text[1..];
      if c == '"' || c == '\\' || c == '/' then Some(Read(c, rest))
      else if c == 'b' then Some(Read(8 as char, rest))
      else if c == 'f' then Some(Read(12 as char, rest))
      else if c == 'n' then Some(Read(10 as char, rest))
      else if c == 'r' then Some(Read(13 as char, rest))
      else if c == 't' then Some(Read(9 as char, rest))
      else if c == 'u' then ReadUnicode(rest)
      else None
  }

  /** One character of a string. */
  function ReadChar(text: string): (r: Option<Read<char>>)
    ensures r.Some? ==> |r.value.rest| < |text|
  {
    if text == "" then None
    else if text[0] == '\\' then ReadEscape(text[1..])
    else if text[0] < ' ' then None
    else Some(Read(text[0], text[1..]))
  }

  /** A string after its opening quote, closing quote included. */
  function ReadChars(text: string): (r: Option<Read<string>>)
    ensures r.Some? ==> |r.value.rest| < |text|
    decreases |text|
  {
    if text != "" && text[0] == '"' then Some(Read("", text[1..]))
    else
      match ReadChar(text)
      case None => None
      case Some(Read(c, rest)) =>
        match ReadChars(rest)
        case None => None
        case Some(Read(s, rest')) => Some(Read([c] + s, rest'))
  }

  // ---------- numbers ----------

  function DigitRun(text: string): (r: string)
    ensures r <= text
  {
    if text != "" && '0' <= text[0] <= '9' then [text[0]] + DigitRun(text[1..]) else ""
  }

  /** The number that decimal digits stand for. */
  function NumberOf(digits: string): int {
    if digits == "" then 0
    else NumberOf(digits[..|digits| - 1]) * 10 + (digits[|digits| - 1] as int - '0' as int)
  }

  function ReadNumber(text: string): (r: Option<Read<int>>)
    ensures r.Some? ==> |r.value.rest| < |text|
  {
    var negative := text != "" && text[0] == '-';
    var t := if negative then text[1..] else text;
    var digits := DigitRun(t);
    var rest := t[|digits|..];
    if digits == "" || (|digits| > 1 && digits[0] == '0') then None
    else if rest != "" && rest[0] in ".eE" then None
    else Some(Read(if negative then -NumberOf(digits) else NumberOf(digits), rest))
  }

  // ---------- values ----------

  function ReadForm(t: string): (r: Option<Read<Form>>)
    ensures r.Some? ==> |r.value.rest| < |t|
    decreases |t|, 0
  {
    if t == "" then None
    else if "null" <= t then Some(Read(NullForm, t[4..]))
    else if "true" <= t then Some(Read(BoolForm(true), t[4..]))
    else if "false" <= t then Some(Read(BoolForm(false), t[5..]))
    else if t[0] == '"' then
      match ReadChars(t[1..])
      case None => None
      case Some(Read(s, rest)) => Some(Read(StringForm(s), rest))
    else if t[0] == '[' then
      var u := SkipBlanks(t[1..]);
      if u != "" && u[0] == ']' then Some(Read(ArrayForm([]), u[1..]))
      else
        match ReadItems(t[1..])
        case None => None
        case Some(Read(items, rest)) => Some(Read(ArrayForm(items), rest))
    else if t[0] == '{' then
      var u := SkipBlanks(t[1..]);
      if u != "" && u[0] == '}' then Some(Read(ObjectForm([]), u[1..]))
      else
        match ReadMembers(t[1..])
        case None => None
        case Some(Read(members, rest)) => Some(Read(ObjectForm(members), rest))
    else
      match ReadNumber(t)
      case None => None
      case Some(Read(n, rest)) => Some(Read(NumberForm(n), rest))
  }

  function ReadValue(text: string): (r: Option<Read<Node>>)
    ensures r.Some? ==> |r.value.rest| < |text|
    decreases |text|, 1
  {
    var t := SkipBlanks(text);
    match ReadForm(t)
    case None => None
    case Some(Read(form, rest)) => Some(Read(Node(t[..|t| - |rest|], form), rest))
  }

  /** The elements of an array, closing bracket included. */
  function ReadItems(text: string): (r: Option<Read<seq<Node>>>)
    ensures r.Some? ==> |r.value.rest| < |text|
    decreases |text|, 2
  {
    match ReadValue(text)
    case None => None
    case Some(Read(first, rest)) =>
      var t := SkipBlanks(rest);
      if t == "" then None
      else if t[0] == ']' then Some(Read([first], t[1..]))
      else if t[0] != ',' then None
      else
        match ReadItems(t[1..])
        case None => None
        case Some(Read(items, rest')) => Some(Read([first] + items, rest'))
  }

  function ReadMember(text: string): (r: Option<Read<Member>>)
    ensures r.Some? ==> |r.value.rest| < |text|
    decreases |text|, 2
  {
    var t := SkipBlanks(text);
    if t == "" || t[0] != '"' then None
    else
      match ReadChars(t[1..])
      case None => None
      case Some(Read(key, rest)) =>
        var u := SkipBlanks(rest);
        if u == "" || u[0] != ':' then None
        else
          match ReadValue(u[1..])
          case None => None
          case Some(Read(value, rest')) => Some(Read(Member(key, value), rest'))
  }

  /** The members of an object, closing brace included. */
  function ReadMembers(text: string): (r: Option<Read<seq<Member>>>)
    ensures r.Some? ==> |r.value.rest| < |text|
    decreases |text|, 3
  {
    match ReadMember(text)
    case None => None
    case Some(Read(first, rest)) =>
      var t := SkipBlanks(rest);
      if t == "" then None
      else if t[0] == '}' then Some(Read([first], t[1..]))
      else if t[0] != ',' then None
      else
        match ReadMembers(t[1..])
        case None => None
        case Some(Read(members, rest')) => Some(Read([first] + members, rest'))
  }

  /** A whole text: one value, with blanks around it. */
  function ReadText(text: string): Option<Node> {
    match ReadValue(text)
    case None => None
    case Some(Read(node, rest)) => if SkipBlanks(rest) == "" then Some(node) else None
  }

  // ---------- what it means ----------

  /** Of members with one name the last one counts. */
  function Meaning(node: Node): Value
    decreases node
  {
    match node.form
    case NullForm => Null
    case BoolForm(b) => Bool(b)
    case NumberForm(n) => Int(n)
    case StringForm(s) => Str(s)
    case ArrayForm(items) => List(Meanings(items))
    case ObjectForm(members) => Table(Entries(members))
  }

  function Meanings(items: seq<Node>): (r: seq<Value>)
    ensures |r| == |items|
    decreases items
  {
    if items == [] then [] else [Meaning(items[0])] + Meanings(items[1..])
  }

  function Entries(members: seq<Member>): map<string, Value>
    decreases members
  {
    if members == [] then map[]
    else
      var last := members[|members| - 1];
      Entries(members[..|members| - 1])[last.key := Meaning(last.value)]
  }

  // ---------- what a reader does not look at ----------

  /** `a` comes before `b` in code-point order: it is a proper prefix, or smaller where they first differ. */
  ghost predicate ComesBefore(a: string, b: string) {
    a < b || exists i :: 0 <= i < |a| && i < |b| && a[..i] == b[..i] && a[i] < b[i]
  }

  /** In every object the names of the members ascend. */
  ghost predicate NamesAscend(node: Node)
    decreases node
  {
    match node.form
    case ArrayForm(items) => forall i :: 0 <= i < |items| ==> NamesAscend(items[i])
    case ObjectForm(members) =>
      && (forall i :: 0 <= i < |members| ==> NamesAscend(members[i].value))
      && forall i, j :: 0 <= i < j < |members| ==> ComesBefore(members[i].key, members[j].key)
    case _ => true
  }

  /** In every array the texts of the elements ascend. */
  ghost predicate ElementsAscend(node: Node)
    decreases node
  {
    match node.form
    case ArrayForm(items) =>
      && (forall i :: 0 <= i < |items| ==> ElementsAscend(items[i]))
      && forall i, j :: 0 <= i < j < |items| ==>
        items[i].text == items[j].text || ComesBefore(items[i].text, items[j].text)
    case ObjectForm(members) => forall i :: 0 <= i < |members| ==> ElementsAscend(members[i].value)
    case _ => true
  }

  /** Where a text stands: between tokens or in a string, there maybe behind a backslash. */
  datatype Place = Outside | Inside | Escaped

  function Move(p: Place, c: char): Place {
    match p
    case Outside => if c == '"' then Inside else Outside
    case Inside => if c == '\\' then Escaped else if c == '"' then Outside else Inside
    case Escaped => Inside
  }

  function PlaceAfter(text: string, p: Place): Place {
    if text == "" then p else PlaceAfter(text[1..], Move(p, text[0]))
  }

  /** No blank stands between tokens. */
  predicate IsCompact(text: string, p: Place) {
    text == "" || (!(p == Outside && IsBlank(text[0])) && IsCompact(text[1..], Move(p, text[0])))
  }
}
