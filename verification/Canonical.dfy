/** The signing form of configuration data: two data tables have the same bytes exactly
    when they are equal up to the order of list elements, at every depth, outside the
    signature block. */
module Canonical {
  import opened Json
  import opened JsonReader
  import opened JsonRoundTrip
  import opened JsonValues
  import opened Results
  import opened Sorting

  newtype byte = x: int | 0 <= x < 256

  // ---------- the canonical value ----------

  ghost function CanonicalValue(v: Value): Value
    decreases v, 1
  {
    match v
    case List(items) => List(SortBy(CanonicalItems(items), Dumps))
    case Table(entries) => Table(map k | k in entries :: CanonicalValue(entries[k]))
    case _ => v
  }

  ghost function CanonicalItems(xs: seq<Value>): (r: seq<Value>)
    ensures |r| == |xs|
    ensures forall i :: 0 <= i < |xs| ==> r[i] == CanonicalValue(xs[i])
    decreases xs, 0
  {
    if xs == [] then [] else [CanonicalValue(xs[0])] + CanonicalItems(xs[1..])
  }

  /** The text that is signed: the signature keys are dropped at the top level only. */
  ghost function CanonicalText(data: map<string, Value>, signatureKeys: set<string>): string {
    Dumps(CanonicalValue(Table(data - signatureKeys)))
  }

  /** `text.encode("utf-8")` on ASCII text. */
  function AsciiBytes(text: string): (r: seq<byte>)
    requires forall i :: 0 <= i < |text| ==> text[i] as int < 128
    ensures |r| == |text| && forall i :: 0 <= i < |text| ==> r[i] as int == text[i] as int
  {
    seq(|text|, i requires 0 <= i < |text| => text[i] as int as byte)
  }

  ghost function CanonicalConfigBytes(data: map<string, Value>, signatureKeys: set<string>): seq<byte> {
    JsonIsAscii(CanonicalValue(Table(data - signatureKeys)));
    AsciiBytes(CanonicalText(data, signatureKeys))
  }

  // ---------- equality up to list order ----------

  /** The same data, were every list an unordered collection. */
  ghost predicate Same(u: Value, v: Value)
    decreases u, 1
  {
    match u
    case List(xs) => v.List? && SameItems(xs, v.items)
    case Table(entries) =>
      v.Table? && entries.Keys == v.entries.Keys && forall k :: k in entries ==> Same(entries[k], v.entries[k])
    case _ => u == v
  }

  ghost function Without<T>(ys: seq<T>, j: nat): seq<T>
    requires j < |ys|
  {
    ys[..j] + ys[j + 1..]
  }

  /** The elements can be paired off so that each pair is the same data. */
  ghost predicate SameItems(xs: seq<Value>, ys: seq<Value>)
    decreases xs, 0
  {
    if xs == [] then ys == []
    else exists j :: 0 <= j < |ys| && Same(xs[0], ys[j]) && SameItems(xs[1..], Without(ys, j))
  }

  // ---------- the text is ASCII ----------

  ghost predicate Ascii(s: string) {
    forall i :: 0 <= i < |s| ==> s[i] as int < 128
  }

  lemma {:induction false} StringTailIsAscii(s: string)
    ensures Ascii(JsonStringTail(s))
  {
    if s != "" {
      EscapeIsAscii(s[0]);
      StringTailIsAscii(s[1..]);
    }
  }

  lemma EscapeIsAscii(c: char)
    ensures Ascii(EscapeChar(c))
  {
  }

  lemma AsciiConcat(a: string, b: string)
    requires Ascii(a) && Ascii(b)
    ensures Ascii(a + b)
  {
  }

  lemma {:induction false} JsonIsAscii(v: Value)
    ensures Ascii(Dumps(v))
    decreases v, 1
  {
    match v {
      case Null | Bool(_) | Int(_) =>
      case Str(s) => StringTailIsAscii(s);
      case List(items) =>
        if items != [] {
          JsonIsAscii(items[0]);
          ItemsAreAscii(items[1..]);
          AsciiConcat(Dumps(items[0]), JsonItemsTail(items[1..]));
          AsciiConcat("[", Dumps(items[0]) + JsonItemsTail(items[1..]));
        }
      case Table(entries) =>
        var keys := SortedKeys(entries.Keys);
        EntriesHeadIsAscii(v, keys);
        AsciiConcat("{", JsonEntriesHead(v, keys));
    }
  }

  lemma {:induction false} ItemsAreAscii(items: seq<Value>)
    ensures Ascii(JsonItemsTail(items))
    decreases items, 0
  {
    if items != [] {
      JsonIsAscii(items[0]);
      ItemsAreAscii(items[1..]);
      AsciiConcat("," + Dumps(items[0]), JsonItemsTail(items[1..]));
    }
  }

  lemma {:induction false} EntryIsAscii(v: Value, key: string)
    requires v.Table? && key in v.entries
    ensures Ascii(JsonEntry(v, key))
    decreases v, 0, 0
  {
    StringTailIsAscii(key);
    JsonIsAscii(v.entries[key]);
    AsciiConcat(JsonString(key) + ":", Dumps(v.entries[key]));
  }

  lemma {:induction false} EntriesAreAscii(v: Value, keys: seq<string>)
    requires v.Table? && forall k :: k in keys ==> k in v.entries
    ensures Ascii(JsonEntriesTail(v, keys))
    decreases v, 0, 1 + |keys|, 0
  {
    if keys != [] {
      EntryIsAscii(v, keys[0]);
      EntriesAreAscii(v, keys[1..]);
      AsciiConcat("," + JsonEntry(v, keys[0]), JsonEntriesTail(v, keys[1..]));
    }
  }

  lemma {:induction false} EntriesHeadIsAscii(v: Value, keys: seq<string>)
    requires v.Table? && forall k :: k in keys ==> k in v.entries
    ensures Ascii(JsonEntriesHead(v, keys))
    decreases v, 0, 1 + |keys|, 1
  {
    if keys != [] {
      EntryIsAscii(v, keys[0]);
      EntriesAreAscii(v, keys[1..]);
      AsciiConcat(JsonEntry(v, keys[0]), JsonEntriesTail(v, keys[1..]));
    }
  }

  lemma DumpsInjective()
    ensures Injective(Dumps)
  {
    forall u, v | Dumps(u) == Dumps(v)
      ensures u == v
    {
      JsonInjective(u, v);
    }
  }

  // ---------- same data, same canonical value ----------

  lemma WithoutContents<T>(ys: seq<T>, j: nat)
    requires j < |ys|
    ensures multiset(ys) == multiset{ys[j]} + multiset(Without(ys, j))
  {
    assert ys == ys[..j] + [ys[j]] + ys[j + 1..];
  }

  lemma {:induction false} CanonicalWithout(ys: seq<Value>, j: nat)
    requires j < |ys|
    ensures CanonicalItems(Without(ys, j)) == Without(CanonicalItems(ys), j)
  {
    var a, b := CanonicalItems(Without(ys, j)), Without(CanonicalItems(ys), j);
    forall i | 0 <= i < |a|
      ensures a[i] == b[i]
    {
      assert Without(ys, j)[i] == ys[if i < j then i else i + 1];
    }
  }

  lemma {:induction false} SameCanonical(u: Value, v: Value)
    requires Same(u, v)
    ensures CanonicalValue(u) == CanonicalValue(v)
    decreases u, 1
  {
    match u {
      case List(xs) =>
        SameItemsCanonical(xs, v.items);
        DumpsInjective();
        SortDependsOnContents(CanonicalItems(xs), CanonicalItems(v.items), Dumps);
      case Table(entries) =>
        forall k | k in entries
          ensures CanonicalValue(entries[k]) == CanonicalValue(v.entries[k])
        {
          SameCanonical(entries[k], v.entries[k]);
        }
      case _ =>
    }
  }

  lemma {:induction false} SameItemsCanonical(xs: seq<Value>, ys: seq<Value>)
    requires SameItems(xs, ys)
    ensures multiset(CanonicalItems(xs)) == multiset(CanonicalItems(ys))
    decreases xs, 0
  {
    if xs != [] {
      var j :| 0 <= j < |ys| && Same(xs[0], ys[j]) && SameItems(xs[1..], Without(ys, j));
      SameCanonical(xs[0], ys[j]);
      SameItemsCanonical(xs[1..], Without(ys, j));
      CanonicalWithout(ys, j);
      WithoutContents(CanonicalItems(ys), j);
    }
  }

  lemma {:induction false} CanonicalSame(u: Value, v: Value)
    requires CanonicalValue(u) == CanonicalValue(v)
    ensures Same(u, v)
    decreases u, 1
  {
    match u {
      case List(xs) =>
        SortSorts(CanonicalItems(xs), Dumps);
        SortSorts(CanonicalItems(v.items), Dumps);
        CanonicalSameItems(xs, v.items);
      case Table(entries) =>
        var a, b := CanonicalValue(u).entries, CanonicalValue(v).entries;
        assert entries.Keys == a.Keys == b.Keys == v.entries.Keys;
        forall k | k in entries
          ensures Same(entries[k], v.entries[k])
        {
          assert a[k] == b[k];
          CanonicalSame(entries[k], v.entries[k]);
        }
      case _ =>
    }
  }

  lemma {:induction false} CanonicalSameItems(xs: seq<Value>, ys: seq<Value>)
    requires multiset(CanonicalItems(xs)) == multiset(CanonicalItems(ys))
    ensures SameItems(xs, ys)
    decreases xs, 0
  {
    var cx, cy := CanonicalItems(xs), CanonicalItems(ys);
    if xs == [] {
      assert |multiset(cy)| == 0;
    } else {
      assert cx[0] in multiset(cy);
      var j :| 0 <= j < |cy| && cy[j] == cx[0];
      CanonicalSame(xs[0], ys[j]);
      CanonicalWithout(ys, j);
      RemoveMatched(cx, cy, j);
      assert CanonicalItems(xs[1..]) == cx[1..];
      CanonicalSameItems(xs[1..], Without(ys, j));
    }
  }

  lemma RemoveMatched<T>(xs: seq<T>, ys: seq<T>, j: nat)
    requires xs != [] && j < |ys| && ys[j] == xs[0]
    requires multiset(xs) == multiset(ys)
    ensures multiset(xs[1..]) == multiset(Without(ys, j))
  {
    WithoutContents(ys, j);
    HeadAndTail(xs);
    assert multiset(xs[1..]) == multiset(xs) - multiset{xs[0]};
    assert multiset(Without(ys, j)) == multiset(ys) - multiset{xs[0]};
  }

  // ---------- main results ----------

  /** `Same` is an equivalence, and reordering a list stays within it. */
  lemma SameIsOrderBlindEquivalence(u: Value, v: Value, w: Value)
    ensures Same(u, u)
    ensures Same(u, v) ==> Same(v, u)
    ensures Same(u, v) && Same(v, w) ==> Same(u, w)
    ensures u.List? && v.List? && multiset(u.items) == multiset(v.items) ==> Same(u, v)
  {
    CanonicalSame(u, u);
    if Same(u, v) {
      SameCanonical(u, v);
      CanonicalSame(v, u);
      if Same(v, w) {
        SameCanonical(v, w);
        CanonicalSame(u, w);
      }
    }
    if u.List? && v.List? && multiset(u.items) == multiset(v.items) {
      ReorderedItems(u.items, v.items);
    }
  }

  lemma {:induction false} ReorderedItems(xs: seq<Value>, ys: seq<Value>)
    requires multiset(xs) == multiset(ys)
    ensures SameItems(xs, ys)
  {
    if xs == [] {
      assert |multiset(ys)| == 0;
    } else {
      assert xs[0] in multiset(ys);
      var j :| 0 <= j < |ys| && ys[j] == xs[0];
      RemoveMatched(xs, ys, j);
      ReorderedItems(xs[1..], Without(ys, j));
      CanonicalSame(xs[0], ys[j]);
    }
  }

  lemma AsciiBytesInjective(s: string, t: string)
    requires Ascii(s) && Ascii(t) && AsciiBytes(s) == AsciiBytes(t)
    ensures s == t
  {
    var a, b := AsciiBytes(s), AsciiBytes(t);
    forall i | 0 <= i < |s|
      ensures s[i] == t[i]
    {
      assert a[i] == b[i];
    }
  }

  /** The digest input covers meaning and nothing else, in both directions. */
  lemma SameBytesIffSameData(a: map<string, Value>, b: map<string, Value>, signatureKeys: set<string>)
    ensures CanonicalConfigBytes(a, signatureKeys) == CanonicalConfigBytes(b, signatureKeys)
       <==> Same(Table(a - signatureKeys), Table(b - signatureKeys))
  {
    var u, v := Table(a - signatureKeys), Table(b - signatureKeys);
    JsonIsAscii(CanonicalValue(u));
    JsonIsAscii(CanonicalValue(v));
    if CanonicalConfigBytes(a, signatureKeys) == CanonicalConfigBytes(b, signatureKeys) {
      AsciiBytesInjective(CanonicalText(a, signatureKeys), CanonicalText(b, signatureKeys));
      JsonInjective(CanonicalValue(u), CanonicalValue(v));
      CanonicalSame(u, v);
    }
    if Same(u, v) {
      SameCanonical(u, v);
    }
  }

  lemma {:induction false} ItemsIdempotent(items: seq<Value>)
    requires forall j :: 0 <= j < |items| ==> CanonicalValue(CanonicalValue(items[j])) == CanonicalValue(items[j])
    ensures CanonicalValue(CanonicalValue(List(items))) == CanonicalValue(List(items))
  {
    var c := CanonicalItems(items);
    var sorted := SortBy(c, Dumps);
    SortSorts(c, Dumps);
    forall i | 0 <= i < |sorted|
      ensures CanonicalValue(sorted[i]) == sorted[i]
    {
      assert sorted[i] in multiset(c);
      var j :| 0 <= j < |c| && c[j] == sorted[i];
      assert c[j] == CanonicalValue(items[j]);
    }
    assert CanonicalItems(sorted) == sorted;
    DumpsInjective();
    SortIdempotent(c, Dumps);
  }

  /** Canonicalising again changes nothing. */
  lemma {:induction false} CanonicalIdempotent(v: Value)
    ensures CanonicalValue(CanonicalValue(v)) == CanonicalValue(v)
    decreases v
  {
    match v {
      case List(items) =>
        forall j | 0 <= j < |items|
          ensures CanonicalValue(CanonicalValue(items[j])) == CanonicalValue(items[j])
        {
          CanonicalIdempotent(items[j]);
        }
        ItemsIdempotent(items);
      case Table(entries) =>
        forall k | k in entries
          ensures CanonicalValue(CanonicalValue(entries[k])) == CanonicalValue(entries[k])
        {
          CanonicalIdempotent(entries[k]);
        }
      case _ =>
    }
  }

  // ---------- what is signed is JSON ----------

  /** `data.decode("ascii")` */
  function AsciiText(bytes: seq<byte>): (r: string)
    ensures |r| == |bytes| && forall i :: 0 <= i < |r| ==> r[i] as int == bytes[i] as int
  {
    seq(|bytes|, i requires 0 <= i < |bytes| => bytes[i] as int as char)
  }

  lemma {:induction false} CanonicalElementsAscend(v: Value)
    ensures ElementsAscend(NodeOf(CanonicalValue(v)))
    decreases v, 2
  {
    match v {
      case List(items) => CanonicalListAscends(items);
      case Table(entries) => CanonicalTableAscends(v);
      case _ =>
    }
  }

  lemma {:induction false} CanonicalListAscends(items: seq<Value>)
    ensures ElementsAscend(NodeOf(CanonicalValue(List(items))))
    decreases items, 1
  {
    var c := CanonicalItems(items);
    var sorted := SortBy(c, Dumps);
    SortSorts(c, Dumps);
    var nodes := NodesOf(sorted);
    forall i | 0 <= i < |nodes|
      ensures nodes[i].text == Dumps(sorted[i]) && ElementsAscend(nodes[i])
    {
      NodeAt(sorted, i);
      assert sorted[i] in multiset(c);
      var j :| 0 <= j < |c| && c[j] == sorted[i];
      CanonicalElementsAscend(items[j]);
    }
    forall i, j | 0 <= i < j < |nodes|
      ensures nodes[i].text == nodes[j].text || ComesBefore(nodes[i].text, nodes[j].text)
    {
      AtMostMeans(Dumps(sorted[i]), Dumps(sorted[j]));
    }
    assert NodeOf(CanonicalValue(List(items))).form == ArrayForm(nodes);
  }

  lemma {:induction false} CanonicalTableAscends(v: Value)
    requires v.Table?
    ensures ElementsAscend(NodeOf(CanonicalValue(v)))
    decreases v, 1
  {
    var c := CanonicalValue(v);
    var keys := SortedKeys(c.entries.Keys);
    var members := MembersOf(c, keys);
    forall i | 0 <= i < |members|
      ensures ElementsAscend(members[i].value)
    {
      MemberAt(c, keys, i);
      CanonicalElementsAscend(v.entries[keys[i]]);
    }
    assert NodeOf(c).form == ObjectForm(members);
  }

  /** What is digested is JSON text for the data without the signature keys, up to the order of list
      elements: compact, with members in the order of their names and elements in the order of their
      texts, at every depth. */
  lemma {:induction false} SignedBytesAreJson(data: map<string, Value>, signatureKeys: set<string>) returns (node: Node)
    ensures var bytes := CanonicalConfigBytes(data, signatureKeys);
      && (forall i :: 0 <= i < |bytes| ==> bytes[i] < 128)
      && ReadText(AsciiText(bytes)) == Some(node) && node.text == AsciiText(bytes)
      && IsCompact(AsciiText(bytes), Outside)
    ensures Same(Meaning(node), Table(map k | k in data && k !in signatureKeys :: data[k]))
    ensures NamesAscend(node) && ElementsAscend(node)
  {
    var v := Table(data - signatureKeys);
    assert v.entries == map k | k in data && k !in signatureKeys :: data[k];
    var text := CanonicalText(data, signatureKeys);
    JsonIsAscii(CanonicalValue(v));
    assert AsciiText(CanonicalConfigBytes(data, signatureKeys)) == text;
    node := WrittenTextIsRead(CanonicalValue(v));
    CanonicalElementsAscend(v);
    CanonicalIdempotent(v);
    CanonicalSame(CanonicalValue(v), v);
  }
}
