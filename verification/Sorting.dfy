/** Python's stable `sorted(xs, key=key)` for text keys. */
module Sorting {
  import opened Text

  function Insert<T>(x: T, ys: seq<T>, key: T -> string): seq<T> {
    if ys == [] || AtMost(key(x), key(ys[0])) then [x] + ys else [ys[0]] + Insert(x, ys[1..], key)
  }

  function SortBy<T>(xs: seq<T>, key: T -> string): seq<T> {
    if xs == [] then [] else Insert(xs[0], SortBy(xs[1..], key), key)
  }

  ghost predicate Sorted<T>(xs: seq<T>, key: T -> string) {
    forall i, j :: 0 <= i < j < |xs| ==> AtMost(key(xs[i]), key(xs[j]))
  }

  ghost predicate Injective<T(!new)>(key: T -> string) {
    forall x, y :: key(x) == key(y) ==> x == y
  }

  lemma HeadAndTail<T>(xs: seq<T>)
    requires xs != []
    ensures xs == [xs[0]] + xs[1..]
    ensures multiset(xs[1..]) == multiset(xs) - multiset{xs[0]}
  {
    assert xs == [xs[0]] + xs[1..];
  }

  lemma InsertContents<T>(x: T, ys: seq<T>, key: T -> string)
    ensures multiset(Insert(x, ys, key)) == multiset{x} + multiset(ys)
  {
    if ys != [] {
      assert ys == [ys[0]] + ys[1..];
    }
  }

  lemma {:induction false} InsertSorts<T>(x: T, ys: seq<T>, key: T -> string)
    requires Sorted(ys, key)
    ensures Sorted(Insert(x, ys, key), key)
  {
    if ys == [] || AtMost(key(x), key(ys[0])) {
      forall j | 0 <= j < |ys|
        ensures AtMost(key(x), key(ys[j]))
      {
        if j > 0 { AtMostTransitive(key(x), key(ys[0]), key(ys[j])); }
      }
    } else {
      var rest := Insert(x, ys[1..], key);
      InsertSorts(x, ys[1..], key);
      AtMostTotal(key(x), key(ys[0]));
      InsertContents(x, ys[1..], key);
      forall j | 0 <= j < |rest|
        ensures AtMost(key(ys[0]), key(rest[j]))
      {
        assert rest[j] in multiset(rest);
        assert rest[j] == x || rest[j] in ys[1..];
      }
    }
  }

  /** The result is a sorted arrangement of the same elements. */
  lemma {:induction false} SortSorts<T>(xs: seq<T>, key: T -> string)
    ensures Sorted(SortBy(xs, key), key)
    ensures multiset(SortBy(xs, key)) == multiset(xs)
  {
    if xs != [] {
      SortSorts(xs[1..], key);
      InsertSorts(xs[0], SortBy(xs[1..], key), key);
      InsertContents(xs[0], SortBy(xs[1..], key), key);
      assert xs == [xs[0]] + xs[1..];
    }
  }

  /** When different elements have different keys there is only one sorted arrangement. */
  lemma {:induction false} SortedUnique<T(!new)>(xs: seq<T>, ys: seq<T>, key: T -> string)
    requires Injective(key)
    requires Sorted(xs, key) && Sorted(ys, key) && multiset(xs) == multiset(ys)
    ensures xs == ys
  {
    if xs == [] {
      assert |multiset(ys)| == 0;
    } else {
      assert |multiset(ys)| == |xs|;
      LeastComesFirst(xs, ys, key);
      LeastComesFirst(ys, xs, key);
      AtMostTotal(key(xs[0]), key(ys[0]));
      assert xs[0] == ys[0];
      HeadAndTail(xs);
      HeadAndTail(ys);
      SortedUnique(xs[1..], ys[1..], key);
    }
  }

  lemma LeastComesFirst<T>(xs: seq<T>, ys: seq<T>, key: T -> string)
    requires xs != [] && ys != []
    requires Sorted(xs, key) && multiset(xs) == multiset(ys)
    ensures AtMost(key(xs[0]), key(ys[0]))
  {
    assert ys[0] in multiset(xs);
    var i :| 0 <= i < |xs| && xs[i] == ys[0];
    AtMostTotal(key(xs[0]), key(xs[0]));
  }

  /** Sorting forgets the order it started from. */
  lemma SortDependsOnContents<T(!new)>(xs: seq<T>, ys: seq<T>, key: T -> string)
    requires Injective(key)
    requires multiset(xs) == multiset(ys)
    ensures SortBy(xs, key) == SortBy(ys, key)
  {
    SortSorts(xs, key);
    SortSorts(ys, key);
    SortedUnique(SortBy(xs, key), SortBy(ys, key), key);
  }

  /** An already sorted list is left as it is. */
  lemma SortIdempotent<T(!new)>(xs: seq<T>, key: T -> string)
    requires Injective(key)
    ensures SortBy(SortBy(xs, key), key) == SortBy(xs, key)
  {
    SortSorts(xs, key);
    SortDependsOnContents(SortBy(xs, key), xs, key);
  }

  // ---------- sorted keys ----------

  /** `sorted(keys)`. */
  function SortedKeys(keys: set<string>): (r: seq<string>)
    ensures forall k :: k in r <==> k in keys
    ensures |r| == |keys|
    ensures forall i, j :: 0 <= i < j < |r| ==> AtMost(r[i], r[j])
  {
    if keys == {} then []
    else
      LeastKeyExists(keys);
      AtMostAntisymmetric();
      assert exists k :: k in keys && forall j :: j in keys ==> AtMost(k, j) by {
        var k :| Least(k, keys);
      }
      var k :| k in keys && forall j :: j in keys ==> AtMost(k, j);
      [k] + SortedKeys(keys - {k})
  }

  ghost predicate Least(k: string, keys: set<string>) {
    k in keys && forall j :: j in keys ==> AtMost(k, j)
  }

  lemma LeastOfTwo(k: string, x: string, keys: set<string>)
    requires Least(k, keys - {x}) && x in keys
    ensures Least(k, keys) || Least(x, keys)
  {
    AtMostTotal(k, x);
    AtMostTotal(x, x);
    if !AtMost(k, x) {
      forall j | j in keys
        ensures AtMost(x, j)
      {
        if j != x {
          assert AtMost(k, j);
          AtMostTransitive(x, k, j);
        }
      }
    }
  }

  lemma {:induction false} LeastKeyExists(keys: set<string>)
    requires keys != {}
    ensures exists k :: Least(k, keys)
  {
    var x :| x in keys;
    if keys == {x} {
      AtMostTotal(x, x);
      assert Least(x, keys);
    } else {
      assert keys - {x} != {};
      LeastKeyExists(keys - {x});
      var k :| Least(k, keys - {x});
      LeastOfTwo(k, x, keys);
    }
  }

  lemma AtMostAntisymmetric()
    ensures forall a, b :: AtMost(a, b) && AtMost(b, a) ==> a == b
  {
    forall a, b | AtMost(a, b) && AtMost(b, a)
      ensures a == b
    {
      AtMostTotal(a, b);
    }
  }
}
