/** The JavaScript `Map`, `Set` and `Array.prototype.sort` behaviour the build plugin relies on. */
module JsCollections {

  /** A JavaScript `Map`: its keys in insertion order and the value of each. */
  datatype OrderedMap<K(==,!new), V> = OrderedMap(keys: seq<K>, values: map<K, V>) {

    ghost predicate Valid() {
      && (forall i, j :: 0 <= i < j < |keys| ==> keys[i] != keys[j])
      && (forall k :: k in values <==> k in keys)
    }

    /** `map.set(k, v)`: a key already present keeps its place in the iteration order. */
    function Set(k: K, v: V): (r: OrderedMap<K, V>)
      ensures Valid() ==> r.Valid()
      ensures r.values == values[k := v]
      ensures k in keys ==> r.keys == keys
      ensures k !in keys ==> r.keys == keys + [k]
    {
      OrderedMap(if k in keys then keys else keys + [k], values[k := v])
    }
  }

  function EmptyMap<K(==,!new), V>(): (r: OrderedMap<K, V>)
    ensures r.Valid() && r.keys == [] && r.values == map[]
  {
    OrderedMap([], map[])
  }

  /** `set.add(x)` on a JavaScript `Set`, kept as its insertion order. */
  function Add<T(==,!new)>(s: seq<T>, x: T): (r: seq<T>)
    ensures x in r
    ensures forall y :: y in r <==> y in s || y == x
    ensures Distinct(s) ==> Distinct(r)
  {
    if x in s then s else s + [x]
  }

  ghost predicate Distinct<T>(s: seq<T>) {
    forall i, j :: 0 <= i < j < |s| ==> s[i] != s[j]
  }

  /** Longest first: the order `(a, b) => len(b) - len(a)` asks for. */
  ghost predicate LongestFirst<T>(s: seq<T>, len: T -> nat) {
    s != [] ==> (forall j :: 0 < j < |s| ==> len(s[j]) <= len(s[0])) && LongestFirst(s[1..], len)
  }

  /** Puts `x` before the first element that is not longer than it. */
  function InsertByLength<T>(x: T, s: seq<T>, len: T -> nat): seq<T>
  {
    if s == [] then [x]
    else if len(s[0]) <= len(x) then [x] + s
    else [s[0]] + InsertByLength(x, s[1..], len)
  }

  /**
   * `Array.from(s).sort((a, b) => len(b) - len(a))`. The sort is stable, as
   * ECMAScript 2019 requires: elements of equal length keep their relative order.
   */
  function SortByLengthDesc<T>(s: seq<T>, len: T -> nat): seq<T>
  {
    if s == [] then [] else InsertByLength(s[0], SortByLengthDesc(s[1..], len), len)
  }

  lemma {:induction false} InsertByLengthMultiset<T>(x: T, s: seq<T>, len: T -> nat)
    ensures multiset(InsertByLength(x, s, len)) == multiset(s) + multiset{x}
  {
    if s != [] && len(s[0]) > len(x) {
      InsertByLengthMultiset(x, s[1..], len);
      assert s == [s[0]] + s[1..];
    }
  }

  lemma {:induction false} InsertByLengthMembers<T>(x: T, s: seq<T>, len: T -> nat, k: nat)
    requires k < |InsertByLength(x, s, len)|
    ensures InsertByLength(x, s, len)[k] == x || InsertByLength(x, s, len)[k] in s
  {
    if s != [] && len(s[0]) > len(x) && k > 0 {
      InsertByLengthMembers(x, s[1..], len, k - 1);
    }
  }

  lemma {:induction false} InsertByLengthSorted<T>(x: T, s: seq<T>, len: T -> nat)
    requires LongestFirst(s, len)
    ensures LongestFirst(InsertByLength(x, s, len), len)
  {
    if s == [] {
      assert LongestFirst(InsertByLength(x, s, len)[1..], len);
    } else if len(s[0]) <= len(x) {
      assert InsertByLength(x, s, len)[1..] == s;
    } else {
      var tail := s[1..];
      InsertByLengthSorted(x, tail, len);
      var r := InsertByLength(x, tail, len);
      forall k | 0 <= k < |r| ensures len(r[k]) <= len(s[0]) {
        InsertByLengthMembers(x, tail, len, k);
        if r[k] != x {
          var j :| 0 <= j < |tail| && tail[j] == r[k];
          assert s[j + 1] == r[k];
        }
      }
      assert InsertByLength(x, s, len) == [s[0]] + r;
      assert InsertByLength(x, s, len)[1..] == r;
    }
  }

  /** The sorted elements are the same elements, longest first. */
  lemma {:induction false} SortByLengthDescCorrect<T>(s: seq<T>, len: T -> nat)
    ensures LongestFirst(SortByLengthDesc(s, len), len)
    ensures multiset(SortByLengthDesc(s, len)) == multiset(s)
  {
    if s != [] {
      SortByLengthDescCorrect(s[1..], len);
      InsertByLengthSorted(s[0], SortByLengthDesc(s[1..], len), len);
      InsertByLengthMultiset(s[0], SortByLengthDesc(s[1..], len), len);
      assert s == [s[0]] + s[1..];
    }
  }
}
