/**
 * The orders the builders sort by. Every sort key in the system is either a
 * `str` or an `(int, str)` tuple, compared the way Python compares them; a
 * `str` key is modelled as the tuple `(0, s)`, which orders exactly like `s`.
 * Python's `list.sort` and `sorted` are stable; `SortBy` is the stable
 * insertion sort that produces the same list.
 */
module Order {

  datatype Key = Key(n: int, s: string)

  /** Python's `<` on `str`: code-point lexicographic order, a proper prefix first. */
  predicate StrLt(a: string, b: string)
    decreases |a|
  {
    if a == [] then b != []
    else if b == [] then false
    else if a[0] != b[0] then a[0] < b[0]
    else StrLt(a[1..], b[1..])
  }

  predicate StrLe(a: string, b: string) {
    a == b || StrLt(a, b)
  }

  /** Python's `<` on `(int, str)` tuples. */
  predicate KeyLt(a: Key, b: Key) {
    a.n < b.n || (a.n == b.n && StrLt(a.s, b.s))
  }

  predicate KeyLe(a: Key, b: Key) {
    a == b || KeyLt(a, b)
  }

  /** The key that orders strings as Python orders them. */
  function StrKey(s: string): Key {
    Key(0, s)
  }

  // ---------------------------------------------------------------- the orders are total

  lemma {:induction false} StrLtIrreflexive(a: string)
    ensures !StrLt(a, a)
    decreases |a|
  {
    if a != [] {
      StrLtIrreflexive(a[1..]);
    }
  }

  lemma {:induction false} StrLtTransitive(a: string, b: string, c: string)
    requires StrLt(a, b) && StrLt(b, c)
    ensures StrLt(a, c)
    decreases |a|
  {
    if a != [] {
      assert b != [] && c != [];
      if a[0] == b[0] && b[0] == c[0] {
        StrLtTransitive(a[1..], b[1..], c[1..]);
      }
    }
  }

  lemma {:induction false} StrLtTotal(a: string, b: string)
    ensures a == b || StrLt(a, b) || StrLt(b, a)
    decreases |a|
  {
    if a != [] && b != [] && a[0] == b[0] {
      StrLtTotal(a[1..], b[1..]);
      if a[1..] == b[1..] {
        assert a == [a[0]] + a[1..] && b == [b[0]] + b[1..];
      }
    }
  }

  lemma StrLtAsymmetric(a: string, b: string)
    requires StrLt(a, b)
    ensures !StrLt(b, a)
  {
    if StrLt(b, a) {
      StrLtTransitive(a, b, a);
      StrLtIrreflexive(a);
    }
  }

  lemma KeyLeTotal(a: Key, b: Key)
    ensures KeyLe(a, b) || KeyLe(b, a)
  {
    StrLtTotal(a.s, b.s);
  }

  lemma KeyLeTransitive(a: Key, b: Key, c: Key)
    requires KeyLe(a, b) && KeyLe(b, c)
    ensures KeyLe(a, c)
  {
    if a.n == b.n == c.n && StrLt(a.s, b.s) && StrLt(b.s, c.s) {
      StrLtTransitive(a.s, b.s, c.s);
    }
  }

  lemma KeyLeAntisymmetric(a: Key, b: Key)
    requires KeyLe(a, b) && KeyLe(b, a)
    ensures a == b
  {
    if a != b && a.n == b.n {
      StrLtAsymmetric(a.s, b.s);
    }
  }

  // ---------------------------------------------------------------- stable sort

  /** Ascending by key. */
  ghost predicate SortedBy<T>(s: seq<T>, key: T -> Key) {
    forall i, j :: 0 <= i < j < |s| ==> KeyLe(key(s[i]), key(s[j]))
  }

  lemma SortedSnoc<T>(s: seq<T>, x: T, key: T -> Key)
    requires SortedBy(s, key)
    requires forall k :: 0 <= k < |s| ==> KeyLe(key(s[k]), key(x))
    ensures SortedBy(s + [x], key)
  {
    var t := s + [x];
    forall i, j | 0 <= i < j < |t| ensures KeyLe(key(t[i]), key(t[j])) {
      assert t[i] == s[i];
    }
  }

  /** Places `x` after every element whose key is not greater than its own. */
  function Insert<T>(x: T, s: seq<T>, key: T -> Key): seq<T> {
    if s == [] then [x]
    else if KeyLe(key(s[0]), key(x)) then [s[0]] + Insert(x, s[1..], key)
    else [x] + s
  }

  /** `sorted(s, key=key)`: each element in turn is inserted after its equals,
      so equal keys keep their order. */
  function SortBy<T>(s: seq<T>, key: T -> Key): seq<T> {
    if s == [] then [] else Insert(s[|s| - 1], SortBy(s[..|s| - 1], key), key)
  }

  /** The elements of `s` whose key is `k`, in order. */
  function WithKey<T>(s: seq<T>, key: T -> Key, k: Key): seq<T> {
    if s == [] then []
    else WithKey(s[..|s| - 1], key, k) + (if key(s[|s| - 1]) == k then [s[|s| - 1]] else [])
  }

  lemma {:induction false} InsertSplit<T>(x: T, s: seq<T>, key: T -> Key) returns (p: nat)
    ensures p <= |s| && Insert(x, s, key) == s[..p] + [x] + s[p..]
    ensures forall i :: 0 <= i < p ==> KeyLe(key(s[i]), key(x))
    ensures p < |s| ==> !KeyLe(key(s[p]), key(x))
  {
    if s == [] {
      p := 0;
    } else if KeyLe(key(s[0]), key(x)) {
      var q := InsertSplit(x, s[1..], key);
      p := q + 1;
      assert s[..p] == [s[0]] + s[1..][..q];
      assert s[p..] == s[1..][q..];
    } else {
      p := 0;
    }
  }

  lemma InsertPermutation<T>(x: T, s: seq<T>, key: T -> Key)
    ensures multiset(Insert(x, s, key)) == multiset(s) + multiset{x}
  {
    var p := InsertSplit(x, s, key);
    assert s == s[..p] + s[p..];
  }

  lemma {:induction false} InsertSorted<T>(x: T, s: seq<T>, key: T -> Key)
    requires SortedBy(s, key)
    ensures SortedBy(Insert(x, s, key), key)
  {
    var p := InsertSplit(x, s, key);
    var r := Insert(x, s, key);
    forall i, j | 0 <= i < j < |r|
      ensures KeyLe(key(r[i]), key(r[j]))
    {
      if j < p || i > p {
        var i' := if i < p then i else i - 1;
        var j' := if j < p then j else j - 1;
        assert r[i] == s[i'] && r[j] == s[j'];
      } else if i == p {
        assert r[j] == s[j - 1];
        KeyLeTotal(key(s[p]), key(x));
        if j - 1 > p {
          KeyLeTransitive(key(x), key(s[p]), key(s[j - 1]));
        }
      } else if j == p {
        assert r[i] == s[i];
      } else {
        assert r[i] == s[i] && r[j] == s[j - 1];
      }
    }
  }

  lemma {:induction false} WithKeyAppend<T>(a: seq<T>, b: seq<T>, key: T -> Key, k: Key)
    ensures WithKey(a + b, key, k) == WithKey(a, key, k) + WithKey(b, key, k)
    decreases |b|
  {
    if b == [] {
      assert a + b == a;
    } else {
      var b' := b[..|b| - 1];
      WithKeyAppend(a, b', key, k);
      assert (a + b)[..|a + b| - 1] == a + b';
      assert (a + b)[|a + b| - 1] == b[|b| - 1];
    }
  }

  lemma {:induction false} WithKeyNone<T>(s: seq<T>, key: T -> Key, k: Key)
    requires forall i :: 0 <= i < |s| ==> key(s[i]) != k
    ensures WithKey(s, key, k) == []
    decreases |s|
  {
    if s != [] {
      WithKeyNone(s[..|s| - 1], key, k);
    }
  }

  /** Inserting into a sorted list adds `x` behind every element with the same key. */
  lemma InsertStable<T>(x: T, s: seq<T>, key: T -> Key, k: Key)
    requires SortedBy(s, key)
    ensures WithKey(Insert(x, s, key), key, k) == WithKey(s, key, k) + WithKey([x], key, k)
  {
    var p := InsertSplit(x, s, key);
    if key(x) == k {
      AfterInsertionPoint(x, s, key, p);
    }
    InsertStableAt(x, s, key, k, p);
  }

  lemma InsertStableAt<T>(x: T, s: seq<T>, key: T -> Key, k: Key, p: nat)
    requires p <= |s| && Insert(x, s, key) == s[..p] + [x] + s[p..]
    requires key(x) == k ==> forall i :: 0 <= i < |s[p..]| ==> key(s[p..][i]) != k
    ensures WithKey(Insert(x, s, key), key, k) == WithKey(s, key, k) + WithKey([x], key, k)
  {
    var lo, hi := s[..p], s[p..];
    assert s == lo + hi;
    WithKeyAppend(lo + [x], hi, key, k);
    WithKeyAppend(lo, [x], key, k);
    WithKeyAppend(lo, hi, key, k);
    if key(x) == k {
      WithKeyNone(hi, key, k);
    }
  }

  /** Behind the insertion point every key is strictly greater than `x`'s. */
  lemma AfterInsertionPoint<T>(x: T, s: seq<T>, key: T -> Key, p: nat)
    requires SortedBy(s, key)
    requires p <= |s| && (p < |s| ==> !KeyLe(key(s[p]), key(x)))
    ensures forall i :: 0 <= i < |s[p..]| ==> key(s[p..][i]) != key(x)
  {
    forall i | p <= i < |s|
      ensures key(s[i]) != key(x)
    {
      KeyLeTotal(key(s[p]), key(x));
      if key(s[i]) == key(x) {
        KeyLeTransitive(key(s[p]), key(s[i]), key(x));
      }
    }
  }

  /** `sorted` returns the same elements, ascending by key, and elements with
      equal keys in their original order. */
  lemma {:induction false} SortByCorrect<T>(s: seq<T>, key: T -> Key)
    ensures multiset(SortBy(s, key)) == multiset(s)
    ensures SortedBy(SortBy(s, key), key)
    ensures forall k :: WithKey(SortBy(s, key), key, k) == WithKey(s, key, k)
    decreases |s|
  {
    if s != [] {
      var init, x := s[..|s| - 1], s[|s| - 1];
      SortByCorrect(init, key);
      InsertPermutation(x, SortBy(init, key), key);
      InsertSorted(x, SortBy(init, key), key);
      assert s == init + [x];
      forall k
        ensures WithKey(SortBy(s, key), key, k) == WithKey(s, key, k)
      {
        InsertStable(x, SortBy(init, key), key, k);
        WithKeyAppend(init, [x], key, k);
      }
    }
  }

  lemma SortByLength<T>(s: seq<T>, key: T -> Key)
    ensures |SortBy(s, key)| == |s|
  {
    SortByCorrect(s, key);
    assert |multiset(SortBy(s, key))| == |multiset(s)|;
  }

  /** A list already ascending by key is left as it is. */
  lemma {:induction false} SortBySorted<T>(s: seq<T>, key: T -> Key)
    requires SortedBy(s, key)
    ensures SortBy(s, key) == s
    decreases |s|
  {
    if s != [] {
      var init, x := s[..|s| - 1], s[|s| - 1];
      SortBySorted(init, key);
      var p := InsertSplit(x, init, key);
      assert forall i :: 0 <= i < |init| ==> KeyLe(key(init[i]), key(x));
      assert p == |init|;
      assert s == init + [x];
    }
  }

  /** Sorting twice gives the result of sorting once. */
  lemma SortByIdempotent<T>(s: seq<T>, key: T -> Key)
    ensures SortBy(SortBy(s, key), key) == SortBy(s, key)
  {
    SortByCorrect(s, key);
    SortBySorted(SortBy(s, key), key);
  }
}
