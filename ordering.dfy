/** What an ORDER BY promises about a result set, and a sort that meets it.
    A row's sort key is a list of columns compared lexicographically; ties are left in any
    order, as SQL leaves them. */
module Ordering {

  /** One ORDER BY column: a number, or a string compared character by character. */
  datatype SortKey = Num(n: int) | Text(s: string)

  /** Lexicographic order on strings by character code. */
  predicate TextLe(a: string, b: string) {
    |a| == 0 || (|b| > 0 && (a[0] < b[0] || (a[0] == b[0] && TextLe(a[1..], b[1..]))))
  }

  lemma {:induction false} TextLeTotal(a: string, b: string)
    ensures TextLe(a, b) || TextLe(b, a)
  {
    if |a| > 0 && |b| > 0 && a[0] == b[0] {
      TextLeTotal(a[1..], b[1..]);
    }
  }

  lemma {:induction false} TextLeTransitive(a: string, b: string, c: string)
    requires TextLe(a, b) && TextLe(b, c)
    ensures TextLe(a, c)
  {
    if |a| > 0 && |b| > 0 && |c| > 0 && a[0] == b[0] && b[0] == c[0] {
      TextLeTransitive(a[1..], b[1..], c[1..]);
    }
  }

  lemma {:induction false} TextLeAntisymmetric(a: string, b: string)
    requires TextLe(a, b) && TextLe(b, a)
    ensures a == b
  {
    if |a| > 0 && |b| > 0 {
      TextLeAntisymmetric(a[1..], b[1..]);
      assert a == [a[0]] + a[1..] && b == [b[0]] + b[1..];
    }
  }

  /** One column: numbers by value, strings by TextLe (a column never mixes the two). */
  predicate KeyLe(x: SortKey, y: SortKey) {
    match (x, y)
    case (Num(m), Num(n)) => m <= n
    case (Text(a), Text(b)) => TextLe(a, b)
    case (Num(_), Text(_)) => true
    case (Text(_), Num(_)) => false
  }

  lemma KeyLeIsTotalOrder(x: SortKey, y: SortKey, z: SortKey)
    ensures KeyLe(x, y) || KeyLe(y, x)
    ensures KeyLe(x, y) && KeyLe(y, x) ==> x == y
    ensures KeyLe(x, y) && KeyLe(y, z) ==> KeyLe(x, z)
  {
    if x.Text? && y.Text? {
      TextLeTotal(x.s, y.s);
      if KeyLe(x, y) && KeyLe(y, x) { TextLeAntisymmetric(x.s, y.s); }
      if z.Text? && KeyLe(x, y) && KeyLe(y, z) { TextLeTransitive(x.s, y.s, z.s); }
    }
  }

  /** ORDER BY c1, c2, ...: lexicographic over the columns. */
  predicate KeysLe(a: seq<SortKey>, b: seq<SortKey>) {
    |a| == 0 || (|b| > 0 && ((KeyLe(a[0], b[0]) && a[0] != b[0]) || (a[0] == b[0] && KeysLe(a[1..], b[1..]))))
  }

  lemma {:induction false} KeysLeTotal(a: seq<SortKey>, b: seq<SortKey>)
    ensures KeysLe(a, b) || KeysLe(b, a)
  {
    if |a| > 0 && |b| > 0 {
      KeyLeIsTotalOrder(a[0], b[0], b[0]);
      if a[0] == b[0] { KeysLeTotal(a[1..], b[1..]); }
    }
  }

  lemma {:induction false} KeysLeTransitive(a: seq<SortKey>, b: seq<SortKey>, c: seq<SortKey>)
    requires KeysLe(a, b) && KeysLe(b, c)
    ensures KeysLe(a, c)
  {
    if |a| > 0 {
      KeyLeIsTotalOrder(a[0], b[0], c[0]);
      KeyLeIsTotalOrder(b[0], c[0], a[0]);
      KeyLeIsTotalOrder(a[0], c[0], b[0]);
      if a[0] == b[0] && b[0] == c[0] {
        KeysLeTransitive(a[1..], b[1..], c[1..]);
      }
    }
  }

  /** The rows are in ORDER BY order for `key`. */
  ghost predicate Sorted<T>(xs: seq<T>, key: T -> seq<SortKey>) {
    forall i, j :: 0 <= i < j < |xs| ==> KeysLe(key(xs[i]), key(xs[j]))
  }

  /** Every row of `xs` sorts at or after `lo`. */
  ghost predicate AllAbove<T>(lo: seq<SortKey>, xs: seq<T>, key: T -> seq<SortKey>) {
    forall i :: 0 <= i < |xs| ==> KeysLe(lo, key(xs[i]))
  }

  lemma AllAbovePermutation<T>(lo: seq<SortKey>, xs: seq<T>, ys: seq<T>, key: T -> seq<SortKey>)
    requires multiset(xs) == multiset(ys) && AllAbove(lo, xs, key)
    ensures AllAbove(lo, ys, key)
  {
    forall i | 0 <= i < |ys| ensures KeysLe(lo, key(ys[i])) {
      assert ys[i] in multiset(ys);
      assert ys[i] in xs;
    }
  }

  /** Insertion of one row into a sorted list. */
  function Insert<T>(x: T, xs: seq<T>, key: T -> seq<SortKey>): (r: seq<T>)
    requires Sorted(xs, key)
    ensures multiset(r) == multiset(xs) + multiset{x}
    ensures Sorted(r, key)
  {
    if xs == [] then [x]
    else if KeysLe(key(x), key(xs[0])) then
      assert AllAbove(key(x), xs, key) by {
        forall i | 0 <= i < |xs| ensures KeysLe(key(x), key(xs[i])) {
          if i > 0 { KeysLeTransitive(key(x), key(xs[0]), key(xs[i])); }
        }
      }
      [x] + xs
    else
      var rest := Insert(x, xs[1..], key);
      assert AllAbove(key(xs[0]), rest, key) by {
        KeysLeTotal(key(x), key(xs[0]));
        assert AllAbove(key(xs[0]), xs[1..] + [x], key);
        assert multiset(xs[1..] + [x]) == multiset(rest);
        AllAbovePermutation(key(xs[0]), xs[1..] + [x], rest, key);
      }
      assert xs == [xs[0]] + xs[1..];
      [xs[0]] + rest
  }

  /** A stable insertion sort: a permutation of `xs` in ORDER BY order for `key`. */
  function SortBy<T>(xs: seq<T>, key: T -> seq<SortKey>): (r: seq<T>)
    ensures multiset(r) == multiset(xs)
    ensures Sorted(r, key)
  {
    if xs == [] then []
    else
      assert xs == [xs[0]] + xs[1..];
      Insert(xs[0], SortBy(xs[1..], key), key)
  }

  /** No row appears twice. */
  ghost predicate Distinct<T>(xs: seq<T>) {
    forall i, j :: 0 <= i < j < |xs| ==> xs[i] != xs[j]
  }

  lemma {:induction false} DistinctCount<T>(xs: seq<T>, x: T)
    requires Distinct(xs)
    ensures multiset(xs)[x] <= 1
  {
    if xs != [] {
      assert xs == [xs[0]] + xs[1..];
      DistinctCount(xs[1..], x);
      if xs[0] == x {
        assert x !in xs[1..];
      }
    }
  }

  lemma RepeatCount<T>(xs: seq<T>, i: nat, j: nat)
    requires i < j < |xs| && xs[i] == xs[j]
    ensures multiset(xs)[xs[i]] >= 2
  {
    assert xs == xs[..i] + [xs[i]] + xs[i + 1..j] + [xs[j]] + xs[j + 1..];
  }

  lemma PermutationDistinct<T>(xs: seq<T>, ys: seq<T>)
    requires multiset(xs) == multiset(ys) && Distinct(xs)
    ensures Distinct(ys)
  {
    forall i, j | 0 <= i < j < |ys| ensures ys[i] != ys[j] {
      if ys[i] == ys[j] {
        RepeatCount(ys, i, j);
        DistinctCount(xs, ys[i]);
      }
    }
  }

  /** Some listing of a finite set, each element once. */
  ghost function Enumerate<T(!new)>(s: set<T>): (r: seq<T>)
    ensures |r| == |s| && Distinct(r)
    ensures forall x :: x in r <==> x in s
  {
    if s == {} then []
    else
      var x :| x in s;
      var rest := Enumerate(s - {x});
      [x] + rest
  }

  /** A result set returned by `SELECT ... ORDER BY key`: each row of `rows` exactly once,
      in ORDER BY order. */
  ghost function SortedList<T(!new)>(rows: set<T>, key: T -> seq<SortKey>): (r: seq<T>)
    ensures |r| == |rows| && Distinct(r)
    ensures forall x :: x in r <==> x in rows
    ensures Sorted(r, key)
  {
    var xs := Enumerate(rows);
    var r := SortBy(xs, key);
    PermutationDistinct(xs, r);
    assert forall x :: x in r <==> x in multiset(r);
    assert |r| == |multiset(r)| == |multiset(xs)| == |xs|;
    r
  }

  /** m is the least element of s. */
  predicate IsLeast(s: set<nat>, m: nat) {
    m in s && forall y :: y in s ==> m <= y
  }

  /** The least element of a non-empty set of keys. */
  function MinId(s: set<nat>): (m: nat)
    requires s != {}
    ensures m in s && forall y :: y in s ==> m <= y
  {
    MinExists(s);
    var m :| IsLeast(s, m); m
  }

  lemma {:induction false} MinExists(s: set<nat>)
    requires s != {}
    ensures exists m :: IsLeast(s, m)
    decreases s
  {
    var x :| x in s;
    var rest := s - {x};
    if rest == {} {
      LeastOfLarger(s, rest, x, x);
    } else {
      MinExists(rest);
      var m :| IsLeast(rest, m);
      LeastOfLarger(s, rest, x, m);
    }
  }

  /** Adding x back to rest: the smaller of x and rest's least element is the least of s. */
  lemma LeastOfLarger(s: set<nat>, rest: set<nat>, x: nat, m: nat)
    requires x in s && rest == s - {x}
    requires IsLeast(rest, m) || (rest == {} && m == x)
    ensures IsLeast(s, if x < m then x else m)
  {
    var w := if x < m then x else m;
    forall y | y in s ensures w <= y {
      if y != x {
        assert y in rest;
      }
    }
  }

  /** The keys of a set in ascending order. */
  function SortedIds(s: set<nat>): (r: seq<nat>)
    ensures |r| == |s|
    ensures forall x :: x in r <==> x in s
    ensures forall i, j :: 0 <= i < j < |r| ==> r[i] < r[j]
    decreases s
  {
    if s == {} then []
    else
      var m := MinId(s);
      var rest := SortedIds(s - {m});
      MinBeforeRest(s, m, rest);
      [m] + rest
  }

  /** Putting the least key in front of the others in ascending order gives all the keys
      in ascending order. */
  lemma MinBeforeRest(s: set<nat>, m: nat, rest: seq<nat>)
    requires m in s && forall y :: y in s ==> m <= y
    requires |rest| == |s - {m}|
    requires forall x :: x in rest <==> x in s - {m}
    requires forall i, j :: 0 <= i < j < |rest| ==> rest[i] < rest[j]
    ensures |[m] + rest| == |s|
    ensures forall x :: x in [m] + rest <==> x in s
    ensures forall i, j :: 0 <= i < j < |[m] + rest| ==> ([m] + rest)[i] < ([m] + rest)[j]
  {
    var r := [m] + rest;
    assert |s - {m}| == |s| - 1;
    forall i, j | 0 <= i < j < |r| ensures r[i] < r[j] {
      assert r[j] == rest[j - 1] && rest[j - 1] in rest;
      if i > 0 {
        assert r[i] == rest[i - 1];
      }
    }
  }
}
