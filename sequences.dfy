/** Python list operations the topic code relies on, stated on Dafny sequences:
    `set(l)`, `l.remove(x)`, `list(s)` for a set `s`, and the optional value. */
module Sequences {

  datatype Option<+T> = None | Some(value: T)

  /** A keyword is a node name of the yearly graph. */
  type Keyword = string

  /** A topic is a list of keywords. */
  type Topic = seq<Keyword>

  /** `set(l)`: the keywords of a list, duplicates and order forgotten. */
  function KeySet(l: seq<Keyword>): (s: set<Keyword>)
    ensures forall x :: x in s <==> x in l
  {
    set x | x in l
  }

  predicate NoDuplicates<T(==)>(l: seq<T>)
  {
    forall i, j :: 0 <= i < j < |l| ==> l[i] != l[j]
  }

  /** `l.remove(x)`: drops the first element equal to `x`. */
  function RemoveFirst<T(==)>(l: seq<T>, x: T): (r: seq<T>)
    requires x in l
    ensures |r| == |l| - 1
    ensures multiset(r) == multiset(l) - multiset{x}
  {
    if l[0] == x then
      assert l == [l[0]] + l[1..];
      l[1..]
    else
      assert l == [l[0]] + l[1..];
      [l[0]] + RemoveFirst(l[1..], x)
  }

  /** `a` is obtained from `b` by deleting elements (order kept). */
  predicate SubsequenceOf<T(==)>(a: seq<T>, b: seq<T>)
    decreases |b|
  {
    if a == [] then true
    else if b == [] then false
    else (a[0] == b[0] && SubsequenceOf(a[1..], b[1..])) || SubsequenceOf(a, b[1..])
  }

  /** `list(s)`: the elements of a set, once each, in an order the model leaves open
      (CPython's set iteration order is an implementation detail). */
  method ListOfSet(s: set<Keyword>) returns (l: seq<Keyword>)
    ensures KeySet(l) == s
    ensures NoDuplicates(l)
    ensures |l| == |s|
  {
    l := [];
    var rest := s;
    while rest != {}
      invariant KeySet(l) + rest == s
      invariant KeySet(l) !! rest
      invariant NoDuplicates(l)
      invariant |l| + |rest| == |s|
      decreases |rest|
    {
      var x :| x in rest;
      MoveOne(l, rest, s, x);
      l := l + [x];
      rest := rest - {x};
    }
  }

  /** One step of `ListOfSet`: moving `x` from the rest to the list keeps its invariant. */
  lemma MoveOne(l: seq<Keyword>, rest: set<Keyword>, s: set<Keyword>, x: Keyword)
    requires KeySet(l) + rest == s && KeySet(l) !! rest
    requires NoDuplicates(l) && |l| + |rest| == |s|
    requires x in rest
    ensures KeySet(l + [x]) + (rest - {x}) == s && KeySet(l + [x]) !! rest - {x}
    ensures NoDuplicates(l + [x]) && |l + [x]| + |rest - {x}| == |s|
  {
    assert x !in KeySet(l);
    assert KeySet(l + [x]) == KeySet(l) + {x};
    assert |rest - {x}| == |rest| - 1;
  }

  lemma AppendAssociative<T>(a: seq<T>, b: seq<T>, c: seq<T>)
    ensures a + b + c == a + (b + c)
  {
  }

  /** Set cardinality fact used wherever the source compares `len(set(..))`. */
  lemma StrictSubsetSmaller<T>(a: set<T>, b: set<T>)
    requires a < b
    ensures |a| < |b|
  {
    var x :| x in b && x !in a;
    assert a <= b - {x};
    assert |b - {x}| == |b| - 1;
    SubsetSmallerOrEqual(a, b - {x});
  }

  lemma EmptyDifference<T>(a: set<T>, b: set<T>)
    requires a - b == {}
    ensures a <= b
  {
    forall x | x in a ensures x in b {
      assert x !in a - b;
    }
  }

  lemma SubsetSmallerOrEqual<T>(a: set<T>, b: set<T>)
    requires a <= b
    ensures |a| <= |b|
  {
    assert b == a + (b - a);
  }
}
