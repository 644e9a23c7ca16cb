/**
 * The parts of Ruby's Array API that the core relies on: `a & b`, `uniq`,
 * `a - b`, `index`, `compact` and `min`. Each keeps the order of its
 * receiver, as Ruby's do.
 */
module RubyArray {
  import opened Wrappers

  predicate NoDuplicates<T(==)>(s: seq<T>) {
    forall i, j :: 0 <= i < j < |s| ==> s[i] != s[j]
  }

  /** `a.uniq`: the first occurrence of every element, in order. */
  function Uniq<T(==,!new)>(a: seq<T>): (r: seq<T>)
    ensures NoDuplicates(r)
    ensures forall x :: x in r <==> x in a
    ensures |r| <= |a|
  {
    if a == [] then []
    else
      var u := Uniq(a[..|a| - 1]);
      var last := a[|a| - 1];
      assert a == a[..|a| - 1] + [last];
      if last in u then u else u + [last]
  }

  /** The elements of `a` that occur in `b`, in order, duplicates kept. */
  function Filter<T(==,!new)>(a: seq<T>, b: seq<T>): (r: seq<T>)
    ensures forall x :: x in r <==> x in a && x in b
    ensures |r| <= |a|
  {
    if a == [] then []
    else
      assert a == [a[0]] + a[1..];
      (if a[0] in b then [a[0]] else []) + Filter(a[1..], b)
  }

  /** `a & b`: the distinct elements common to both, in the order of `a`. */
  function Intersect<T(==,!new)>(a: seq<T>, b: seq<T>): (r: seq<T>)
    ensures NoDuplicates(r)
    ensures forall x :: x in r <==> x in a && x in b
  {
    Uniq(Filter(a, b))
  }

  /** `a - b`: every element of `a` that does not occur in `b`, in order. */
  function Difference<T(==,!new)>(a: seq<T>, b: seq<T>): (r: seq<T>)
    ensures forall x :: x in r <==> x in a && x !in b
    ensures |r| <= |a|
    ensures NoDuplicates(a) ==> NoDuplicates(r)
  {
    if a == [] then []
    else
      var rest := Difference(a[1..], b);
      assert a == [a[0]] + a[1..];
      assert a[0] !in a[1..] ==> a[0] !in rest;
      if a[0] in b then rest else [a[0]] + rest
  }

  /** `a.index(x)`: the position of the first occurrence of `x`, or nil. */
  function IndexOf<T(==)>(a: seq<T>, x: T): (r: Option<nat>)
    ensures r.None? <==> x !in a
    ensures r.Some? ==> r.value < |a| && a[r.value] == x
    ensures r.Some? ==> forall j :: 0 <= j < r.value ==> a[j] != x
  {
    if a == [] then None
    else if a[0] == x then Some(0)
    else
      match IndexOf(a[1..], x)
      case None => None
      case Some(k) => Some(k + 1)
  }

  /** In a list without duplicates, `index` inverts indexing. */
  lemma IndexOfDistinct<T>(a: seq<T>, i: nat)
    requires NoDuplicates(a) && i < |a|
    ensures IndexOf(a, a[i]) == Some(i)
  {
  }

  /** `a.compact`: the present values, in order. */
  function Compact<T(!new)>(a: seq<Option<T>>): (r: seq<T>)
    ensures forall x :: x in r <==> Some(x) in a
    ensures |r| <= |a|
  {
    if a == [] then []
    else
      assert a == [a[0]] + a[1..];
      (if a[0].Some? then [a[0].value] else []) + Compact(a[1..])
  }

  /** `a.min`: the least element, or nil for an empty list. */
  function Min(a: seq<int>): (r: Option<int>)
    ensures r.None? <==> a == []
    ensures r.Some? ==> r.value in a && forall x :: x in a ==> r.value <= x
  {
    if a == [] then None
    else
      assert a == [a[0]] + a[1..];
      match Min(a[1..])
      case None => Some(a[0])
      case Some(m) => Some(if a[0] <= m then a[0] else m)
  }

  /** `a.map(&f)` */
  function Map<T, U>(a: seq<T>, f: T -> U): (r: seq<U>)
    ensures |r| == |a| && forall k :: 0 <= k < |a| ==> r[k] == f(a[k])
  {
    seq(|a|, k requires 0 <= k < |a| => f(a[k]))
  }

  lemma MapSnoc<T, U>(a: seq<T>, f: T -> U, i: nat)
    requires i < |a|
    ensures Map(a[..i + 1], f) == Map(a[..i], f) + [f(a[i])]
  {
  }

  /** `a.select(&p)`: the elements `p` accepts, in order. */
  function Select<T>(a: seq<T>, p: T -> bool): seq<T> {
    if a == [] then []
    else Select(a[..|a| - 1], p) + (if p(a[|a| - 1]) then [a[|a| - 1]] else [])
  }

  /** What `select` keeps: the accepted elements, and only they. */
  lemma {:induction false} SelectExactly<T>(a: seq<T>, p: T -> bool)
    ensures forall x :: x in Select(a, p) <==> x in a && p(x)
    ensures |Select(a, p)| <= |a|
  {
    if a != [] {
      var init := a[..|a| - 1];
      SelectExactly(init, p);
      assert a == init + [a[|a| - 1]];
    }
  }
}
