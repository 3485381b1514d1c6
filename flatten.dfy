/**
 * The script's `flatten`: a `reduce` over an array that concatenates each
 * nested array's own flattening and appends every other element, so that an
 * arbitrarily nested array becomes the flat array of its leaves.
 */
module Flattening {

  /** A JavaScript array element: a non-array value, or an array of further elements. */
  datatype Nested<T> = Leaf(value: T) | Arr(items: seq<Nested<T>>)

  /** `flatten(array)`: the `reduce` started from the empty array. */
  function Flatten<T>(a: seq<Nested<T>>): (r: seq<T>)
    ensures |r| == LeafCount(a)
    decreases a, 1
  {
    Reduce([], a)
  }

  /**
   * The `reduce` callback applied from left to right: each element `c` is
   * concatenated onto the accumulator `p`.
   */
  function Reduce<T>(p: seq<T>, a: seq<Nested<T>>): (r: seq<T>)
    ensures |r| == |p| + LeafCount(a)
    decreases a, 0
  {
    if a == [] then p else Reduce(p + Spread(a[0]), a[1..])
  }

  /** Number of leaves in an array, at any depth. */
  function LeafCount<T>(a: seq<Nested<T>>): nat {
    if a == [] then 0
    else (match a[0] case Leaf(_) => 1 case Arr(items) => LeafCount(items)) + LeafCount(a[1..])
  }

  /** The leaves of an array as a multiset, at any depth. */
  function LeafBag<T>(a: seq<Nested<T>>): multiset<T> {
    if a == [] then multiset{}
    else (match a[0] case Leaf(x) => multiset{x} case Arr(items) => LeafBag(items)) + LeafBag(a[1..])
  }

  /** `x` is a leaf of `n`, at any depth. */
  predicate Contains<T(==)>(n: Nested<T>, x: T) {
    match n
    case Leaf(v) => v == x
    case Arr(items) => exists i :: 0 <= i < |items| && Contains(items[i], x)
  }

  /** The flat array `s` seen as an array whose elements are all non-array values. */
  function Lift<T>(s: seq<T>): seq<Nested<T>> {
    seq(|s|, i requires 0 <= i < |s| => Leaf(s[i]))
  }

  /** What one element contributes to the accumulator: `flatten(c)` for an array, `[c]` otherwise. */
  function Spread<T>(c: Nested<T>): (r: seq<T>)
    ensures |r| == LeafCount([c])
    decreases c, 2
  {
    match c case Arr(items) => Flatten(items) case Leaf(x) => [x]
  }

  /** The accumulator of the `reduce` only ever grows at its end. */
  lemma {:induction false} ReduceAppends<T>(p: seq<T>, a: seq<Nested<T>>)
    ensures Reduce(p, a) == p + Flatten(a)
    decreases a
  {
    if a != [] {
      var step := Spread(a[0]);
      ReduceAppends(p + step, a[1..]);
      ReduceAppends(step, a[1..]);
      assert Flatten(a) == Reduce([] + step, a[1..]);
      assert [] + step == step;
    }
  }

  /** Flattening visits the first element and then the rest. */
  lemma FlattenCons<T>(c: Nested<T>, a: seq<Nested<T>>)
    ensures Flatten([c] + a) == Spread(c) + Flatten(a)
  {
    var s := [c] + a;
    assert s[0] == c && s[1..] == a;
    assert Flatten(s) == Reduce([] + Spread(c), a);
    assert [] + Spread(c) == Spread(c);
    ReduceAppends(Spread(c), a);
  }

  /** The empty array flattens to the empty array. */
  lemma FlattenEmpty<T>()
    ensures Flatten<T>([]) == []
  {
  }

  /** A single non-array value flattens to itself. */
  lemma FlattenLeaf<T>(x: T)
    ensures Flatten([Leaf(x)]) == [x]
  {
    FlattenCons(Leaf(x), []);
  }

  /** A single array flattens to its own flattening. */
  lemma FlattenArr<T>(items: seq<Nested<T>>)
    ensures Flatten([Arr(items)]) == Flatten(items)
  {
    FlattenCons(Arr(items), []);
  }

  /**
   * Flattening respects concatenation: the leaves come out depth first,
   * left to right.
   */
  lemma {:induction false} FlattenAppend<T>(a: seq<Nested<T>>, b: seq<Nested<T>>)
    ensures Flatten(a + b) == Flatten(a) + Flatten(b)
    decreases a
  {
    if a == [] {
      assert a + b == b;
    } else {
      assert a + b == [a[0]] + (a[1..] + b);
      assert a == [a[0]] + a[1..];
      FlattenCons(a[0], a[1..] + b);
      FlattenCons(a[0], a[1..]);
      FlattenAppend(a[1..], b);
    }
  }

  /** An array that is already flat is returned unchanged. */
  lemma {:induction false} FlattenFlat<T>(s: seq<T>)
    ensures Flatten(Lift(s)) == s
    decreases s
  {
    if s != [] {
      assert Lift(s) == [Leaf(s[0])] + Lift(s[1..]);
      FlattenCons(Leaf(s[0]), Lift(s[1..]));
      FlattenFlat(s[1..]);
    }
  }

  /** Flattening is idempotent: flattening its result again changes nothing. */
  lemma FlattenIdempotent<T>(a: seq<Nested<T>>)
    ensures Flatten(Lift(Flatten(a))) == Flatten(a)
  {
    FlattenFlat(Flatten(a));
  }

  /** Each leaf occurs in the result exactly as often as in the input. */
  lemma {:induction false} FlattenBag<T>(a: seq<Nested<T>>)
    ensures multiset(Flatten(a)) == LeafBag(a)
    decreases a
  {
    if a != [] {
      assert a == [a[0]] + a[1..];
      FlattenCons(a[0], a[1..]);
      FlattenBag(a[1..]);
      match a[0]
      case Leaf(x) =>
      case Arr(items) => FlattenBag(items);
    }
  }

  /**
   * The result holds exactly the leaves of the input: nothing that is not a
   * leaf, and every leaf at any depth.
   */
  lemma {:induction false} FlattenMembers<T>(a: seq<Nested<T>>, x: T)
    ensures x in Flatten(a) <==> Contains(Arr(a), x)
    decreases a
  {
    if a != [] {
      assert a == [a[0]] + a[1..];
      FlattenCons(a[0], a[1..]);
      FlattenMembers(a[1..], x);
      match a[0]
      case Leaf(v) =>
      case Arr(items) => FlattenMembers(items, x);
      // an index into the tail is an index into the whole array, shifted by one
      if Contains(Arr(a[1..]), x) {
        var i :| 0 <= i < |a[1..]| && Contains(a[1..][i], x);
        assert Contains(a[i + 1], x);
      }
      if Contains(Arr(a), x) {
        var i :| 0 <= i < |a| && Contains(a[i], x);
        if i > 0 {
          assert a[1..][i - 1] == a[i];
        }
      }
    }
  }
}
