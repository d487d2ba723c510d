/** Raster shapes as Python tuples of natural numbers, with Python's tuple
    order (lexicographic, a proper prefix being smaller) and the built-in
    `max` over a list of them. */
module Shapes {

  type Shape = seq<nat>

  /** Python's `a < b` on tuples. */
  predicate Less(a: Shape, b: Shape)
    decreases |a|
  {
    if |a| == 0 then |b| > 0
    else if |b| == 0 then false
    else if a[0] != b[0] then a[0] < b[0]
    else Less(a[1..], b[1..])
  }

  /** Python's `a <= b` on tuples. */
  predicate LessEq(a: Shape, b: Shape) { a == b || Less(a, b) }

  lemma {:induction false} LessIrreflexive(a: Shape)
    ensures !Less(a, a)
    decreases |a|
  {
    if |a| > 0 {
      LessIrreflexive(a[1..]);
    }
  }

  lemma {:induction false} LessTransitive(a: Shape, b: Shape, c: Shape)
    requires Less(a, b) && Less(b, c)
    ensures Less(a, c)
    decreases |a|
  {
    if |a| > 0 && a[0] == b[0] && b[0] == c[0] {
      LessTransitive(a[1..], b[1..], c[1..]);
    }
  }

  /** Any two distinct tuples are ordered one way or the other. */
  lemma {:induction false} LessTotal(a: Shape, b: Shape)
    ensures a == b || Less(a, b) || Less(b, a)
    decreases |a|
  {
    if |a| > 0 && |b| > 0 && a[0] == b[0] {
      assert a == [a[0]] + a[1..] && b == [b[0]] + b[1..];
      LessTotal(a[1..], b[1..]);
    }
  }

  lemma LessAsymmetric(a: Shape, b: Shape)
    requires Less(a, b)
    ensures !Less(b, a)
  {
    if Less(b, a) {
      LessTransitive(a, b, a);
      LessIrreflexive(a);
    }
  }

  /** `max(shapes)`: scan left to right, replacing the running maximum by an
      item only when the item is strictly greater. */
  function Max(shapes: seq<Shape>): (r: Shape)
    requires |shapes| > 0
    ensures r in shapes
    ensures forall i :: 0 <= i < |shapes| ==> LessEq(shapes[i], r)
    decreases |shapes|
  {
    if |shapes| == 1 then shapes[0]
    else
      var front := shapes[..|shapes| - 1];
      var last := shapes[|shapes| - 1];
      var m := Max(front);
      assert forall i :: 0 <= i < |front| ==> LessEq(shapes[i], m) by {
        assert forall i :: 0 <= i < |front| ==> shapes[i] == front[i];
      }
      if Less(m, last) then
        MaxStep(shapes[..|shapes| - 1], m, last);
        last
      else
        LessTotal(m, last);
        m
  }

  lemma MaxStep(front: seq<Shape>, m: Shape, last: Shape)
    requires forall i :: 0 <= i < |front| ==> LessEq(front[i], m)
    requires Less(m, last)
    ensures forall i :: 0 <= i < |front| ==> LessEq(front[i], last)
  {
    forall i | 0 <= i < |front|
      ensures LessEq(front[i], last)
    {
      if front[i] != m {
        LessTransitive(front[i], m, last);
      }
    }
  }

  /** The greatest tuple of a list does not depend on the list's order:
      two lists holding the same tuples have the same maximum. This is why
      the unspecified iteration order of a dict does not affect the target. */
  lemma MaxOrderIndependent(xs: seq<Shape>, ys: seq<Shape>)
    requires |xs| > 0
    requires forall s :: s in xs <==> s in ys
    ensures |ys| > 0 && Max(xs) == Max(ys)
  {
    assert xs[0] in ys;
    var a, b := Max(xs), Max(ys);
    var i :| 0 <= i < |ys| && ys[i] == a;
    var j :| 0 <= j < |xs| && xs[j] == b;
    assert LessEq(a, b) && LessEq(b, a);
    if a != b {
      LessAsymmetric(a, b);
    }
  }

  /** The order is lexicographic, not componentwise: (10, 5) beats (9, 20),
      so the chosen shape can be narrower than another input. */
  lemma MaxIsLexicographic()
    ensures Max([[10, 5], [9, 20]]) == [10, 5]
    ensures Max([[9, 20], [10, 5]]) == [10, 5]
  {
    assert Less([9, 20], [10, 5]);
  }
}
