/**
 * Vector3d: an immutable (x, y, z) triple used both for vertices and for
 * normals. Coordinates are compared exactly, so they are modelled as `real`.
 * Python compares tuples, and lists of tuples, lexicographically; `Less` and
 * `LexLess` are those two orders.
 */
module Vectors {

  datatype Vector3d = Vector3d(x: real, y: real, z: real)

  /** Tuple ordering: the first coordinate that differs decides. */
  predicate Less(a: Vector3d, b: Vector3d)
  {
    if a.x != b.x then a.x < b.x
    else if a.y != b.y then a.y < b.y
    else a.z < b.z
  }

  /** Tuple ordering is a strict total order on vectors. */
  lemma LessIsStrictTotalOrder(a: Vector3d, b: Vector3d, c: Vector3d)
    ensures !Less(a, a)
    ensures Less(a, b) ==> !Less(b, a)
    ensures Less(a, b) && Less(b, c) ==> Less(a, c)
    ensures a != b ==> Less(a, b) || Less(b, a)
  {
  }

  /** A new vector whose coordinates are `fn` applied to each of `v`'s. */
  function MapCoordinates(v: Vector3d, fn: real -> real): Vector3d
  {
    Vector3d(fn(v.x), fn(v.y), fn(v.z))
  }

  /** Mapping with one function and then another is mapping with their composition. */
  lemma MapCoordinatesCompose(v: Vector3d, f: real -> real, g: real -> real)
    ensures MapCoordinates(MapCoordinates(v, f), g) == MapCoordinates(v, c => g(f(c)))
  {
  }

  /** A strictly increasing map (a uniform positive scaling, say) keeps the order of vectors. */
  lemma MapCoordinatesMonotone(a: Vector3d, b: Vector3d, fn: real -> real)
    requires forall s: real, t: real :: s < t ==> fn(s) < fn(t)
    ensures Less(a, b) <==> Less(MapCoordinates(a, fn), MapCoordinates(b, fn))
  {
  }

  /**
   * Python's list ordering on vertex lists: the first position where the
   * elements differ decides, and a proper prefix comes first.
   */
  predicate LexLess(a: seq<Vector3d>, b: seq<Vector3d>)
  {
    if a == [] then b != []
    else if b == [] then false
    else if a[0] != b[0] then Less(a[0], b[0])
    else LexLess(a[1..], b[1..])
  }

  lemma {:induction false} LexLessIrreflexive(a: seq<Vector3d>)
    ensures !LexLess(a, a)
  {
    if a != [] {
      LexLessIrreflexive(a[1..]);
    }
  }

  lemma {:induction false} LexLessTransitive(a: seq<Vector3d>, b: seq<Vector3d>, c: seq<Vector3d>)
    requires LexLess(a, b) && LexLess(b, c)
    ensures LexLess(a, c)
  {
    if a != [] && b != [] && c != [] && a[0] == b[0] && b[0] == c[0] {
      LexLessTransitive(a[1..], b[1..], c[1..]);
    }
  }

  lemma {:induction false} LexLessTotal(a: seq<Vector3d>, b: seq<Vector3d>)
    ensures a == b || LexLess(a, b) || LexLess(b, a)
  {
    if a != [] && b != [] && a[0] == b[0] {
      LexLessTotal(a[1..], b[1..]);
      if a[1..] == b[1..] {
        assert a == [a[0]] + a[1..] && b == [b[0]] + b[1..];
      }
    }
  }

  /** The order on vertex lists is a strict total order (what list.sort relies on). */
  lemma LexLessIsStrictTotalOrder(a: seq<Vector3d>, b: seq<Vector3d>, c: seq<Vector3d>)
    ensures !LexLess(a, a)
    ensures LexLess(a, b) ==> !LexLess(b, a)
    ensures LexLess(a, b) && LexLess(b, c) ==> LexLess(a, c)
    ensures a == b || LexLess(a, b) || LexLess(b, a)
  {
    LexLessIrreflexive(a);
    LexLessTotal(a, b);
    if LexLess(a, b) && LexLess(b, a) {
      LexLessTransitive(a, b, a);
    }
    if LexLess(a, b) && LexLess(b, c) {
      LexLessTransitive(a, b, c);
    }
  }
}
