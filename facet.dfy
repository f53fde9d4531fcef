/**
 * Facet: a planar polygon given by an ordered vertex list and an optional
 * normal. The vertex-list computations behind sort_vertices, join and
 * split_to_triangles are stated here as functions over vertex lists, with
 * their lemmas; the class `Facet` holds the state the Python object mutates.
 */
module Facets {
  import opened Optional
  import opened Vectors
  import Sorting

  /**
   * recalculate_normal: the normal a facet built without one gets from its
   * vertices (a floating-point cross product, outside this model).
   */
  type NormalFn = seq<Vector3d> -> Option<Vector3d>

  // ---------------------------------------------------------------------
  // sort_vertices
  // ---------------------------------------------------------------------

  /**
   * The index `min` picks out of the (vertex, index) pairs: a scan that keeps
   * the current pair and replaces it only by a strictly smaller one, which
   * yields the first position holding a least vertex.
   */
  function FirstMinIndex(vs: seq<Vector3d>): (m: nat)
    requires |vs| > 0
    ensures m < |vs|
    ensures forall i :: 0 <= i < |vs| ==> !Less(vs[i], vs[m])
    ensures forall i :: 0 <= i < m ==> vs[i] != vs[m]
  {
    if |vs| == 1 then 0
    else
      var m := FirstMinIndex(vs[..|vs| - 1]);
      if Less(vs[|vs| - 1], vs[m]) then |vs| - 1 else m
  }

  /**
   * The first half of the sort key of position i: (i - index_of_min) % 3.
   * Python's `%` with a positive modulus never returns a negative number,
   * and neither does Dafny's, so the key is written exactly as in the source.
   */
  function Turn(i: int, m: int): (t: int)
    ensures 0 <= t < 3
  {
    (i - m) % 3
  }

  /** Close to the least position, the turn is the distance to it, counted forwards. */
  lemma TurnSmall(i: int, m: int)
    requires -3 < i - m < 6
    ensures Turn(i, m) == if i - m < 0 then i - m + 3 else if i - m < 3 then i - m else i - m - 3
  {
  }

  /** The vertex at position i; outside the list (never consulted) the origin. */
  function VertexAt(vs: seq<Vector3d>, i: int): Vector3d
  {
    if 0 <= i < |vs| then vs[i] else Vector3d(0.0, 0.0, 0.0)
  }

  /** Python's comparison of the pairs (Turn(i, m), vertex) at positions i and j. */
  predicate KeyLess(vs: seq<Vector3d>, m: int, i: int, j: int)
  {
    Turn(i, m) < Turn(j, m) || (Turn(i, m) == Turn(j, m) && Less(VertexAt(vs, i), VertexAt(vs, j)))
  }

  /** The order `sorted` applies to the positions of the vertex list. */
  function KeyOrder(vs: seq<Vector3d>, m: int): (int, int) -> bool
  {
    (i: int, j: int) => KeyLess(vs, m, i, j)
  }

  /** The positions of the vertices in the order sort_vertices leaves them. */
  function VertexOrder(vs: seq<Vector3d>): seq<int>
    requires |vs| > 0
  {
    Sorting.Sort(Sorting.Indices(|vs|), KeyOrder(vs, FirstMinIndex(vs)))
  }

  lemma VertexOrderPermutation(vs: seq<Vector3d>)
    requires |vs| > 0
    ensures multiset(VertexOrder(vs)) == multiset(Sorting.Indices(|vs|))
    ensures Sorting.InRange(vs, VertexOrder(vs))
  {
    Sorting.SortMultiset(Sorting.Indices(|vs|), KeyOrder(vs, FirstMinIndex(vs)));
    var r := VertexOrder(vs);
    forall k | 0 <= k < |r| ensures 0 <= r[k] < |vs| {
      assert r[k] in multiset(Sorting.Indices(|vs|));
    }
  }

  /** The vertex list sort_vertices leaves behind. */
  function SortedVertices(vs: seq<Vector3d>): seq<Vector3d>
    requires |vs| > 0
  {
    VertexOrderPermutation(vs);
    Sorting.Pick(vs, VertexOrder(vs))
  }

  lemma KeyOrderIsStrictWeakOrder(vs: seq<Vector3d>, m: int)
    ensures Sorting.StrictWeakOrder(KeyOrder(vs, m))
  {
    forall a: int, b: int, c: int {
      LessIsStrictTotalOrder(VertexAt(vs, a), VertexAt(vs, b), VertexAt(vs, c));
    }
  }

  /** The result of sort_vertices is in (turn, vertex) order. */
  lemma VertexOrderSorted(vs: seq<Vector3d>)
    requires |vs| > 0
    ensures Sorting.SortedBy(VertexOrder(vs), KeyOrder(vs, FirstMinIndex(vs)))
  {
    KeyOrderIsStrictWeakOrder(vs, FirstMinIndex(vs));
    Sorting.SortSorted(Sorting.Indices(|vs|), KeyOrder(vs, FirstMinIndex(vs)));
  }

  /** sort_vertices only re-orders: the result is a permutation of the vertices. */
  lemma SortedVerticesPermutation(vs: seq<Vector3d>)
    requires |vs| > 0
    ensures |SortedVertices(vs)| == |vs|
    ensures multiset(SortedVertices(vs)) == multiset(vs)
  {
    VertexOrderPermutation(vs);
    Sorting.PickSort(vs, Sorting.Indices(|vs|), KeyOrder(vs, FirstMinIndex(vs)));
    Sorting.PickIndices(vs);
  }

  /** The position the sort puts first holds a least vertex equal to the first least one. */
  lemma VertexOrderStartsAtMinimum(vs: seq<Vector3d>)
    requires |vs| > 0
    ensures |VertexOrder(vs)| == |vs| && 0 <= VertexOrder(vs)[0] < |vs|
    ensures vs[VertexOrder(vs)[0]] == vs[FirstMinIndex(vs)]
  {
    var m := FirstMinIndex(vs);
    var idx := VertexOrder(vs);
    VertexOrderPermutation(vs);
    VertexOrderSorted(vs);
    assert m in multiset(idx) by {
      assert Sorting.Indices(|vs|)[m] == m;
    }
    var p :| 0 <= p < |idx| && idx[p] == m;
    var first := idx[0];
    assert p == 0 || !KeyLess(vs, m, m, first);
    assert Turn(m, m) == 0;
    LessIsStrictTotalOrder(vs[first], vs[m], vs[m]);
  }

  /** Whatever the vertex count, the first least vertex ends up first. */
  lemma SortedVerticesStartsAtMinimum(vs: seq<Vector3d>)
    requires |vs| > 0
    ensures SortedVertices(vs)[0] == vs[FirstMinIndex(vs)]
    ensures forall i :: 0 <= i < |vs| ==> !Less(vs[i], SortedVertices(vs)[0])
  {
    VertexOrderPermutation(vs);
    VertexOrderStartsAtMinimum(vs);
  }

  /** The positions of a triangle starting at m and going round once. */
  function Rotation3(m: int): seq<int>
    requires 0 <= m < 3
  {
    if m == 0 then [0, 1, 2] else if m == 1 then [1, 2, 0] else [2, 0, 1]
  }

  lemma Rotation3Pick<V>(vs: seq<V>, m: int)
    requires |vs| == 3 && 0 <= m < 3
    ensures Sorting.InRange(vs, Rotation3(m))
    ensures Sorting.Pick(vs, Rotation3(m)) == vs[m..] + vs[..m]
  {
    if m == 0 {
      PickThree(vs, 0, 1, 2);
      assert vs[m..] + vs[..m] == [vs[0], vs[1], vs[2]];
    } else if m == 1 {
      PickThree(vs, 1, 2, 0);
      assert vs[m..] + vs[..m] == [vs[1], vs[2], vs[0]];
    } else {
      PickThree(vs, 2, 0, 1);
      assert vs[m..] + vs[..m] == [vs[2], vs[0], vs[1]];
    }
  }

  lemma PickThree<V>(vs: seq<V>, a: int, b: int, c: int)
    requires 0 <= a < |vs| && 0 <= b < |vs| && 0 <= c < |vs|
    ensures Sorting.InRange(vs, [a, b, c])
    ensures Sorting.Pick(vs, [a, b, c]) == [vs[a], vs[b], vs[c]]
  {
    var idx := [a, b, c];
    assert Sorting.InRange(vs, idx);
    var r := Sorting.Pick(vs, idx);
    assert r[0] == vs[a] && r[1] == vs[b] && r[2] == vs[c];
  }

  lemma Rotation3Permutation(m: int)
    requires 0 <= m < 3
    ensures multiset(Rotation3(m)) == multiset{0, 1, 2}
  {
  }

  lemma TriangleKeysTotal(vs: seq<Vector3d>, m: int)
    requires |vs| == 3 && 0 <= m < 3
    ensures forall x, y :: x in Sorting.Indices(3) && y in Sorting.Indices(3) && x != y ==>
      KeyOrder(vs, m)(x, y) || KeyOrder(vs, m)(y, x)
  {
    var idx := Sorting.Indices(3);
    assert idx == [0, 1, 2];
    forall x, y | x in idx && y in idx && x != y
      ensures KeyOrder(vs, m)(x, y) || KeyOrder(vs, m)(y, x)
    {
      TurnSmall(x, m);
      TurnSmall(y, m);
    }
  }

  /** A later turn never sorts before an earlier one. */
  lemma TurnDecides(vs: seq<Vector3d>, m: int, i: int, j: int)
    requires Turn(i, m) < Turn(j, m)
    ensures KeyOrder(vs, m)(i, j) && !KeyOrder(vs, m)(j, i)
  {
  }

  lemma TriangleRotationSorted(vs: seq<Vector3d>, m: int)
    requires |vs| == 3 && 0 <= m < 3
    ensures Sorting.SortedBy(Rotation3(m), KeyOrder(vs, m))
  {
    var c := Rotation3(m);
    if m == 0 {
      assert c == [0, 1, 2];
      TurnSmall(0, 0); TurnSmall(1, 0); TurnSmall(2, 0);
      TurnDecides(vs, 0, 0, 1);
      TurnDecides(vs, 0, 0, 2);
      TurnDecides(vs, 0, 1, 2);
      Sorting.SortedThree([0, 1, 2], KeyOrder(vs, 0));
    } else if m == 1 {
      assert c == [1, 2, 0];
      TurnSmall(1, 1); TurnSmall(2, 1); TurnSmall(0, 1);
      TurnDecides(vs, 1, 1, 2);
      TurnDecides(vs, 1, 1, 0);
      TurnDecides(vs, 1, 2, 0);
      Sorting.SortedThree([1, 2, 0], KeyOrder(vs, 1));
    } else {
      assert c == [2, 0, 1];
      TurnSmall(2, 2); TurnSmall(0, 2); TurnSmall(1, 2);
      TurnDecides(vs, 2, 2, 0);
      TurnDecides(vs, 2, 2, 1);
      TurnDecides(vs, 2, 0, 1);
      Sorting.SortedThree([2, 0, 1], KeyOrder(vs, 2));
    }
  }

  /** For a triangle, sort_vertices orders the positions by turn alone: a rotation. */
  lemma TriangleVertexOrder(vs: seq<Vector3d>)
    requires |vs| == 3
    ensures VertexOrder(vs) == Rotation3(FirstMinIndex(vs))
  {
    var m := FirstMinIndex(vs);
    var idx := Sorting.Indices(3);
    assert idx == [0, 1, 2];
    Rotation3Permutation(m);
    assert multiset(Rotation3(m)) == multiset(idx);
    KeyOrderIsStrictWeakOrder(vs, m);
    TriangleKeysTotal(vs, m);
    TriangleRotationSorted(vs, m);
    Sorting.SortIsUnique(idx, Rotation3(m), KeyOrder(vs, m));
  }

  /** For a triangle, sort_vertices is the rotation that starts at the first least vertex. */
  lemma SortedVerticesTriangle(vs: seq<Vector3d>)
    requires |vs| == 3
    ensures var m := FirstMinIndex(vs);
      SortedVertices(vs) == vs[m..] + vs[..m]
  {
    TriangleVertexOrder(vs);
    Rotation3Pick(vs, FirstMinIndex(vs));
  }

  /**
   * FirstMinIndex is characterised by its contract: the one position holding a
   * least vertex with no equal vertex before it.
   */
  lemma FirstMinIndexUnique(vs: seq<Vector3d>, k: int)
    requires 0 <= k < |vs|
    requires forall i :: 0 <= i < |vs| ==> !Less(vs[i], vs[k])
    requires forall i :: 0 <= i < k ==> vs[i] != vs[k]
    ensures FirstMinIndex(vs) == k
  {
    var m := FirstMinIndex(vs);
    LessIsStrictTotalOrder(vs[m], vs[k], vs[k]);
    assert vs[m] == vs[k];
  }

  /** For a triangle, sort_vertices is idempotent. */
  lemma SortedVerticesTriangleIdempotent(vs: seq<Vector3d>)
    requires |vs| == 3
    ensures |SortedVertices(vs)| == 3
    ensures SortedVertices(SortedVertices(vs)) == SortedVertices(vs)
  {
    SortedVerticesTriangle(vs);
    var m := FirstMinIndex(vs);
    var r := SortedVertices(vs);
    assert r[0] == vs[m];
    SortedVerticesPermutation(vs);
    forall i | 0 <= i < 3 ensures !Less(r[i], r[0]) {
      assert r[i] in multiset(vs);
    }
    FirstMinIndexUnique(r, 0);
    SortedVerticesTriangle(r);
  }

  /** A triangle's least vertex occurs once. */
  predicate UniqueMinimum(vs: seq<Vector3d>)
    requires |vs| == 3
  {
    forall i :: 0 <= i < 3 && i != FirstMinIndex(vs) ==> vs[i] != vs[FirstMinIndex(vs)]
  }

  /**
   * For a triangle whose least vertex occurs once, rotating the input by one
   * position does not change what sort_vertices returns, and the rotated
   * triangle's least vertex still occurs once.
   */
  lemma SortedVerticesTriangleRotateOnce(vs: seq<Vector3d>)
    requires |vs| == 3 && UniqueMinimum(vs)
    ensures SortedVertices(vs[1..] + vs[..1]) == SortedVertices(vs)
    ensures UniqueMinimum(vs[1..] + vs[..1])
  {
    var rot := vs[1..] + vs[..1];
    var m := FirstMinIndex(vs);
    var k := if m == 0 then 2 else m - 1;
    RotateOnce3(vs, m);
    forall i | 0 <= i < 3
      ensures !Less(rot[i], rot[k]) && (i != k ==> rot[i] != rot[k])
    {
      assert rot[i] == vs[if i == 2 then 0 else i + 1];
    }
    FirstMinIndexUnique(rot, k);
    SortedVerticesTriangle(vs);
    SortedVerticesTriangle(rot);
  }

  /**
   * All three rotations of a triangle whose least vertex occurs once
   * normalise to the same list.
   */
  lemma SortedVerticesTriangleRotation(vs: seq<Vector3d>)
    requires |vs| == 3 && UniqueMinimum(vs)
    ensures SortedVertices(vs[1..] + vs[..1]) == SortedVertices(vs)
    ensures SortedVertices(vs[2..] + vs[..2]) == SortedVertices(vs)
  {
    var rot := vs[1..] + vs[..1];
    SortedVerticesTriangleRotateOnce(vs);
    SortedVerticesTriangleRotateOnce(rot);
    assert rot[1..] + rot[..1] == vs[2..] + vs[..2];
  }

  /** Rotating a three-element list once moves the position of every element back by one. */
  lemma RotateOnce3<V>(vs: seq<V>, m: int)
    requires |vs| == 3 && 0 <= m < 3
    ensures var rot, k := vs[1..] + vs[..1], if m == 0 then 2 else m - 1;
      && rot == [vs[1], vs[2], vs[0]]
      && rot[k] == vs[m]
      && rot[k..] + rot[..k] == vs[m..] + vs[..m]
  {
    var rot := vs[1..] + vs[..1];
    assert rot == [vs[1], vs[2], vs[0]];
    if m == 0 {
      assert rot[2..] + rot[..2] == [vs[0], vs[1], vs[2]];
    } else if m == 1 {
      assert rot[0..] + rot[..0] == [vs[1], vs[2], vs[0]];
    } else {
      assert rot[1..] + rot[..1] == [vs[2], vs[0], vs[1]];
    }
  }

  /** With the least vertex repeated, two rotations of one triangle normalise differently. */
  lemma SortedVerticesRepeatedMinimum()
    ensures var a, c := Vector3d(0.0, 0.0, 0.0), Vector3d(1.0, 0.0, 0.0);
      SortedVertices([a, c, a]) == [a, c, a] && SortedVertices([c, a, a]) == [a, a, c]
  {
    var a, c := Vector3d(0.0, 0.0, 0.0), Vector3d(1.0, 0.0, 0.0);
    var s1, s2 := [a, c, a], [c, a, a];
    FirstMinIndexUnique(s1, 0);
    FirstMinIndexUnique(s2, 1);
    SortedVerticesTriangle(s1);
    SortedVerticesTriangle(s2);
    assert s2[1..] + s2[..1] == [a, a, c];
  }

  /**
   * With four vertices the turns are 0, 1, 2, 0, so sort_vertices does not
   * keep the cyclic order: when the least vertex comes first, the last vertex
   * is moved into second place (after the first when the two are equal, as
   * the sort is stable).
   */
  lemma SortedVerticesQuad(vs: seq<Vector3d>)
    requires |vs| == 4 && FirstMinIndex(vs) == 0
    ensures SortedVertices(vs) == [vs[0], vs[3], vs[1], vs[2]]
  {
    QuadVertexOrder(vs);
    PickFour(vs, 0, 3, 1, 2);
  }

  /** The comparisons the sort makes on the keys (0, v0), (1, v1), (2, v2), (0, v3). */
  lemma QuadKeys(vs: seq<Vector3d>)
    requires |vs| == 4 && !Less(vs[3], vs[0])
    ensures var less := KeyOrder(vs, 0);
      less(3, 2) && less(3, 1) && !less(2, 1) && !less(3, 0)
  {
    TurnSmall(1, 0);
    TurnSmall(2, 0);
    TurnSmall(3, 0);
  }

  lemma QuadVertexOrder(vs: seq<Vector3d>)
    requires |vs| == 4 && FirstMinIndex(vs) == 0
    ensures VertexOrder(vs) == [0, 3, 1, 2]
  {
    QuadKeys(vs);
    assert Sorting.Indices(4) == [0, 1, 2, 3];
    Sorting.SortFourCase(KeyOrder(vs, 0));
  }

  lemma PickFour<V>(vs: seq<V>, a: int, b: int, c: int, d: int)
    requires 0 <= a < |vs| && 0 <= b < |vs| && 0 <= c < |vs| && 0 <= d < |vs|
    ensures Sorting.InRange(vs, [a, b, c, d])
    ensures Sorting.Pick(vs, [a, b, c, d]) == [vs[a], vs[b], vs[c], vs[d]]
  {
    var idx := [a, b, c, d];
    assert Sorting.InRange(vs, idx);
    var r := Sorting.Pick(vs, idx);
    assert r[0] == vs[a] && r[1] == vs[b] && r[2] == vs[c] && r[3] == vs[d];
  }

  /** The three triangles of the facet sorting test and what sort_vertices makes of them. */
  lemma SortedVerticesTestTriangles()
    ensures var v1, v2, v3 := Vector3d(1.0, 2.0, 3.0), Vector3d(4.0, 5.0, 6.0), Vector3d(7.0, 8.0, 9.0);
      && SortedVertices([v1, v2, v3]) == [v1, v2, v3]
      && SortedVertices([v3, v1, v2]) == [v1, v2, v3]
      && SortedVertices([v3, v2, v1]) == [v1, v3, v2]
  {
    var v1, v2, v3 := Vector3d(1.0, 2.0, 3.0), Vector3d(4.0, 5.0, 6.0), Vector3d(7.0, 8.0, 9.0);
    var s1, s2, s3 := [v1, v2, v3], [v3, v1, v2], [v3, v2, v1];
    FirstMinIndexUnique(s1, 0);
    FirstMinIndexUnique(s2, 1);
    FirstMinIndexUnique(s3, 2);
    SortedVerticesTriangle(s1);
    SortedVerticesTriangle(s2);
    SortedVerticesTriangle(s3);
    assert s1[0..] + s1[..0] == s1;
    assert s2[1..] + s2[..1] == [v1, v2, v3];
    assert s3[2..] + s3[..2] == [v1, v3, v2];
  }

  /**
   * The unit square: sort_vertices turns it into a list that is not a rotation
   * of it, and a second application changes that list again.
   */
  lemma SortedVerticesSquare()
    ensures var a, b, c, d := Vector3d(0.0, 0.0, 0.0), Vector3d(1.0, 0.0, 0.0),
                              Vector3d(1.0, 1.0, 0.0), Vector3d(0.0, 1.0, 0.0);
      && SortedVertices([a, b, c, d]) == [a, d, b, c]
      && SortedVertices([a, d, b, c]) == [a, c, d, b]
  {
    var a, b, c, d := Vector3d(0.0, 0.0, 0.0), Vector3d(1.0, 0.0, 0.0),
                      Vector3d(1.0, 1.0, 0.0), Vector3d(0.0, 1.0, 0.0);
    FirstMinIndexUnique([a, b, c, d], 0);
    SortedVerticesQuad([a, b, c, d]);
    FirstMinIndexUnique([a, d, b, c], 0);
    SortedVerticesQuad([a, d, b, c]);
  }

  // ---------------------------------------------------------------------
  // join
  // ---------------------------------------------------------------------

  /** The position after i when walking round a polygon of n vertices. */
  function Succ(i: int, n: int): int
  {
    if i + 1 < n then i + 1 else 0
  }

  /** Succ is the source's `(i + 1) % n` on the positions of the polygon. */
  lemma SuccIsMod(i: int, n: int)
    requires 0 <= i < n
    ensures Succ(i, n) == (i + 1) % n
  {
  }

  /**
   * Edge i of `vs` (from vs[i] to the next vertex) is edge j of `ws` walked
   * the other way: the two facets share that edge.
   */
  predicate SharesEdge(vs: seq<Vector3d>, ws: seq<Vector3d>, i: int, j: int)
    requires 0 <= i < |vs| && 0 <= j < |ws|
  {
    vs[i] == ws[Succ(j, |ws|)] && vs[Succ(i, |vs|)] == ws[j]
  }

  /** The outcome of join's search: the first pair of matching edges, if any. */
  datatype EdgeMatch = NoSharedEdge | SharedEdge(i: int, j: int)

  /** The order in which join's nested loops visit index pairs. */
  predicate PairBefore(p: int, q: int, i: int, j: int)
  {
    p < i || (p == i && q < j)
  }

  /** The nested loops of join, resumed at the pair (i, j). */
  function SearchFrom(vs: seq<Vector3d>, ws: seq<Vector3d>, i: nat, j: nat): (r: EdgeMatch)
    requires i <= |vs| && j <= |ws|
    ensures r.SharedEdge? ==>
      && 0 <= r.i < |vs| && 0 <= r.j < |ws|
      && SharesEdge(vs, ws, r.i, r.j)
      && !PairBefore(r.i, r.j, i, j)
      && forall p, q :: 0 <= p < |vs| && 0 <= q < |ws| && !PairBefore(p, q, i, j) && PairBefore(p, q, r.i, r.j)
           ==> !SharesEdge(vs, ws, p, q)
    ensures r.NoSharedEdge? ==>
      forall p, q :: 0 <= p < |vs| && 0 <= q < |ws| && !PairBefore(p, q, i, j) ==> !SharesEdge(vs, ws, p, q)
    decreases |vs| - i, |ws| - j
  {
    if i == |vs| then NoSharedEdge
    else if j == |ws| then SearchFrom(vs, ws, i + 1, 0)
    else if SharesEdge(vs, ws, i, j) then SharedEdge(i, j)
    else SearchFrom(vs, ws, i, j + 1)
  }

  /**
   * The first pair (i0, j0), in the order of join's loops, whose edges match;
   * none exactly when no edge of one facet is an edge of the other reversed.
   */
  function FirstSharedEdge(vs: seq<Vector3d>, ws: seq<Vector3d>): (r: EdgeMatch)
    ensures r.SharedEdge? ==>
      && 0 <= r.i < |vs| && 0 <= r.j < |ws|
      && SharesEdge(vs, ws, r.i, r.j)
      && forall p, q :: 0 <= p < |vs| && 0 <= q < |ws| && PairBefore(p, q, r.i, r.j) ==> !SharesEdge(vs, ws, p, q)
    ensures r.NoSharedEdge? <==>
      forall p, q :: 0 <= p < |vs| && 0 <= q < |ws| ==> !SharesEdge(vs, ws, p, q)
  {
    SearchFrom(vs, ws, 0, 0)
  }

  /** The vertices after position i, going round and stopping just before i. */
  function After(s: seq<Vector3d>, i: int): (r: seq<Vector3d>)
    requires 0 <= i < |s|
    ensures |r| == |s| - 1
  {
    s[i + 1..] + s[..i]
  }

  /**
   * The vertices join gives the new facet: once round `vs` starting after
   * the shared edge's first end, then once round `ws` the same way.
   */
  function JoinedVertices(vs: seq<Vector3d>, ws: seq<Vector3d>): Option<seq<Vector3d>>
  {
    match FirstSharedEdge(vs, ws)
    case NoSharedEdge => None
    case SharedEdge(i, j) => Some(After(vs, i) + After(ws, j))
  }

  /** Joining is possible exactly when the facets have an edge in common. */
  lemma JoinedVerticesExist(vs: seq<Vector3d>, ws: seq<Vector3d>)
    ensures JoinedVertices(vs, ws).Some? <==>
      exists p, q :: 0 <= p < |vs| && 0 <= q < |ws| && SharesEdge(vs, ws, p, q)
  {
    var r := FirstSharedEdge(vs, ws);
    if r.SharedEdge? {
      assert SharesEdge(vs, ws, r.i, r.j);
    }
  }

  /** Going round from just after position i meets every vertex but s[i]. */
  lemma AfterMultiset(s: seq<Vector3d>, i: int)
    requires 0 <= i < |s|
    ensures multiset(After(s, i)) + multiset{s[i]} == multiset(s)
  {
    assert s == s[..i] + [s[i]] + s[i + 1..];
  }

  /**
   * The joined polygon keeps every vertex of both facets except one copy of
   * each end of the shared edge.
   */
  lemma JoinedVerticesMultiset(vs: seq<Vector3d>, ws: seq<Vector3d>)
    requires JoinedVertices(vs, ws).Some?
    ensures var e := FirstSharedEdge(vs, ws);
      var r := JoinedVertices(vs, ws).value;
      && e.SharedEdge?
      && |r| == |vs| + |ws| - 2
      && multiset(r) + multiset{vs[e.i], ws[e.j]} == multiset(vs) + multiset(ws)
  {
    var e := FirstSharedEdge(vs, ws);
    AfterMultiset(vs, e.i);
    AfterMultiset(ws, e.j);
  }

  /**
   * The joined polygon starts at the second end of the shared edge, and the
   * walk round `vs` hands over to the walk round `ws` at its first end.
   */
  lemma JoinedVerticesEnds(vs: seq<Vector3d>, ws: seq<Vector3d>)
    requires JoinedVertices(vs, ws).Some?
    ensures var e := FirstSharedEdge(vs, ws);
      var r := JoinedVertices(vs, ws).value;
      && e.SharedEdge?
      && (|vs| >= 2 ==> r[0] == vs[Succ(e.i, |vs|)])
      && (|ws| >= 2 ==> r[|vs| - 1] == vs[e.i])
  {
    var e := FirstSharedEdge(vs, ws);
    var i, j := e.i, e.j;
    var r := JoinedVertices(vs, ws).value;
    assert r == vs[i + 1..] + vs[..i] + (ws[j + 1..] + ws[..j]);
    if |vs| >= 2 {
      if i + 1 < |vs| {
        assert r[0] == vs[i + 1];
      } else {
        assert r[0] == vs[0];
      }
    }
    if |ws| >= 2 {
      if j + 1 < |ws| {
        assert r[|vs| - 1] == ws[j + 1];
      } else {
        assert r[|vs| - 1] == ws[0];
      }
    }
  }

  // ---------------------------------------------------------------------
  // split_to_triangles
  // ---------------------------------------------------------------------

  /** How many triangles split_to_triangles yields: one per vertex after the second. */
  function TriangleCount(n: int): nat
  {
    if n <= 2 then 0 else n - 2
  }

  /** The k-th triangle of the fan split_to_triangles cuts from vertex 0. */
  function FanTriangle(vs: seq<Vector3d>, k: int): seq<Vector3d>
    requires 0 <= k < TriangleCount(|vs|)
  {
    [vs[0], vs[k + 1], vs[k + 2]]
  }

  /** Neighbouring fan triangles share the diagonal from vertex 0, as join requires. */
  lemma FanNeighboursShareEdge(vs: seq<Vector3d>, k: int)
    requires 0 <= k && k + 1 < TriangleCount(|vs|)
    ensures SharesEdge(FanTriangle(vs, k + 1), FanTriangle(vs, k), 0, 2)
  {
  }

  /**
   * Round trip for a quadrilateral with four different vertices: joining the
   * two triangles split_to_triangles cuts it into gives the quadrilateral
   * back, starting at its first vertex when the first triangle joins the
   * second, and at its third vertex the other way round.
   */
  lemma JoinUndoesSplitQuad(vs: seq<Vector3d>)
    requires |vs| == 4
    requires forall p, q :: 0 <= p < q < 4 ==> vs[p] != vs[q]
    ensures JoinedVertices(FanTriangle(vs, 0), FanTriangle(vs, 1)) == Some(vs)
    ensures JoinedVertices(FanTriangle(vs, 1), FanTriangle(vs, 0)) == Some(vs[2..] + vs[..2])
  {
    var t0, t1 := FanTriangle(vs, 0), FanTriangle(vs, 1);
    JoinFirstIntoSecond(vs, t0, t1);
    JoinSecondIntoFirst(vs, t0, t1);
  }

  lemma JoinFirstIntoSecond(vs: seq<Vector3d>, t0: seq<Vector3d>, t1: seq<Vector3d>)
    requires |vs| == 4
    requires forall p, q :: 0 <= p < q < 4 ==> vs[p] != vs[q]
    requires t0 == [vs[0], vs[1], vs[2]] && t1 == [vs[0], vs[2], vs[3]]
    ensures JoinedVertices(t0, t1) == Some(vs)
  {
    assert SharesEdge(t0, t1, 2, 0);
    forall p, q | 0 <= p < 3 && 0 <= q < 3 && PairBefore(p, q, 2, 0) ensures !SharesEdge(t0, t1, p, q) {
      assert t0[Succ(p, 3)] == vs[p + 1];
    }
    var e := FirstSharedEdge(t0, t1);
    assert e.SharedEdge?;
    assert !PairBefore(e.i, e.j, 2, 0);
    assert !PairBefore(2, 0, e.i, e.j);
    assert e == SharedEdge(2, 0);
    assert After(t0, 2) == [vs[0], vs[1]];
    assert After(t1, 0) == [vs[2], vs[3]];
    assert JoinedVertices(t0, t1) == Some(After(t0, 2) + After(t1, 0));
    assert vs == [vs[0], vs[1]] + [vs[2], vs[3]];
  }

  lemma JoinSecondIntoFirst(vs: seq<Vector3d>, t0: seq<Vector3d>, t1: seq<Vector3d>)
    requires |vs| == 4
    requires forall p, q :: 0 <= p < q < 4 ==> vs[p] != vs[q]
    requires t0 == [vs[0], vs[1], vs[2]] && t1 == [vs[0], vs[2], vs[3]]
    ensures JoinedVertices(t1, t0) == Some(vs[2..] + vs[..2])
  {
    assert SharesEdge(t1, t0, 0, 2);
    forall q | 0 <= q < 2 ensures !SharesEdge(t1, t0, 0, q) {
      assert t0[q] != vs[2];
    }
    var e := FirstSharedEdge(t1, t0);
    assert e.SharedEdge?;
    assert !PairBefore(e.i, e.j, 0, 2);
    assert !PairBefore(0, 2, e.i, e.j);
    assert e == SharedEdge(0, 2);
    assert After(t1, 0) == [vs[2], vs[3]];
    assert After(t0, 2) == [vs[0], vs[1]];
    assert JoinedVertices(t1, t0) == Some(After(t1, 0) + After(t0, 2));
    assert vs[2..] + vs[..2] == [vs[2], vs[3]] + [vs[0], vs[1]];
  }

  /**
   * The unit square of the join test: split, then the second triangle joined
   * with the first, gives the square starting at (1, 1, 0).
   */
  lemma JoinSplitUnitSquare()
    ensures var square := [Vector3d(0.0, 0.0, 0.0), Vector3d(1.0, 0.0, 0.0), Vector3d(1.0, 1.0, 0.0), Vector3d(0.0, 1.0, 0.0)];
      JoinedVertices(FanTriangle(square, 1), FanTriangle(square, 0))
      == Some([Vector3d(1.0, 1.0, 0.0), Vector3d(0.0, 1.0, 0.0), Vector3d(0.0, 0.0, 0.0), Vector3d(1.0, 0.0, 0.0)])
  {
    var square := [Vector3d(0.0, 0.0, 0.0), Vector3d(1.0, 0.0, 0.0), Vector3d(1.0, 1.0, 0.0), Vector3d(0.0, 1.0, 0.0)];
    assert forall p, q :: 0 <= p < q < 4 ==> square[p] != square[q];
    JoinUndoesSplitQuad(square);
    assert square[2..] + square[..2] == [square[2], square[3], square[0], square[1]];
  }

  /**
   * join's stitching loop: the vertices of `s` from the one after i0 round to
   * the one before i0, stepping with `(i + 1) % |s|`.
   */
  method WalkRound(s: seq<Vector3d>, i0: int) returns (walk: seq<Vector3d>)
    requires 0 <= i0 < |s|
    ensures walk == After(s, i0)
  {
    var n := |s|;
    walk := [];
    ghost var c := 0;
    SuccIsMod(i0, n);
    var i := (i0 + 1) % n;
    while i != i0
      invariant 0 <= c < n
      invariant i == if i0 + 1 + c < n then i0 + 1 + c else i0 + 1 + c - n
      invariant walk == After(s, i0)[..c]
      decreases n - 1 - c
    {
      assert After(s, i0)[c] == s[i];
      walk := walk + [s[i]];
      SuccIsMod(i, n);
      i := (i + 1) % n;
      c := c + 1;
    }
  }

  // ---------------------------------------------------------------------
  // The facet object
  // ---------------------------------------------------------------------

  /** The normal a new facet gets: the one given, or one computed from its vertices. */
  function InitialNormal(normal: Option<Vector3d>, vertices: seq<Vector3d>, recalc: NormalFn): Option<Vector3d>
  {
    if normal.Some? then normal else recalc(vertices)
  }

  /**
   * A polygon with an optional normal. The raw `attributes` bytes the
   * constructor accepts are never stored, so they are not a field here.
   */
  class Facet {
    var normal: Option<Vector3d>
    var vertices: seq<Vector3d>

    /** A given normal is kept; a missing one is computed from the vertices. */
    constructor(normal: Option<Vector3d>, vertices: seq<Vector3d>, recalc: NormalFn)
      ensures this.vertices == vertices
      ensures this.normal == InitialNormal(normal, vertices, recalc)
    {
      this.vertices := vertices;
      this.normal := normal;
      new;
      if normal.None? {
        RecalculateNormal(recalc);
      }
    }

    /** Replaces the normal with the one computed from the current vertices. */
    method RecalculateNormal(recalc: NormalFn)
      modifies this
      ensures normal == recalc(vertices)
      ensures vertices == old(vertices)
    {
      normal := recalc(vertices);
    }

    /** `==` on facets: the same normal and the same vertex list. */
    predicate Equals(other: Facet)
      reads this, other
    {
      normal == other.normal && vertices == other.vertices
    }

    /** `<` on facets: their vertex lists in list order; the normal plays no part. */
    predicate LessThan(other: Facet)
      reads this, other
    {
      LexLess(vertices, other.vertices)
    }

    /**
     * Re-orders the vertices by the (turn, vertex) keys counted from the
     * first smallest vertex; the normal is kept.
     */
    method SortVertices()
      requires |vertices| > 0
      modifies this
      ensures vertices == SortedVertices(old(vertices))
      ensures normal == old(normal)
    {
      vertices := SortedVertices(vertices);
    }

    /**
     * The fan of triangles from vertex 0: one new facet per vertex after the
     * second, the k-th with vertices 0, k + 1 and k + 2, each created with
     * this facet's normal.
     */
    method SplitToTriangles(recalc: NormalFn) returns (ts: seq<Facet>)
      ensures |ts| == TriangleCount(|vertices|)
      ensures forall k :: 0 <= k < |ts| ==>
        && fresh(ts[k])
        && ts[k].vertices == FanTriangle(vertices, k)
        && ts[k].normal == InitialNormal(normal, ts[k].vertices, recalc)
      ensures forall k, l :: 0 <= k < l < |ts| ==> ts[k] != ts[l]
    {
      ts := [];
      var k := 0;
      while k < TriangleCount(|vertices|)
        invariant 0 <= k <= TriangleCount(|vertices|)
        invariant |ts| == k
        invariant forall i :: 0 <= i < k ==>
          && fresh(ts[i])
          && ts[i].vertices == FanTriangle(vertices, i)
          && ts[i].normal == InitialNormal(normal, ts[i].vertices, recalc)
        invariant forall i, l :: 0 <= i < l < k ==> ts[i] != ts[l]
      {
        var t := new Facet(normal, [vertices[0], vertices[k + 1], vertices[k + 2]], recalc);
        ts := ts + [t];
        k := k + 1;
      }
    }

    /**
     * A new facet covering both this one and `other`, when their normals are
     * equal and they share an edge; none otherwise. The first shared edge in
     * the order of the nested loops is removed.
     */
    method Join(other: Facet, recalc: NormalFn) returns (r: Facet?)
      ensures r == null <==> normal != other.normal || JoinedVertices(vertices, other.vertices).None?
      ensures r != null ==>
        && fresh(r)
        && r.vertices == JoinedVertices(vertices, other.vertices).value
        && r.normal == InitialNormal(normal, r.vertices, recalc)
    {
      if normal != other.normal {
        return null;
      }
      var vs, ws := vertices, other.vertices;
      var n, m := |vs|, |ws|;
      var i0 := 0;
      while i0 < n
        invariant 0 <= i0 <= n
        invariant SearchFrom(vs, ws, i0, 0) == FirstSharedEdge(vs, ws)
      {
        SuccIsMod(i0, n);
        var i1 := (i0 + 1) % n;
        var j0 := 0;
        while j0 < m
          invariant 0 <= j0 <= m
          invariant SearchFrom(vs, ws, i0, j0) == FirstSharedEdge(vs, ws)
        {
          SuccIsMod(j0, m);
          var j1 := (j0 + 1) % m;
          if vs[i0] == ws[j1] && vs[i1] == ws[j0] {
            assert SharesEdge(vs, ws, i0, j0);
            var front := WalkRound(vs, i0);
            var back := WalkRound(ws, j0);
            r := new Facet(normal, front + back, recalc);
            return;
          }
          j0 := j0 + 1;
        }
        i0 := i0 + 1;
      }
      return null;
    }
  }

  /** Facets with the same vertices but different normals are neither equal nor ordered. */
  lemma OrderIgnoresNormal(f: Facet, g: Facet)
    requires f.vertices == g.vertices && f.normal != g.normal
    ensures !f.Equals(g) && !f.LessThan(g) && !g.LessThan(f)
  {
    LexLessIrreflexive(f.vertices);
  }

  /** `<` on facets is a strict order, total on vertex lists. */
  lemma FacetOrder(f: Facet, g: Facet, h: Facet)
    ensures !f.LessThan(f)
    ensures f.LessThan(g) ==> !g.LessThan(f)
    ensures f.LessThan(g) && g.LessThan(h) ==> f.LessThan(h)
    ensures f.vertices == g.vertices || f.LessThan(g) || g.LessThan(f)
  {
    LexLessIsStrictTotalOrder(f.vertices, g.vertices, h.vertices);
  }
}
