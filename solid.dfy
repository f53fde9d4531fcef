/**
 * Solid: the root element of an STL file, a name and a mutable list of
 * facets. Its operations append a facet, canonicalise the facet list, merge
 * coplanar neighbours and compare two solids.
 */
module Solids {
  import opened Optional
  import opened Vectors
  import opened Facets
  import Sorting

  // ---------------------------------------------------------------------
  // sort_facets: the order list.sort puts the canonical vertex lists in
  // ---------------------------------------------------------------------

  /** The vertex list the sort compares at position i (none out of range). */
  function KeyAt(keys: seq<seq<Vector3d>>, i: int): seq<Vector3d>
  {
    if 0 <= i < |keys| then keys[i] else []
  }

  /** Facet `<` on positions of the list: their vertex lists in list order. */
  function FacetListLess(keys: seq<seq<Vector3d>>): (int, int) -> bool
  {
    (i: int, j: int) => LexLess(KeyAt(keys, i), KeyAt(keys, j))
  }

  /** The positions of the facets in the order list.sort leaves them in. */
  function FacetListOrder(keys: seq<seq<Vector3d>>): (r: seq<int>)
    ensures |r| == |keys|
    ensures Sorting.InRange(keys, r)
    ensures multiset(r) == multiset(Sorting.Indices(|keys|))
  {
    var idx := Sorting.Indices(|keys|);
    Sorting.PickSort(keys, idx, FacetListLess(keys));
    Sorting.SortMultiset(idx, FacetListLess(keys));
    Sorting.Sort(idx, FacetListLess(keys))
  }

  lemma FacetListLessIsStrictWeakOrder(keys: seq<seq<Vector3d>>)
    ensures Sorting.StrictWeakOrder(FacetListLess(keys))
  {
    forall a: int, b: int, c: int {
      LexLessIsStrictTotalOrder(KeyAt(keys, a), KeyAt(keys, b), KeyAt(keys, c));
    }
  }

  /** No vertex list is smaller than one before it. */
  predicate NonDecreasing(ls: seq<seq<Vector3d>>)
  {
    forall i, j :: 0 <= i < j < |ls| ==> !LexLess(ls[j], ls[i])
  }

  /** After the sort no vertex list is smaller than one before it. */
  lemma FacetListOrderSorted(keys: seq<seq<Vector3d>>)
    ensures NonDecreasing(Sorting.Pick(keys, FacetListOrder(keys)))
  {
    FacetListLessIsStrictWeakOrder(keys);
    Sorting.SortSorted(Sorting.Indices(|keys|), FacetListLess(keys));
    var r := FacetListOrder(keys);
    var ls := Sorting.Pick(keys, r);
    forall i, j | 0 <= i < j < |ls| ensures !LexLess(ls[j], ls[i]) {
      assert !FacetListLess(keys)(r[j], r[i]);
    }
  }

  /** Re-ordering the facets by the sort's order only permutes them. */
  lemma FacetListOrderPermutes<V>(fs: seq<V>, keys: seq<seq<Vector3d>>)
    requires |fs| == |keys|
    ensures Sorting.InRange(fs, FacetListOrder(keys))
    ensures multiset(Sorting.Pick(fs, FacetListOrder(keys))) == multiset(fs)
  {
    Sorting.PickSort(fs, Sorting.Indices(|fs|), FacetListLess(keys));
    Sorting.PickIndices(fs);
  }

  /** The sort is stable: facets with equal vertex lists keep their order. */
  lemma FacetListOrderStable(keys: seq<seq<Vector3d>>)
    ensures var r := FacetListOrder(keys);
      forall i, j :: 0 <= i < j < |r| && keys[r[i]] == keys[r[j]] ==> r[i] < r[j]
  {
    var r := FacetListOrder(keys);
    Sorting.SortStable(Sorting.Indices(|keys|), FacetListLess(keys));
    forall i, j | 0 <= i < j < |r| && keys[r[i]] == keys[r[j]] ensures r[i] < r[j] {
      LexLessIrreflexive(keys[r[i]]);
    }
  }

  /** The vertex lists once sort_vertices has been applied to each. */
  function Canonical(ls: seq<seq<Vector3d>>): (r: seq<seq<Vector3d>>)
    requires forall k :: 0 <= k < |ls| ==> |ls[k]| > 0
    ensures |r| == |ls|
  {
    if ls == [] then [] else [SortedVertices(ls[0])] + Canonical(ls[1..])
  }

  lemma {:induction false} CanonicalAt(ls: seq<seq<Vector3d>>, k: int)
    requires forall k :: 0 <= k < |ls| ==> |ls[k]| > 0
    requires 0 <= k < |ls|
    ensures Canonical(ls)[k] == SortedVertices(ls[k])
  {
    if k > 0 {
      CanonicalAt(ls[1..], k - 1);
    }
  }

  /** Lists that are each list of `ls` after sort_vertices are Canonical(ls). */
  lemma CanonicalEach(ls: seq<seq<Vector3d>>, keys: seq<seq<Vector3d>>)
    requires forall k :: 0 <= k < |ls| ==> |ls[k]| > 0
    requires |keys| == |ls|
    requires forall k :: 0 <= k < |ls| ==> keys[k] == SortedVertices(ls[k])
    ensures keys == Canonical(ls)
  {
    forall k | 0 <= k < |ls| ensures keys[k] == Canonical(ls)[k] {
      CanonicalAt(ls, k);
    }
  }

  /**
   * The solid sorting test with facets f1 and f0b: sort_vertices turns f0b
   * into f0, which is the smaller list, so the two facets swap places.
   */
  lemma SortFacetsTestExample()
    ensures var o, x, y, z := Vector3d(0.0, 0.0, 0.0), Vector3d(1.0, 0.0, 0.0),
                              Vector3d(0.0, 1.0, 0.0), Vector3d(0.0, 0.0, 1.0);
      var keys := Canonical([[o, x, y], [x, z, o]]);
      && FacetListOrder(keys) == [1, 0]
      && Sorting.Pick(keys, [1, 0]) == [[o, x, z], [o, x, y]]
  {
    var o, x, y, z := Vector3d(0.0, 0.0, 0.0), Vector3d(1.0, 0.0, 0.0),
                      Vector3d(0.0, 1.0, 0.0), Vector3d(0.0, 0.0, 1.0);
    var f1, f0b := [o, x, y], [x, z, o];
    FirstMinIndexUnique(f1, 0);
    FirstMinIndexUnique(f0b, 2);
    SortedVerticesTriangle(f1);
    SortedVerticesTriangle(f0b);
    assert f1[0..] + f1[..0] == f1;
    assert f0b[2..] + f0b[..2] == [o, x, z];
    var keys := Canonical([f1, f0b]);
    CanonicalAt([f1, f0b], 0);
    CanonicalAt([f1, f0b], 1);
    assert keys == [[o, x, y], [o, x, z]];
    assert LexLess(keys[1], keys[0]);
    FacetListOrderSwap(keys);
  }

  /** Two facets whose vertex lists are out of order change places. */
  lemma FacetListOrderSwap(keys: seq<seq<Vector3d>>)
    requires |keys| == 2 && LexLess(keys[1], keys[0])
    ensures FacetListOrder(keys) == [1, 0]
    ensures Sorting.Pick(keys, [1, 0]) == [keys[1], keys[0]]
  {
    var less := FacetListLess(keys);
    var idx := Sorting.Indices(2);
    assert idx == [0, 1];
    assert idx[1..] == [1];
    assert Sorting.Sort([1], less) == [1];
    assert less(1, 0);
    assert Sorting.Insert(0, [1], less) == [1, 0];
    var r := Sorting.Pick(keys, [1, 0]);
    assert r[0] == keys[1] && r[1] == keys[0];
  }

  /** The vertex lists of the facets, in list order. */
  function VertexLists(fs: seq<Facet>): (r: seq<seq<Vector3d>>)
    reads fs
    ensures |r| == |fs|
    ensures forall k :: 0 <= k < |fs| ==> r[k] == fs[k].vertices
  {
    if fs == [] then [] else [fs[0].vertices] + VertexLists(fs[1..])
  }

  /** The normals of the facets, in list order. */
  function Normals(fs: seq<Facet>): (r: seq<Option<Vector3d>>)
    reads fs
    ensures |r| == |fs|
    ensures forall k :: 0 <= k < |fs| ==> r[k] == fs[k].normal
  {
    if fs == [] then [] else [fs[0].normal] + Normals(fs[1..])
  }

  // ---------------------------------------------------------------------
  // remove_planar_edge: the rebuilt facet list
  // ---------------------------------------------------------------------

  /** The list without the elements at positions i and j, the others in order. */
  function Without<T>(s: seq<T>, i: int, j: int): (r: seq<T>)
    ensures |r| <= |s|
  {
    if s == [] then []
    else (if i == 0 || j == 0 then [] else [s[0]]) + Without(s[1..], i - 1, j - 1)
  }

  /**
   * Removing two different positions lo < hi leaves the elements before,
   * between and after the two, in their original order.
   */
  lemma {:induction false} WithoutSlices<T>(s: seq<T>, i: int, j: int, lo: int, hi: int)
    requires 0 <= lo < hi < |s|
    requires (i == lo && j == hi) || (i == hi && j == lo)
    ensures Without(s, i, j) == s[..lo] + s[lo + 1..hi] + s[hi + 1..]
  {
    if lo == 0 {
      WithoutFront(s, i, j, hi);
    } else {
      WithoutSlices(s[1..], i - 1, j - 1, lo - 1, hi - 1);
      WithoutSlicesStep(s, i, j, lo, hi);
    }
  }

  /** Removing two different positions shortens the list by two. */
  lemma WithoutLength<T>(s: seq<T>, i: int, j: int)
    requires 0 <= i < |s| && 0 <= j < |s| && i != j
    ensures |Without(s, i, j)| == |s| - 2
  {
    if i < j {
      WithoutSlices(s, i, j, i, j);
    } else {
      WithoutSlices(s, i, j, j, i);
    }
  }

  /** The case lo == 0: the first element is dropped, and one more later. */
  lemma WithoutFront<T>(s: seq<T>, i: int, j: int, hi: int)
    requires 0 < hi < |s|
    requires (i == 0 && j == hi) || (i == hi && j == 0)
    ensures Without(s, i, j) == s[..0] + s[1..hi] + s[hi + 1..]
  {
    WithoutNone(s[1..], i - 1, j - 1, hi - 1);
    assert s[1..][..hi - 1] == s[1..hi];
    assert s[1..][hi..] == s[hi + 1..];
  }

  /** The case lo > 0: the first element is kept in front of the rest. */
  lemma WithoutSlicesStep<T>(s: seq<T>, i: int, j: int, lo: int, hi: int)
    requires 0 < lo < hi < |s| && i != 0 && j != 0
    requires Without(s[1..], i - 1, j - 1) == s[1..][..lo - 1] + s[1..][lo..hi - 1] + s[1..][hi..]
    ensures Without(s, i, j) == s[..lo] + s[lo + 1..hi] + s[hi + 1..]
  {
    var t := s[1..];
    assert t[..lo - 1] == s[1..lo];
    assert t[lo..hi - 1] == s[lo + 1..hi];
    assert t[hi..] == s[hi + 1..];
    assert s[..lo] == [s[0]] + s[1..lo];
  }

  /** Removing one position, when the other is already behind us. */
  lemma {:induction false} WithoutNone<T>(s: seq<T>, i: int, j: int, k: int)
    requires 0 <= k < |s|
    requires (i == k && j < 0) || (j == k && i < 0)
    ensures Without(s, i, j) == s[..k] + s[k + 1..]
  {
    if k == 0 {
      WithoutPast(s[1..], i - 1, j - 1);
    } else {
      WithoutNone(s[1..], i - 1, j - 1, k - 1);
      WithoutNoneStep(s, i, j, k);
    }
  }

  /** The step of WithoutNone: an element before position k is kept. */
  lemma WithoutNoneStep<T>(s: seq<T>, i: int, j: int, k: int)
    requires 0 < k < |s| && i != 0 && j != 0
    requires Without(s[1..], i - 1, j - 1) == s[1..][..k - 1] + s[1..][k..]
    ensures Without(s, i, j) == s[..k] + s[k + 1..]
  {
    assert s[1..][..k - 1] == s[1..k] && s[1..][k..] == s[k + 1..];
    assert s[..k] == [s[0]] + s[1..k];
  }

  /** Positions that are both behind us remove nothing. */
  lemma {:induction false} WithoutPast<T>(s: seq<T>, i: int, j: int)
    requires i < 0 && j < 0
    ensures Without(s, i, j) == s
  {
    if s != [] {
      WithoutPast(s[1..], i - 1, j - 1);
    }
  }

  /** What a facet object holds at one moment: its normal and its vertex list. */
  datatype FacetValue = FacetValue(normal: Option<Vector3d>, vertices: seq<Vector3d>)

  /** The values of the facets, in list order. */
  function Values(fs: seq<Facet>): (r: seq<FacetValue>)
    reads fs
    ensures |r| == |fs|
  {
    if fs == [] then [] else [FacetValue(fs[0].normal, fs[0].vertices)] + Values(fs[1..])
  }

  /** The value at position k is what facet k holds. */
  lemma {:induction false} ValuesAt(fs: seq<Facet>, k: int)
    requires 0 <= k < |fs|
    ensures Values(fs)[k] == FacetValue(fs[k].normal, fs[k].vertices)
  {
    if k > 0 {
      ValuesAt(fs[1..], k - 1);
      assert Values(fs)[k] == Values(fs[1..])[k - 1];
    }
  }

  /** The values of facets whose fields did not change are unchanged. */
  twostate lemma ValuesFrame(fs: seq<Facet>)
    requires forall k :: 0 <= k < |fs| ==> old(allocated(fs[k])) && unchanged(fs[k])
    ensures Values(fs) == old(Values(fs))
  {
  }

  /** Taking values commutes with dropping two positions. */
  lemma {:induction false} ValuesWithout(fs: seq<Facet>, i: int, j: int)
    ensures Values(Without(fs, i, j)) == Without(Values(fs), i, j)
  {
    if fs != [] {
      ValuesWithout(fs[1..], i - 1, j - 1);
      assert Values(fs)[1..] == Values(fs[1..]);
      var w := Without(fs[1..], i - 1, j - 1);
      if i == 0 || j == 0 {
        assert Without(fs, i, j) == w;
      } else {
        assert Without(fs, i, j) == [fs[0]] + w;
        assert ([fs[0]] + w)[1..] == w;
      }
    }
  }

  /** Taking values commutes with appending one object. */
  lemma ValuesSnoc(fs: seq<Facet>, f: Facet)
    ensures Values(fs + [f]) == Values(fs) + [FacetValue(f.normal, f.vertices)]
  {
    var l, r := Values(fs + [f]), Values(fs) + [FacetValue(f.normal, f.vertices)];
    assert |l| == |r|;
    forall k | 0 <= k < |l| ensures l[k] == r[k] {
      ValuesAt(fs + [f], k);
      if k < |fs| {
        ValuesAt(fs, k);
      }
    }
  }

  /** Facets i and j (different positions) can be merged by join. */
  predicate CanJoin(vs: seq<FacetValue>, i: int, j: int)
    requires 0 <= i < |vs| && 0 <= j < |vs|
  {
    i != j && vs[i].normal == vs[j].normal && JoinedVertices(vs[i].vertices, vs[j].vertices).Some?
  }

  /** No two facets of the list can be merged. */
  predicate NoneJoin(vs: seq<FacetValue>)
  {
    forall i, j :: 0 <= i < |vs| && 0 <= j < |vs| ==> !CanJoin(vs, i, j)
  }

  /**
   * (i, j) is the first pair, in the order of remove_planar_edge's loops,
   * whose facets can be merged.
   */
  predicate FirstJoinable(vs: seq<FacetValue>, i: int, j: int)
  {
    && 0 <= i < |vs| && 0 <= j < |vs| && CanJoin(vs, i, j)
    && forall p, q :: 0 <= p < |vs| && 0 <= q < |vs| && PairBefore(p, q, i, j) ==> !CanJoin(vs, p, q)
  }

  /** At most one pair is the first that can be merged. */
  lemma FirstJoinableUnique(vs: seq<FacetValue>, i: int, j: int, p: int, q: int)
    requires FirstJoinable(vs, i, j) && FirstJoinable(vs, p, q)
    ensures i == p && j == q
  {
  }

  /**
   * The list after merging facets i and j: the others in their order, then
   * the joined facet with facet i's normal (computed when that is None).
   */
  function Merged(vs: seq<FacetValue>, i: int, j: int, recalc: NormalFn): (r: seq<FacetValue>)
    requires 0 <= i < |vs| && 0 <= j < |vs| && CanJoin(vs, i, j)
    ensures |r| == |vs| - 1
  {
    WithoutLength(vs, i, j);
    var joined := JoinedVertices(vs[i].vertices, vs[j].vertices).value;
    Without(vs, i, j) + [FacetValue(InitialNormal(vs[i].normal, joined, recalc), joined)]
  }

  /**
   * Replacing facets i and j of `fs` by an object holding their join gives
   * the merged values.
   */
  lemma MergedObjects(fs: seq<Facet>, i: int, j: int, joined: Facet, recalc: NormalFn)
    requires 0 <= i < |fs| && 0 <= j < |fs| && CanJoin(Values(fs), i, j)
    requires joined.vertices == JoinedVertices(Values(fs)[i].vertices, Values(fs)[j].vertices).value
    requires joined.normal == InitialNormal(Values(fs)[i].normal, joined.vertices, recalc)
    ensures Values(Without(fs, i, j) + [joined]) == Merged(Values(fs), i, j, recalc)
  {
    ValuesAt(fs, i);
    ValuesAt(fs, j);
    ValuesSnoc(Without(fs, i, j), joined);
    ValuesWithout(fs, i, j);
  }

  /** `after` is what one successful remove_planar_edge makes of `before`. */
  ghost predicate MergeStep(before: seq<FacetValue>, after: seq<FacetValue>, recalc: NormalFn)
  {
    exists i, j :: FirstJoinable(before, i, j) && after == Merged(before, i, j, recalc)
  }

  /** Merging the first pair that can be merged is a merge step. */
  lemma MergeStepFirst(before: seq<FacetValue>, after: seq<FacetValue>, i: int, j: int, recalc: NormalFn)
    requires FirstJoinable(before, i, j) && after == Merged(before, i, j, recalc)
    ensures MergeStep(before, after, recalc)
  {
  }

  /** Each list of the trace is one merge step from the one before. */
  ghost predicate MergeChain(trace: seq<seq<FacetValue>>, recalc: NormalFn)
  {
    forall k :: 0 <= k < |trace| - 1 ==> MergeStep(trace[k], trace[k + 1], recalc)
  }

  /** A chain grows by one merge step from its last list. */
  lemma MergeChainSnoc(trace: seq<seq<FacetValue>>, next: seq<FacetValue>, recalc: NormalFn)
    requires |trace| > 0 && MergeChain(trace, recalc) && MergeStep(trace[|trace| - 1], next, recalc)
    ensures MergeChain(trace + [next], recalc)
  {
    var t := trace + [next];
    forall k | 0 <= k < |t| - 1 ensures MergeStep(t[k], t[k + 1], recalc) {
      if k < |trace| - 1 {
        assert t[k] == trace[k] && t[k + 1] == trace[k + 1];
      }
    }
  }

  /** A merge step is determined by the list it starts from, and removes one facet. */
  lemma MergeStepDeterministic(before: seq<FacetValue>, a: seq<FacetValue>, b: seq<FacetValue>, recalc: NormalFn)
    requires MergeStep(before, a, recalc) && MergeStep(before, b, recalc)
    ensures a == b && |a| == |before| - 1
  {
    var i, j :| FirstJoinable(before, i, j) && a == Merged(before, i, j, recalc);
    var p, q :| FirstJoinable(before, p, q) && b == Merged(before, p, q, recalc);
    FirstJoinableUnique(before, i, j, p, q);
  }

  /** A list can take a merge step exactly when some pair of its facets can be merged. */
  lemma MergeStepExists(before: seq<FacetValue>, recalc: NormalFn)
    ensures (exists after :: MergeStep(before, after, recalc)) <==> !NoneJoin(before)
  {
    if !NoneJoin(before) {
      var i, j := FirstJoinablePair(before);
      assert MergeStep(before, Merged(before, i, j, recalc), recalc);
    }
  }

  /** The first pair that can be merged, found as remove_planar_edge's loops find it. */
  lemma FirstJoinablePair(vs: seq<FacetValue>) returns (i: int, j: int)
    requires !NoneJoin(vs)
    ensures FirstJoinable(vs, i, j)
  {
    var p, q :| 0 <= p < |vs| && 0 <= q < |vs| && CanJoin(vs, p, q);
    i, j := 0, 0;
    while !CanJoin(vs, i, j)
      invariant 0 <= i < |vs| && 0 <= j < |vs|
      invariant !PairBefore(p, q, i, j)
      invariant forall p', q' :: 0 <= p' < |vs| && 0 <= q' < |vs| && PairBefore(p', q', i, j) ==> !CanJoin(vs, p', q')
      decreases |vs| - i, |vs| - j
    {
      if j + 1 < |vs| {
        j := j + 1;
      } else {
        i, j := i + 1, 0;
      }
    }
  }

  /**
   * The nested loops of remove_planar_edge: tries join on each pair of
   * different positions in row-major order and stops at the first that
   * succeeds, returning its positions and the merged facet (null when none).
   */
  method FirstJoin(fs: seq<Facet>, recalc: NormalFn) returns (i: int, j: int, joined: Facet?)
    ensures joined == null ==> NoneJoin(old(Values(fs)))
    ensures joined != null ==>
      && FirstJoinable(old(Values(fs)), i, j)
      && fresh(joined)
      && joined.vertices == JoinedVertices(old(Values(fs))[i].vertices, old(Values(fs))[j].vertices).value
      && joined.normal == InitialNormal(old(Values(fs))[i].normal, joined.vertices, recalc)
  {
    ghost var vs := Values(fs);
    var n := |fs|;
    i, j := 0, 0;
    while i < n
      invariant 0 <= i <= n
      invariant forall p, q :: 0 <= p < n && 0 <= q < n && PairBefore(p, q, i, 0) ==> !CanJoin(vs, p, q)
    {
      j := 0;
      while j < n
        invariant 0 <= j <= n
        invariant forall p, q :: 0 <= p < n && 0 <= q < n && PairBefore(p, q, i, j) ==> !CanJoin(vs, p, q)
      {
        if i != j {
          ValuesAt(fs, i);
          ValuesAt(fs, j);
          joined := fs[i].Join(fs[j], recalc);
          if joined != null {
            return;
          }
        }
        j := j + 1;
      }
      i := i + 1;
    }
    joined := null;
  }

  // ---------------------------------------------------------------------
  // The solid object
  // ---------------------------------------------------------------------

  class Solid {
    var name: Option<string>
    var facets: seq<Facet>

    /** A missing facet list starts the solid empty. */
    constructor(name: Option<string>, facets: Option<seq<Facet>>)
      ensures this.name == name
      ensures this.facets == if facets.Some? then facets.value else []
    {
      this.name := name;
      this.facets := if facets.Some? then facets.value else [];
    }

    /** Appends one new facet built from the arguments; the others stay as they were. */
    method AddFacet(normal: Option<Vector3d>, vertices: seq<Vector3d>, recalc: NormalFn)
      modifies this
      ensures name == old(name)
      ensures |facets| == |old(facets)| + 1
      ensures facets[..|old(facets)|] == old(facets)
      ensures fresh(facets[|old(facets)|])
      ensures facets[|old(facets)|].vertices == vertices
      ensures facets[|old(facets)|].normal == InitialNormal(normal, vertices, recalc)
    {
      var f := new Facet(normal, vertices, recalc);
      facets := facets + [f];
    }

    /** `==` on solids: the same name and facets equal position by position. */
    predicate SameAs(other: Solid)
      reads this, other, facets, other.facets
    {
      && name == other.name
      && |facets| == |other.facets|
      && forall i :: 0 <= i < |facets| ==> facets[i].Equals(other.facets[i])
    }

    /** Compares the names, then the lengths, then the facets one by one. */
    method Equals(other: Solid) returns (eq: bool)
      ensures eq <==> SameAs(other)
    {
      if name != other.name {
        return false;
      }
      if |facets| != |other.facets| {
        return false;
      }
      var i := 0;
      while i < |facets|
        invariant 0 <= i <= |facets|
        invariant forall k :: 0 <= k < i ==> facets[k].Equals(other.facets[k])
      {
        if !facets[i].Equals(other.facets[i]) {
          return false;
        }
        i := i + 1;
      }
      return true;
    }

    /** The loop of sort_facets: sort_vertices on each facet in turn. */
    method SortEachFacet()
      requires forall k :: 0 <= k < |facets| ==> |facets[k].vertices| > 0
      requires forall k, l :: 0 <= k < l < |facets| ==> facets[k] != facets[l]
      modifies facets
      ensures forall k :: 0 <= k < |facets| ==>
        facets[k].vertices == SortedVertices(old(facets[k].vertices)) && facets[k].normal == old(facets[k].normal)
    {
      var fs := facets;
      ghost var before := VertexLists(fs);
      ghost var normals := Normals(fs);
      var i := 0;
      while i < |fs|
        invariant 0 <= i <= |fs|
        invariant forall k :: 0 <= k < i ==> fs[k].vertices == SortedVertices(before[k])
        invariant forall k :: i <= k < |fs| ==> fs[k].vertices == before[k]
        invariant forall k :: 0 <= k < |fs| ==> fs[k].normal == normals[k]
      {
        fs[i].SortVertices();
        i := i + 1;
      }
    }

    /**
     * list.sort on the facet list: a stable sort by vertex lists; the facet
     * objects themselves are not changed.
     */
    method SortFacetList()
      modifies this
      ensures name == old(name)
      ensures var keys := old(VertexLists(facets));
        && facets == Sorting.Pick(old(facets), FacetListOrder(keys))
        && NonDecreasing(Sorting.Pick(keys, FacetListOrder(keys)))
      ensures multiset(facets) == multiset(old(facets))
    {
      var keys := VertexLists(facets);
      FacetListOrderSorted(keys);
      FacetListOrderPermutes(facets, keys);
      facets := Sorting.Pick(facets, FacetListOrder(keys));
    }

    /**
     * Sorts each facet's vertices, then sorts the facet list by vertex
     * lists. Each facet object is assumed to occur once in the list.
     */
    method SortFacets()
      requires forall k :: 0 <= k < |facets| ==> |facets[k].vertices| > 0
      requires forall k, l :: 0 <= k < l < |facets| ==> facets[k] != facets[l]
      modifies this, facets
      ensures name == old(name)
      ensures forall k :: 0 <= k < |old(facets)| ==>
        && old(facets)[k].vertices == SortedVertices(old(facets[k].vertices))
        && old(facets)[k].normal == old(facets[k].normal)
      ensures var keys := Canonical(old(VertexLists(facets)));
        && facets == Sorting.Pick(old(facets), FacetListOrder(keys))
        && NonDecreasing(Sorting.Pick(keys, FacetListOrder(keys)))
      ensures multiset(facets) == multiset(old(facets))
    {
      ghost var before := VertexLists(facets);
      SortEachFacet();
      ghost var keys := VertexLists(facets);
      CanonicalEach(before, keys);
      SortFacetList();
    }

    /**
     * Merges the first pair of different facets, in row-major order, that
     * join: the list becomes the others in their order, then the merged
     * facet. Reports whether a pair was merged.
     */
    method RemovePlanarEdge(recalc: NormalFn) returns (removed: bool)
      modifies this
      ensures name == old(name)
      ensures !removed ==> facets == old(facets) && Values(facets) == old(Values(facets))
      ensures !removed ==> NoneJoin(old(Values(facets)))
      ensures removed ==> MergeStep(old(Values(facets)), Values(facets), recalc)
      ensures removed ==> |facets| == |old(facets)| - 1 && fresh(facets[|facets| - 1])
      ensures removed ==> exists i, j ::
        FirstJoinable(old(Values(facets)), i, j) && facets[..|facets| - 1] == Without(old(facets), i, j)
    {
      var fs := facets;
      ghost var vs := Values(fs);
      label Searching:
      var i, j, joined := FirstJoin(fs, recalc);
      if joined == null {
        ValuesFrame@Searching(fs);
        return false;
      }
      WithoutLength(fs, i, j);
      var merged := Without(fs, i, j) + [joined];
      assert merged[..|merged| - 1] == Without(fs, i, j);
      facets := merged;
      ValuesFrame@Searching(fs);
      MergedObjects(fs, i, j, joined, recalc);
      MergeStepFirst(vs, Values(facets), i, j, recalc);
      return true;
    }

    /**
     * Merges until no pair joins and returns how many merges were made. The
     * ghost `trace` holds the facet values before the first merge, after each
     * merge, and at the end: each is one merge step from the one before.
     */
    method RemovePlanarEdges(recalc: NormalFn) returns (count: int, ghost trace: seq<seq<FacetValue>>)
      modifies this
      ensures name == old(name)
      ensures 0 <= count == |old(facets)| - |facets|
      ensures |trace| == count + 1
      ensures trace[0] == old(Values(facets)) && trace[count] == Values(facets)
      ensures forall k :: 0 <= k < count ==> MergeStep(trace[k], trace[k + 1], recalc)
      ensures NoneJoin(Values(facets))
    {
      count := 0;
      trace := [Values(facets)];
      var removed := RemovePlanarEdge(recalc);
      while removed
        invariant name == old(name) && 0 <= count
        invariant count + (if removed then 1 else 0) == |old(facets)| - |facets|
        invariant |trace| == count + 1 && trace[0] == old(Values(facets))
        invariant MergeChain(trace, recalc)
        invariant removed ==> MergeStep(trace[count], Values(facets), recalc)
        invariant !removed ==> trace[count] == Values(facets) && NoneJoin(Values(facets))
        decreases |facets| + (if removed then 1 else 0)
      {
        ghost var cur := Values(facets);
        assert trace[|trace| - 1] == trace[count];
        assert MergeStep(trace[|trace| - 1], cur, recalc);
        MergeChainSnoc(trace, cur, recalc);
        count := count + 1;
        trace := trace + [cur];
        assert trace[count] == cur;
        removed := RemovePlanarEdge(recalc);
        assert removed ==> MergeStep(cur, Values(facets), recalc);
      }
    }
  }

  /** Solid equality is reflexive and symmetric. */
  lemma SameAsSymmetric(s: Solid, t: Solid)
    ensures s.SameAs(s)
    ensures s.SameAs(t) ==> t.SameAs(s)
  {
  }
}
