/**
 * Python's `sorted` and `list.sort`: a stable sort that consults only `<`.
 * The model sorts positions rather than elements: a list is given as the
 * sequence of its indices together with an order on indices (comparing the
 * elements found there), and the sorted list is read back with `Pick`. One
 * sort then serves both the (key, vertex) pairs of sort_vertices and the
 * facet objects of sort_facets. It is an insertion sort that puts each index
 * before the first later-sorted index that is not smaller, so indices whose
 * elements tie keep their original order.
 */
module Sorting {

  /** What a sort needs of `<`: asymmetry, and that "not smaller" is transitive. */
  ghost predicate StrictWeakOrder<T(!new)>(less: (T, T) -> bool)
  {
    && (forall a, b :: less(a, b) ==> !less(b, a))
    && (forall a, b, c :: !less(a, b) && !less(b, c) ==> !less(a, c))
  }

  /** No element is smaller than an element before it. */
  predicate SortedBy<T>(s: seq<T>, less: (T, T) -> bool)
  {
    forall i, j :: 0 <= i < j < |s| ==> !less(s[j], s[i])
  }

  /** Inserts `x` before the first element that is not smaller than it. */
  function Insert<T>(x: T, s: seq<T>, less: (T, T) -> bool): (r: seq<T>)
    ensures |r| == |s| + 1
  {
    if s == [] || !less(s[0], x) then [x] + s
    else [s[0]] + Insert(x, s[1..], less)
  }

  function Sort<T>(s: seq<T>, less: (T, T) -> bool): (r: seq<T>)
    ensures |r| == |s|
  {
    if s == [] then [] else Insert(s[0], Sort(s[1..], less), less)
  }

  /** Where Insert puts `x`: before the first element that is not smaller. */
  function InsertPosition<T>(x: T, s: seq<T>, less: (T, T) -> bool): (p: nat)
    ensures p <= |s|
  {
    if s == [] || !less(s[0], x) then 0 else InsertPosition(x, s[1..], less) + 1
  }

  /** Insert leaves the list unchanged around the new element. */
  lemma {:induction false} InsertAt<T>(x: T, s: seq<T>, less: (T, T) -> bool)
    ensures Insert(x, s, less) == s[..InsertPosition(x, s, less)] + [x] + s[InsertPosition(x, s, less)..]
  {
    if s != [] && less(s[0], x) {
      var q := InsertPosition(x, s[1..], less);
      InsertAt(x, s[1..], less);
      assert s[..q + 1] == [s[0]] + s[1..][..q];
      assert s[q + 1..] == s[1..][q..];
    }
  }

  lemma InsertMultiset<T>(x: T, s: seq<T>, less: (T, T) -> bool)
    ensures multiset(Insert(x, s, less)) == multiset(s) + multiset{x}
  {
    var p := InsertPosition(x, s, less);
    InsertAt(x, s, less);
    var front, back := s[..p], s[p..];
    assert s == front + back;
    assert multiset(front + [x] + back) == multiset(front) + multiset{x} + multiset(back);
  }

  /** Sorting only re-orders: the result is a permutation of the input. */
  lemma {:induction false} SortMultiset<T>(s: seq<T>, less: (T, T) -> bool)
    ensures multiset(Sort(s, less)) == multiset(s)
  {
    if s != [] {
      SortMultiset(s[1..], less);
      InsertMultiset(s[0], Sort(s[1..], less), less);
      assert s == [s[0]] + s[1..];
    }
  }

  lemma {:induction false} InsertSorted<T(!new)>(x: T, s: seq<T>, less: (T, T) -> bool)
    requires StrictWeakOrder(less)
    requires SortedBy(s, less)
    ensures SortedBy(Insert(x, s, less), less)
  {
    if s == [] || !less(s[0], x) {
    } else {
      var t := Insert(x, s[1..], less);
      InsertSorted(x, s[1..], less);
      InsertMultiset(x, s[1..], less);
      forall j | 0 <= j < |t| ensures !less(t[j], s[0]) {
        assert t[j] in multiset(s[1..]) + multiset{x};
        if t[j] != x {
          assert t[j] in s[1..];
        }
      }
    }
  }

  /** The sort's result is in order. */
  lemma {:induction false} SortSorted<T(!new)>(s: seq<T>, less: (T, T) -> bool)
    requires StrictWeakOrder(less)
    ensures SortedBy(Sort(s, less), less)
  {
    if s != [] {
      SortSorted(s[1..], less);
      InsertSorted(s[0], Sort(s[1..], less), less);
    }
  }

  /** Strictly increasing positions: a list's indices in their original order. */
  predicate Increasing(s: seq<int>)
  {
    forall i, j :: 0 <= i < j < |s| ==> s[i] < s[j]
  }

  /** Of two tied positions, the one that came first still comes first. */
  predicate StableFor(r: seq<int>, less: (int, int) -> bool)
  {
    forall i, j :: 0 <= i < j < |r| ==> less(r[i], r[j]) || r[i] < r[j]
  }

  lemma {:induction false} InsertStable(x: int, s: seq<int>, less: (int, int) -> bool)
    requires StableFor(s, less)
    requires forall k :: 0 <= k < |s| ==> x < s[k]
    ensures StableFor(Insert(x, s, less), less)
  {
    if s == [] || !less(s[0], x) {
    } else {
      var t := Insert(x, s[1..], less);
      InsertStable(x, s[1..], less);
      InsertMultiset(x, s[1..], less);
      forall j | 0 <= j < |t| ensures less(s[0], t[j]) || s[0] < t[j] {
        assert t[j] in multiset(s[1..]) + multiset{x};
        if t[j] != x {
          assert t[j] in s[1..];
        }
      }
    }
  }

  /**
   * Stability: sorting the indices of a list in their original order leaves
   * tied elements in that order; the sort is therefore Python's `sorted`.
   */
  lemma {:induction false} SortStable(s: seq<int>, less: (int, int) -> bool)
    requires Increasing(s)
    ensures StableFor(Sort(s, less), less)
  {
    if s != [] {
      SortStable(s[1..], less);
      var t := Sort(s[1..], less);
      SortMultiset(s[1..], less);
      forall k | 0 <= k < |t| ensures s[0] < t[k] {
        assert t[k] in multiset(s[1..]);
        assert t[k] in s[1..];
      }
      InsertStable(s[0], t, less);
    }
  }

  /** The indices 0, 1, ..., n - 1 of a list of length n. */
  function Indices(n: nat): (r: seq<int>)
    ensures |r| == n
    ensures forall i :: 0 <= i < n ==> r[i] == i
    ensures Increasing(r)
  {
    if n == 0 then [] else Indices(n - 1) + [n - 1]
  }

  /** Every index in `idx` is a position of `vs`. */
  predicate InRange<V>(vs: seq<V>, idx: seq<int>)
  {
    forall k :: 0 <= k < |idx| ==> 0 <= idx[k] < |vs|
  }

  /** The elements of `vs` found at the positions `idx`, in that order. */
  function Pick<V>(vs: seq<V>, idx: seq<int>): (r: seq<V>)
    requires InRange(vs, idx)
    ensures |r| == |idx|
    ensures forall k :: 0 <= k < |idx| ==> r[k] == vs[idx[k]]
  {
    seq(|idx|, k requires 0 <= k < |idx| => vs[idx[k]])
  }

  lemma PickIndices<V>(vs: seq<V>)
    ensures Pick(vs, Indices(|vs|)) == vs
  {
  }

  lemma PickAppend<V>(vs: seq<V>, u: seq<int>, w: seq<int>)
    requires InRange(vs, u) && InRange(vs, w)
    ensures InRange(vs, u + w)
    ensures Pick(vs, u + w) == Pick(vs, u) + Pick(vs, w)
  {
    assert forall k :: 0 <= k < |u + w| ==> (u + w)[k] == if k < |u| then u[k] else w[k - |u|];
  }

  lemma PickSplice<V>(vs: seq<V>, front: seq<int>, x: int, back: seq<int>)
    requires 0 <= x < |vs| && InRange(vs, front) && InRange(vs, back)
    ensures InRange(vs, front + [x] + back)
    ensures Pick(vs, front + [x] + back) == Pick(vs, front) + [vs[x]] + Pick(vs, back)
  {
    var t := front + [x] + back;
    assert forall k :: 0 <= k < |t| ==> t[k] == if k < |front| then front[k] else if k == |front| then x else back[k - |front| - 1];
  }

  lemma PickInsert<V>(vs: seq<V>, x: int, s: seq<int>, less: (int, int) -> bool)
    requires 0 <= x < |vs| && InRange(vs, s)
    ensures InRange(vs, Insert(x, s, less))
    ensures multiset(Pick(vs, Insert(x, s, less))) == multiset(Pick(vs, s)) + multiset{vs[x]}
  {
    var p := InsertPosition(x, s, less);
    InsertAt(x, s, less);
    var front, back := s[..p], s[p..];
    assert s == front + back;
    assert InRange(vs, front) && InRange(vs, back);
    PickSplice(vs, front, x, back);
    PickAppend(vs, front, back);
    var pf, pb := Pick(vs, front), Pick(vs, back);
    calc {
      multiset(Pick(vs, Insert(x, s, less)));
      multiset(pf + [vs[x]] + pb);
      multiset(pf) + multiset{vs[x]} + multiset(pb);
      multiset(pf + pb) + multiset{vs[x]};
    }
  }

  /** Sorting positions only re-orders the elements: a permutation. */
  lemma {:induction false} PickSort<V>(vs: seq<V>, s: seq<int>, less: (int, int) -> bool)
    requires InRange(vs, s)
    ensures InRange(vs, Sort(s, less))
    ensures multiset(Pick(vs, Sort(s, less))) == multiset(Pick(vs, s))
  {
    if s != [] {
      PickSort(vs, s[1..], less);
      PickInsert(vs, s[0], Sort(s[1..], less), less);
      assert Pick(vs, s) == [vs[s[0]]] + Pick(vs, s[1..]);
    }
  }

  lemma SortedThree<T>(s: seq<T>, less: (T, T) -> bool)
    requires |s| == 3
    requires !less(s[1], s[0]) && !less(s[2], s[0]) && !less(s[2], s[1])
    ensures SortedBy(s, less)
  {
  }

  /**
   * The insertion steps on four positions when the last sorts before the
   * middle two and the first is not after the last.
   */
  lemma SortFourCase(less: (int, int) -> bool)
    requires less(3, 2) && less(3, 1) && !less(2, 1) && !less(3, 0)
    ensures Sort([0, 1, 2, 3], less) == [0, 3, 1, 2]
  {
    var s := [0, 1, 2, 3];
    assert s[1..] == [1, 2, 3] && s[1..][1..] == [2, 3] && s[1..][1..][1..] == [3];
    assert Sort([3], less) == [3];
    assert Sort([2, 3], less) == Insert(2, [3], less) == [3, 2];
    assert Sort([1, 2, 3], less) == Insert(1, [3, 2], less) == [3, 1, 2];
    assert Sort(s, less) == Insert(0, [3, 1, 2], less) == [0, 3, 1, 2];
  }

  lemma MultisetCons<T>(s: seq<T>)
    requires s != []
    ensures multiset(s) == multiset{s[0]} + multiset(s[1..])
  {
    assert s == [s[0]] + s[1..];
  }

  /** Two sorted permutations of each other, without ties, start alike. */
  lemma SortedSameHead<T(!new)>(a: seq<T>, b: seq<T>, less: (T, T) -> bool)
    requires StrictWeakOrder(less)
    requires forall x, y :: x in a && y in a && x != y ==> less(x, y) || less(y, x)
    requires multiset(a) == multiset(b) && a != []
    requires SortedBy(a, less) && SortedBy(b, less)
    ensures b != [] && a[0] == b[0]
  {
    assert a[0] in multiset(b);
    assert b != [];
    assert b[0] in multiset(a);
    assert a[0] in b && b[0] in a;
    var p :| 0 <= p < |b| && b[p] == a[0];
    var q :| 0 <= q < |a| && a[q] == b[0];
    assert p == 0 || !less(a[0], b[0]);
    assert q == 0 || !less(b[0], a[0]);
  }

  /**
   * When `less` orders any two distinct elements of `a`, there is only one
   * sorted arrangement of them: any sorted permutation of `a` is `a` itself.
   */
  lemma {:induction false} SortedUnique<T(!new)>(a: seq<T>, b: seq<T>, less: (T, T) -> bool)
    requires StrictWeakOrder(less)
    requires forall x, y :: x in a && y in a && x != y ==> less(x, y) || less(y, x)
    requires multiset(a) == multiset(b)
    requires SortedBy(a, less) && SortedBy(b, less)
    ensures a == b
  {
    if a != [] {
      SortedSameHead(a, b, less);
      MultisetCons(a);
      MultisetCons(b);
      assert multiset(a[1..]) == multiset(a) - multiset{a[0]};
      assert multiset(b[1..]) == multiset(b) - multiset{b[0]};
      assert SortedBy(b[1..], less);
      forall x, y | x in a[1..] && y in a[1..] && x != y ensures less(x, y) || less(y, x) {
        assert x in a && y in a;
      }
      SortedUnique(a[1..], b[1..], less);
      assert a == [a[0]] + a[1..] && b == [b[0]] + b[1..];
    } else {
      assert |multiset(b)| == 0;
    }
  }

  /** Sort's result is the one sorted arrangement, when there are no ties. */
  lemma SortIsUnique<T(!new)>(s: seq<T>, candidate: seq<T>, less: (T, T) -> bool)
    requires StrictWeakOrder(less)
    requires forall x, y :: x in s && y in s && x != y ==> less(x, y) || less(y, x)
    requires multiset(candidate) == multiset(s)
    requires SortedBy(candidate, less)
    ensures Sort(s, less) == candidate
  {
    SortMultiset(s, less);
    SortSorted(s, less);
    var r := Sort(s, less);
    forall x, y | x in r && y in r && x != y ensures less(x, y) || less(y, x) {
      assert x in multiset(s) && y in multiset(s);
    }
    SortedUnique(r, candidate, less);
  }
}
