# python-stl mesh types in Dafny

A model of the mesh data types of python-stl (`stl/types.py`) and proofs about them:

- `Vector3d` is a point or normal. It is an immutable triple ordered like a Python tuple.
- `Facet` is a polygon: an ordered vertex list plus an optional normal. It supports:
  - equality and ordering;
  - `sort_vertices`, the canonical re-ordering of the vertex list;
  - `split_to_triangles`, a fan triangulation from the first vertex;
  - `join`, which merges two facets across a shared edge.
- `Solid` is a mesh: an optional name and a list of facets. It supports:
  - `add_facet`;
  - `sort_facets`, the canonical form used for comparison;
  - `remove_planar_edge` and `remove_planar_edges`, which merge coplanar neighbours;
  - equality.

Files, one module each:

- `optional.dfy`: `Option`.
- `vectors.dfy`: `Vector3d`, the tuple order `Less`, the list order `LexLess` and `map_coordinates`.
- `sorting.dfy`: Python's `sorted` / `list.sort`.
  - It is a stable insertion sort that consults only `<`.
  - It sorts positions under an order on positions; `Pick` then reads the elements back.
  - Proved: the sort permutes, sorts, is stable, and is the unique sorted permutation when the order is total.
- `facet.dfy`: the vertex-list functions behind `sort_vertices`, `join` and `split_to_triangles`, with their lemmas. It also holds the class `Facet`, whose methods update the object's `vertices` and `normal` fields as the Python methods do.
- `solid.dfy`: the facet-list functions behind `sort_facets` and `remove_planar_edge`, and the class `Solid`.

Modelling choices:

- **Coordinates are `real`.** The code only ever compares coordinates exactly (`==` and `<`), so an exact total order is enough.
- **Normal recomputation is a parameter.** `recalculate_normal` is a floating-point cross product. Every operation that builds a facet takes a parameter `recalc: NormalFn`: the normal a facet built without one receives. `Facet(normal, vertices)` calls it exactly when the given normal is `None`. `join` and `split_to_triangles` pass `self.normal` on, so they call it too when that normal is `None`.
- **`sort_vertices` follows the code, not its docstring.**
  - The docstring says the method keeps "round-robin order". The code sorts the pairs `((k - index_of_min) % 3, vertex)`.
  - For a triangle this is the rotation that starts at the first least vertex (`SortedVerticesTriangle`).
  - For four or more vertices the keys repeat `0, 1, 2, 0, …`, so the result is in general not a rotation: for example when the least vertex comes first (`SortedVerticesQuad`), and on the unit square (`SortedVerticesSquare`).
  - For triangles, the claim that every rotation normalises to the same list needs the least vertex to occur once (`SortedVerticesTriangleRotation`). `SortedVerticesRepeatedMinimum` shows two rotations of one triangle that normalise differently.
- **`split_to_triangles` is a fan.** The code triangulates from vertex 0, and the model does the same. It is not an ear-clipping triangulation.
- **`remove_planar_edge` returns a Boolean.** The code returns whether a pair was merged and leaves the merged facet at the end of the list; the model does the same.
- **Merges are stated on values.** `Values` reads each facet object's normal and vertex list. `MergeStep(before, after, recalc)` holds when `after` is `before` with its first joinable pair replaced by their join at the end. `RemovePlanarEdges` returns, beside the count, a ghost trace of the values before and after each merge.
- **The pair search is its own method.** `FirstJoin` is the two nested loops of `remove_planar_edge`; `RemovePlanarEdge` calls it and replaces the list when it finds a pair. The order of the calls to `join` is the code's.

## Model

| member | source | states |
|---|---|---|
| Vectors.LessIsStrictTotalOrder | stl/types.py:295-307 | Tuple comparison of vectors is irreflexive, asymmetric, transitive and total on different vectors |
| Vectors.Less | stl/types.py:295-307 | Definition: a < b compares x, then y on equal x, then z on equal x and y, as Python compares the underlying tuples |
| Vectors.MapCoordinates | stl/types.py:348-349 | Definition: the vector whose three coordinates are fn applied to the old ones |
| Vectors.MapCoordinatesCompose | stl/types.py:348-349 | Mapping the coordinates with f and then with g is mapping them with g∘f |
| Vectors.MapCoordinatesMonotone | stl/types.py:348-349 | A strictly increasing coordinate map preserves and reflects the order of vectors |
| Vectors.LexLess | stl/types.py:167-168 | Definition: Python's list comparison of vertex lists: the first differing vertex decides, and a proper prefix is smaller |
| Vectors.LexLessIrreflexive | stl/types.py:167-168 | No vertex list is smaller than itself |
| Vectors.LexLessTransitive | stl/types.py:167-168 | The list order on vertex lists is transitive |
| Vectors.LexLessTotal | stl/types.py:167-168 | Any two different vertex lists are ordered one way or the other, a proper prefix first |
| Vectors.LexLessIsStrictTotalOrder | stl/types.py:167-168 | The order `Facet.__lt__` uses is a strict total order on vertex lists |
| Sorting.Insert | stl/types.py:241 | Definition: one step of the stable sort: x goes before the first element that is not smaller than it |
| Sorting.Sort | stl/types.py:241 | Definition: Python's `sorted` (and `list.sort` at line 64): the tail is sorted, then the head is inserted, so the order consulted is only `<` and ties keep input order |
| Sorting.InsertAt | stl/types.py:241 | One insertion step keeps the list around the inserted element: prefix, element, suffix |
| Sorting.SortMultiset | stl/types.py:241 | The sort returns a permutation of its input |
| Sorting.SortSorted | stl/types.py:241 | Under a strict weak order, no element of the result is smaller than one before it |
| Sorting.SortStable | stl/types.py:64 | Indices that compare equal stay in increasing order, as in Python's stable sort |
| Sorting.PickSort | stl/types.py:239-241 | Reading the elements back at the sorted positions gives a permutation of the elements |
| Sorting.SortIsUnique | stl/types.py:239-241 | Under an order that is total on the elements, any sorted permutation is what the sort returns |
| Sorting.SortFourCase | stl/types.py:241 | Four positions whose keys compare as the four-vertex keys do are sorted to 0, 3, 1, 2 |
| Facets.FirstMinIndex | stl/types.py:237-238 | `min` over (vertex, index) pairs yields a position holding a least vertex, with no equal vertex before it |
| Facets.FirstMinIndexUnique | stl/types.py:237-238 | That first least position is unique: any position with both properties is it |
| Facets.SortedVertices | stl/types.py:233-241 | Definition: the vertices read back at the positions sorted by the pair (turn from the first least position, vertex) |
| Facets.Turn | stl/types.py:239-240 | The first key component `(k - index_of_min) % 3` is always 0, 1 or 2 |
| Facets.KeyLess | stl/types.py:239-241 | Definition: tuple `<` on the pairs ((i - m) % 3, vertex i) and ((j - m) % 3, vertex j): the turn decides, and on equal turns the vertex order |
| Facets.KeyOrder | stl/types.py:239-241 | Definition: KeyLess on positions, as the comparison `sorted` applies |
| Facets.VertexOrder | stl/types.py:239-241 | Definition: the positions 0 .. n-1 sorted by KeyOrder from the first least position, i.e. the order of the sorted pairs |
| Facets.VertexOrderSorted | stl/types.py:239-241 | The positions come out sorted by (turn, vertex) |
| Facets.SortedVerticesPermutation | stl/types.py:237-241 | sort_vertices leaves a permutation of the vertex list, of the same length |
| Facets.SortedVerticesStartsAtMinimum | stl/types.py:237-241 | For any vertex count, the first least vertex ends up first, and no vertex is smaller than it |
| Facets.SortedVerticesTriangle | stl/types.py:237-241 | For a triangle the result is the rotation starting at the first least vertex |
| Facets.SortedVerticesTriangleIdempotent | stl/types.py:237-241 | For a triangle, applying sort_vertices twice equals applying it once |
| Facets.UniqueMinimum | stl/types.py:237-238 | Definition: no other vertex of the triangle equals the first least one |
| Facets.SortedVerticesTriangleRotateOnce | stl/types.py:237-241 | A triangle whose least vertex occurs once normalises to the same list after a one-step rotation of its input, and the rotation's least vertex still occurs once |
| Facets.SortedVerticesTriangleRotation | stl/types.py:237-241 | For a triangle whose least vertex occurs once, the rotations by one and by two positions normalise to the same list as the triangle, so all three rotations agree |
| Facets.SortedVerticesRepeatedMinimum | stl/types.py:237-241 | With the least vertex repeated, the rotations [a, c, a] and [c, a, a] normalise to different lists |
| Facets.SortedVerticesQuad | stl/types.py:239-241 | With four vertices and the least first, the result is v0, v3, v1, v2 (also when v3 equals v0, as the sort is stable): not the round-robin order the docstring promises |
| Facets.QuadKeys | stl/types.py:239-240 | With the least vertex first and v3 not below v0, the keys of positions 3, 1 and 2 compare 3 < 2, 3 < 1, not 2 < 1, and 3 is not below 0 |
| Facets.SortedVerticesSquare | stl/types.py:233-241 | On the unit square the result is not a rotation, and a second application changes it again |
| Facets.SortedVerticesTestTriangles | tests/test_types.py:60-75 | The three triangles of the facet sorting test normalise to [v1, v2, v3], [v1, v2, v3] and [v1, v3, v2] |
| Facets.Facet.SortVertices | stl/types.py:233-241 | The new vertex list is the sort_vertices result of the old one; the normal is unchanged |
| Facets.SuccIsMod | stl/types.py:275-277 | The next position round a polygon is `(i + 1) % n` |
| Facets.SharesEdge | stl/types.py:278-279 | Definition: edge (i, i+1) of self is edge (j, j+1) of other reversed: self[i] == other[j+1] and self[i+1] == other[j], indices round the polygon |
| Facets.SearchFrom | stl/types.py:274-279 | Resumed at (i, j), the edge search returns the first matching pair not before (i, j) in row-major order, or reports that none exists |
| Facets.FirstSharedEdge | stl/types.py:274-279 | The first matching pair in row-major order; none exactly when no edge of the first facet is an edge of the second reversed |
| Facets.JoinedVertices | stl/types.py:281-290 | Definition: None when no edge matches; otherwise self's vertices from i1 round to i0 exclusive, then other's from j1 round to j0 exclusive |
| Facets.JoinedVerticesExist | stl/types.py:270-291 | A joined vertex list exists if and only if some pair of edges match |
| Facets.JoinedVerticesMultiset | stl/types.py:281-290 | The joined list has len(self) + len(other) - 2 vertices: all of both facets except one copy of each end of the shared edge |
| Facets.JoinedVerticesEnds | stl/types.py:281-290 | The joined list starts at self[i1], and its part from other starts with other[j1], which is self[i0] |
| Facets.After | stl/types.py:282-289 | Definition: what one while loop collects: the vertices after position i, round the polygon to the one before i |
| Facets.WalkRound | stl/types.py:282-289 | The stitching loop collects the vertices after i0 round to the one before it |
| Facets.TriangleCount | stl/types.py:262 | Definition: the length of the zip of vertices[1:] and vertices[2:]: n - 2, or 0 for fewer than three vertices |
| Facets.FanTriangle | stl/types.py:262-264 | Definition: the k-th fan triangle is v0, v(k+1), v(k+2) |
| Facets.Facet.Join | stl/types.py:266-291 | No facet exactly when the normals differ or no edge matches; otherwise a new facet with the joined vertices and self's normal, recomputed if that is None |
| Facets.FanNeighboursShareEdge | stl/types.py:262-264 | Consecutive fan triangles share the diagonal from vertex 0 with opposite direction, as join requires |
| Facets.Facet.SplitToTriangles | stl/types.py:252-264 | Exactly max(0, n - 2) new, distinct facets; the k-th has vertices v0, v(k+1), v(k+2) and the parent's normal, recomputed if that is None |
| Facets.JoinUndoesSplitQuad | stl/types.py:252-291 | Joining the two fan triangles of a quadrilateral with distinct vertices gives it back: from v0 one way round, and from v2 the other |
| Facets.JoinSplitUnitSquare | tests/test_types.py:146-152 | The unit square's second triangle joined with the first gives [(1,1,0), (0,1,0), (0,0,0), (1,0,0)] |
| Facets.InitialNormal | stl/types.py:150-153 | Definition: a given normal is kept; a missing one is recalc of the vertices |
| Facets.Facet.constructor | stl/types.py:146-153 | The vertices are stored; a given normal is kept and a missing one is computed from the vertices |
| Facets.Facet.RecalculateNormal | stl/types.py:243-250 | The normal becomes the one computed from the current vertices; the vertices are unchanged |
| Facets.Facet.Equals | stl/types.py:155-162 | Definition: facets are equal when their normals and their vertex lists are equal |
| Facets.Facet.LessThan | stl/types.py:167-168 | Definition: a facet is below another when its vertex list is, in list order |
| Facets.OrderIgnoresNormal | stl/types.py:155-168 | Facets with the same vertices and different normals are unequal, yet neither is below the other |
| Facets.FacetOrder | stl/types.py:167-168 | `<` on facets is irreflexive, asymmetric and transitive, and total on vertex lists |
| Solids.FacetListOrder | stl/types.py:64 | The sorted facet positions are a permutation of the positions |
| Solids.FacetListLess | stl/types.py:64 | Definition: `Facet.__lt__` on positions of the facet list, as list.sort applies it: their vertex lists in list order |
| Solids.FacetListLessIsStrictWeakOrder | stl/types.py:167-168 | The facet order is one the stable sort can rely on |
| Solids.FacetListOrderSorted | stl/types.py:64 | After list.sort, no facet's vertex list is smaller than an earlier one's |
| Solids.FacetListOrderPermutes | stl/types.py:64 | The sorted facet list is a permutation of the facet list |
| Solids.FacetListOrderStable | stl/types.py:64 | Facets with equal vertex lists keep their relative order |
| Solids.FacetListOrderSwap | stl/types.py:64 | Two facets whose vertex lists are out of order change places |
| Solids.Canonical | stl/types.py:62-63 | Definition: the loop calling sort_vertices on each facet, on values: each vertex list replaced by its sort_vertices result, in list order |
| Solids.CanonicalAt | stl/types.py:62-63 | Position k of the canonical key list is sort_vertices of the k-th vertex list |
| Solids.CanonicalEach | stl/types.py:62-63 | Lists that are sort_vertices of each input list, position by position, are the canonical key list |
| Solids.SortFacetsTestExample | tests/test_types.py:113-116 | In the solid sorting test, f0b normalises to f0's vertices and the two facets swap, giving the order f0, f1 |
| Solids.Without | stl/types.py:82-84 | Definition: the list with the elements at positions i and j left out, the others in order |
| Solids.WithoutSlices | stl/types.py:82-84 | Dropping positions i and j keeps every other facet, in order: before, between and after the two |
| Solids.WithoutLength | stl/types.py:82-84 | Dropping two different positions shortens the list by exactly two |
| Solids.Solid.constructor | stl/types.py:20-22 | The name is stored, and a missing facet list becomes an empty one |
| Solids.Solid.AddFacet | stl/types.py:24-29 | The list grows by one: the earlier facets are unchanged and a new facet built from the arguments is last |
| Solids.Solid.SameAs | stl/types.py:96-107 | Definition: same name, same length and equal facets position by position |
| Solids.Solid.Equals | stl/types.py:96-107 | True if and only if the names are equal, the lengths are equal and the facets are equal position by position |
| Solids.SameAsSymmetric | stl/types.py:96-107 | Solid equality is reflexive and symmetric |
| Solids.Solid.SortEachFacet | stl/types.py:62-63 | Every facet's vertex list becomes its sort_vertices result; the normals are unchanged |
| Solids.Solid.SortFacetList | stl/types.py:64 | The list is re-ordered by the stable sort on vertex lists: a permutation, non-decreasing, the name unchanged |
| Solids.Solid.SortFacets | stl/types.py:58-64 | Each facet sorted, then the list sorted by the sorted vertex lists: each facet normalised, the list a permutation, non-decreasing |
| Solids.Values | stl/types.py:75-80 | Definition: the facets' normals and vertex lists in list order, which is all that join and the equality reads |
| Solids.CanJoin | stl/types.py:77-80 | Definition: positions i and j differ and `facets[i].join(facets[j])` succeeds: equal normals and some shared edge |
| Solids.NoneJoin | stl/types.py:75-88 | Definition: no pair of positions can be joined, the case in which remove_planar_edge returns False |
| Solids.FirstJoinable | stl/types.py:75-80 | Definition: (i, j) can be joined and no pair before it in the product order of the two ranges can |
| Solids.ValuesAt | stl/types.py:66-88 | Position k of a facet list's values holds facet k's normal and vertex list |
| Solids.ValuesWithout | stl/types.py:82-84 | Dropping positions i and j from the objects and then taking values is dropping them from the values |
| Solids.FirstJoinableUnique | stl/types.py:75-80 | At most one pair is the first, in the order of the two loops, whose facets join |
| Solids.FirstJoinablePair | stl/types.py:75-80 | When some pair of different positions joins, a first such pair exists |
| Solids.Merged | stl/types.py:82-85 | The merged list (the other facets in order, then the joined facet with facet i's normal) is one facet shorter |
| Solids.MergedObjects | stl/types.py:79-86 | Replacing facets i and j by a facet holding their join and the merged normal gives the merged values |
| Solids.MergeStep | stl/types.py:66-87 | Definition: one successful remove_planar_edge on values: `after` is `before` with its first joinable pair replaced by their join at the end |
| Solids.MergeChain | stl/types.py:90-94 | Definition: each list of a trace is one merge step from the one before, as in the loop of remove_planar_edges |
| Solids.MergeStepDeterministic | stl/types.py:75-87 | A merge step is determined by the list it starts from, and removes exactly one facet |
| Solids.MergeStepExists | stl/types.py:75-88 | A merge step from a list exists if and only if some pair of different facets joins |
| Solids.MergeChainSnoc | stl/types.py:91-93 | A chain of merge steps extended by one step from its last list is again such a chain |
| Solids.FirstJoin | stl/types.py:75-80 | The two loops return the first pair, in row-major order, of different positions whose facets join, with a new facet holding the join and facet i's normal (recomputed if None); none exactly when no pair joins |
| Solids.Solid.RemovePlanarEdge | stl/types.py:66-88 | If no pair joins: returns false and nothing changes. Otherwise returns true: the new values are one merge step from the old (the first joinable pair replaced by their join at the end), the other facet objects are kept in order, and the last facet is new |
| Solids.Solid.RemovePlanarEdges | stl/types.py:90-94 | Returns the number of merges: a ghost trace of count + 1 value lists runs from the old facets to the new, each one merge step from the one before, and no pair of the final facets joins |

## Left out

- NaN coordinates: Python floats include NaN, for which `==` and `<` are not a total order, so `min` and `sorted` in `sort_vertices` and `list.sort` in `sort_facets` would behave differently. Coordinates here are reals, which have no NaN; infinities would compare as the order does.
- `a`, `b`, `c`, `perimeter`, `area` and `surface_area`: square roots and Heron's formula on floating-point numbers.
- `recalculate_normal`: a numpy cross product and norm on floats. It is the parameter `recalc`, so the model does not capture:
  - which normal comes out;
  - the `None` for collinear vertices;
  - the `IndexError` for vertex lists shorter than three.
- `Facets.Facet.RecalculateNormal`: states only that the normal becomes `recalc` of the vertices, because the computation itself is floating point.
- Reading and writing STL files (`write_binary`, `write_ascii`, `stl/__init__.py`): stream I/O over parsers that are not part of this model.
- The message `remove_planar_edge` writes to standard error: output with no effect on the result.
- `__repr__`, `__iter__` and laziness:
  - `__repr__` and `__iter__` are presentation and iteration only.
  - The generator `split_to_triangles` is modelled as returning all its facets at once.
- The x/y/z setters of `Vector3d`: they assign into a tuple and would raise.
- `Facet.__init__`'s conversions: it converts each vertex and the normal with `Vector3d(*x)`; the model receives `Vector3d` values already.
- The `attributes` constructor argument: it is never stored.
- The truthiness test on the normal: modelled as "the normal is absent".
- Type checks in `__eq__` against objects of other types: the model's equalities compare only facets with facets and solids with solids.
- `__ne__` and the orders `functools.total_ordering` derives: plain negations and combinations of `==` and `<`.
- Python's sort algorithm: the model sorts by insertion. Both sorts are stable and consult only `<`. The model proves sortedness and stability of its own result. That the two algorithms return the same list on every input is not proved here; `SortIsUnique` gives it only when no two positions tie. Which comparisons are made, and how many, is not modelled.
- `Facets.Facet.SortVertices`: requires a non-empty vertex list, because `min` of an empty list raises `ValueError`.
- `Solids.Solid.SortEachFacet`: requires every facet to have a non-empty vertex list, as for `SortVertices`. It also requires the facet objects in the list to be pairwise distinct. A solid listing one facet object twice would sort it twice; that aliasing is not modelled.
- `Solids.Solid.SortFacets`: has the same two requirements as `SortEachFacet`. It states sortedness on the values of the normalised vertex lists in the order the sort chose, rather than on the facet objects afterwards; the two coincide because the sort does not change the facets.
- Aliasing of the facet list: `Solid(name, facets)` keeps the caller's list object, so a later `add_facet` is visible through the caller's reference. Here the facet list is a value.
