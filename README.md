# Exact integer core of the k-point grid reducer (BZI/symmetry.py)

This project models the parts of `BZI/symmetry.py` that work in exact integer arithmetic, and proves
properties of them in Dafny:

- **Hermite normal forms.** `HermiteNormalForm` reduces a nonsingular 3x3 integer matrix S to a
  lower-triangular H with unimodular column operations, and tracks them in B so that S.B = H.
  `UpperHermiteNormalForm` is its row-operation twin: B.S = H, with H upper triangular. Their helpers
  `get_minmax_indices`, `swap_column` and `swap_row` are modelled too. These are in `hermite.dfy`,
  over the matrix algebra of `int_matrix.dfy`.
- **The grid-point hash.** `find_kpt_index` takes integer grid coordinates g, computes L.g mod D
  (D is the Smith diagonal) and numbers the result in mixed radix (D[1].D[2], D[2], 1). This is in
  `grid_hash.dfy`.
- **The orbit loop.** This is the loop shared by `reduce_kpoint_list` and `find_orbits`. Points are
  visited in list order. A point whose slot in `hashtable` is still empty opens orbit `cOrbit`,
  becomes `iFirst[cOrbit]`, and every on-grid symmetry image whose slot is empty joins the orbit and
  adds one to `iWt[cOrbit]`. This is in `orbits.dfy`.
  - The loop is imperative: `hashtable` is an array, and `iFirst` and `iWt` are sequences the methods
    extend.
  - It is proved against a specification: `Reps` (the representatives), `LabelOf` (the label each
    slot ends with) and `Weights`.
  - The geometry of each image (rotation, folding into the cell, the on-grid test) is an input
    (`Geometry`). `reduction.dfy` hashes it with `find_kpt_index` and runs the loop.

Errors become `Result` values:
- a singular S gives `SingularMatrix`;
- a slot outside `range(nUR)` gives `MissingSlot`, which is the source's KeyError;
- weights that do not add up to nUR give `WeightMismatch`.

The run-time checks the source performs after each step (`np.allclose(np.dot(S, B), H)`, the
triangularity and bound checks) are invariants here. They are proved never to fire.

The hashtable is keyed by `range(nUR)`: the number of points, not the product of D. So the model's
table has nUR slots, and any slot number at or above nUR is a lookup fault. `HashedNoFault` shows that
this cannot happen when the list has at least D[0].D[1].D[2] points.

## Model

| member | source | states |
|---|---|---|
| Hermite.TruncDiv | BZI/symmetry.py:1935 | `int(a/b)` truncates toward zero: the remainder a - q.b is smaller than b in magnitude and is zero or has the sign of a |
| Hermite.MinMaxIndices | BZI/symmetry.py:1829-1851 | None exactly for the all-zero vector (the source's IndexError); otherwise mini is the first index of the smallest nonzero magnitude and maxi is the last index of the largest magnitude; with two or more nonzero entries mini != maxi |
| Hermite.ArgMaxAbsFrom | BZI/symmetry.py:1869 | `argmax(abs(v[k:])) + k`: the first index from k on whose magnitude is largest |
| Hermite.SwapColumn | BZI/symmetry.py:1853-1878 | column k of both M and B is exchanged with the first column m >= k maximising \|M[k][m]\|; every other column is unchanged |
| Hermite.SwapRow | BZI/symmetry.py:1880-1905 | row k of both M and B is exchanged with the first row m >= k maximising \|M[m][k]\|; every other row is unchanged |
| Hermite.ColTransformSub | BZI/symmetry.py:1936-1937 | subtracting q times one column from another in H and in B keeps S.B = H and det B = +-1 |
| Hermite.ColTransformSwap | BZI/symmetry.py:1954-1960 | swapping the same two columns of H and B keeps S.B = H and det B = +-1 |
| Hermite.ColTransformNeg | BZI/symmetry.py:1943-1944 | negating the same column of H and B keeps S.B = H and det B = +-1 |
| Hermite.RowTransformSub | BZI/symmetry.py:2069-2070 | the same for row subtraction, with B.S = H |
| Hermite.RowTransformSwap | BZI/symmetry.py:2085-2091 | the same for a row swap, with B.S = H |
| Hermite.RowTransformNeg | BZI/symmetry.py:2076-2077 | the same for a row negation, with B.S = H |
| Hermite.EuclidShrinks | BZI/symmetry.py:1930-1936 | reducing the largest entry by int(largest/smallest) times the smallest nonzero entry strictly decreases the sum of magnitudes, so the Euclidean loop terminates |
| Hermite.ZeroRowDet | BZI/symmetry.py:1946-1947 | a matrix with an all-zero first row is singular, so the first-row loop cannot end with no nonzero entry |
| Hermite.EuclidStepFirstRow | BZI/symmetry.py:1930-1939 | one pass keeps S.B = H and strictly decreases the sum of magnitudes of row 0 |
| Hermite.EuclidFirstRow | BZI/symmetry.py:1927-1939 | for nonsingular S the loop ends with exactly one nonzero entry in row 0, keeping S.B = H |
| Hermite.ClearFirstRow | BZI/symmetry.py:1927-1949 | row 0 becomes (h, 0, 0) with h > 0, so the checks at 1946-1949 never fire |
| Hermite.EuclidStepSecondRow | BZI/symmetry.py:1964-1976 | one pass on columns 1 and 2 keeps S.B = H, leaves row 0 unchanged, and decreases \|H[1][1]\| + \|H[1][2]\| |
| Hermite.EuclidSecondRow | BZI/symmetry.py:1952-1976 | the loop ends with H[1][2] = 0, row 0 unchanged and S.B = H; the swap when H[1][1] = 0 moves the columns in both H and B |
| Hermite.LowerDiagonalNonzero | BZI/symmetry.py:1978-1981 | a nonsingular lower-triangular H has no zero on its diagonal, so the branch that swaps H without B is dead |
| Hermite.ClearSecondRow | BZI/symmetry.py:1978-2003 | after the sign fixes, H is lower triangular with H[1][1] > 0 and H[2][2] > 0 and S.B = H |
| Hermite.ReduceLastRowEntry | BZI/symmetry.py:2017-2026 | the loop for one j brings H[2][j] into [0, H[2][2]), changing no other entry of H and keeping S.B = H |
| Hermite.ReduceBelowDiagonal | BZI/symmetry.py:2008-2026 | every entry below the diagonal ends in [0, diagonal); the diagonal and triangularity are kept |
| Hermite.HermiteNormalForm | BZI/symmetry.py:1907-2042 | fails exactly when det S = 0; otherwise S.B = H, det B = +-1, H lower triangular with a positive diagonal and 0 <= H[i][j] < H[i][i] below it |
| Hermite.ZeroColumnDet | BZI/symmetry.py:2078-2079 | a matrix with an all-zero first column is singular |
| Hermite.EuclidStepFirstColumn | BZI/symmetry.py:2064-2072 | one pass keeps B.S = H and strictly decreases the sum of magnitudes of column 0 |
| Hermite.EuclidFirstColumn | BZI/symmetry.py:2062-2072 | for nonsingular S the loop ends with exactly one nonzero entry in column 0 |
| Hermite.ClearFirstColumn | BZI/symmetry.py:2062-2081 | column 0 becomes (h, 0, 0) with h > 0, so the checks at 2078-2081 never fire |
| Hermite.EuclidStepSecondColumn | BZI/symmetry.py:2093-2105 | one pass on rows 1 and 2 keeps B.S = H, leaves row 0 and column 0 as they are, and decreases \|H[1][1]\| + \|H[2][1]\| |
| Hermite.EuclidSecondColumn | BZI/symmetry.py:2083-2105 | the loop ends with H[2][1] = 0 and B.S = H; when H[1][1] = 0 the rows are swapped and the loop breaks at once |
| Hermite.UpperDiagonalNonzero | BZI/symmetry.py:2107-2110 | a nonsingular upper-triangular H has no zero on its diagonal, so the branch that swaps rows 0 and 1 of H alone is dead |
| Hermite.ClearSecondColumn | BZI/symmetry.py:2107-2126 | after the sign fixes, H is upper triangular with H[1][1] > 0 and H[2][2] > 0 and B.S = H |
| Hermite.ReduceLastColumnEntry | BZI/symmetry.py:2138-2145 | the loop for one j brings H[j][2] into [0, H[2][2]), changing no other entry of H |
| Hermite.ReduceAboveDiagonal | BZI/symmetry.py:2131-2145 | every entry above the diagonal ends in [0, diagonal of its column); the diagonal and triangularity are kept |
| Hermite.UpperHermiteNormalForm | BZI/symmetry.py:2044-2156 | fails exactly when det S = 0; otherwise B.S = H, det B = +-1, H upper triangular with a positive diagonal, H[0][1] < H[1][1], H[0][2] < H[2][2], H[1][2] < H[2][2] and all upper entries >= 0 |
| IntMatrix.MulSubCol | BZI/symmetry.py:1936-1937 | a column operation on B is the same column operation on S.B |
| IntMatrix.MulSwapCols | BZI/symmetry.py:1871-1876 | swapping columns of B swaps the columns of S.B |
| IntMatrix.MulNegCol | BZI/symmetry.py:1943-1944 | negating a column of B negates that column of S.B |
| IntMatrix.MulSubRow | BZI/symmetry.py:2069-2070 | a row operation on B is the same row operation on B.S |
| IntMatrix.MulSwapRows | BZI/symmetry.py:1898-1903 | swapping rows of B swaps the rows of B.S |
| IntMatrix.MulNegRow | BZI/symmetry.py:2076-2077 | negating a row of B negates that row of B.S |
| IntMatrix.MulIdentity | BZI/symmetry.py:1922-1923 | the start B = I, H = S satisfies S.B = H and B.S = H |
| IntMatrix.DetSubCol | BZI/symmetry.py:1936-1937 | subtracting a multiple of another column keeps the determinant |
| IntMatrix.DetSwapCols | BZI/symmetry.py:1954-1960 | a column swap negates the determinant |
| IntMatrix.DetNegCol | BZI/symmetry.py:1943-1944 | negating a column negates the determinant |
| IntMatrix.DetSubRow | BZI/symmetry.py:2069-2070 | subtracting a multiple of another row keeps the determinant |
| IntMatrix.DetSwapRows | BZI/symmetry.py:2085-2091 | a row swap negates the determinant |
| IntMatrix.DetNegRow | BZI/symmetry.py:2076-2077 | negating a row negates the determinant |
| IntMatrix.DetLowerTriangular | BZI/symmetry.py:1997-2000 | the determinant of a lower-triangular matrix is the product of its diagonal |
| IntMatrix.DetUpperTriangular | BZI/symmetry.py:2121-2124 | the determinant of an upper-triangular matrix is the product of its diagonal |
| GridHash.SlotCount | BZI/symmetry.py:2184 | the number of slots D[0].D[1].D[2] is at least every D[k] |
| GridHash.Reduce | BZI/symmetry.py:2179 | `% D` with positive D: every coordinate lands in [0, D[k]) and is congruent to the input |
| GridHash.FindKptIndex | BZI/symmetry.py:2159-2184 | the slot lies in [0, D[0].D[1].D[2]) and decodes back to L.g mod D |
| GridHash.EncodeBounds | BZI/symmetry.py:2184 | the mixed-radix number of a residue vector lies in [0, D[0].D[1].D[2]) |
| GridHash.DecodeEncode | BZI/symmetry.py:2184 | the mixed-radix numbering is injective on residue vectors (decode undoes encode) |
| GridHash.EncodeDecode | BZI/symmetry.py:2184 | every slot in [0, D[0].D[1].D[2]) is the number of exactly one residue vector (encode undoes decode) |
| GridHash.SlotInjective | BZI/symmetry.py:2179-2184 | two points get the same slot exactly when L.g agrees modulo D in every coordinate |
| Orbits.ReachStep | BZI/symmetry.py:2313-2325 | operator g adds exactly the slot of its on-grid image to the slots reached so far |
| Orbits.ReachGrows | BZI/symmetry.py:2313-2325 | the slots reached only grow as operators are applied |
| Orbits.RepsBelow | BZI/symmetry.py:2311 | every representative among the first k points is one of them |
| Orbits.CountLabelUpdate | BZI/symmetry.py:2323-2325 | labelling an empty slot with c adds one to the count of c and changes no other count |
| Orbits.CountLabelAbsent | BZI/symmetry.py:2312 | a label that no slot carries counts 0, so a new orbit starts from weight 0 before its own slot |
| Orbits.ClaimedAppend | BZI/symmetry.py:2309-2325 | opening an orbit at point r adds exactly the slots of r's orbit to the claimed slots |
| Orbits.LabelAppend | BZI/symmetry.py:2309-2325 | after a new representative, claimed slots keep their label, its unclaimed orbit slots get the new label, and other slots stay empty |
| Orbits.LabelledIffClaimed | BZI/symmetry.py:2307-2308 | a slot has a label exactly when some orbit holds it, and that label lies in 1..cOrbit |
| Orbits.RepsStep | BZI/symmetry.py:2303-2325 | visiting one more point never shrinks the claimed slots |
| Orbits.ClaimedStays | BZI/symmetry.py:2303-2325 | a slot claimed after j points stays claimed after any k >= j points |
| Orbits.ClaimedGrows | BZI/symmetry.py:2303-2325 | the claimed slots after j points are a subset of those after k >= j points |
| Orbits.ClaimSlot | BZI/symmetry.py:2323-2325 | an empty slot gets label c and c's weight goes up by one; a labelled slot is never relabelled; the weights stay equal to the label counts |
| Orbits.PartialStep | BZI/symmetry.py:2313-2325 | one operator step keeps the partial-orbit invariant |
| Orbits.PartialDone | BZI/symmetry.py:2313-2325 | after all operators, the table is exactly the labelling with i as the newest representative |
| Orbits.LabelImages | BZI/symmetry.py:2313-2325 | the operator loop labels every unlabelled on-grid image slot with the new orbit and counts it, or reports an image slot outside range(nUR) |
| Orbits.OpenOrbit | BZI/symmetry.py:2309-2325 | `cOrbit += 1`, `iFirst[cOrbit] = i`, `iWt[cOrbit] = 1` and the operator loop: iFirst gains i, and the table and weights become those of the representatives with i added |
| Orbits.OpenStart | BZI/symmetry.py:2310 | labelling the representative's own slot starts the partial orbit |
| Orbits.ProcessedAll | BZI/symmetry.py:2303-2326 | after the last point, the table, iFirst and iWt are the specification's and no lookup faulted |
| Orbits.LabelsAre | BZI/symmetry.py:2303-2326 | a table agreeing with the specified label of every slot is the final hashtable |
| Orbits.WeightsAre | BZI/symmetry.py:2303-2326 | weights equal to the label counts are the final iWt |
| Orbits.NoFault | BZI/symmetry.py:2305-2307 | if every point's slot and every claimed slot is in range, no lookup raises KeyError |
| Orbits.SkipPoint | BZI/symmetry.py:2307-2308 | `continue` on a labelled slot keeps the loop invariant for the next point |
| Orbits.OpenPoint | BZI/symmetry.py:2309-2325 | opening an orbit keeps the loop invariant for the next point |
| Orbits.OpenFault | BZI/symmetry.py:2322-2323 | a slot of a newly opened orbit is one of the slots the loop looks up |
| Orbits.RepsOpen | BZI/symmetry.py:2309-2311 | a point whose slot is unclaimed becomes the next representative, and its orbit joins the claimed slots |
| Orbits.SlotLookedUp | BZI/symmetry.py:2305-2307 | every point's own slot is looked up |
| Orbits.ClaimedLookedUp | BZI/symmetry.py:2322-2323 | every slot in an orbit of a representative is looked up |
| Orbits.FaultLookedUp | BZI/symmetry.py:2305-2323 | a slot that faults while a point is visited is one of the looked-up slots |
| Orbits.VisitNewPoint | BZI/symmetry.py:2309-2325 | opening an orbit either keeps the loop invariant or reports an out-of-range slot of that orbit |
| Orbits.VisitPoint | BZI/symmetry.py:2303-2325 | one pass of the loop keeps the invariant, or reports a slot outside range(nUR) that the loop looks up |
| Orbits.LabelOrbits | BZI/symmetry.py:2285-2326 | fails with MissingSlot exactly when some looked-up slot is outside range(nUR); otherwise returns iFirst = Reps, iWt = Weights and hashtable = Labels, with every representative a point index |
| Orbits.ReachClaimed | BZI/symmetry.py:2309-2325 | the whole orbit of every representative is claimed |
| Orbits.LabelMeans | BZI/symmetry.py:2307-2325 | a slot carries label c+1 exactly when it is in the orbit of representative c and in no earlier orbit: first come, first labelled |
| Orbits.LabelKept | BZI/symmetry.py:2323 | a label, once given, is never changed by later orbits |
| Orbits.RepsUnfold | BZI/symmetry.py:2307-2311 | the representatives grow by point k-1 exactly when its slot is not yet claimed |
| Orbits.RepsShape | BZI/symmetry.py:2307-2311 | every representative is a point, and its slot lies in no orbit of the representatives before it |
| Orbits.FreshStep | BZI/symmetry.py:2307-2311 | skipping a point or appending an unclaimed one keeps the representatives fresh |
| Orbits.FreshAppend | BZI/symmetry.py:2309-2311 | appending a point with an unclaimed slot keeps the representatives fresh |
| Orbits.RepsIncreasing | BZI/symmetry.py:2303-2311 | orbits are numbered in order of their representatives' positions in the list |
| Orbits.EveryPointClaimed | BZI/symmetry.py:2303-2311 | the slot of every point visited lies in some orbit |
| Orbits.OwnSlotClaimed | BZI/symmetry.py:2307-2310 | after point i is visited, its slot is claimed |
| Orbits.RepLabel | BZI/symmetry.py:2310-2311 | the slot of representative c carries label c+1 |
| Orbits.CountLabelPositive | BZI/symmetry.py:2312 | a label carried by some slot has a count of at least 1 |
| Orbits.WeightsPositive | BZI/symmetry.py:2312 | when no lookup faults, every orbit weight is at least 1 |
| Orbits.RepWeight | BZI/symmetry.py:2310-2312 | the weight of orbit c counts at least its representative's slot |
| Orbits.SumCountsSnoc | BZI/symmetry.py:2326-2330 | adding one entry to the table adds one to the per-label counts exactly when it carries a label in 1..m |
| Orbits.SumCountsAll | BZI/symmetry.py:2326-2330 | when all labels lie in 1..m, the per-label counts add up to the number of labelled slots |
| Orbits.SumCountsEmpty | BZI/symmetry.py:2326-2330 | an empty table has zero counts |
| Orbits.SumCounted | BZI/symmetry.py:2326-2330 | weights equal to the label counts sum to the per-label totals |
| Orbits.WeightsSum | BZI/symmetry.py:2326-2333 | the weights add up to the number of labelled slots |
| Orbits.CountSomeFull | BZI/symmetry.py:2333 | the labelled slots number at most nUR, and exactly nUR when every slot is labelled |
| Orbits.ClaimedBelow | BZI/symmetry.py:2292 | when every slot handed out is below m, so is every claimed slot |
| Orbits.NoFaultBelow | BZI/symmetry.py:2292 | when every slot handed out is below nUR, no lookup faults |
| Reduction.HashImage | BZI/symmetry.py:2318-2322 | an off-grid image stays unhashed; an on-grid one gets a slot below D[0].D[1].D[2] that decodes to L.g mod D |
| Reduction.HashGrid | BZI/symmetry.py:2305-2322 | the slots of all points and images, each given by find_kpt_index, all below D[0].D[1].D[2] |
| Reduction.HashedNoFault | BZI/symmetry.py:2292-2323 | with at least D[0].D[1].D[2] points, the orbit loop never raises KeyError |
| Reduction.Representatives | BZI/symmetry.py:2524 | `kpoint_list[list(iFirst.values())]`: the point of each representative, in orbit order |
| Reduction.FindOrbits | BZI/symmetry.py:2340-2553 | find_orbits without full_orbit: KeyError exactly on a fault; otherwise the weights are the orbit sizes and the points are those of the representatives |
| Reduction.SumAndCollect | BZI/symmetry.py:2326-2331 | the closing loop returns the sum of the weights and the representatives' points |
| Reduction.ReduceKpointList | BZI/symmetry.py:2226-2337 | MissingSlot exactly on a fault; WeightMismatch exactly when some slot stays unlabelled, with total < nUR; otherwise weights equal to the orbit sizes summing to nUR, and the representatives' points |

## Left out

- Float determinant: the source rejects S when `np.linalg.det(S) == 0` in floating point; the model uses the exact integer determinant.
- Float division: `int(a/b)` is modelled as exact truncating division. Float rounding for huge entries and numpy int64 overflow are not modelled: integers are unbounded.
- The `np.allclose` run-time checks and `np.round(H, eps)` at 2041 are not modelled as operations. They are stated as proved invariants, and H is integral throughout.
- Geometry: the rotation by each operator, `bring_into_cell`, the on-grid tolerance test (2315-2320, 2495-2503) and the conversion of a Cartesian point to grid coordinates with `invK` and `round` (2177) are floating point. They are inputs (`Reduction.Geometry`): the grid coordinates of each point and of each on-grid image.
- Reduction.FindOrbits ignores the space-group translations, as the source does (2432, 2492).
- Setup of `reduce_kpoint_list` / `find_orbits` (2248-2288, 2400-2461): the linear-independence and volume checks, `check_commensurate`, `find_point_group` / `get_space_group`, the HNF of N and `SmithNormalForm` (an external library) are not modelled. L and D are parameters; D needs positive entries.
- `kpt_index_conv`, the `full_orbit` output (2528-2549), the `kpt_coords == "lat"` conversion (2545-2552) and the final filter of the hashtable (2515) are not modelled.
- Orbits.WeightsPositive: it is stated only when no lookup faults, because the weights of a failed run are never returned.
- Orbits.Labels: the final hashtable is modelled as a sequence over range(nUR), with None for an empty slot, not as a dict.
