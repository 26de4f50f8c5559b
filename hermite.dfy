/** The Hermite normal form routines of BZI/symmetry.py: `get_minmax_indices`,
    `swap_column`, `swap_row`, `HermiteNormalForm` (unimodular column operations,
    H = S.B lower triangular) and `UpperHermiteNormalForm` (unimodular row
    operations, H = B.S upper triangular). */
module Hermite {
  import opened Results
  import opened IntMatrix

  // ---------------------------------------------------------------------
  // Python's int(a / b): division truncated toward zero
  // ---------------------------------------------------------------------

  lemma DivMod(n: int, d: int)
    requires n >= 0 && d > 0
    ensures n == d * (n / d) + n % d && 0 <= n % d < d && n / d >= 0
  {
  }

  /** Given |a| == |b| q0 + r0, the truncating quotient leaves the remainder r0 with a's sign. */
  lemma SignedRemainder(a: int, b: int, q: int, q0: int, r0: int)
    requires b != 0 && Abs(a) == Abs(b) * q0 + r0 && 0 <= r0 < Abs(b) && q0 >= 0
    requires q == (if (a >= 0) == (b > 0) then q0 else -q0)
    ensures Abs(a - q * b) < Abs(b)
    ensures a - q * b == 0 || (a - q * b > 0 <==> a > 0)
  {
    if a == 0 {
      assert Abs(b) * q0 >= 0;
    }
    if a >= 0 && b > 0 {
    } else if a >= 0 {
      calc { q * b; (-q0) * b; q0 * (-b); }
    } else if b > 0 {
      calc { q * b; (-q0) * Abs(b); -(q0 * Abs(b)); }
    } else {
      calc { q * b; -(q0 * (-b)); }
    }
  }

  /** `int(a / b)`: the quotient rounded toward zero, so that the remainder
      a - q * b is smaller than b in magnitude and has the sign of a. */
  function TruncDiv(a: int, b: int): (q: int)
    requires b != 0
    ensures Abs(a - q * b) < Abs(b)
    ensures a - q * b == 0 || (a - q * b > 0 <==> a > 0)
  {
    var n: int, d: int := Abs(a), Abs(b);
    DivMod(n, d);
    var q := if (a >= 0) == (b > 0) then n / d else -(n / d);
    SignedRemainder(a, b, q, n / d, n % d);
    q
  }

  // ---------------------------------------------------------------------
  // get_minmax_indices
  // ---------------------------------------------------------------------

  /** m is the first index of the smallest nonzero magnitude in v. */
  predicate IsFirstMinNonzero(v: Vec3, m: Idx)
  {
    && v[m] != 0
    && (forall j: Idx :: v[j] != 0 ==> Abs(v[m]) <= Abs(v[j]))
    && (forall j: Idx :: j < m && v[j] != 0 ==> Abs(v[m]) < Abs(v[j]))
  }

  /** m is the last index of the largest magnitude in v. */
  predicate IsLastMaxAbs(v: Vec3, m: Idx)
  {
    && (forall j: Idx :: Abs(v[j]) <= Abs(v[m]))
    && (forall j: Idx :: m < j ==> Abs(v[j]) < Abs(v[m]))
  }

  /** `get_minmax_indices(a)`: returns (mini, maxi) where mini is the first index of the
      smallest nonzero |a[i]| and maxi the last index of the largest |a[i]|; with at least two
      nonzero entries the two differ. An all-zero vector makes the source index past the end
      (IndexError), modelled as None. */
  method MinMaxIndices(a: Vec3) returns (r: Option<(Idx, Idx)>)
    ensures r.None? <==> NonzeroCount(a) == 0
    ensures r.Some? ==> IsFirstMinNonzero(a, r.value.0) && IsLastMaxAbs(a, r.value.1)
    ensures r.Some? && NonzeroCount(a) >= 2 ==> r.value.0 != r.value.1
  {
    // maxi = 2 - argmax(|a|[::-1]): scanning from the end, only a strictly larger entry wins
    var maxi: Idx := 2;
    var k := 1;
    while k < 3
      invariant 1 <= k <= 3 && 3 - k <= maxi
      invariant forall j :: 3 - k <= j < 3 ==> Abs(a[j]) <= Abs(a[maxi])
      invariant forall j :: maxi < j < 3 ==> Abs(a[j]) < Abs(a[maxi])
    {
      if Abs(a[2 - k]) > Abs(a[maxi]) {
        maxi := 2 - k;
      }
      k := k + 1;
    }
    // the first nonzero magnitude; running off the end is the source's IndexError
    var min := 0;
    var i := 0;
    while min == 0
      invariant 0 <= i <= 3
      invariant forall j :: 0 <= j < i - 1 ==> a[j] == 0
      invariant i == 0 ==> min == 0
      invariant i > 0 ==> min == Abs(a[i - 1])
      decreases 3 - i
    {
      if i == 3 {
        return None;
      }
      min := Abs(a[i]);
      i := i + 1;
    }
    var mini: Idx := i - 1;
    // a later, strictly smaller nonzero magnitude replaces it
    for j := 0 to 3
      invariant min == Abs(a[mini]) && min > 0
      invariant forall t :: 0 <= t < j && a[t] != 0 ==> min <= Abs(a[t])
      invariant forall t :: 0 <= t < mini && a[t] != 0 ==> min < Abs(a[t])
    {
      if Abs(a[j]) > 0 && Abs(a[j]) < min {
        min := Abs(a[j]);
        mini := j;
      }
    }
    r := Some((mini, maxi));
  }

  // ---------------------------------------------------------------------
  // swap_column and swap_row
  // ---------------------------------------------------------------------

  /** m == argmax(|v[k:]|) + k: the first index from k on whose magnitude is largest. */
  predicate IsFirstMaxAbsFrom(v: Vec3, k: Idx, m: Idx)
  {
    && k <= m
    && (forall j: Idx :: k <= j ==> Abs(v[j]) <= Abs(v[m]))
    && (forall j: Idx :: k <= j < m ==> Abs(v[j]) < Abs(v[m]))
  }

  /** `argmax(|v[k:]|) + k`. */
  method ArgMaxAbsFrom(v: Vec3, k: Idx) returns (m: Idx)
    ensures IsFirstMaxAbsFrom(v, k, m)
  {
    m := k;
    var j := k + 1;
    while j < 3
      invariant k < j <= 3 && k <= m < j
      invariant forall t :: k <= t < j ==> Abs(v[t]) <= Abs(v[m])
      invariant forall t :: k <= t < m ==> Abs(v[t]) < Abs(v[m])
    {
      if Abs(v[j]) > Abs(v[m]) {
        m := j;
      }
      j := j + 1;
    }
  }

  /** `swap_column(M, B, k)`: exchanges column k of (copies of) M and B with the column
      holding the first largest |M[k][j]| for j >= k; every other column is unchanged. */
  method SwapColumn(M: Mat3, B: Mat3, k: Idx) returns (Ms: Mat3, Bs: Mat3)
    ensures exists m: Idx :: IsFirstMaxAbsFrom(M[k], k, m) && Ms == SwapCols(M, k, m) && Bs == SwapCols(B, k, m)
  {
    var maxidx := ArgMaxAbsFrom(M[k], k);
    Bs := SwapCols(B, k, maxidx);
    Ms := SwapCols(M, k, maxidx);
  }

  /** `swap_row(M, B, k)`: exchanges row k of (copies of) M and B with the row holding the
      first largest |M[j][k]| for j >= k; every other row is unchanged. */
  method SwapRow(M: Mat3, B: Mat3, k: Idx) returns (Ms: Mat3, Bs: Mat3)
    ensures exists m: Idx :: IsFirstMaxAbsFrom(Col(M, k), k, m) && Ms == SwapRows(M, k, m) && Bs == SwapRows(B, k, m)
  {
    var maxidx := ArgMaxAbsFrom(Col(M, k), k);
    Bs := SwapRows(B, k, maxidx);
    Ms := SwapRows(M, k, maxidx);
  }

  // ---------------------------------------------------------------------
  // Bookkeeping shared by the two normal forms
  // ---------------------------------------------------------------------

  /** H == S.B, B is unimodular and det H == det S . det B. */
  ghost predicate ColTransform(S: Mat3, H: Mat3, B: Mat3)
  {
    Mul(S, B) == H && ((Det(B) == 1 && Det(H) == Det(S)) || (Det(B) == -1 && Det(H) == -Det(S)))
  }

  /** H == B.S, B is unimodular and det H == det B . det S. */
  ghost predicate RowTransform(S: Mat3, H: Mat3, B: Mat3)
  {
    Mul(B, S) == H && ((Det(B) == 1 && Det(H) == Det(S)) || (Det(B) == -1 && Det(H) == -Det(S)))
  }

  lemma ColTransformSub(S: Mat3, H: Mat3, B: Mat3, c: Idx, src: Idx, q: int)
    requires ColTransform(S, H, B) && c != src
    ensures ColTransform(S, SubCol(H, c, src, q), SubCol(B, c, src, q))
  {
    MulSubCol(S, B, c, src, q);
    DetSubCol(H, c, src, q);
    DetSubCol(B, c, src, q);
  }

  lemma ColTransformSwap(S: Mat3, H: Mat3, B: Mat3, a: Idx, b: Idx)
    requires ColTransform(S, H, B) && a != b
    ensures ColTransform(S, SwapCols(H, a, b), SwapCols(B, a, b))
  {
    MulSwapCols(S, B, a, b);
    DetSwapCols(H, a, b);
    DetSwapCols(B, a, b);
  }

  lemma ColTransformNeg(S: Mat3, H: Mat3, B: Mat3, c: Idx)
    requires ColTransform(S, H, B)
    ensures ColTransform(S, NegCol(H, c), NegCol(B, c))
  {
    MulNegCol(S, B, c);
    DetNegCol(H, c);
    DetNegCol(B, c);
  }

  lemma RowTransformSub(S: Mat3, H: Mat3, B: Mat3, r: Idx, src: Idx, q: int)
    requires RowTransform(S, H, B) && r != src
    ensures RowTransform(S, SubRow(H, r, src, q), SubRow(B, r, src, q))
  {
    MulSubRow(B, S, r, src, q);
    DetSubRow(H, r, src, q);
    DetSubRow(B, r, src, q);
  }

  lemma RowTransformSwap(S: Mat3, H: Mat3, B: Mat3, a: Idx, b: Idx)
    requires RowTransform(S, H, B) && a != b
    ensures RowTransform(S, SwapRows(H, a, b), SwapRows(B, a, b))
  {
    MulSwapRows(B, S, a, b);
    DetSwapRows(H, a, b);
    DetSwapRows(B, a, b);
  }

  lemma RowTransformNeg(S: Mat3, H: Mat3, B: Mat3, r: Idx)
    requires RowTransform(S, H, B)
    ensures RowTransform(S, NegRow(H, r), NegRow(B, r))
  {
    MulNegRow(B, S, r);
    DetNegRow(H, r);
    DetNegRow(B, r);
  }

  datatype HnfError = SingularMatrix

  /** The pair returned by both routines. */
  datatype Transform = Transform(H: Mat3, B: Mat3)

  // ---------------------------------------------------------------------
  // HermiteNormalForm (lower triangular, column operations)
  // ---------------------------------------------------------------------

  predicate LowerTriangular(H: Mat3) { H[0][1] == 0 && H[0][2] == 0 && H[1][2] == 0 }

  /** The shape HermiteNormalForm promises: S.B == H with B unimodular, H lower triangular
      with a positive diagonal and 0 <= H[i][j] < H[i][i] below the diagonal. */
  predicate IsLowerHnf(S: Mat3, H: Mat3, B: Mat3)
  {
    && Mul(S, B) == H && Unimodular(B)
    && LowerTriangular(H)
    && H[0][0] > 0 && H[1][1] > 0 && H[2][2] > 0
    && 0 <= H[1][0] < H[1][1]
    && 0 <= H[2][0] < H[2][2]
    && 0 <= H[2][1] < H[2][2]
  }

  /** Sum of the magnitudes of v: the quantity the Euclidean loops decrease. */
  function AbsSum(v: Vec3): nat { Abs(v[0]) + Abs(v[1]) + Abs(v[2]) }

  /** A Euclid step on a vector: the entry of largest magnitude, less int(largest / smallest)
      times the smallest nonzero entry, leaves a smaller sum of magnitudes. */
  lemma EuclidShrinks(v: Vec3, mini: Idx, maxi: Idx)
    requires IsFirstMinNonzero(v, mini) && IsLastMaxAbs(v, maxi) && mini != maxi
    ensures AbsSum(v[maxi := v[maxi] - TruncDiv(v[maxi], v[mini]) * v[mini]]) < AbsSum(v)
  {
  }

  lemma ZeroRowDet(H: Mat3)
    requires NonzeroCount(H[0]) == 0
    ensures Det(H) == 0
  {
    assert H[0] == [0, 0, 0];
  }

  /** One pass of the loop on row 0: the column holding the largest entry loses
      int(largest / smallest) times the column holding the smallest one. */
  method EuclidStepFirstRow(S: Mat3, H: Mat3, B: Mat3) returns (H': Mat3, B': Mat3)
    requires ColTransform(S, H, B) && NonzeroCount(H[0]) > 1
    ensures ColTransform(S, H', B') && AbsSum(H'[0]) < AbsSum(H[0])
  {
    var mm := MinMaxIndices(H[0]);
    var (minidx, maxidx) := mm.value;
    var minm := H[0][minidx];
    var multiple := TruncDiv(H[0][maxidx], minm);
    ColTransformSub(S, H, B, maxidx, minidx, multiple);
    H' := SubCol(H, maxidx, minidx, multiple);
    B' := SubCol(B, maxidx, minidx, multiple);
    EuclidShrinks(H[0], minidx, maxidx);
    assert H'[0] == H[0][maxidx := H[0][maxidx] - multiple * minm];
  }

  /** The loop on row 0: column operations until a single entry of the row is nonzero
      (it cannot become all zero, since det H != 0). */
  method EuclidFirstRow(S: Mat3, H0: Mat3, B0: Mat3) returns (H: Mat3, B: Mat3)
    requires Det(S) != 0 && ColTransform(S, H0, B0)
    ensures ColTransform(S, H, B) && NonzeroCount(H[0]) == 1
  {
    H, B := H0, B0;
    while NonzeroCount(H[0]) > 1
      invariant ColTransform(S, H, B)
      decreases AbsSum(H[0])
    {
      H, B := EuclidStepFirstRow(S, H, B);
      assert Mul(S, B) == H;
    }
    if NonzeroCount(H[0]) == 0 {
      ZeroRowDet(H);
    }
  }

  /** Column operations until row 0 is (h, 0, 0) with h > 0: the Euclidean loop, then a
      swap_column if the pivot is not in column 0, then the sign of the pivot. */
  method ClearFirstRow(S: Mat3, H0: Mat3, B0: Mat3) returns (H: Mat3, B: Mat3)
    requires Det(S) != 0 && ColTransform(S, H0, B0)
    ensures ColTransform(S, H, B)
    ensures H[0][0] > 0 && H[0][1] == 0 && H[0][2] == 0
  {
    H, B := EuclidFirstRow(S, H0, B0);
    if H[0][0] == 0 {
      ghost var H1, B1 := H, B;
      H, B := SwapColumn(H, B, 0);
      ghost var m: Idx :| IsFirstMaxAbsFrom(H1[0], 0, m) && H == SwapCols(H1, 0, m) && B == SwapCols(B1, 0, m);
      assert Abs(H1[0][m]) > 0;
      ColTransformSwap(S, H1, B1, 0, m);
    }
    if H[0][0] < 0 {
      ColTransformNeg(S, H, B, 0);
      H, B := NegCol(H, 0), NegCol(B, 0);
    }
    // the run-time checks "Didn't zero out the rest of the row" and "COLSWAP" cannot fire
    assert NonzeroCount(H[0]) <= 1;
    assert Mul(S, B) == H;
  }

  /** One pass of the loop on row 1: of columns 1 and 2, the one whose entry in row 1 is
      larger in magnitude (column 2 on a tie) loses int(larger / smaller) times the other.
      Row 0, which is (h, 0, 0), does not change. */
  method EuclidStepSecondRow(S: Mat3, H: Mat3, B: Mat3) returns (H': Mat3, B': Mat3)
    requires ColTransform(S, H, B) && H[1][1] != 0 && H[1][2] != 0
    requires H[0][1] == 0 && H[0][2] == 0
    ensures ColTransform(S, H', B') && H'[0] == H[0]
    ensures Abs(H'[1][1]) + Abs(H'[1][2]) < Abs(H[1][1]) + Abs(H[1][2])
  {
    var maxidx: Idx, minidx: Idx := 2, 1;
    if Abs(H[1][2]) < Abs(H[1][1]) {
      maxidx, minidx := 1, 2;
    }
    var multiple := TruncDiv(H[1][maxidx], H[1][minidx]);
    ColTransformSub(S, H, B, maxidx, minidx, multiple);
    H' := SubCol(H, maxidx, minidx, multiple);
    B' := SubCol(B, maxidx, minidx, multiple);
    assert H'[0] == H[0][maxidx := H[0][maxidx] - multiple * H[0][minidx]];
    assert H'[1] == H[1][maxidx := H[1][maxidx] - multiple * H[1][minidx]];
  }

  /** The loop on row 1: column operations on columns 1 and 2 until H[1][2] == 0. When
      H[1][1] is zero the two columns are swapped, which ends the loop. */
  method EuclidSecondRow(S: Mat3, H0: Mat3, B0: Mat3) returns (H: Mat3, B: Mat3)
    requires ColTransform(S, H0, B0) && H0[0][1] == 0 && H0[0][2] == 0
    ensures ColTransform(S, H, B) && H[0] == H0[0] && H[1][2] == 0
  {
    H, B := H0, B0;
    while H[1][2] != 0
      invariant ColTransform(S, H, B) && H[0] == H0[0]
      decreases Abs(H[1][1]) + Abs(H[1][2])
    {
      if H[1][1] == 0 {
        ColTransformSwap(S, H, B, 1, 2);
        H, B := SwapCols(H, 1, 2), SwapCols(B, 1, 2);
        assert H[0] == H0[0];
        if H[1][2] == 0 {
          break;
        }
      }
      H, B := EuclidStepSecondRow(S, H, B);
      assert Mul(S, B) == H;
    }
  }

  /** A nonsingular lower triangular H has no zero on its diagonal. */
  lemma LowerDiagonalNonzero(S: Mat3, H: Mat3, B: Mat3)
    requires Det(S) != 0 && ColTransform(S, H, B) && LowerTriangular(H)
    ensures H[0][0] != 0 && H[1][1] != 0 && H[2][2] != 0
  {
    DetLowerTriangular(H);
  }

  /** Row 1 reduced to (x, d, 0), then the signs of the diagonal. Row 0 stays (h, 0, 0). */
  method ClearSecondRow(S: Mat3, H0: Mat3, B0: Mat3) returns (H: Mat3, B: Mat3)
    requires Det(S) != 0 && ColTransform(S, H0, B0)
    requires H0[0][0] > 0 && H0[0][1] == 0 && H0[0][2] == 0
    ensures ColTransform(S, H, B) && LowerTriangular(H)
    ensures H[0][0] == H0[0][0] && H[1][1] > 0 && H[2][2] > 0
  {
    H, B := EuclidSecondRow(S, H0, B0);
    LowerDiagonalNonzero(S, H, B);
    if H[1][1] == 0 {
      // the source swaps columns 1 and 2 of H alone here; det H != 0 makes it unreachable
      assert false;
    }
    if H[1][1] < 0 {
      ColTransformNeg(S, H, B, 1);
      H, B := NegCol(H, 1), NegCol(B, 1);
    }
    assert H[1][2] == 0 && Mul(S, B) == H;
    if H[2][2] < 0 {
      ColTransformNeg(S, H, B, 2);
      H, B := NegCol(H, 2), NegCol(B, 2);
    }
    assert LowerTriangular(H) && Mul(S, B) == H;
  }

  /** The loop on H[2][j], j < 2: column j gains or loses column 2 until
      0 <= H[2][j] < H[2][2]. Since column 2 is (0, 0, d), nothing else in H changes. */
  method ReduceLastRowEntry(S: Mat3, H0: Mat3, B0: Mat3, j: Idx) returns (H: Mat3, B: Mat3)
    requires j < 2 && ColTransform(S, H0, B0) && LowerTriangular(H0) && H0[2][2] > 0
    ensures ColTransform(S, H, B) && 0 <= H[2][j] < H[2][2]
    ensures H[0] == H0[0] && H[1] == H0[1] && H[2] == H0[2][j := H[2][j]]
  {
    H, B := H0, B0;
    while H[2][2] <= H[2][j] || H[2][j] < 0
      invariant ColTransform(S, H, B)
      invariant H[0] == H0[0] && H[1] == H0[1] && H[2] == H0[2][j := H[2][j]]
      decreases if H[2][j] < 0 then H[2][2] - H[2][j] else H[2][j]
    {
      var multiple := if H[2][2] <= H[2][j] then 1 else -1;
      ColTransformSub(S, H, B, j, 2, multiple);
      H, B := SubCol(H, j, 2, multiple), SubCol(B, j, 2, multiple);
    }
  }

  /** Subtract multiples of the diagonal columns until every entry below the diagonal
      lies in [0, diagonal). */
  method ReduceBelowDiagonal(S: Mat3, H0: Mat3, B0: Mat3) returns (H: Mat3, B: Mat3)
    requires ColTransform(S, H0, B0) && LowerTriangular(H0)
    requires H0[0][0] > 0 && H0[1][1] > 0 && H0[2][2] > 0
    ensures ColTransform(S, H, B) && LowerTriangular(H)
    ensures H[0][0] == H0[0][0] && H[1][1] == H0[1][1] && H[2][2] == H0[2][2]
    ensures 0 <= H[1][0] < H[1][1] && 0 <= H[2][0] < H[2][2] && 0 <= H[2][1] < H[2][2]
  {
    H, B := H0, B0;
    while H[1][1] <= H[1][0] || H[1][0] < 0
      invariant ColTransform(S, H, B) && H[0] == H0[0] && H[1][1] == H0[1][1] && H[1][2] == 0
      invariant H[2] == H0[2][0 := H[2][0]]
      decreases if H[1][0] < 0 then H[1][1] - H[1][0] else H[1][0]
    {
      var multiple := if H[1][1] <= H[1][0] then 1 else -1;
      ColTransformSub(S, H, B, 0, 1, multiple);
      H, B := SubCol(H, 0, 1, multiple), SubCol(B, 0, 1, multiple);
    }
    for j := 0 to 2
      invariant ColTransform(S, H, B) && LowerTriangular(H)
      invariant H[0][0] == H0[0][0] && H[1][1] == H0[1][1] && H[2][2] == H0[2][2]
      invariant 0 <= H[1][0] < H[1][1]
      invariant forall t :: 0 <= t < j ==> 0 <= H[2][t] < H[2][2]
    {
      H, B := ReduceLastRowEntry(S, H, B, j);
    }
  }

  /** `HermiteNormalForm(S)`: fails exactly on a singular S; otherwise returns (H, B) with
      S.B == H, B unimodular and H in lower Hermite normal form. */
  method HermiteNormalForm(S: Mat3) returns (r: Result<Transform, HnfError>)
    ensures r.Failure? <==> Det(S) == 0
    ensures r.Success? ==> IsLowerHnf(S, r.value.H, r.value.B)
  {
    if Det(S) == 0 {
      return Failure(SingularMatrix);
    }
    MulIdentity(S);
    var H, B := S, Identity;
    H, B := ClearFirstRow(S, H, B);
    H, B := ClearSecondRow(S, H, B);
    H, B := ReduceBelowDiagonal(S, H, B);
    // the closing run-time checks: transform, lower triangle, signs, bounds
    assert Mul(S, B) == H && LowerTriangular(H);
    assert H[1][0] >= 0 && H[2][0] >= 0 && H[2][1] >= 0;
    assert !(H[1][0] > H[1][1] || H[2][0] > H[2][2] || H[2][1] > H[2][2]);
    return Success(Transform(H, B));
  }

  // ---------------------------------------------------------------------
  // UpperHermiteNormalForm (upper triangular, row operations)
  // ---------------------------------------------------------------------

  predicate UpperTriangular(H: Mat3) { H[1][0] == 0 && H[2][0] == 0 && H[2][1] == 0 }

  /** The shape UpperHermiteNormalForm promises: B.S == H with B unimodular, H upper
      triangular with a positive diagonal and 0 <= H[i][j] < H[j][j] above the diagonal. */
  predicate IsUpperHnf(S: Mat3, H: Mat3, B: Mat3)
  {
    && Mul(B, S) == H && Unimodular(B)
    && UpperTriangular(H)
    && H[0][0] > 0 && H[1][1] > 0 && H[2][2] > 0
    && 0 <= H[0][1] < H[1][1]
    && 0 <= H[0][2] < H[2][2]
    && 0 <= H[1][2] < H[2][2]
  }

  lemma ZeroColumnDet(H: Mat3)
    requires NonzeroCount(Col(H, 0)) == 0
    ensures Det(H) == 0
  {
    assert H[0][0] == 0 && H[1][0] == 0 && H[2][0] == 0;
    DetTranspose(H);
    assert Transpose(H)[0] == [0, 0, 0];
  }

  /** One pass of the loop on column 0: the row holding the largest entry loses
      int(largest / smallest) times the row holding the smallest one. */
  method EuclidStepFirstColumn(S: Mat3, H: Mat3, B: Mat3) returns (H': Mat3, B': Mat3)
    requires RowTransform(S, H, B) && NonzeroCount(Col(H, 0)) > 1
    ensures RowTransform(S, H', B') && AbsSum(Col(H', 0)) < AbsSum(Col(H, 0))
  {
    var mm := MinMaxIndices(Col(H, 0));
    var (minidx, maxidx) := mm.value;
    var minm := H[minidx][0];
    var multiple := TruncDiv(H[maxidx][0], minm);
    RowTransformSub(S, H, B, maxidx, minidx, multiple);
    H' := SubRow(H, maxidx, minidx, multiple);
    B' := SubRow(B, maxidx, minidx, multiple);
    EuclidShrinks(Col(H, 0), minidx, maxidx);
    assert Col(H', 0) == Col(H, 0)[maxidx := H[maxidx][0] - multiple * minm];
  }

  /** The loop on column 0: row operations until a single entry of the column is nonzero
      (it cannot become all zero, since det H != 0). */
  method EuclidFirstColumn(S: Mat3, H0: Mat3, B0: Mat3) returns (H: Mat3, B: Mat3)
    requires Det(S) != 0 && RowTransform(S, H0, B0)
    ensures RowTransform(S, H, B) && NonzeroCount(Col(H, 0)) == 1
  {
    H, B := H0, B0;
    while NonzeroCount(Col(H, 0)) > 1
      invariant RowTransform(S, H, B)
      decreases AbsSum(Col(H, 0))
    {
      H, B := EuclidStepFirstColumn(S, H, B);
      assert Mul(B, S) == H;
    }
    if NonzeroCount(Col(H, 0)) == 0 {
      ZeroColumnDet(H);
    }
  }

  /** Row operations until column 0 is (h, 0, 0) with h > 0: the Euclidean loop, then a
      swap_row if the pivot is not in row 0, then the sign of the pivot. */
  method ClearFirstColumn(S: Mat3, H0: Mat3, B0: Mat3) returns (H: Mat3, B: Mat3)
    requires Det(S) != 0 && RowTransform(S, H0, B0)
    ensures RowTransform(S, H, B)
    ensures H[0][0] > 0 && H[1][0] == 0 && H[2][0] == 0
  {
    H, B := EuclidFirstColumn(S, H0, B0);
    if H[0][0] == 0 {
      ghost var H1, B1 := H, B;
      H, B := SwapRow(H, B, 0);
      ghost var m: Idx :| IsFirstMaxAbsFrom(Col(H1, 0), 0, m) && H == SwapRows(H1, 0, m) && B == SwapRows(B1, 0, m);
      assert Abs(H1[m][0]) > 0;
      RowTransformSwap(S, H1, B1, 0, m);
    }
    if H[0][0] < 0 {
      RowTransformNeg(S, H, B, 0);
      H, B := NegRow(H, 0), NegRow(B, 0);
    }
    // the run-time checks "Didn't zero out the rest of the column" and "ROWSWAP" cannot fire
    assert NonzeroCount(Col(H, 0)) <= 1;
    assert Mul(B, S) == H;
  }

  /** One pass of the loop on column 1: of rows 1 and 2, the one whose entry in column 1 is
      larger in magnitude (row 2 on a tie) loses int(larger / smaller) times the other.
      Column 0, which is (h, 0, 0), does not change. */
  method EuclidStepSecondColumn(S: Mat3, H: Mat3, B: Mat3) returns (H': Mat3, B': Mat3)
    requires RowTransform(S, H, B) && H[1][1] != 0 && H[2][1] != 0
    requires H[1][0] == 0 && H[2][0] == 0
    ensures RowTransform(S, H', B') && H'[0] == H[0] && H'[1][0] == 0 && H'[2][0] == 0
    ensures Abs(H'[1][1]) + Abs(H'[2][1]) < Abs(H[1][1]) + Abs(H[2][1])
  {
    var maxidx: Idx, minidx: Idx := 2, 1;
    if Abs(H[2][1]) < Abs(H[1][1]) {
      maxidx, minidx := 1, 2;
    }
    var multiple := TruncDiv(H[maxidx][1], H[minidx][1]);
    RowTransformSub(S, H, B, maxidx, minidx, multiple);
    H' := SubRow(H, maxidx, minidx, multiple);
    B' := SubRow(B, maxidx, minidx, multiple);
  }

  /** The loop on column 1: row operations on rows 1 and 2 until H[2][1] == 0. When
      H[1][1] is zero the two rows are swapped and the loop ends. */
  method EuclidSecondColumn(S: Mat3, H0: Mat3, B0: Mat3) returns (H: Mat3, B: Mat3)
    requires RowTransform(S, H0, B0) && H0[1][0] == 0 && H0[2][0] == 0
    ensures RowTransform(S, H, B) && H[0] == H0[0] && H[1][0] == 0 && H[2][0] == 0 && H[2][1] == 0
  {
    H, B := H0, B0;
    while H[2][1] != 0
      invariant RowTransform(S, H, B) && H[0] == H0[0] && H[1][0] == 0 && H[2][0] == 0
      decreases Abs(H[1][1]) + Abs(H[2][1])
    {
      if H[1][1] == 0 {
        RowTransformSwap(S, H, B, 1, 2);
        H, B := SwapRows(H, 1, 2), SwapRows(B, 1, 2);
        break;
      }
      H, B := EuclidStepSecondColumn(S, H, B);
      assert Mul(B, S) == H;
    }
  }

  /** A nonsingular upper triangular H has no zero on its diagonal. */
  lemma UpperDiagonalNonzero(S: Mat3, H: Mat3, B: Mat3)
    requires Det(S) != 0 && RowTransform(S, H, B) && UpperTriangular(H)
    ensures H[0][0] != 0 && H[1][1] != 0 && H[2][2] != 0
  {
    DetUpperTriangular(H);
  }

  /** Column 1 reduced to (x, d, 0), then the signs of the diagonal. Column 0 stays
      (h, 0, 0). */
  method ClearSecondColumn(S: Mat3, H0: Mat3, B0: Mat3) returns (H: Mat3, B: Mat3)
    requires Det(S) != 0 && RowTransform(S, H0, B0)
    requires H0[0][0] > 0 && H0[1][0] == 0 && H0[2][0] == 0
    ensures RowTransform(S, H, B) && UpperTriangular(H)
    ensures H[0][0] == H0[0][0] && H[1][1] > 0 && H[2][2] > 0
  {
    H, B := EuclidSecondColumn(S, H0, B0);
    UpperDiagonalNonzero(S, H, B);
    if H[1][1] == 0 {
      // the source swaps rows 1 and 0 of H alone here; det H != 0 makes it unreachable
      assert false;
    }
    if H[1][1] < 0 {
      RowTransformNeg(S, H, B, 1);
      H, B := NegRow(H, 1), NegRow(B, 1);
    }
    assert H[1][0] == 0 && Mul(B, S) == H;
    if H[2][2] < 0 {
      RowTransformNeg(S, H, B, 2);
      H, B := NegRow(H, 2), NegRow(B, 2);
    }
    assert UpperTriangular(H) && Mul(B, S) == H;
  }

  /** The loop on H[j][2], j < 2: row j gains or loses row 2 until 0 <= H[j][2] < H[2][2].
      Since row 2 is (0, 0, d), nothing else in H changes. */
  method ReduceLastColumnEntry(S: Mat3, H0: Mat3, B0: Mat3, j: Idx) returns (H: Mat3, B: Mat3)
    requires j < 2 && RowTransform(S, H0, B0) && UpperTriangular(H0) && H0[2][2] > 0
    ensures RowTransform(S, H, B) && 0 <= H[j][2] < H[2][2]
    ensures forall i: Idx :: i != j ==> H[i] == H0[i]
    ensures H[j][0] == H0[j][0] && H[j][1] == H0[j][1]
  {
    H, B := H0, B0;
    while H[2][2] <= H[j][2] || H[j][2] < 0
      invariant RowTransform(S, H, B)
      invariant forall i: Idx :: i != j ==> H[i] == H0[i]
      invariant H[j][0] == H0[j][0] && H[j][1] == H0[j][1]
      decreases if H[j][2] < 0 then H[2][2] - H[j][2] else H[j][2]
    {
      var multiple := if H[2][2] <= H[j][2] then 1 else -1;
      RowTransformSub(S, H, B, j, 2, multiple);
      H, B := SubRow(H, j, 2, multiple), SubRow(B, j, 2, multiple);
    }
  }

  /** Subtract multiples of the diagonal rows until every entry above the diagonal lies in
      [0, diagonal of its column). */
  method ReduceAboveDiagonal(S: Mat3, H0: Mat3, B0: Mat3) returns (H: Mat3, B: Mat3)
    requires RowTransform(S, H0, B0) && UpperTriangular(H0)
    requires H0[0][0] > 0 && H0[1][1] > 0 && H0[2][2] > 0
    ensures RowTransform(S, H, B) && UpperTriangular(H)
    ensures H[0][0] == H0[0][0] && H[1][1] == H0[1][1] && H[2][2] == H0[2][2]
    ensures 0 <= H[0][1] < H[1][1] && 0 <= H[0][2] < H[2][2] && 0 <= H[1][2] < H[2][2]
  {
    H, B := H0, B0;
    while H[1][1] <= H[0][1] || H[0][1] < 0
      invariant RowTransform(S, H, B) && H[1] == H0[1] && H[2] == H0[2] && H[0][0] == H0[0][0]
      decreases if H[0][1] < 0 then H[1][1] - H[0][1] else H[0][1]
    {
      var multiple := if H[1][1] <= H[0][1] then 1 else -1;
      RowTransformSub(S, H, B, 0, 1, multiple);
      H, B := SubRow(H, 0, 1, multiple), SubRow(B, 0, 1, multiple);
    }
    for j := 0 to 2
      invariant RowTransform(S, H, B) && UpperTriangular(H)
      invariant H[0][0] == H0[0][0] && H[1][1] == H0[1][1] && H[2] == H0[2]
      invariant 0 <= H[0][1] < H[1][1]
      invariant forall t :: 0 <= t < j ==> 0 <= H[t][2] < H[2][2]
    {
      H, B := ReduceLastColumnEntry(S, H, B, j);
    }
  }

  /** `UpperHermiteNormalForm(S)`: fails exactly on a singular S; otherwise returns (H, B)
      with B.S == H, B unimodular and H in upper Hermite normal form. */
  method UpperHermiteNormalForm(S: Mat3) returns (r: Result<Transform, HnfError>)
    ensures r.Failure? <==> Det(S) == 0
    ensures r.Success? ==> IsUpperHnf(S, r.value.H, r.value.B)
  {
    if Det(S) == 0 {
      return Failure(SingularMatrix);
    }
    MulIdentity(S);
    var H, B := S, Identity;
    H, B := ClearFirstColumn(S, H, B);
    H, B := ClearSecondColumn(S, H, B);
    H, B := ReduceAboveDiagonal(S, H, B);
    // the closing run-time checks: transform, upper triangle, signs, bounds
    assert Mul(B, S) == H && UpperTriangular(H);
    assert H[0][1] >= 0 && H[0][2] >= 0 && H[1][2] >= 0;
    assert !(H[0][1] > H[1][1] || H[0][2] > H[2][2] || H[1][2] > H[2][2]);
    return Success(Transform(H, B));
  }
}
