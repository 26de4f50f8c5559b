/** Exact integer 3x3 matrices and the elementary column and row operations
    that the Hermite normal form routines of BZI/symmetry.py apply to them. */
module IntMatrix {

  type Idx = i: int | 0 <= i < 3
  type Vec3 = v: seq<int> | |v| == 3 witness [0, 0, 0]
  type Mat3 = m: seq<Vec3> | |m| == 3 witness var z: Vec3 := [0, 0, 0]; [z, z, z]

  function Abs(x: int): nat { if x < 0 then -x else x }

  const Identity: Mat3 := [[1, 0, 0], [0, 1, 0], [0, 0, 1]]

  /** Column c of M as a vector. */
  function Col(M: Mat3, c: Idx): Vec3 { [M[0][c], M[1][c], M[2][c]] }

  function Transpose(M: Mat3): Mat3 { [Col(M, 0), Col(M, 1), Col(M, 2)] }

  /** Number of nonzero entries of v (numpy's count_nonzero). */
  function NonzeroCount(v: Vec3): nat
  {
    (if v[0] != 0 then 1 else 0) + (if v[1] != 0 then 1 else 0) + (if v[2] != 0 then 1 else 0)
  }

  function Dot(u: Vec3, v: Vec3): int { u[0] * v[0] + u[1] * v[1] + u[2] * v[2] }

  function Cross(v: Vec3, w: Vec3): Vec3
  {
    [v[1] * w[2] - v[2] * w[1], v[2] * w[0] - v[0] * w[2], v[0] * w[1] - v[1] * w[0]]
  }

  /** u - q * v */
  function Combo(u: Vec3, v: Vec3, q: int): Vec3 { [u[0] - q * v[0], u[1] - q * v[1], u[2] - q * v[2]] }

  function Neg(u: Vec3): Vec3 { [-u[0], -u[1], -u[2]] }

  /** The matrix product A.B. */
  function Mul(A: Mat3, B: Mat3): Mat3
  {
    seq(3, i requires 0 <= i < 3 => seq(3, j requires 0 <= j < 3 => Dot(A[i], Col(B, j))))
  }

  /** The matrix-vector product M.v. */
  function MulVec(M: Mat3, v: Vec3): Vec3 { [Dot(M[0], v), Dot(M[1], v), Dot(M[2], v)] }

  /** The determinant, as the triple product of the rows. */
  function Det(M: Mat3): int { Dot(M[0], Cross(M[1], M[2])) }

  predicate Unimodular(B: Mat3) { Det(B) == 1 || Det(B) == -1 }

  // ---------------------------------------------------------------------
  // Column operations (right multiplication by an elementary matrix)
  // ---------------------------------------------------------------------

  /** M[:, c] = M[:, c] - q * M[:, src] */
  function SubCol(M: Mat3, c: Idx, src: Idx, q: int): Mat3
  {
    seq(3, i requires 0 <= i < 3 => M[i][c := M[i][c] - q * M[i][src]])
  }

  /** Exchange columns a and b. */
  function SwapCols(M: Mat3, a: Idx, b: Idx): Mat3
  {
    seq(3, i requires 0 <= i < 3 => M[i][a := M[i][b]][b := M[i][a]])
  }

  /** M[:, c] = -M[:, c] */
  function NegCol(M: Mat3, c: Idx): Mat3
  {
    seq(3, i requires 0 <= i < 3 => M[i][c := -M[i][c]])
  }

  // ---------------------------------------------------------------------
  // Row operations (left multiplication by an elementary matrix)
  // ---------------------------------------------------------------------

  /** M[r, :] = M[r, :] - q * M[src, :] */
  function SubRow(M: Mat3, r: Idx, src: Idx, q: int): Mat3 { M[r := Combo(M[r], M[src], q)] }

  /** Exchange rows a and b. */
  function SwapRows(M: Mat3, a: Idx, b: Idx): Mat3 { M[a := M[b]][b := M[a]] }

  /** M[r, :] = -M[r, :] */
  function NegRow(M: Mat3, r: Idx): Mat3 { M[r := Neg(M[r])] }

  // ---------------------------------------------------------------------
  // Products: an operation applied to one factor is applied to the product
  // ---------------------------------------------------------------------

  lemma MulIdentity(S: Mat3)
    ensures Mul(S, Identity) == S && Mul(Identity, S) == S
  {
    assert Mul(S, Identity)[0] == S[0] && Mul(S, Identity)[1] == S[1] && Mul(S, Identity)[2] == S[2];
    assert Mul(Identity, S)[0] == S[0] && Mul(Identity, S)[1] == S[1] && Mul(Identity, S)[2] == S[2];
  }

  lemma DotCombo(u: Vec3, v: Vec3, x: Vec3, q: int)
    ensures Dot(Combo(u, v, q), x) == Dot(u, x) - q * Dot(v, x)
    ensures Dot(x, Combo(u, v, q)) == Dot(x, u) - q * Dot(x, v)
  {
  }

  lemma DotNeg(u: Vec3, x: Vec3)
    ensures Dot(Neg(u), x) == -Dot(u, x)
  {
  }

  /** S.(B with column c reduced by q times column src) == (S.B) with the same column operation. */
  lemma MulSubCol(S: Mat3, B: Mat3, c: Idx, src: Idx, q: int)
    requires c != src
    ensures Mul(S, SubCol(B, c, src, q)) == SubCol(Mul(S, B), c, src, q)
  {
    var B' := SubCol(B, c, src, q);
    var L, R := Mul(S, B'), SubCol(Mul(S, B), c, src, q);
    assert Col(B', c) == Combo(Col(B, c), Col(B, src), q);
    forall i: Idx ensures L[i] == R[i] {
      DotCombo(Col(B, c), Col(B, src), S[i], q);
      assert forall j: Idx :: j != c ==> Col(B', j) == Col(B, j);
    }
  }

  lemma MulSwapCols(S: Mat3, B: Mat3, a: Idx, b: Idx)
    ensures Mul(S, SwapCols(B, a, b)) == SwapCols(Mul(S, B), a, b)
  {
    var B' := SwapCols(B, a, b);
    var L, R := Mul(S, B'), SwapCols(Mul(S, B), a, b);
    assert Col(B', a) == Col(B, b) && Col(B', b) == Col(B, a);
    forall i: Idx ensures L[i] == R[i] {
      assert forall j: Idx :: j != a && j != b ==> Col(B', j) == Col(B, j);
    }
  }

  lemma MulNegCol(S: Mat3, B: Mat3, c: Idx)
    ensures Mul(S, NegCol(B, c)) == NegCol(Mul(S, B), c)
  {
    var B' := NegCol(B, c);
    var L, R := Mul(S, B'), NegCol(Mul(S, B), c);
    assert Col(B', c) == Neg(Col(B, c));
    forall i: Idx ensures L[i] == R[i] {
      assert forall j: Idx :: j != c ==> Col(B', j) == Col(B, j);
    }
  }

  /** (B with row r reduced by q times row src).S == (B.S) with the same row operation. */
  lemma MulSubRow(B: Mat3, S: Mat3, r: Idx, src: Idx, q: int)
    requires r != src
    ensures Mul(SubRow(B, r, src, q), S) == SubRow(Mul(B, S), r, src, q)
  {
    var L, R := Mul(SubRow(B, r, src, q), S), SubRow(Mul(B, S), r, src, q);
    forall j: Idx ensures L[r][j] == R[r][j] {
      DotCombo(B[r], B[src], Col(S, j), q);
    }
    assert L[r] == R[r];
  }

  lemma MulSwapRows(B: Mat3, S: Mat3, a: Idx, b: Idx)
    ensures Mul(SwapRows(B, a, b), S) == SwapRows(Mul(B, S), a, b)
  {
  }

  lemma MulNegRow(B: Mat3, S: Mat3, r: Idx)
    ensures Mul(NegRow(B, r), S) == NegRow(Mul(B, S), r)
  {
    var L, R := Mul(NegRow(B, r), S), NegRow(Mul(B, S), r);
    forall j: Idx ensures L[r][j] == R[r][j] {
      DotNeg(B[r], Col(S, j));
    }
    assert L[r] == R[r];
  }

  // ---------------------------------------------------------------------
  // Determinants
  // ---------------------------------------------------------------------

  lemma CrossOrthogonal(v: Vec3, w: Vec3)
    ensures Dot(v, Cross(v, w)) == 0 && Dot(w, Cross(v, w)) == 0
  {
  }

  lemma TripleCyclic(u: Vec3, v: Vec3, w: Vec3)
    ensures Dot(u, Cross(v, w)) == Dot(v, Cross(w, u))
  {
  }

  lemma TripleSwap(u: Vec3, v: Vec3, w: Vec3)
    ensures Dot(u, Cross(w, v)) == -Dot(u, Cross(v, w))
  {
  }

  lemma DetTranspose(M: Mat3)
    ensures Det(Transpose(M)) == Det(M)
  {
  }

  lemma DetSubRow(M: Mat3, r: Idx, src: Idx, q: int)
    requires r != src
    ensures Det(SubRow(M, r, src, q)) == Det(M)
  {
    var u, v, w := M[0], M[1], M[2];
    CrossOrthogonal(v, w); CrossOrthogonal(w, u); CrossOrthogonal(u, v);
    TripleCyclic(u, v, w); TripleCyclic(v, w, u);
    if r == 0 {
      DotCombo(u, M[src], Cross(v, w), q);
    } else if r == 1 {
      var v' := Combo(v, M[src], q);
      TripleCyclic(u, v', w);
      DotCombo(v, M[src], Cross(w, u), q);
    } else {
      var w' := Combo(w, M[src], q);
      TripleCyclic(u, v, w'); TripleCyclic(v, w', u);
      DotCombo(w, M[src], Cross(u, v), q);
    }
  }

  lemma DetSwapRows(M: Mat3, a: Idx, b: Idx)
    requires a != b
    ensures Det(SwapRows(M, a, b)) == -Det(M)
  {
    var u, v, w := M[0], M[1], M[2];
    TripleCyclic(u, v, w); TripleCyclic(v, w, u);
    TripleSwap(u, v, w); TripleSwap(v, w, u); TripleSwap(w, u, v);
    TripleCyclic(v, u, w); TripleCyclic(u, w, v); TripleCyclic(w, v, u);
  }

  lemma DetNegRow(M: Mat3, r: Idx)
    ensures Det(NegRow(M, r)) == -Det(M)
  {
    var u, v, w := M[0], M[1], M[2];
    TripleCyclic(u, v, w); TripleCyclic(v, w, u);
    var n := Neg(M[r]);
    if r == 1 {
      TripleCyclic(u, n, w);
    } else if r == 2 {
      TripleCyclic(u, v, n); TripleCyclic(v, n, u);
    }
  }

  lemma ColOpsAreTransposedRowOps(M: Mat3, c: Idx, src: Idx, q: int, b: Idx)
    ensures SubCol(M, c, src, q) == Transpose(SubRow(Transpose(M), c, src, q))
    ensures SwapCols(M, c, b) == Transpose(SwapRows(Transpose(M), c, b))
    ensures NegCol(M, c) == Transpose(NegRow(Transpose(M), c))
  {
    var T := Transpose(M);
    var L1, R1 := SubCol(M, c, src, q), Transpose(SubRow(T, c, src, q));
    assert L1[0] == R1[0] && L1[1] == R1[1] && L1[2] == R1[2];
    var L2, R2 := SwapCols(M, c, b), Transpose(SwapRows(T, c, b));
    assert L2[0] == R2[0] && L2[1] == R2[1] && L2[2] == R2[2];
    var L3, R3 := NegCol(M, c), Transpose(NegRow(T, c));
    assert L3[0] == R3[0] && L3[1] == R3[1] && L3[2] == R3[2];
  }

  lemma DetSubCol(M: Mat3, c: Idx, src: Idx, q: int)
    requires c != src
    ensures Det(SubCol(M, c, src, q)) == Det(M)
  {
    ColOpsAreTransposedRowOps(M, c, src, q, c);
    DetTranspose(M);
    DetTranspose(SubRow(Transpose(M), c, src, q));
    DetSubRow(Transpose(M), c, src, q);
  }

  lemma DetSwapCols(M: Mat3, a: Idx, b: Idx)
    requires a != b
    ensures Det(SwapCols(M, a, b)) == -Det(M)
  {
    ColOpsAreTransposedRowOps(M, a, a, 0, b);
    DetTranspose(M);
    DetTranspose(SwapRows(Transpose(M), a, b));
    DetSwapRows(Transpose(M), a, b);
  }

  lemma DetNegCol(M: Mat3, c: Idx)
    ensures Det(NegCol(M, c)) == -Det(M)
  {
    ColOpsAreTransposedRowOps(M, c, c, 0, c);
    DetTranspose(M);
    DetTranspose(NegRow(Transpose(M), c));
    DetNegRow(Transpose(M), c);
  }

  /** With the strictly upper entries zero, the determinant is the product of the diagonal. */
  lemma DetLowerTriangular(M: Mat3)
    requires M[0][1] == 0 && M[0][2] == 0 && M[1][2] == 0
    ensures Det(M) == M[0][0] * M[1][1] * M[2][2]
  {
  }

  /** With the strictly lower entries zero, the determinant is the product of the diagonal. */
  lemma DetUpperTriangular(M: Mat3)
    requires M[1][0] == 0 && M[2][0] == 0 && M[2][1] == 0
    ensures Det(M) == M[0][0] * M[1][1] * M[2][2]
  {
  }
}
