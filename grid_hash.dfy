/** `find_kpt_index` of BZI/symmetry.py: a grid point, given by its integer grid coordinates g,
    is sent to L.g reduced modulo the Smith diagonal D (its coordinates in the finite group
    Z/D[0] x Z/D[1] x Z/D[2]) and then numbered in mixed radix (D[1].D[2], D[2], 1). */
module GridHash {
  import opened IntMatrix

  /** Every entry of the Smith diagonal is positive. */
  predicate PositiveDiagonal(D: Vec3) { D[0] > 0 && D[1] > 0 && D[2] > 0 }

  /** The number of slots: the order of the group, D[0].D[1].D[2]. */
  function SlotCount(D: Vec3): (n: nat)
    requires PositiveDiagonal(D)
    ensures n >= D[0] && n >= D[1] && n >= D[2]
  {
    MulLe(1, D[1], D[0]);
    MulLe(1, D[2], D[0] * D[1]);
    MulLe(1, D[0], D[1]);
    MulLe(1, D[0] * D[1], D[2]);
    D[0] * D[1] * D[2]
  }

  /** A residue vector: 0 <= r[k] < D[k] in every coordinate. */
  predicate InRange(r: Vec3, D: Vec3) { 0 <= r[0] < D[0] && 0 <= r[1] < D[1] && 0 <= r[2] < D[2] }

  /** v reduced componentwise modulo D (numpy's % with a positive modulus): a residue vector
      congruent to v. */
  function Reduce(v: Vec3, D: Vec3): (r: Vec3)
    requires PositiveDiagonal(D)
    ensures InRange(r, D)
    ensures forall k: Idx :: v[k] == D[k] * (v[k] / D[k]) + r[k]
  {
    [v[0] % D[0], v[1] % D[1], v[2] % D[2]]
  }

  /** The mixed-radix number of a residue vector. */
  function Encode(r: Vec3, D: Vec3): int { r[0] * D[1] * D[2] + r[1] * D[2] + r[2] }

  /** The residue vector numbered idx: the inverse of Encode. */
  function Decode(idx: int, D: Vec3): Vec3
    requires PositiveDiagonal(D)
  {
    [(idx / D[2]) / D[1], (idx / D[2]) % D[1], idx % D[2]]
  }

  /** `find_kpt_index(kpt, invK, L, D)` for a point whose grid coordinates invK.kpt are the
      integers g: the slot number of L.g mod D, a number in [0, D[0].D[1].D[2]) from which
      the residue vector can be read back. */
  function FindKptIndex(g: Vec3, L: Mat3, D: Vec3): (idx: nat)
    requires PositiveDiagonal(D)
    ensures idx < SlotCount(D)
    ensures Decode(idx, D) == Reduce(MulVec(L, g), D)
  {
    var r := Reduce(MulVec(L, g), D);
    EncodeBounds(r, D);
    DecodeEncode(r, D);
    Encode(r, D)
  }

  // ---------------------------------------------------------------------
  // Arithmetic helpers
  // ---------------------------------------------------------------------

  lemma MulLe(a: int, b: int, c: int)
    requires c >= 0
    ensures a <= b ==> a * c <= b * c
  {
    if a <= b {
      assert b * c - a * c == (b - a) * c;
    }
  }

  /** n == q.d + r with 0 <= r < d determines q and r. */
  lemma DivModUnique(n: int, d: int, q: int, r: int)
    requires d > 0 && 0 <= r < d && n == q * d + r
    ensures n / d == q && n % d == r
  {
    var k := q - n / d;
    assert n == (n / d) * d + n % d;
    assert k * d == n % d - r;
    MulLe(1, k, d);
    MulLe(k, -1, d);
  }

  /** Encode maps residue vectors into [0, D[0].D[1].D[2]). */
  lemma EncodeBounds(r: Vec3, D: Vec3)
    requires PositiveDiagonal(D) && InRange(r, D)
    ensures 0 <= Encode(r, D) < SlotCount(D)
  {
    var m := D[0] * D[1];
    var hi := r[0] * D[1] + r[1];
    assert hi * D[2] == r[0] * D[1] * D[2] + r[1] * D[2];
    MulLe(r[0], D[0] - 1, D[1]);
    MulLe(0, r[0], D[1]);
    assert (D[0] - 1) * D[1] == m - D[1];
    assert 0 <= hi < m;
    MulLe(hi, m - 1, D[2]);
    MulLe(0, hi, D[2]);
    assert (m - 1) * D[2] == m * D[2] - D[2];
  }

  /** Decode undoes Encode on residue vectors. */
  lemma DecodeEncode(r: Vec3, D: Vec3)
    requires PositiveDiagonal(D) && InRange(r, D)
    ensures Decode(Encode(r, D), D) == r
  {
    var idx := Encode(r, D);
    var hi := r[0] * D[1] + r[1];
    assert idx == hi * D[2] + r[2];
    DivModUnique(idx, D[2], hi, r[2]);
    DivModUnique(hi, D[1], r[0], r[1]);
  }

  /** Encode undoes Decode on slot numbers: every slot is the number of one residue vector. */
  lemma EncodeDecode(idx: int, D: Vec3)
    requires PositiveDiagonal(D) && 0 <= idx < SlotCount(D)
    ensures InRange(Decode(idx, D), D)
    ensures Encode(Decode(idx, D), D) == idx
  {
    var hi := idx / D[2];
    QuotientBelow(idx, D[2], D[0] * D[1]);
    QuotientBelow(hi, D[1], D[0]);
    var t := hi / D[1];
    assert hi == t * D[1] + hi % D[1];
    assert idx == hi * D[2] + idx % D[2];
    MixedRadix(t, hi % D[1], idx % D[2], D[1], D[2]);
  }

  /** 0 <= n < m.d gives 0 <= n / d < m. */
  lemma QuotientBelow(n: int, d: int, m: int)
    requires d > 0 && 0 <= n < m * d
    ensures 0 <= n / d < m
  {
    assert n == (n / d) * d + n % d;
    MulLe(m, n / d, d);
  }

  lemma MixedRadix(a: int, b: int, c: int, d1: int, d2: int)
    ensures a * d1 * d2 + b * d2 + c == (a * d1 + b) * d2 + c
  {
  }

  /** Two points share a slot exactly when L.g agrees modulo D in every coordinate. */
  lemma SlotInjective(g1: Vec3, g2: Vec3, L: Mat3, D: Vec3)
    requires PositiveDiagonal(D)
    ensures FindKptIndex(g1, L, D) == FindKptIndex(g2, L, D)
        <==> Reduce(MulVec(L, g1), D) == Reduce(MulVec(L, g2), D)
  {
  }
}
