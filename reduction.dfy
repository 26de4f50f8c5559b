/** `reduce_kpoint_list` and `find_orbits` of BZI/symmetry.py around the orbit loop: every
    point and every on-grid symmetry image is hashed to its slot by `find_kpt_index`, the
    loop labels the orbits, and the representatives' points are returned with the weights.
    The geometry is an input: for each point its integer grid coordinates and, for each
    operator, those of its folded image or None when the image is off the grid. */
module Reduction {
  import opened Results
  import opened IntMatrix
  import opened GridHash
  import opened Orbits

  /** What the geometry delivers, in grid coordinates. */
  datatype Geometry = Geometry(coords: seq<Vec3>, images: seq<seq<Option<Vec3>>>, nOps: nat)

  predicate GeometryValid(geo: Geometry)
  {
    && |geo.images| == |geo.coords|
    && forall i :: 0 <= i < |geo.images| ==> |geo.images[i]| == geo.nOps
  }

  function HashImage(x: Option<Vec3>, L: Mat3, D: Vec3): (r: Option<nat>)
    requires PositiveDiagonal(D)
    ensures r.Some? <==> x.Some?
    ensures r.Some? ==> r.value < SlotCount(D) && Decode(r.value, D) == Reduce(MulVec(L, x.value), D)
  {
    match x
    case None => None
    case Some(g) => Some(FindKptIndex(g, L, D))
  }

  /** The slots `find_kpt_index` gives the points and their images. */
  function HashGrid(geo: Geometry, L: Mat3, D: Vec3): (grid: Grid)
    requires PositiveDiagonal(D) && GeometryValid(geo)
    ensures Valid(grid) && |grid.slots| == |geo.coords| && grid.nOps == geo.nOps
    ensures SlotsBelow(grid, SlotCount(D))
    ensures forall i :: 0 <= i < |geo.coords| ==> grid.slots[i] == FindKptIndex(geo.coords[i], L, D)
    ensures forall i, g :: 0 <= i < |geo.coords| && 0 <= g < geo.nOps ==>
      grid.images[i][g] == HashImage(geo.images[i][g], L, D)
  {
    var n := |geo.coords|;
    Grid(seq(n, i requires 0 <= i < n => FindKptIndex(geo.coords[i], L, D)),
         seq(n, i requires 0 <= i < n =>
           seq(geo.nOps, g requires 0 <= g < geo.nOps => HashImage(geo.images[i][g], L, D))),
         geo.nOps)
  }

  /** With a grid of D[0].D[1].D[2] slots and at least that many points, every slot number
      `find_kpt_index` produces is a key of the hashtable: the loop never faults. */
  lemma HashedNoFault(geo: Geometry, L: Mat3, D: Vec3)
    requires PositiveDiagonal(D) && GeometryValid(geo) && SlotCount(D) <= |geo.coords|
    ensures !Faults(HashGrid(geo, L, D))
  {
    var grid := HashGrid(geo, L, D);
    NoFaultBelow(grid);
  }

  /** `kpoint_list[iFirst[c + 1]]` for every orbit c. */
  function Representatives<P>(kpoints: seq<P>, first: seq<nat>): (r: seq<P>)
    requires forall c :: 0 <= c < |first| ==> first[c] < |kpoints|
    ensures |r| == |first| && forall c :: 0 <= c < |first| ==> r[c] == kpoints[first[c]]
  {
    seq(|first|, c requires 0 <= c < |first| => kpoints[first[c]])
  }

  /** `find_orbits(...)` without `full_orbit`: the representatives' points and the weights,
      or the KeyError of an out-of-range slot. */
  method FindOrbits<P>(kpoints: seq<P>, geo: Geometry, L: Mat3, D: Vec3)
      returns (r: Result<(seq<P>, seq<nat>), OrbitError>)
    requires PositiveDiagonal(D) && GeometryValid(geo) && |geo.coords| == |kpoints|
    ensures r.Failure? <==> Faults(HashGrid(geo, L, D))
    ensures r.Failure? ==> r.error.MissingSlot?
    ensures r.Success? ==>
      var grid := HashGrid(geo, L, D);
      var reps := Reps(grid, |kpoints|);
      && r.value.1 == Weights(grid)
      && |r.value.0| == |reps|
      && forall c :: 0 <= c < |reps| ==> reps[c] < |kpoints| && r.value.0[c] == kpoints[reps[c]]
  {
    var grid := HashGrid(geo, L, D);
    var orbits := LabelOrbits(grid);
    if orbits.Failure? {
      return Failure(orbits.error);
    }
    r := Success((Representatives(kpoints, orbits.value.first), orbits.value.weights));
  }

  /** The closing loop of `reduce_kpoint_list`: adds up the weights and collects the
      representatives' points. */
  method SumAndCollect<P>(kpoints: seq<P>, first: seq<nat>, weights: seq<nat>)
      returns (total: nat, reduced: seq<P>)
    requires |weights| == |first| && forall c :: 0 <= c < |first| ==> first[c] < |kpoints|
    ensures total == Sum(weights)
    ensures |reduced| == |first| && forall c :: 0 <= c < |first| ==> reduced[c] == kpoints[first[c]]
  {
    total := 0;
    reduced := [];
    for c := 0 to |first|
      invariant total == Sum(weights[..c])
      invariant |reduced| == c && forall k :: 0 <= k < c ==> reduced[k] == kpoints[first[k]]
    {
      assert weights[..c + 1][..c] == weights[..c];
      total := total + weights[c];
      reduced := reduced + [kpoints[first[c]]];
    }
    assert weights[..|first|] == weights;
  }

  /** `reduce_kpoint_list(...)`: the orbit loop, then a loop that adds up the weights and
      collects the representatives' points; the sum must come to nUR. It does exactly when
      every slot 0 .. nUR-1 is labelled. */
  method ReduceKpointList<P>(kpoints: seq<P>, geo: Geometry, L: Mat3, D: Vec3)
      returns (r: Result<(seq<P>, seq<nat>), OrbitError>)
    requires PositiveDiagonal(D) && GeometryValid(geo) && |geo.coords| == |kpoints|
    ensures r.Failure? && r.error.MissingSlot? <==> Faults(HashGrid(geo, L, D))
    ensures r.Failure? && r.error.WeightMismatch? <==>
      !Faults(HashGrid(geo, L, D)) &&
      exists s :: 0 <= s < |kpoints| && Labels(HashGrid(geo, L, D))[s].None?
    ensures r.Failure? && r.error.WeightMismatch? ==> r.error.total < r.error.expected == |kpoints|
    ensures r.Success? ==>
      var grid := HashGrid(geo, L, D);
      var reps := Reps(grid, |kpoints|);
      && r.value.1 == Weights(grid) && Sum(r.value.1) == |kpoints|
      && |r.value.0| == |reps|
      && forall c :: 0 <= c < |reps| ==> reps[c] < |kpoints| && r.value.0[c] == kpoints[reps[c]]
  {
    var grid := HashGrid(geo, L, D);
    var orbits := LabelOrbits(grid);
    if orbits.Failure? {
      return Failure(orbits.error);
    }
    var weights := orbits.value.weights;
    var total, reduced := SumAndCollect(kpoints, orbits.value.first, weights);
    WeightsSum(grid);
    CountSomeFull(Labels(grid));
    if total != |kpoints| {
      return Failure(WeightMismatch(total, |kpoints|));
    }
    r := Success((reduced, weights));
  }
}
