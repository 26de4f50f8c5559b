/** The orbit bookkeeping shared by `reduce_kpoint_list` and `find_orbits` in BZI/symmetry.py.
    Points are visited in list order; a point whose slot is still unlabelled opens a new orbit
    (labels 1, 2, ... in order of opening), becomes its representative, and every on-grid
    symmetry image of it whose slot is unlabelled joins that orbit and adds 1 to its weight.

    The geometry (rotating a point, folding it into the cell, the on-grid test) and the hash
    are an input here: for every point its slot and, for every operator, the slot of its
    folded image or None when the image is off the grid. The module Reduction computes these
    slots from grid coordinates with `GridHash.FindKptIndex`. */
module Orbits {
  import opened Results
  
  /** The input of the orbit loop, as the geometry oracle delivers it: the slot of each point
      of the list, and for each point and each of the nOps operators the slot of the folded
      image, or None when the image is off grid. */
  datatype Grid = Grid(slots: seq<nat>, images: seq<seq<Option<nat>>>, nOps: nat)

  predicate Valid(grid: Grid)
  {
    && |grid.images| == |grid.slots|
    && forall i :: 0 <= i < |grid.images| ==> |grid.images[i]| == grid.nOps
  }

  /** What the loop returns: the representatives (`iFirst`, orbit c + 1 at index c), the
      weights (`iWt`) and the final hashtable (slot -> orbit label or None). */
  datatype Orbits = Orbits(first: seq<nat>, weights: seq<nat>, labels: seq<Option<nat>>)

  /** Accessing `hashtable[idx]` with idx outside range(nUR) raises KeyError; the sum check of
      `reduce_kpoint_list` raises when the weights do not add up to nUR. */
  datatype OrbitError = MissingSlot(slot: nat) | WeightMismatch(total: nat, expected: nat)

  // ---------------------------------------------------------------------
  // The specification: reaches, claimed slots, representatives, labels
  // ---------------------------------------------------------------------

  /** The slot of point i. */
  function Slot(grid: Grid, i: nat): nat
    requires Valid(grid) && i < |grid.slots|
  {
    grid.slots[i]
  }

  /** The slots labelled from point i after the first k operators: its own and those of its
      on-grid images under operators 0 .. k-1. */
  function ReachUpTo(grid: Grid, i: nat, k: nat): set<nat>
    requires Valid(grid) && i < |grid.slots| && k <= grid.nOps
  {
    {Slot(grid, i)} + set g | 0 <= g < k && grid.images[i][g].Some? :: grid.images[i][g].value
  }

  /** The orbit of point i as slots: its own slot and those of all its on-grid images. */
  function Reach(grid: Grid, i: nat): set<nat>
    requires Valid(grid)
  {
    if i < |grid.slots| then ReachUpTo(grid, i, grid.nOps) else {}
  }

  /** The slot that operator g contributes to the orbit of point i. */
  function ImageSlots(grid: Grid, i: nat, g: nat): set<nat>
    requires Valid(grid) && i < |grid.slots| && g < grid.nOps
  {
    if grid.images[i][g].Some? then {grid.images[i][g].value} else {}
  }

  lemma ReachStep(grid: Grid, i: nat, g: nat)
    requires Valid(grid) && i < |grid.slots| && g < grid.nOps
    ensures ReachUpTo(grid, i, g + 1) == ReachUpTo(grid, i, g) + ImageSlots(grid, i, g)
  {
  }

  lemma ReachGrows(grid: Grid, i: nat, g: nat, k: nat)
    requires Valid(grid) && i < |grid.slots| && g <= k <= grid.nOps
    ensures ReachUpTo(grid, i, g) <= ReachUpTo(grid, i, k)
  {
  }

  predicate PointsIn(grid: Grid, reps: seq<nat>)
  {
    forall c :: 0 <= c < |reps| ==> reps[c] < |grid.slots|
  }

  /** The slots in the orbits of the given representatives. */
  function Claimed(grid: Grid, reps: seq<nat>): set<nat>
    requires Valid(grid)
    decreases |reps|
  {
    if |reps| == 0 then {}
    else Claimed(grid, reps[..|reps| - 1]) + Reach(grid, reps[|reps| - 1])
  }

  /** The representatives among points 0 .. k-1: each point whose slot no earlier
      representative's orbit contains. */
  function Reps(grid: Grid, k: nat): seq<nat>
    requires Valid(grid) && k <= |grid.slots|
  {
    if k == 0 then []
    else
      var prev := Reps(grid, k - 1);
      if Slot(grid, k - 1) in Claimed(grid, prev) then prev else prev + [k - 1]
  }

  /** The representatives among points 0 .. k-1 are points among them. */
  lemma {:induction false} RepsBelow(grid: Grid, k: nat)
    requires Valid(grid) && k <= |grid.slots|
    ensures forall c :: 0 <= c < |Reps(grid, k)| ==> Reps(grid, k)[c] < k
    decreases k
  {
    if k > 0 {
      RepsBelow(grid, k - 1);
    }
  }

  /** The label of slot s: c + 1 for the first representative reps[c] whose orbit holds s,
      None when no orbit holds it. */
  function LabelOf(grid: Grid, reps: seq<nat>, s: nat): Option<nat>
    requires Valid(grid)
    decreases |reps|
  {
    if |reps| == 0 then None
    else
      var prev := reps[..|reps| - 1];
      if s in Claimed(grid, prev) then LabelOf(grid, prev, s)
      else if s in Reach(grid, reps[|reps| - 1]) then Some(|reps|)
      else None
  }

  /** Number of entries of t equal to Some(l). */
  function CountLabel(t: seq<Option<nat>>, l: nat): nat
  {
    if |t| == 0 then 0
    else CountLabel(t[..|t| - 1], l) + (if t[|t| - 1] == Some(l) then 1 else 0)
  }

  /** Number of labelled entries of t. */
  function CountSome(t: seq<Option<nat>>): nat
  {
    if |t| == 0 then 0
    else CountSome(t[..|t| - 1]) + (if t[|t| - 1].Some? then 1 else 0)
  }

  function Sum(w: seq<nat>): nat
  {
    if |w| == 0 then 0 else Sum(w[..|w| - 1]) + w[|w| - 1]
  }

  /** The hashtable the loop ends with, over slots 0 .. nUR-1. */
  function Labels(grid: Grid): seq<Option<nat>>
    requires Valid(grid)
  {
    var reps := Reps(grid, |grid.slots|);
    seq(|grid.slots|, s requires 0 <= s => LabelOf(grid, reps, s))
  }

  /** The weights the loop ends with: the number of slots carrying each label. */
  function Weights(grid: Grid): seq<nat>
    requires Valid(grid)
  {
    var t := Labels(grid);
    seq(|Reps(grid, |grid.slots|)|, c requires 0 <= c => CountLabel(t, c + 1))
  }

  /** Every slot the loop looks up when it runs to the end: each point's own slot, and the
      orbits of the representatives. */
  function Lookups(grid: Grid): set<nat>
    requires Valid(grid)
  {
    (set i | 0 <= i < |grid.slots| :: Slot(grid, i)) + Claimed(grid, Reps(grid, |grid.slots|))
  }

  /** Some lookup falls outside range(nUR): the source raises KeyError. */
  predicate Faults(grid: Grid)
    requires Valid(grid)
  {
    exists s :: s in Lookups(grid) && s >= |grid.slots|
  }

  // ---------------------------------------------------------------------
  // The loop
  // ---------------------------------------------------------------------

  lemma {:induction false} CountLabelUpdate(t: seq<Option<nat>>, s: nat, x: nat, l: nat)
    requires s < |t| && t[s].None?
    ensures CountLabel(t[s := Some(x)], l) == CountLabel(t, l) + (if x == l then 1 else 0)
    decreases |t|
  {
    var u := t[s := Some(x)];
    var n := |t| - 1;
    if s == n {
      assert u[..n] == t[..n];
    } else {
      assert u[..n] == t[..n][s := Some(x)];
      CountLabelUpdate(t[..n], s, x, l);
    }
  }

  lemma {:induction false} CountLabelAbsent(t: seq<Option<nat>>, l: nat)
    requires forall s :: 0 <= s < |t| ==> t[s] != Some(l)
    ensures CountLabel(t, l) == 0
    decreases |t|
  {
    if |t| > 0 {
      CountLabelAbsent(t[..|t| - 1], l);
    }
  }

  lemma ClaimedAppend(grid: Grid, reps: seq<nat>, r: nat)
    requires Valid(grid) && r < |grid.slots|
    ensures Claimed(grid, reps + [r]) == Claimed(grid, reps) + Reach(grid, r)
  {
    assert (reps + [r])[..|reps|] == reps;
  }

  lemma LabelAppend(grid: Grid, reps: seq<nat>, r: nat, s: nat)
    requires Valid(grid) && r < |grid.slots|
    ensures LabelOf(grid, reps + [r], s)
        == (if s in Claimed(grid, reps) then LabelOf(grid, reps, s)
            else if s in Reach(grid, r) then Some(|reps| + 1) else None)
  {
    assert (reps + [r])[..|reps|] == reps;
  }

  /** A slot has a label exactly when some orbit holds it. */
  lemma {:induction false} LabelledIffClaimed(grid: Grid, reps: seq<nat>, s: nat)
    requires Valid(grid)
    ensures LabelOf(grid, reps, s).Some? <==> s in Claimed(grid, reps)
    ensures LabelOf(grid, reps, s).Some? ==> 1 <= LabelOf(grid, reps, s).value <= |reps|
    decreases |reps|
  {
    if |reps| > 0 {
      LabelledIffClaimed(grid, reps[..|reps| - 1], s);
    }
  }

  /** Point i either opens an orbit, becoming the next representative, or leaves the
      representatives as they are; either way the claimed slots only grow. */
  lemma RepsStep(grid: Grid, i: nat)
    requires Valid(grid) && i < |grid.slots|
    ensures Claimed(grid, Reps(grid, i)) <= Claimed(grid, Reps(grid, i + 1))
  {
    if Slot(grid, i) !in Claimed(grid, Reps(grid, i)) {
      RepsOpen(grid, i);
    } else {
      assert Reps(grid, i + 1) == Reps(grid, i);
    }
  }

  /** A slot claimed after the first j points stays claimed after the first k >= j. */
  lemma {:induction false} ClaimedStays(grid: Grid, j: nat, k: nat, s: nat)
    requires Valid(grid) && j <= k <= |grid.slots| && s in Claimed(grid, Reps(grid, j))
    ensures s in Claimed(grid, Reps(grid, k))
    decreases k - j
  {
    if j < k {
      RepsStep(grid, j);
      ClaimedStays(grid, j + 1, k, s);
    }
  }

  lemma ClaimedGrows(grid: Grid, j: nat, k: nat)
    requires Valid(grid) && j <= k <= |grid.slots|
    ensures Claimed(grid, Reps(grid, j)) <= Claimed(grid, Reps(grid, k))
  {
    forall s | s in Claimed(grid, Reps(grid, j))
      ensures s in Claimed(grid, Reps(grid, k))
    {
      ClaimedStays(grid, j, k, s);
    }
  }

  /** t is the hashtable the representatives reps determine: each slot carries its label. */
  ghost predicate Labelled(grid: Grid, reps: seq<nat>, t: seq<Option<nat>>)
    requires Valid(grid)
  {
    forall s :: 0 <= s < |t| ==> t[s] == LabelOf(grid, reps, s)
  }

  /** weights[l - 1] is the number of slots of t labelled l, for every label l. */
  ghost predicate Counted(weights: seq<nat>, t: seq<Option<nat>>)
  {
    forall l :: 1 <= l <= |weights| ==> weights[l - 1] == CountLabel(t, l)
  }

  /** `if hashtable[idx] == None: hashtable[idx] = cOrbit; iWt[cOrbit] += 1`: an unlabelled
      slot gets label c and is counted; a labelled slot is never relabelled. */
  method ClaimSlot(table: array<Option<nat>>, idx: nat, c: nat, weights: seq<nat>) returns (weights': seq<nat>)
    requires idx < table.Length && 1 <= c <= |weights| && Counted(weights, table[..])
    modifies table
    ensures table[..] == if old(table[idx]).None? then old(table[..])[idx := Some(c)] else old(table[..])
    ensures |weights'| == |weights| && Counted(weights', table[..])
  {
    weights' := weights;
    if table[idx] == None {
      ghost var before := table[..];
      table[idx] := Some(c);
      assert table[..] == before[idx := Some(c)];
      weights' := weights[c - 1 := weights[c - 1] + 1];
      forall l | 1 <= l <= |weights'|
        ensures weights'[l - 1] == CountLabel(table[..], l)
      {
        CountLabelUpdate(before, idx, c, l);
      }
    }
  }

  /** While the orbit of point i is being labelled c = |first| + 1: the slots of earlier
      orbits keep their labels, those reached through operators 0 .. g-1 carry c, and the
      rest are unlabelled. */
  ghost predicate Partial(grid: Grid, first: seq<nat>, i: nat, g: nat, t: seq<Option<nat>>)
    requires Valid(grid) && i < |grid.slots| && g <= grid.nOps
  {
    forall s :: 0 <= s < |t| ==>
      t[s] == (if s in Claimed(grid, first) then LabelOf(grid, first, s)
               else if s in ReachUpTo(grid, i, g) then Some(|first| + 1) else None)
  }

  lemma PartialStep(grid: Grid, first: seq<nat>, i: nat, g: nat, t: seq<Option<nat>>, t': seq<Option<nat>>)
    requires Valid(grid) && i < |grid.slots| && g < grid.nOps
    requires Partial(grid, first, i, g, t)
    requires grid.images[i][g].None? ==> t' == t
    requires grid.images[i][g].Some? ==>
      (grid.images[i][g].value < |t| && t' ==
       (if t[grid.images[i][g].value].None? then t[grid.images[i][g].value := Some(|first| + 1)] else t))
    ensures Partial(grid, first, i, g + 1, t')
  {
    ReachStep(grid, i, g);
    if grid.images[i][g].Some? {
      LabelledIffClaimed(grid, first, grid.images[i][g].value);
    }
  }

  lemma PartialDone(grid: Grid, first: seq<nat>, i: nat, t: seq<Option<nat>>)
    requires Valid(grid) && i < |grid.slots|
    requires Partial(grid, first, i, grid.nOps, t)
    ensures Labelled(grid, first + [i], t)
  {
    forall s | 0 <= s < |t|
      ensures t[s] == LabelOf(grid, first + [i], s)
    {
      LabelAppend(grid, first, i, s);
    }
  }

  /** The operator loop for the representative i of orbit c = |first| + 1, whose own slot is
      already labelled: every on-grid image whose slot is unlabelled is labelled c and counted
      in iWt[c]; an image slot outside the table is reported. */
  method LabelImages(grid: Grid, i: nat, table: array<Option<nat>>, first: seq<nat>, weights: seq<nat>)
      returns (err: Option<nat>, weights': seq<nat>)
    requires Valid(grid) && i < |grid.slots|
    requires Slot(grid, i) < table.Length && |weights| == |first| + 1
    requires Partial(grid, first, i, 0, table[..]) && Counted(weights, table[..])
    modifies table
    ensures err.Some? ==> err.value in Reach(grid, i) && err.value >= table.Length
    ensures err.None? ==> forall s :: s in Reach(grid, i) ==> s < table.Length
    ensures err.None? ==> Partial(grid, first, i, grid.nOps, table[..])
    ensures err.None? ==> |weights'| == |weights| && Counted(weights', table[..])
  {
    weights' := weights;
    var g := 0;
    while g < grid.nOps
      invariant 0 <= g <= grid.nOps && |weights'| == |weights|
      invariant forall s :: s in ReachUpTo(grid, i, g) ==> s < table.Length
      invariant Partial(grid, first, i, g, table[..])
      invariant Counted(weights', table[..])
    {
      ghost var before := table[..];
      ReachStep(grid, i, g);
      if grid.images[i][g].Some? {
        var idx := grid.images[i][g].value;
        if idx >= table.Length {
          ReachGrows(grid, i, g + 1, grid.nOps);
          return Some(idx), weights';
        }
        weights' := ClaimSlot(table, idx, |first| + 1, weights');
      }
      PartialStep(grid, first, i, g, before, table[..]);
      g := g + 1;
    }
    err := None;
  }

  /** `cOrbit += 1; hashtable[idx] = cOrbit; iFirst[cOrbit] = i; iWt[cOrbit] = 1` and the
      operator loop, for a point i whose slot is unlabelled: the orbit of i, less the slots
      of earlier orbits, becomes orbit cOrbit. */
  method OpenOrbit(grid: Grid, i: nat, table: array<Option<nat>>, first: seq<nat>, weights: seq<nat>)
      returns (err: Option<nat>, first': seq<nat>, weights': seq<nat>)
    requires Valid(grid) && i < |grid.slots| && table.Length == |grid.slots|
    requires |weights| == |first|
    requires Slot(grid, i) < table.Length && Slot(grid, i) !in Claimed(grid, first)
    requires Labelled(grid, first, table[..])
    requires Counted(weights, table[..])
    modifies table
    ensures first' == first + [i]
    ensures err.Some? ==> err.value in Reach(grid, i) && err.value >= table.Length
    ensures err.None? ==> forall s :: s in Reach(grid, i) ==> s < table.Length
    ensures err.None? ==> |weights'| == |first'| && Counted(weights', table[..])
    ensures err.None? ==> Labelled(grid, first', table[..])
  {
    var c := |first| + 1;
    first' := first + [i];
    ClaimedAppend(grid, first, i);
    forall s | 0 <= s < table.Length
      ensures table[s] != Some(c)
    {
      LabelledIffClaimed(grid, first, s);
    }
    CountLabelAbsent(table[..], c);
    weights' := weights + [0];
    ghost var before := table[..];
    weights' := ClaimSlot(table, Slot(grid, i), c, weights');
    OpenStart(grid, first, i, before, table[..]);
    err, weights' := LabelImages(grid, i, table, first, weights');
    if err.None? {
      PartialDone(grid, first, i, table[..]);
    }
  }

  /** Labelling the representative's own slot starts the orbit. */
  lemma OpenStart(grid: Grid, first: seq<nat>, i: nat, t: seq<Option<nat>>, t': seq<Option<nat>>)
    requires Valid(grid) && i < |grid.slots|
    requires Slot(grid, i) < |t| && Slot(grid, i) !in Claimed(grid, first)
    requires Labelled(grid, first, t)
    requires t' == if t[Slot(grid, i)].None? then t[Slot(grid, i) := Some(|first| + 1)] else t
    ensures Partial(grid, first, i, 0, t')
  {
    assert ReachUpTo(grid, i, 0) == {Slot(grid, i)};
    forall s | 0 <= s < |t|
      ensures t[s] == (if s in Claimed(grid, first) then t[s] else None)
    {
      LabelledIffClaimed(grid, first, s);
    }
  }

  /** What holds after the points 0 .. i-1 are processed: the representatives so far, the
      hashtable they determine, the weights counted in it, and no lookup out of range. */
  ghost predicate Processed(grid: Grid, i: nat, first: seq<nat>, weights: seq<nat>, t: seq<Option<nat>>)
    requires Valid(grid) && i <= |grid.slots|
  {
    && first == Reps(grid, i) && |weights| == |first| && |t| == |grid.slots|
    && Labelled(grid, first, t)
    && Counted(weights, t)
    && (forall j :: 0 <= j < i ==> Slot(grid, j) < |t|)
    && (forall s :: s in Claimed(grid, first) ==> s < |t|)
  }

  /** Once every point is processed, the state is the specification's and nothing faulted. */
  lemma ProcessedAll(grid: Grid, first: seq<nat>, weights: seq<nat>, t: seq<Option<nat>>)
    requires Valid(grid) && Processed(grid, |grid.slots|, first, weights, t)
    ensures first == Reps(grid, |grid.slots|) && t == Labels(grid) && weights == Weights(grid)
    ensures !Faults(grid)
  {
    var n := |grid.slots|;
    LabelsAre(grid, t);
    WeightsAre(grid, weights);
    NoFault(grid);
  }

  lemma LabelsAre(grid: Grid, t: seq<Option<nat>>)
    requires Valid(grid) && |t| == |grid.slots|
    requires forall s :: 0 <= s < |t| ==> t[s] == LabelOf(grid, Reps(grid, |grid.slots|), s)
    ensures t == Labels(grid)
  {
  }

  lemma WeightsAre(grid: Grid, weights: seq<nat>)
    requires Valid(grid) && |weights| == |Reps(grid, |grid.slots|)|
    requires Counted(weights, Labels(grid))
    ensures weights == Weights(grid)
  {
  }

  lemma NoFault(grid: Grid)
    requires Valid(grid)
    requires forall j :: 0 <= j < |grid.slots| ==> Slot(grid, j) < |grid.slots|
    requires forall s :: s in Claimed(grid, Reps(grid, |grid.slots|)) ==> s < |grid.slots|
    ensures !Faults(grid)
  {
  }

  /** A point whose slot is already labelled changes nothing. */
  lemma SkipPoint(grid: Grid, i: nat, first: seq<nat>, weights: seq<nat>, t: seq<Option<nat>>)
    requires Valid(grid) && i < |grid.slots| && Processed(grid, i, first, weights, t)
    requires Slot(grid, i) < |t| && Slot(grid, i) in Claimed(grid, first)
    ensures Processed(grid, i + 1, first, weights, t)
  {
  }

  /** A point whose slot is unlabelled becomes the next representative. */
  lemma OpenPoint(grid: Grid, i: nat, first: seq<nat>, weights: seq<nat>, t: seq<Option<nat>>,
                  first': seq<nat>, weights': seq<nat>, t': seq<Option<nat>>)
    requires Valid(grid) && i < |grid.slots| && Processed(grid, i, first, weights, t)
    requires Slot(grid, i) < |t| && Slot(grid, i) !in Claimed(grid, first)
    requires first' == first + [i] && |t'| == |t|
    requires forall s :: s in Reach(grid, i) ==> s < |t|
    requires |weights'| == |first'| && Counted(weights', t')
    requires Labelled(grid, first', t')
    ensures Processed(grid, i + 1, first', weights', t')
  {
    ClaimedAppend(grid, first, i);
  }

  /** An image slot out of range met while opening the orbit of a representative is a
      lookup of the loop. */
  lemma OpenFault(grid: Grid, i: nat, s: nat)
    requires Valid(grid) && i < |grid.slots| && Slot(grid, i) !in Claimed(grid, Reps(grid, i))
    requires s in Reach(grid, i)
    ensures s in Claimed(grid, Reps(grid, i + 1))
  {
    RepsOpen(grid, i);
  }

  /** A point whose slot no earlier orbit holds is the next representative, and its orbit
      joins the claimed slots. */
  lemma RepsOpen(grid: Grid, i: nat)
    requires Valid(grid) && i < |grid.slots| && Slot(grid, i) !in Claimed(grid, Reps(grid, i))
    ensures Reps(grid, i + 1) == Reps(grid, i) + [i]
    ensures Claimed(grid, Reps(grid, i + 1)) == Claimed(grid, Reps(grid, i)) + Reach(grid, i)
  {
    ClaimedAppend(grid, Reps(grid, i), i);
  }

  /** The slot of every point is looked up. */
  lemma SlotLookedUp(grid: Grid, i: nat)
    requires Valid(grid) && i < |grid.slots|
    ensures Slot(grid, i) in Lookups(grid)
  {
  }

  /** A slot in the orbit of a representative among the first j points is looked up. */
  lemma ClaimedLookedUp(grid: Grid, j: nat, s: nat)
    requires Valid(grid) && j <= |grid.slots| && s in Claimed(grid, Reps(grid, j))
    ensures s in Lookups(grid)
  {
    ClaimedGrows(grid, j, |grid.slots|);
  }

  /** s is a slot looked up when point i is visited: its own slot, or, when it opens an orbit,
      a slot of that orbit. */
  ghost predicate Fault(grid: Grid, i: nat, s: nat)
    requires Valid(grid) && i < |grid.slots|
  {
    s == Slot(grid, i) || (Slot(grid, i) !in Claimed(grid, Reps(grid, i)) && s in Reach(grid, i))
  }

  lemma FaultLookedUp(grid: Grid, i: nat, s: nat)
    requires Valid(grid) && i < |grid.slots| && Fault(grid, i, s)
    ensures s in Lookups(grid)
  {
    if s == Slot(grid, i) {
      SlotLookedUp(grid, i);
    } else {
      OpenFault(grid, i, s);
      ClaimedLookedUp(grid, i + 1, s);
    }
  }

  /** A point whose slot is in range and unlabelled opens the next orbit. */
  method VisitNewPoint(grid: Grid, i: nat, table: array<Option<nat>>, first: seq<nat>, weights: seq<nat>)
      returns (err: Option<nat>, first': seq<nat>, weights': seq<nat>)
    requires Valid(grid) && i < |grid.slots| && table.Length == |grid.slots|
    requires Processed(grid, i, first, weights, table[..])
    requires Slot(grid, i) < table.Length && Slot(grid, i) !in Claimed(grid, first)
    modifies table
    ensures err.Some? ==> err.value in Reach(grid, i) && err.value >= table.Length
    ensures err.None? ==> Processed(grid, i + 1, first', weights', table[..])
  {
    ghost var before := table[..];
    err, first', weights' := OpenOrbit(grid, i, table, first, weights);
    if err.None? {
      OpenPoint(grid, i, first, weights, before, first', weights', table[..]);
    }
  }

  /** One pass of the loop over the point list: point i is skipped when its slot is
      labelled, and opens an orbit otherwise. */
  method VisitPoint(grid: Grid, i: nat, table: array<Option<nat>>, first: seq<nat>, weights: seq<nat>)
      returns (err: Option<nat>, first': seq<nat>, weights': seq<nat>)
    requires Valid(grid) && i < |grid.slots| && table.Length == |grid.slots|
    requires Processed(grid, i, first, weights, table[..])
    modifies table
    ensures err.Some? ==> Fault(grid, i, err.value) && err.value >= table.Length
    ensures err.None? ==> Processed(grid, i + 1, first', weights', table[..])
  {
    var idx := Slot(grid, i);
    if idx >= table.Length {
      return Some(idx), first, weights;
    }
    LabelledIffClaimed(grid, first, idx);
    if table[idx] != None {
      SkipPoint(grid, i, first, weights, table[..]);
      return None, first, weights;
    }
    err, first', weights' := VisitNewPoint(grid, i, table, first, weights);
  }

  /** The loop over the point list shared by `reduce_kpoint_list` and `find_orbits`: the
      result is the specification's representatives, weights and labels, and the loop fails
      with MissingSlot exactly when some slot it looks up is outside range(nUR). */
  method LabelOrbits(grid: Grid) returns (r: Result<Orbits, OrbitError>)
    requires Valid(grid)
    ensures r.Failure? <==> Faults(grid)
    ensures r.Failure? ==>
      r.error.MissingSlot? && r.error.slot in Lookups(grid) && r.error.slot >= |grid.slots|
    ensures r.Success? ==> r.value == Orbits(Reps(grid, |grid.slots|), Weights(grid), Labels(grid))
    ensures r.Success? ==> forall c :: 0 <= c < |r.value.first| ==> r.value.first[c] < |grid.slots|
  {
    var n := |grid.slots|;
    var table := new Option<nat>[n](_ => None);
    var first: seq<nat> := [];
    var weights: seq<nat> := [];
    for i := 0 to n
      invariant Processed(grid, i, first, weights, table[..])
    {
      var err;
      err, first, weights := VisitPoint(grid, i, table, first, weights);
      if err.Some? {
        FaultLookedUp(grid, i, err.value);
        return Failure(MissingSlot(err.value));
      }
    }
    ProcessedAll(grid, first, weights, table[..]);
    RepsBelow(grid, n);
    r := Success(Orbits(first, weights, table[..]));
  }

  // ---------------------------------------------------------------------
  // Properties of the specification
  // ---------------------------------------------------------------------

  /** The orbit of every representative lies in the claimed slots. */
  lemma {:induction false} ReachClaimed(grid: Grid, reps: seq<nat>, c: nat)
    requires Valid(grid) && c < |reps|
    ensures Reach(grid, reps[c]) <= Claimed(grid, reps)
    decreases |reps|
  {
    var prev := reps[..|reps| - 1];
    if c < |reps| - 1 {
      ReachClaimed(grid, prev, c);
    }
  }

  /** First come, first labelled: slot s carries label c + 1 exactly when it lies in the orbit
      of representative c and in none of the orbits of the representatives before it. */
  lemma {:induction false} LabelMeans(grid: Grid, reps: seq<nat>, s: nat, c: nat)
    requires Valid(grid)
    ensures LabelOf(grid, reps, s) == Some(c + 1)
        <==> (c < |reps| && s in Reach(grid, reps[c]) && s !in Claimed(grid, reps[..c]))
    decreases |reps|
  {
    if |reps| > 0 {
      var m := |reps| - 1;
      var prev := reps[..m];
      LabelMeans(grid, prev, s, c);
      if c < m {
        assert prev[c] == reps[c] && prev[..c] == reps[..c];
        ReachClaimed(grid, prev, c);
      } else if c == m {
        assert reps[..c] == prev;
      }
    }
  }

  /** Later representatives never change a label: the hashtable is only ever extended. */
  lemma LabelKept(grid: Grid, reps: seq<nat>, r: nat, s: nat)
    requires Valid(grid) && r < |grid.slots|
    requires LabelOf(grid, reps, s).Some?
    ensures LabelOf(grid, reps + [r], s) == LabelOf(grid, reps, s)
  {
    LabelledIffClaimed(grid, reps, s);
    LabelAppend(grid, reps, r, s);
  }

  /** Each representative's slot lies in no orbit of the representatives before it. */
  ghost predicate FreshReps(grid: Grid, reps: seq<nat>)
    requires Valid(grid) && PointsIn(grid, reps)
  {
    forall c :: 0 <= c < |reps| ==> Slot(grid, reps[c]) !in Claimed(grid, reps[..c])
  }

  predicate Increasing(reps: seq<nat>)
  {
    forall a, b :: 0 <= a < b < |reps| ==> reps[a] < reps[b]
  }

  /** The representatives among the first k points: each one's slot is new when it is met. */
  lemma {:induction false} RepsShape(grid: Grid, k: nat, reps: seq<nat>)
    requires Valid(grid) && k <= |grid.slots| && reps == Reps(grid, k)
    ensures PointsIn(grid, reps) && FreshReps(grid, reps)
    decreases k
  {
    if k > 0 {
      var prev := Reps(grid, k - 1);
      RepsUnfold(grid, k);
      RepsShape(grid, k - 1, prev);
      FreshStep(grid, prev, k - 1, reps);
    }
  }

  lemma RepsUnfold(grid: Grid, k: nat)
    requires Valid(grid) && 0 < k <= |grid.slots|
    ensures Reps(grid, k) == if Slot(grid, k - 1) in Claimed(grid, Reps(grid, k - 1))
                             then Reps(grid, k - 1) else Reps(grid, k - 1) + [k - 1]
  {
  }

  /** One step of `Reps`: appending a point whose slot is unclaimed keeps the representatives
      fresh, and skipping a point changes nothing. */
  lemma FreshStep(grid: Grid, prev: seq<nat>, i: nat, reps: seq<nat>)
    requires Valid(grid) && i < |grid.slots| && PointsIn(grid, prev) && FreshReps(grid, prev)
    requires reps == if Slot(grid, i) in Claimed(grid, prev) then prev else prev + [i]
    ensures PointsIn(grid, reps) && FreshReps(grid, reps)
  {
    if Slot(grid, i) !in Claimed(grid, prev) {
      FreshAppend(grid, prev, i);
    }
  }

  lemma FreshAppend(grid: Grid, prev: seq<nat>, i: nat)
    requires Valid(grid) && i < |grid.slots| && PointsIn(grid, prev)
    requires FreshReps(grid, prev) && Slot(grid, i) !in Claimed(grid, prev)
    ensures PointsIn(grid, prev + [i]) && FreshReps(grid, prev + [i])
  {
    var reps := prev + [i];
    forall c | 0 <= c < |reps|
      ensures Slot(grid, reps[c]) !in Claimed(grid, reps[..c])
    {
      if c < |prev| {
        assert reps[c] == prev[c] && reps[..c] == prev[..c];
      } else {
        assert reps[..c] == prev;
      }
    }
  }

  /** Labels are handed out in list order: the representatives are strictly increasing. */
  lemma {:induction false} RepsIncreasing(grid: Grid, k: nat)
    requires Valid(grid) && k <= |grid.slots|
    ensures Increasing(Reps(grid, k))
    decreases k
  {
    if k > 0 {
      RepsIncreasing(grid, k - 1);
      var prev := Reps(grid, k - 1);
      if Slot(grid, k - 1) !in Claimed(grid, prev) {
        RepsBelow(grid, k - 1);
        var reps := prev + [k - 1];
        assert Reps(grid, k) == reps;
        forall a, b | 0 <= a < b < |reps|
          ensures reps[a] < reps[b]
        {
          if b == |prev| {
            assert reps[a] == prev[a] < k - 1;
          } else {
            assert reps[a] == prev[a] && reps[b] == prev[b];
          }
        }
      } else {
        assert Reps(grid, k) == prev;
      }
    }
  }

  /** No point is lost: the slot of every point among the first k lies in some orbit. */
  lemma EveryPointClaimed(grid: Grid, k: nat)
    requires Valid(grid) && k <= |grid.slots|
    ensures forall j :: 0 <= j < k ==> Slot(grid, j) in Claimed(grid, Reps(grid, k))
  {
    forall j | 0 <= j < k
      ensures Slot(grid, j) in Claimed(grid, Reps(grid, k))
    {
      OwnSlotClaimed(grid, j);
      ClaimedGrows(grid, j + 1, k);
    }
  }

  lemma OwnSlotClaimed(grid: Grid, i: nat)
    requires Valid(grid) && i < |grid.slots|
    ensures Slot(grid, i) in Claimed(grid, Reps(grid, i + 1))
  {
    if Slot(grid, i) !in Claimed(grid, Reps(grid, i)) {
      RepsOpen(grid, i);
      assert Slot(grid, i) in Reach(grid, i);
    } else {
      ClaimedGrows(grid, i, i + 1);
    }
  }

  /** The slot of representative c carries label c + 1. */
  lemma RepLabel(grid: Grid, c: nat)
    requires Valid(grid) && c < |Reps(grid, |grid.slots|)|
    ensures Reps(grid, |grid.slots|)[c] < |grid.slots|
         && LabelOf(grid, Reps(grid, |grid.slots|), Slot(grid, Reps(grid, |grid.slots|)[c])) == Some(c + 1)
  {
    var reps := Reps(grid, |grid.slots|);
    RepsBelow(grid, |grid.slots|);
    RepsShape(grid, |grid.slots|, reps);
    LabelMeans(grid, reps, Slot(grid, reps[c]), c);
  }

  // ---------------------------------------------------------------------
  // Weights
  // ---------------------------------------------------------------------

  lemma {:induction false} CountLabelPositive(t: seq<Option<nat>>, s: nat, l: nat)
    requires s < |t| && t[s] == Some(l)
    ensures CountLabel(t, l) >= 1
    decreases |t|
  {
    if s < |t| - 1 {
      CountLabelPositive(t[..|t| - 1], s, l);
    }
  }

  /** Every orbit has weight at least 1 (its representative's slot) when no lookup faults. */
  lemma WeightsPositive(grid: Grid)
    requires Valid(grid) && !Faults(grid)
    ensures forall c :: 0 <= c < |Weights(grid)| ==> Weights(grid)[c] >= 1
  {
    forall c | 0 <= c < |Weights(grid)|
      ensures Weights(grid)[c] >= 1
    {
      RepWeight(grid, c);
    }
  }

  lemma RepWeight(grid: Grid, c: nat)
    requires Valid(grid) && !Faults(grid) && c < |Reps(grid, |grid.slots|)|
    ensures Weights(grid)[c] >= 1
  {
    RepLabel(grid, c);
    var r := Reps(grid, |grid.slots|)[c];
    SlotLookedUp(grid, r);
    var s := Slot(grid, r);
    assert s < |grid.slots|;
    var t := Labels(grid);
    assert t[s] == Some(c + 1);
    CountLabelPositive(t, s, c + 1);
  }

  /** The number of entries of t labelled 1 .. m, summed label by label. */
  function SumCounts(t: seq<Option<nat>>, m: nat): nat
  {
    if m == 0 then 0 else SumCounts(t, m - 1) + CountLabel(t, m)
  }

  /** Whether x is a label in 1 .. m. */
  function InLabels(x: Option<nat>, m: nat): nat
  {
    if x.Some? && 1 <= x.value <= m then 1 else 0
  }

  lemma {:induction false} SumCountsSnoc(t: seq<Option<nat>>, x: Option<nat>, m: nat)
    ensures SumCounts(t + [x], m) == SumCounts(t, m) + InLabels(x, m)
    decreases m
  {
    if m > 0 {
      SumCountsSnoc(t, x, m - 1);
      assert (t + [x])[..|t|] == t;
    }
  }

  /** Summed label by label, the counts add up to the number of labelled entries, when every
      label lies in 1 .. m. */
  lemma {:induction false} SumCountsAll(t: seq<Option<nat>>, m: nat)
    requires forall s :: 0 <= s < |t| && t[s].Some? ==> 1 <= t[s].value <= m
    ensures SumCounts(t, m) == CountSome(t)
    decreases |t|
  {
    if |t| == 0 {
      SumCountsEmpty(m);
    } else {
      var u := t[..|t| - 1];
      SumCountsAll(u, m);
      assert u + [t[|t| - 1]] == t;
      SumCountsSnoc(u, t[|t| - 1], m);
    }
  }

  lemma {:induction false} SumCountsEmpty(m: nat)
    ensures SumCounts([], m) == 0
    decreases m
  {
    if m > 0 {
      SumCountsEmpty(m - 1);
    }
  }

  lemma {:induction false} SumCounted(w: seq<nat>, t: seq<Option<nat>>)
    requires Counted(w, t)
    ensures Sum(w) == SumCounts(t, |w|)
    decreases |w|
  {
    if |w| > 0 {
      SumCounted(w[..|w| - 1], t);
    }
  }

  /** The weights add up to the number of labelled slots. */
  lemma WeightsSum(grid: Grid)
    requires Valid(grid)
    ensures Sum(Weights(grid)) == CountSome(Labels(grid))
  {
    var reps := Reps(grid, |grid.slots|);
    var t := Labels(grid);
    forall s | 0 <= s < |t| && t[s].Some?
      ensures 1 <= t[s].value <= |reps|
    {
      LabelledIffClaimed(grid, reps, s);
    }
    SumCounted(Weights(grid), t);
    SumCountsAll(t, |reps|);
  }

  /** All entries are labelled exactly when the labelled ones number |t|. */
  lemma {:induction false} CountSomeFull(t: seq<Option<nat>>)
    ensures CountSome(t) <= |t|
    ensures CountSome(t) == |t| <==> forall s :: 0 <= s < |t| ==> t[s].Some?
    decreases |t|
  {
    if |t| > 0 {
      var u := t[..|t| - 1];
      CountSomeFull(u);
      if CountSome(t) == |t| {
        assert forall s :: 0 <= s < |u| ==> t[s] == u[s];
      }
    }
  }

  // ---------------------------------------------------------------------
  // Slot ranges
  // ---------------------------------------------------------------------

  /** Every slot the oracle hands out, of a point or of an image, is below m. */
  predicate SlotsBelow(grid: Grid, m: nat)
    requires Valid(grid)
  {
    && (forall i :: 0 <= i < |grid.slots| ==> grid.slots[i] < m)
    && (forall i, g :: 0 <= i < |grid.slots| && 0 <= g < grid.nOps && grid.images[i][g].Some? ==>
          grid.images[i][g].value < m)
  }

  lemma {:induction false} ClaimedBelow(grid: Grid, reps: seq<nat>, m: nat)
    requires Valid(grid) && SlotsBelow(grid, m)
    ensures forall s :: s in Claimed(grid, reps) ==> s < m
    decreases |reps|
  {
    if |reps| > 0 {
      ClaimedBelow(grid, reps[..|reps| - 1], m);
    }
  }

  /** When every slot handed out is below nUR, no lookup faults. */
  lemma NoFaultBelow(grid: Grid)
    requires Valid(grid) && SlotsBelow(grid, |grid.slots|)
    ensures !Faults(grid)
  {
    var n := |grid.slots|;
    var reps := Reps(grid, n);
    ClaimedBelow(grid, reps, n);
    forall s | s in Lookups(grid)
      ensures s < n
    {
      if s !in Claimed(grid, reps) {
        var i :| 0 <= i < n && s == Slot(grid, i);
      }
    }
  }
}
