/** The piston board: a dimX x dimY grid of pistons, each driven to a height
    between 0 (fully retracted) and pistonDistance (fully extended). */
module Pistons {

  /** Why a call on the board was refused; each is an exception in the source. */
  datatype Error =
    | InvalidPosition  // the index lies outside the board's dimensions
    | NoPistons        // no piston grid exists (no prefab was ever available)
    | ShapeMismatch    // a position matrix whose shape differs from the dimensions

  datatype Outcome = Pass | Fail(error: Error)

  /** Clamps a requested fraction into [0, 1], as Mathf.Clamp(v, 0, 1) does. */
  function Clamp01(v: real): (r: real)
    ensures 0.0 <= r <= 1.0
    ensures 0.0 <= v <= 1.0 ==> r == v
    ensures v < 0.0 ==> r == 0.0
    ensures v > 1.0 ==> r == 1.0
  {
    if v < 0.0 then 0.0 else if v > 1.0 then 1.0 else v
  }

  /** h lies between 0 and bound, whichever of the two is larger. */
  predicate Between(h: real, bound: real) {
    if bound >= 0.0 then 0.0 <= h <= bound else bound <= h <= 0.0
  }

  /** The height a piston is driven to when asked for fraction v. */
  function Actuation(pistonDistance: real, v: real): (h: real)
    ensures Between(h, pistonDistance)
    ensures v <= 0.0 ==> h == 0.0
    ensures v >= 1.0 ==> h == pistonDistance
  {
    var c := Clamp01(v);
    if pistonDistance >= 0.0 then
      assert pistonDistance * c <= pistonDistance * 1.0;
      pistonDistance * c
    else
      assert pistonDistance * 1.0 <= pistonDistance * c;
      pistonDistance * c
  }

  /** Asking for a value or for its clamped form drives the piston to the same height. */
  lemma ClampIdempotent(pistonDistance: real, v: real)
    ensures Clamp01(Clamp01(v)) == Clamp01(v)
    ensures Actuation(pistonDistance, Clamp01(v)) == Actuation(pistonDistance, v)
  {
  }

  class PistonBoard {
    var dimX: nat
    var dimY: nat
    /** Whether a piston prefab is available; without one no grid is ever built. */
    const hasPrefab: bool
    /** The distance a piston travels from fully retracted to fully extended. */
    const pistonDistance: real
    /** The height of every piston, indexed [x, y]; null while no grid exists. */
    var heights: array2?<real>

    ghost predicate Valid()
      reads this, heights
    {
      (heights != null) == hasPrefab &&
      (heights != null ==>
        heights.Length0 == dimX && heights.Length1 == dimY &&
        forall x, y :: 0 <= x < dimX && 0 <= y < dimY ==> Between(heights[x, y], pistonDistance))
    }

    /** Creating the board and running Awake, which builds the grid. */
    constructor (dimX: nat, dimY: nat, pistonDistance: real, hasPrefab: bool)
      ensures Valid()
      ensures this.dimX == dimX && this.dimY == dimY
      ensures this.pistonDistance == pistonDistance && this.hasPrefab == hasPrefab
      ensures heights != null ==>
        fresh(heights) && forall x, y :: 0 <= x < dimX && 0 <= y < dimY ==> heights[x, y] == 0.0
    {
      this.dimX := dimX;
      this.dimY := dimY;
      this.pistonDistance := pistonDistance;
      this.hasPrefab := hasPrefab;
      heights := null;
      new;
      CreatePistons();
    }

    /** Rebuilds the grid at the current dimensions with every piston retracted;
        without a prefab it returns and leaves the grid as it was. */
    method CreatePistons()
      requires !hasPrefab ==> heights == null
      modifies this
      ensures Valid()
      ensures dimX == old(dimX) && dimY == old(dimY)
      ensures !hasPrefab ==> heights == old(heights)
      ensures hasPrefab ==>
        heights != null && fresh(heights) &&
        forall x, y :: 0 <= x < dimX && 0 <= y < dimY ==> heights[x, y] == 0.0
    {
      if !hasPrefab {
        return;
      }
      var grid := new real[dimX, dimY];
      var y := 0;
      while y < dimY
        invariant 0 <= y <= dimY && grid.Length0 == dimX && grid.Length1 == dimY
        invariant dimX == old(dimX) && dimY == old(dimY) && heights == old(heights)
        invariant forall i, j :: 0 <= i < dimX && 0 <= j < y ==> grid[i, j] == 0.0
      {
        var x := 0;
        while x < dimX
          invariant 0 <= x <= dimX
          invariant dimX == old(dimX) && dimY == old(dimY) && heights == old(heights)
          invariant forall i, j :: 0 <= i < dimX && 0 <= j < y ==> grid[i, j] == 0.0
          invariant forall i :: 0 <= i < x ==> grid[i, y] == 0.0
        {
          grid[x, y] := 0.0;
          x := x + 1;
        }
        y := y + 1;
      }
      heights := grid;
    }

    /** The Dimensions setter: stores the new dimensions and rebuilds the grid. */
    method SetDimensions(newX: nat, newY: nat)
      requires Valid()
      modifies this
      ensures Valid()
      ensures dimX == newX && dimY == newY
      ensures !hasPrefab ==> heights == null
      ensures hasPrefab ==>
        heights != null && fresh(heights) &&
        forall x, y :: 0 <= x < dimX && 0 <= y < dimY ==> heights[x, y] == 0.0
    {
      dimX, dimY := newX, newY;
      CreatePistons();
    }

    /** Drives piston (x, y) to pistonDistance * clamp(distance, 0, 1).
        Fails, changing nothing, when (x, y) is off the board or no grid exists. */
    method SetPistonPosition(x: int, y: int, distance: real) returns (r: Outcome)
      requires Valid()
      modifies heights
      ensures Valid()
      ensures r == if !(0 <= x < dimX && 0 <= y < dimY) then Fail(InvalidPosition)
                   else if heights == null then Fail(NoPistons)
                   else Pass
      ensures heights != null ==> forall i, j :: 0 <= i < dimX && 0 <= j < dimY ==>
        heights[i, j] == if r.Pass? && i == x && j == y then Actuation(pistonDistance, distance)
                         else old(heights[i, j])
    {
      if !(0 <= x < dimX && 0 <= y < dimY) {
        return Fail(InvalidPosition);
      }
      if heights == null {
        return Fail(NoPistons);
      }
      heights[x, y] := Actuation(pistonDistance, distance);
      r := Pass;
    }

    /** Drives every piston (x, y) to positions[x, y]. Both checks come before any
        write, so a refused call changes no piston. */
    method SetPistonPositions(positions: array2<real>) returns (r: Outcome)
      requires Valid()
      modifies heights
      ensures Valid()
      ensures r == if heights == null then Fail(NoPistons)
                   else if positions.Length0 != dimX || positions.Length1 != dimY then Fail(ShapeMismatch)
                   else Pass
      ensures heights != null ==> forall i, j :: 0 <= i < dimX && 0 <= j < dimY ==>
        heights[i, j] == if r.Pass? then Actuation(pistonDistance, old(positions[i, j]))
                         else old(heights[i, j])
    {
      if heights == null {
        return Fail(NoPistons);
      }
      if positions.Length0 != dimX || positions.Length1 != dimY {
        return Fail(ShapeMismatch);
      }
      var y := 0;
      while y < dimY
        invariant 0 <= y <= dimY
        invariant Valid()
        invariant forall i, j :: 0 <= i < dimX && 0 <= j < y ==>
          heights[i, j] == Actuation(pistonDistance, old(positions[i, j]))
        invariant forall i, j :: 0 <= i < dimX && y <= j < dimY ==>
          heights[i, j] == old(heights[i, j]) && positions[i, j] == old(positions[i, j])
      {
        var x := 0;
        while x < dimX
          invariant 0 <= x <= dimX
          invariant Valid()
          invariant forall i, j :: 0 <= i < dimX && 0 <= j < y ==>
            heights[i, j] == Actuation(pistonDistance, old(positions[i, j]))
          invariant forall i :: 0 <= i < x ==>
            heights[i, y] == Actuation(pistonDistance, old(positions[i, y]))
          invariant forall i :: x <= i < dimX ==>
            heights[i, y] == old(heights[i, y]) && positions[i, y] == old(positions[i, y])
          invariant forall i, j :: 0 <= i < dimX && y < j < dimY ==>
            heights[i, j] == old(heights[i, j]) && positions[i, j] == old(positions[i, j])
        {
          var ok := SetPistonPosition(x, y, positions[x, y]);
          assert ok == Pass;
          x := x + 1;
        }
        y := y + 1;
      }
      r := Pass;
    }
  }
}
