/** The rain-drop ripple effect: it keeps a list of drops and, on every fixed
    tick, prunes the expired ones, evaluates the ripple surface at every piston
    of the board and hands the matrix of values to the board. */
module Rain {
  import opened Pistons
  import opened Raindrops

  datatype Option<T> = None | Some(value: T)

  function Abs(x: real): (r: real) {
    if x < 0.0 then -x else x
  }

  function Max(a: real, b: real): (m: real) {
    if a > b then a else b
  }

  /** Sample coordinate of column (or row) i of n, as the C# code writes it: the
      float division i / (n - 1) is 0 / 0, a NaN, when n == 1; None stands for it. */
  function SampleCoordinateAsWritten(i: nat, n: nat): (c: Option<real>)
    requires i < n
    ensures c.None? <==> n == 1
  {
    if n - 1 == 0 then None else Some(i as real / (n - 1) as real)
  }

  /** On a board with a single column (or row) the as-written coordinate is undefined. */
  lemma SingleColumnSampleUndefined()
    ensures SampleCoordinateAsWritten(0, 1) == None
  {
  }

  /** Sample coordinate of column (or row) i of n, spread evenly over [0, 1];
      a board one piston wide samples coordinate 0. */
  function SampleCoordinate(i: nat, n: nat): (c: real)
    requires i < n
    ensures 0.0 <= c <= 1.0
    ensures i == 0 ==> c == 0.0
    ensures n > 1 && i == n - 1 ==> c == 1.0
    ensures n > 1 ==> SampleCoordinateAsWritten(i, n) == Some(c)
  {
    if n == 1 then 0.0 else i as real / (n - 1) as real
  }

  /** Neighbouring columns are the same distance 1 / (n - 1) apart. */
  lemma SampleSpacing(i: nat, n: nat)
    requires i + 1 < n
    ensures SampleCoordinate(i + 1, n) - SampleCoordinate(i, n) == 1.0 / (n - 1) as real
  {
  }

  /** The normalised point a piston at (x, y) samples. */
  function SamplePoint(x: nat, y: nat, dimX: nat, dimY: nat): (p: Point)
    requires x < dimX && y < dimY
    ensures 0.0 <= p.x <= 1.0 && 0.0 <= p.y <= 1.0
  {
    Point(SampleCoordinate(x, dimX), SampleCoordinate(y, dimY))
  }

  /** The contribution max(0, 1 - (d / rippleRange)^2) of a ripple whose front
      is at signed distance d: 1 exactly on the front, 0 once rippleRange away. */
  function Contribution(d: real, rippleRange: real): (c: real)
    requires rippleRange != 0.0
    ensures 0.0 <= c <= 1.0
    ensures c == 1.0 <==> d == 0.0
    ensures c == 0.0 <==> Abs(d) >= Abs(rippleRange)
  {
    var q := d / rippleRange;
    assert d == q * rippleRange;
    assert Abs(d) == Abs(q) * Abs(rippleRange);
    assert Abs(q) >= 1.0 <==> q * q >= 1.0 by {
      if Abs(q) >= 1.0 {
        assert Abs(q) * Abs(q) >= 1.0 * Abs(q);
      } else {
        assert Abs(q) * Abs(q) <= 1.0 * Abs(q);
        if Abs(q) > 0.0 {
          assert Abs(q) * Abs(q) < 1.0 * 1.0;
        }
      }
      assert q * q == Abs(q) * Abs(q);
    }
    assert Abs(q) >= 1.0 <==> Abs(d) >= Abs(rippleRange) by {
      if Abs(q) >= 1.0 {
        assert Abs(q) * Abs(rippleRange) >= 1.0 * Abs(rippleRange);
      } else {
        assert Abs(q) * Abs(rippleRange) < 1.0 * Abs(rippleRange);
      }
    }
    Max(0.0, -(q * q) + 1.0)
  }

  /** All drops can be evaluated: none has a zero spread time. */
  predicate Spreading(drops: seq<Raindrop>) {
    forall d :: d in drops ==> d.spreadTime != 0.0
  }

  /** What a single drop contributes at a point. */
  function DropContribution(d: Raindrop, point: Point, now: real, rippleRange: real,
                            dist: (Point, Point) -> real): (c: real)
    requires d.spreadTime != 0.0 && rippleRange != 0.0
    ensures 0.0 <= c <= 1.0
    ensures c == 1.0 <==> dist(point, d.origin) == CurrentRadius(d, now)
    ensures c == 0.0 <==> Abs(DistanceFromRipple(d, point, now, dist)) >= Abs(rippleRange)
  {
    Contribution(DistanceFromRipple(d, point, now, dist), rippleRange)
  }

  /** Every drop's contribution at a point, in list order (the LINQ Select). */
  function Contributions(drops: seq<Raindrop>, point: Point, now: real, rippleRange: real,
                         dist: (Point, Point) -> real): (cs: seq<real>)
    requires Spreading(drops) && rippleRange != 0.0
  {
    seq(|drops|, i requires 0 <= i < |drops| => DropContribution(drops[i], point, now, rippleRange, dist))
  }

  function Sum(xs: seq<real>): (total: real) {
    if xs == [] then 0.0 else xs[0] + Sum(xs[1..])
  }

  /** The arithmetic mean (the LINQ Average) of a non-empty list. */
  function Mean(xs: seq<real>): (m: real)
    requires |xs| > 0
    ensures m * |xs| as real == Sum(xs)
  {
    Sum(xs) / |xs| as real
  }

  lemma {:induction false} SumBounds(xs: seq<real>)
    requires forall i :: 0 <= i < |xs| ==> 0.0 <= xs[i] <= 1.0
    ensures 0.0 <= Sum(xs) <= |xs| as real
  {
    if xs != [] {
      SumBounds(xs[1..]);
    }
  }

  /** The mean of values in [0, 1] lies in [0, 1]. */
  lemma MeanBounds(xs: seq<real>)
    requires |xs| > 0
    requires forall i :: 0 <= i < |xs| ==> 0.0 <= xs[i] <= 1.0
    ensures 0.0 <= Mean(xs) <= 1.0
  {
    SumBounds(xs);
    var n := |xs| as real;
    assert Mean(xs) * n == Sum(xs);
  }

  lemma {:induction false} SumConcat(a: seq<real>, b: seq<real>)
    ensures Sum(a + b) == Sum(a) + Sum(b)
  {
    if a == [] {
      assert a + b == b;
    } else {
      assert (a + b)[1..] == a[1..] + b;
      SumConcat(a[1..], b);
    }
  }

  /** The value written for the piston sampling point: the mean contribution of
      the drops, or 0 when there are none. */
  function CellValue(drops: seq<Raindrop>, point: Point, now: real, rippleRange: real,
                     dist: (Point, Point) -> real): (v: real)
    requires Spreading(drops) && rippleRange != 0.0
    ensures 0.0 <= v <= 1.0
    ensures drops == [] ==> v == 0.0
  {
    if |drops| > 0 then
      var cs := Contributions(drops, point, now, rippleRange, dist);
      MeanBounds(cs);
      Mean(cs)
    else
      0.0
  }

  /** Finds in t the first drop of s; what remains of both is again a permutation. */
  lemma PickMatch(s: seq<Raindrop>, t: seq<Raindrop>) returns (i: nat)
    requires s != [] && multiset(s) == multiset(t)
    ensures i < |t| && t[i] == s[0]
    ensures multiset(s[1..]) == multiset(t[..i] + t[i + 1..])
  {
    var x := s[0];
    assert s == [x] + s[1..];
    assert x in multiset(t);
    i :| 0 <= i < |t| && t[i] == x;
    assert t == t[..i] + [x] + t[i + 1..];
    assert multiset(t) == multiset(t[..i]) + multiset([x]) + multiset(t[i + 1..]);
    assert multiset(s[1..]) == multiset(s) - multiset([x]);
  }

  lemma ContributionsConcat(a: seq<Raindrop>, b: seq<Raindrop>, point: Point, now: real,
                            rippleRange: real, dist: (Point, Point) -> real)
    requires Spreading(a) && Spreading(b) && rippleRange != 0.0
    ensures Spreading(a + b)
    ensures Contributions(a + b, point, now, rippleRange, dist)
         == Contributions(a, point, now, rippleRange, dist) + Contributions(b, point, now, rippleRange, dist)
  {
  }

  /** Taking drop i out of the list takes its contribution out of the total. */
  lemma ContributionSumRemove(t: seq<Raindrop>, i: nat, point: Point, now: real,
                              rippleRange: real, dist: (Point, Point) -> real)
    requires Spreading(t) && rippleRange != 0.0 && i < |t|
    ensures Spreading(t[..i] + t[i + 1..])
    ensures Sum(Contributions(t, point, now, rippleRange, dist))
         == DropContribution(t[i], point, now, rippleRange, dist)
          + Sum(Contributions(t[..i] + t[i + 1..], point, now, rippleRange, dist))
  {
    var cA := Contributions(t[..i], point, now, rippleRange, dist);
    var cB := Contributions(t[i + 1..], point, now, rippleRange, dist);
    var c := DropContribution(t[i], point, now, rippleRange, dist);
    assert t == t[..i] + [t[i]] + t[i + 1..];
    assert Contributions(t, point, now, rippleRange, dist) == cA + [c] + cB;
    ContributionsConcat(t[..i], t[i + 1..], point, now, rippleRange, dist);
    SumConcat(cA + [c], cB);
    SumConcat(cA, [c]);
    SumConcat(cA, cB);
    assert Sum([c]) == c + Sum([c][1..]);
  }

  /** The total contribution does not depend on the order of the drops. */
  lemma {:induction false} ContributionSumPermutation(s: seq<Raindrop>, t: seq<Raindrop>, point: Point, now: real,
                                                      rippleRange: real, dist: (Point, Point) -> real)
    requires Spreading(s) && Spreading(t) && rippleRange != 0.0
    requires multiset(s) == multiset(t)
    ensures Sum(Contributions(s, point, now, rippleRange, dist)) == Sum(Contributions(t, point, now, rippleRange, dist))
  {
    if s == [] {
      assert t == [];
    } else {
      var i := PickMatch(s, t);
      ContributionSumRemove(t, i, point, now, rippleRange, dist);
      ContributionSumPermutation(s[1..], t[..i] + t[i + 1..], point, now, rippleRange, dist);
      var cs := Contributions(s, point, now, rippleRange, dist);
      assert cs[1..] == Contributions(s[1..], point, now, rippleRange, dist);
    }
  }

  /** Each piston's value is unchanged by reordering the drop list. */
  lemma CellValueOrderIndependent(s: seq<Raindrop>, t: seq<Raindrop>, point: Point, now: real,
                                  rippleRange: real, dist: (Point, Point) -> real)
    requires Spreading(s) && Spreading(t) && rippleRange != 0.0
    requires multiset(s) == multiset(t)
    ensures CellValue(s, point, now, rippleRange, dist) == CellValue(t, point, now, rippleRange, dist)
  {
    assert |s| == |multiset(s)| == |t|;
    ContributionSumPermutation(s, t, point, now, rippleRange, dist);
  }

  /** Two ticks over reorderings of the same drops write the same value everywhere. */
  lemma TickOrderIndependent(s: seq<Raindrop>, t: seq<Raindrop>, point: Point, now: real,
                             rippleRange: real, dist: (Point, Point) -> real)
    requires rippleRange != 0.0
    requires forall d :: d in s ==> d.spawnTime <= now
    requires multiset(s) == multiset(t)
    ensures Spreading(Kept(s, now)) && Spreading(Kept(t, now))
    ensures CellValue(Kept(s, now), point, now, rippleRange, dist) == CellValue(Kept(t, now), point, now, rippleRange, dist)
  {
    forall d | d in t ensures d.spawnTime <= now {
      assert d in multiset(t);
    }
    KeptPermutation(s, t, now);
    CellValueOrderIndependent(Kept(s, now), Kept(t, now), point, now, rippleRange, dist);
  }

  /** A single drop contributes its own value: the mean of one contribution. */
  lemma SingleDrop(d: Raindrop, point: Point, now: real, rippleRange: real, dist: (Point, Point) -> real)
    requires d.spreadTime != 0.0 && rippleRange != 0.0
    ensures CellValue([d], point, now, rippleRange, dist) == DropContribution(d, point, now, rippleRange, dist)
  {
    var cs := Contributions([d], point, now, rippleRange, dist);
    assert cs[1..] == [];
    assert Sum(cs) == cs[0] + Sum(cs[1..]);
  }

  /** A single drop drives a piston fully out exactly when the piston samples a
      point on the drop's ripple front. */
  lemma OnFrontIsPeak(d: Raindrop, point: Point, now: real, rippleRange: real, dist: (Point, Point) -> real)
    requires d.spreadTime != 0.0 && rippleRange != 0.0
    ensures CellValue([d], point, now, rippleRange, dist) == 1.0 <==> dist(point, d.origin) == CurrentRadius(d, now)
  {
    SingleDrop(d, point, now, rippleRange, dist);
  }

  /** When every drop has expired by now, every piston is written 0. */
  lemma NoLiveDropsRetracts(s: seq<Raindrop>, point: Point, now: real, rippleRange: real,
                            dist: (Point, Point) -> real, pistonDistance: real)
    requires rippleRange != 0.0
    requires forall d :: d in s ==> ReadyToRemove(d, now)
    ensures Kept(s, now) == []
    ensures Actuation(pistonDistance, CellValue(Kept(s, now), point, now, rippleRange, dist)) == 0.0
  {
    AllExpired(s, now);
  }

  class RainDropEffect {
    /** The board the effect drives. */
    const board: PistonBoard
    const rippleRange: real
    var raindrops: seq<Raindrop>

    ghost predicate Valid()
      reads this, board, board.heights
    {
      board.Valid() && rippleRange != 0.0
    }

    constructor (board: PistonBoard, rippleRange: real)
      requires board.Valid() && rippleRange != 0.0
      ensures Valid()
      ensures this.board == board && this.rippleRange == rippleRange
      ensures raindrops == []
    {
      this.board := board;
      this.rippleRange := rippleRange;
      raindrops := [];
    }

    /** Appends a drop; the earlier drops stay as they were. */
    method AddRaindrop(r: Raindrop)
      requires Valid()
      modifies this
      ensures Valid()
      ensures raindrops == old(raindrops) + [r]
    {
      raindrops := raindrops + [r];
    }

    /** Removes every drop that is ready to be removed at time now, keeping the
        others in their order. */
    method RemoveExpired(now: real)
      requires Valid()
      modifies this
      ensures Valid()
      ensures raindrops == Kept(old(raindrops), now)
    {
      var drops, kept := raindrops, [];
      var i := 0;
      while i < |drops|
        invariant 0 <= i <= |drops|
        invariant kept == Kept(drops[..i], now)
      {
        var d := drops[i];
        KeptConcat(drops[..i], [d], now);
        assert drops[..i + 1] == drops[..i] + [d];
        assert [d][1..] == [];
        if !ReadyToRemove(d, now) {
          kept := kept + [d];
        }
        i := i + 1;
      }
      assert drops[..i] == drops;
      raindrops := kept;
    }

    /** The matrix of values for a dimX x dimY board: the value of piston
        (x, y) is the cell value of the live drops at its sample point. */
    method Evaluate(live: seq<Raindrop>, dimX: nat, dimY: nat, now: real, dist: (Point, Point) -> real)
      returns (distances: array2<real>)
      requires Spreading(live) && rippleRange != 0.0
      ensures fresh(distances) && distances.Length0 == dimX && distances.Length1 == dimY
      ensures forall x, y :: 0 <= x < dimX && 0 <= y < dimY ==>
        distances[x, y] == CellValue(live, SamplePoint(x, y, dimX, dimY), now, rippleRange, dist)
    {
      distances := new real[dimX, dimY];
      var y := 0;
      while y < dimY
        invariant 0 <= y <= dimY
        invariant forall i, j :: 0 <= i < dimX && 0 <= j < y ==>
          distances[i, j] == CellValue(live, SamplePoint(i, j, dimX, dimY), now, rippleRange, dist)
      {
        var x := 0;
        while x < dimX
          invariant 0 <= x <= dimX
          invariant forall i, j :: 0 <= i < dimX && 0 <= j < y ==>
            distances[i, j] == CellValue(live, SamplePoint(i, j, dimX, dimY), now, rippleRange, dist)
          invariant forall i :: 0 <= i < x ==>
            distances[i, y] == CellValue(live, SamplePoint(i, y, dimX, dimY), now, rippleRange, dist)
        {
          var point := SamplePoint(x, y, dimX, dimY);
          distances[x, y] := CellValue(live, point, now, rippleRange, dist);
          x := x + 1;
        }
        y := y + 1;
      }
    }

    /** One fixed tick at time now: prune, evaluate every piston, write the board.
        The matrix always has the board's shape, so the only refusal is a board
        without pistons. */
    method FixedUpdate(now: real, dist: (Point, Point) -> real) returns (r: Outcome)
      requires Valid()
      requires forall d :: d in raindrops ==> d.spawnTime <= now
      modifies this, board.heights
      ensures Valid()
      ensures raindrops == Kept(old(raindrops), now)
      ensures forall d :: d in raindrops ==> d.spawnTime <= now < d.spawnTime + d.spreadTime
      ensures Spreading(raindrops)
      ensures r == if board.heights == null then Fail(NoPistons) else Pass
      ensures board.heights != null ==> forall x, y :: 0 <= x < board.dimX && 0 <= y < board.dimY ==>
        board.heights[x, y] == Actuation(board.pistonDistance,
          CellValue(raindrops, SamplePoint(x, y, board.dimX, board.dimY), now, rippleRange, dist))
    {
      RemoveExpired(now);
      assert Spreading(raindrops) by {
        forall d | d in raindrops ensures d.spreadTime != 0.0 {
          assert d in old(raindrops);
        }
      }
      var distances := Evaluate(raindrops, board.dimX, board.dimY, now, dist);
      r := board.SetPistonPositions(distances);
    }
  }
}
