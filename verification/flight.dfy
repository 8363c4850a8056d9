/** The plane's flight: left to right across the playfield in fixed strides,
    wrapping back to the left edge one cell lower each time it leaves the
    right edge. */
module Flight {
  import opened Field

  /** Horizontal distance the plane covers per tick, in pixels. */
  const Stride: int := 12

  /** The playfield in pixels: the window size less a 50-pixel margin. The
      origin is its centre. */
  datatype Screen = Screen(width: int, height: int)

  /** The plane's column position in pixels and the number of times it has
      wrapped, which fixes its altitude. */
  datatype Plane = Plane(x: int, row: nat)

  /** `- width // 2`: the x where the plane enters each sweep. */
  function LeftEdge(sc: Screen): int { (-sc.width) / 2 }

  /** `width // 2`: the plane wraps once it is beyond this x. */
  function RightEdge(sc: Screen): int { sc.width / 2 }

  /** `height // 2`: the y where the plane starts. */
  function Top(sc: Screen): int { sc.height / 2 }

  /** `- height // 2`: a bomb below this y has left the playfield. */
  function Bottom(sc: Screen): int { (-sc.height) / 2 }

  /** Side of a tower cell: the playfield width shared among the towers. */
  function CellSize(sc: Screen): real { sc.width as real / NumTowers as real }

  /** Where each game and each level starts the plane. */
  function Start(sc: Screen): Plane { Plane(LeftEdge(sc), 0) }

  /** The plane's y after `row` wraps: one cell size lower per wrap. */
  function Altitude(sc: Screen, row: nat): real {
    Top(sc) as real - row as real * CellSize(sc)
  }

  /** One tick of horizontal motion. The plane drops a row exactly when it
      was past the right edge, and then re-enters at the left edge; otherwise
      it moves one stride right at the same altitude. */
  function Step(sc: Screen, p: Plane): (q: Plane)
    ensures q.row == p.row + 1 <==> p.x > RightEdge(sc)
    ensures q.row == p.row || q.row == p.row + 1
    ensures q.row != p.row ==> q.x == LeftEdge(sc)
    ensures q.row == p.row ==> q.x == p.x + Stride
  {
    if p.x > RightEdge(sc) then Plane(LeftEdge(sc), p.row + 1)
    else Plane(p.x + Stride, p.row)
  }

  /** The plane after `n` ticks. */
  function Advance(sc: Screen, p: Plane, n: nat): Plane
    decreases n
  {
    if n == 0 then p else Advance(sc, Step(sc, p), n - 1)
  }

  /** However many ticks pass, the plane's x stays between the left edge and
      one stride past the right edge, its row never decreases, and so on a
      playfield of positive width it never climbs. */
  lemma {:induction false} FlightStaysInBand(sc: Screen, p: Plane, n: nat)
    requires sc.width > 0
    requires LeftEdge(sc) <= p.x <= RightEdge(sc) + Stride
    ensures LeftEdge(sc) <= Advance(sc, p, n).x <= RightEdge(sc) + Stride
    ensures Advance(sc, p, n).row >= p.row
    ensures Altitude(sc, Advance(sc, p, n).row) <= Altitude(sc, p.row)
    decreases n
  {
    if n > 0 {
      FlightStaysInBand(sc, Step(sc, p), n - 1);
      var q := Advance(sc, p, n);
      assert (q.row - p.row) as real * CellSize(sc) >= 0.0;
    }
  }

  /** Number of strides the plane takes across one sweep before it is past
      the right edge. */
  function SweepStrides(sc: Screen): nat
    requires sc.width >= 0
  {
    (RightEdge(sc) - LeftEdge(sc)) / Stride + 1
  }

  /** Within a sweep, the plane is k strides right of the left edge after k
      ticks, at the same altitude. */
  lemma {:induction false} SweepProgress(sc: Screen, row: nat, k: nat)
    requires sc.width >= 0
    requires k <= SweepStrides(sc)
    ensures Advance(sc, Plane(LeftEdge(sc), row), k) == Plane(LeftEdge(sc) + k * Stride, row)
  {
    if k > 0 {
      SweepProgress(sc, row, k - 1);
      AdvanceLast(sc, Plane(LeftEdge(sc), row), k - 1);
      assert LeftEdge(sc) + (k - 1) * Stride <= RightEdge(sc);
    }
  }

  lemma {:induction false} AdvanceLast(sc: Screen, p: Plane, n: nat)
    ensures Advance(sc, p, n + 1) == Step(sc, Advance(sc, p, n))
    decreases n
  {
    if n > 0 {
      AdvanceLast(sc, Step(sc, p), n - 1);
    }
  }

  /** A full sweep: entering at the left edge, the plane takes exactly
      SweepStrides + 1 ticks to be back at the left edge one row lower, and
      does not wrap earlier. */
  lemma Sweep(sc: Screen, row: nat)
    requires sc.width >= 0
    ensures Advance(sc, Plane(LeftEdge(sc), row), SweepStrides(sc) + 1) == Plane(LeftEdge(sc), row + 1)
    ensures forall k :: 0 <= k <= SweepStrides(sc) ==> Advance(sc, Plane(LeftEdge(sc), row), k).row == row
  {
    var n := SweepStrides(sc);
    var p := Plane(LeftEdge(sc), row);
    SweepProgress(sc, row, n);
    AdvanceLast(sc, p, n);
    assert LeftEdge(sc) + n * Stride > RightEdge(sc);
    forall k | 0 <= k <= n
      ensures Advance(sc, p, k).row == row
    {
      SweepProgress(sc, row, k);
    }
  }

  /** Each wrap lowers the plane by one cell size. */
  lemma WrapLowers(sc: Screen, p: Plane)
    requires sc.width > 0
    requires p.x > RightEdge(sc)
    ensures Altitude(sc, Step(sc, p).row) == Altitude(sc, p.row) - CellSize(sc)
    ensures Altitude(sc, Step(sc, p).row) < Altitude(sc, p.row)
  {
  }
}
