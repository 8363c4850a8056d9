/** The tower field: a row of towers of stacked cells that the player bombs
    and the plane must avoid. A field is generated from one random height per
    tower; destroyed cells stay in their tower, marked as no longer alive. */
module Field {

  /** Number of towers in every field. */
  const NumTowers: nat := 20
  /** Tallest tower a field may hold, in cells. */
  const MaxTowerHeight: nat := 10

  datatype Option<T> = None | Some(value: T)

  /** One square segment of a tower. `column` is the tower's slot on the
      playfield, `level` the number of cells below it, and `alive` turns false
      when a bomb destroys it (the game moves such a cell off-screen but keeps
      it in its tower). */
  datatype Cell = Cell(column: int, level: nat, alive: bool)

  type Tower = seq<Cell>

  /** A place in a field: tower index, then cell index within that tower. */
  datatype Spot = Spot(tower: nat, cell: nat)

  /** Column of the leftmost tower, `-NUM_TOWERS // 2`. Dafny's `/` with a
      positive divisor rounds toward negative infinity, as Python's `//` does. */
  const FirstColumn: int := (-(NumTowers as int)) / 2

  /** What the random source must supply for one field: a height in
      [1, MaxTowerHeight] for each tower. */
  predicate ValidHeights(heights: seq<int>) {
    |heights| == NumTowers &&
    forall i :: 0 <= i < |heights| ==> 1 <= heights[i] <= MaxTowerHeight
  }

  /** The shape every field has: NumTowers towers, each 1..MaxTowerHeight
      cells tall, tower i standing in column FirstColumn + i with its cells at
      consecutive levels from the ground up. */
  predicate WellFormed(f: seq<Tower>) {
    && |f| == NumTowers
    && (forall i :: 0 <= i < |f| ==> 1 <= |f[i]| <= MaxTowerHeight)
    && (forall i, l :: 0 <= i < |f| && 0 <= l < |f[i]| ==>
          f[i][l].column == FirstColumn + i && f[i][l].level == l)
  }

  predicate AllAlive(f: seq<Tower>) {
    forall i, l :: 0 <= i < |f| && 0 <= l < |f[i]| ==> f[i][l].alive
  }

  predicate InField(f: seq<Tower>, s: Spot) {
    s.tower < |f| && s.cell < |f[s.tower]|
  }

  function Heights(f: seq<Tower>): (hs: seq<int>)
    ensures |hs| == |f|
  {
    seq(|f|, i requires 0 <= i < |f| => |f[i]|)
  }

  function Sum(s: seq<int>): int {
    if |s| == 0 then 0 else s[0] + Sum(s[1..])
  }

  /** Number of cells in a field, destroyed ones included. */
  function TotalCells(f: seq<Tower>): nat {
    if |f| == 0 then 0 else |f[0]| + TotalCells(f[1..])
  }

  function LiveInTower(t: Tower): nat {
    if |t| == 0 then 0 else (if t[0].alive then 1 else 0) + LiveInTower(t[1..])
  }

  /** Number of cells of a field not yet destroyed. */
  function LiveCells(f: seq<Tower>): nat {
    if |f| == 0 then 0 else LiveInTower(f[0]) + LiveCells(f[1..])
  }

  // ---------------------------------------------------------------------
  // Generation
  // ---------------------------------------------------------------------

  /** A fresh tower of `height` cells standing in `column`. */
  function NewTower(column: int, height: nat): (t: Tower)
    ensures |t| == height
    ensures forall l :: 0 <= l < height ==> t[l] == Cell(column, l, true)
  {
    if height == 0 then [] else NewTower(column, height - 1) + [Cell(column, height - 1, true)]
  }

  function Raise(heights: seq<int>, column: int): (f: seq<Tower>)
    requires forall i :: 0 <= i < |heights| ==> heights[i] >= 0
    ensures |f| == |heights|
    ensures forall i :: 0 <= i < |f| ==> f[i] == NewTower(column + i, heights[i] as nat)
  {
    if |heights| == 0 then []
    else [NewTower(column, heights[0] as nat)] + Raise(heights[1..], column + 1)
  }

  /** A new field from one random draw per tower. The field has the drawn
      heights, the standard shape, only live cells, and as many cells as the
      heights add up to. */
  function GetTowers(heights: seq<int>): (f: seq<Tower>)
    requires ValidHeights(heights)
    ensures WellFormed(f)
    ensures AllAlive(f)
    ensures Heights(f) == heights
    ensures TotalCells(f) == Sum(heights)
    ensures LiveCells(f) == TotalCells(f)
  {
    var f := Raise(heights, FirstColumn);
    TotalIsSumOfHeights(f);
    LiveOfAllAlive(f);
    f
  }

  /** Conversely, every well-formed field of live cells is the field the
      generator builds from that field's own heights. */
  lemma GeneratorIsOnto(f: seq<Tower>)
    requires WellFormed(f) && AllAlive(f)
    ensures ValidHeights(Heights(f))
    ensures GetTowers(Heights(f)) == f
  {
    var g := GetTowers(Heights(f));
    forall i | 0 <= i < |f|
      ensures g[i] == f[i]
    {
      assert |g[i]| == |f[i]|;
      forall l | 0 <= l < |f[i]|
        ensures g[i][l] == f[i][l]
      {
        assert g[i][l].column == FirstColumn + i;
        assert g[i][l].level == l;
      }
    }
  }

  lemma {:induction false} TotalIsSumOfHeights(f: seq<Tower>)
    ensures TotalCells(f) == Sum(Heights(f))
  {
    if |f| > 0 {
      assert Heights(f[1..]) == Heights(f)[1..];
      TotalIsSumOfHeights(f[1..]);
    }
  }

  lemma {:induction false} LiveOfAllAliveTower(t: Tower)
    requires forall l :: 0 <= l < |t| ==> t[l].alive
    ensures LiveInTower(t) == |t|
  {
    if |t| > 0 {
      LiveOfAllAliveTower(t[1..]);
    }
  }

  lemma {:induction false} LiveOfAllAlive(f: seq<Tower>)
    requires AllAlive(f)
    ensures LiveCells(f) == TotalCells(f)
  {
    if |f| > 0 {
      assert forall l :: 0 <= l < |f[0]| ==> f[0][l].alive;
      LiveOfAllAliveTower(f[0]);
      assert AllAlive(f[1..]) by {
        forall i, l | 0 <= i < |f[1..]| && 0 <= l < |f[1..][i]|
          ensures f[1..][i][l].alive
        {
          assert f[1..][i] == f[i + 1];
        }
      }
      LiveOfAllAlive(f[1..]);
    }
  }

  /** Every field has between NumTowers and NumTowers * MaxTowerHeight cells. */
  lemma TotalCellsBounds(f: seq<Tower>)
    requires WellFormed(f)
    ensures NumTowers <= TotalCells(f) <= NumTowers * MaxTowerHeight
  {
    TowerCountBounds(f);
  }

  lemma {:induction false} TowerCountBounds(f: seq<Tower>)
    requires forall i :: 0 <= i < |f| ==> 1 <= |f[i]| <= MaxTowerHeight
    ensures |f| <= TotalCells(f) <= |f| * MaxTowerHeight
  {
    if |f| > 0 {
      assert forall i :: 0 <= i < |f[1..]| ==> f[1..][i] == f[i + 1];
      TowerCountBounds(f[1..]);
    }
  }

  // ---------------------------------------------------------------------
  // Live cells
  // ---------------------------------------------------------------------

  lemma {:induction false} LiveInTowerBound(t: Tower)
    ensures LiveInTower(t) <= |t|
  {
    if |t| > 0 {
      LiveInTowerBound(t[1..]);
    }
  }

  /** No more cells are alive than there are cells. */
  lemma {:induction false} LiveAtMostTotal(f: seq<Tower>)
    ensures LiveCells(f) <= TotalCells(f)
  {
    if |f| > 0 {
      LiveInTowerBound(f[0]);
      LiveAtMostTotal(f[1..]);
    }
  }

  lemma {:induction false} NoLiveInTower(t: Tower)
    ensures LiveInTower(t) == 0 <==> forall l :: 0 <= l < |t| ==> !t[l].alive
  {
    if |t| > 0 {
      NoLiveInTower(t[1..]);
      assert forall l :: 1 <= l < |t| ==> t[l] == t[1..][l - 1];
    }
  }

  /** A field's live count is zero exactly when every cell is destroyed. */
  lemma {:induction false} ClearedIffNoLive(f: seq<Tower>)
    ensures LiveCells(f) == 0 <==>
            forall i, l :: 0 <= i < |f| && 0 <= l < |f[i]| ==> !f[i][l].alive
  {
    if |f| > 0 {
      NoLiveInTower(f[0]);
      ClearedIffNoLive(f[1..]);
      assert forall i :: 1 <= i < |f| ==> f[i] == f[1..][i - 1];
    }
  }

  // ---------------------------------------------------------------------
  // Collision search
  // ---------------------------------------------------------------------

  /** Whether `touches` holds of some cell of the field, live or destroyed. */
  predicate AnyTouched(f: seq<Tower>, touches: Cell -> bool) {
    exists i, l :: 0 <= i < |f| && 0 <= l < |f[i]| && touches(f[i][l])
  }

  /** The first cell of a tower, bottom up, that `touches` holds of. */
  function FirstInTower(t: Tower, touches: Cell -> bool): (r: Option<nat>)
    ensures r.Some? ==> r.value < |t| && touches(t[r.value])
    ensures r.Some? ==> forall l :: 0 <= l < r.value ==> !touches(t[l])
    ensures r.None? ==> forall l :: 0 <= l < |t| ==> !touches(t[l])
  {
    if |t| == 0 then None
    else if touches(t[0]) then Some(0)
    else
      match FirstInTower(t[1..], touches)
      case None => None
      case Some(l) => Some(l + 1)
  }

  /** The first cell of the field, in tower order and then bottom up within a
      tower, that `touches` holds of: the cell the game's nested scan stops
      at. No result means no cell is touched. */
  function FirstHit(f: seq<Tower>, touches: Cell -> bool): (r: Option<Spot>)
    ensures r.Some? ==> InField(f, r.value) && touches(f[r.value.tower][r.value.cell])
    ensures r.Some? ==> forall i, l :: 0 <= i < r.value.tower && 0 <= l < |f[i]| ==> !touches(f[i][l])
    ensures r.Some? ==> forall l :: 0 <= l < r.value.cell ==> !touches(f[r.value.tower][l])
    ensures r.None? ==> forall i, l :: 0 <= i < |f| && 0 <= l < |f[i]| ==> !touches(f[i][l])
    ensures r.Some? <==> AnyTouched(f, touches)
  {
    if |f| == 0 then None
    else
      match FirstInTower(f[0], touches)
      case Some(l) => Some(Spot(0, l))
      case None =>
        var rest := FirstHit(f[1..], touches);
        assert forall i :: 1 <= i < |f| ==> f[i] == f[1..][i - 1];
        match rest
        case None => None
        case Some(s) => Some(Spot(s.tower + 1, s.cell))
  }

  // ---------------------------------------------------------------------
  // Destruction
  // ---------------------------------------------------------------------

  /** The field after the cell at `s` is destroyed. */
  function Destroy(f: seq<Tower>, s: Spot): (f': seq<Tower>)
    requires InField(f, s)
    ensures |f'| == |f|
    ensures forall i :: 0 <= i < |f| ==> |f'[i]| == |f[i]|
    ensures !f'[s.tower][s.cell].alive
    ensures f'[s.tower][s.cell].column == f[s.tower][s.cell].column
    ensures f'[s.tower][s.cell].level == f[s.tower][s.cell].level
    ensures forall i, l :: 0 <= i < |f| && 0 <= l < |f[i]| && Spot(i, l) != s ==> f'[i][l] == f[i][l]
  {
    var t := f[s.tower];
    f[s.tower := t[s.cell := t[s.cell].(alive := false)]]
  }

  /** Destroying a cell keeps the field's shape. */
  lemma DestroyKeepsShape(f: seq<Tower>, s: Spot)
    requires WellFormed(f) && InField(f, s)
    ensures WellFormed(Destroy(f, s))
    ensures Heights(Destroy(f, s)) == Heights(f)
    ensures TotalCells(Destroy(f, s)) == TotalCells(f)
  {
    var f' := Destroy(f, s);
    TotalIsSumOfHeights(f);
    TotalIsSumOfHeights(f');
  }

  lemma {:induction false} KillInTower(t: Tower, l: nat)
    requires l < |t| && t[l].alive
    ensures LiveInTower(t[l := t[l].(alive := false)]) == LiveInTower(t) - 1
  {
    var t' := t[l := t[l].(alive := false)];
    if l == 0 {
      assert t'[1..] == t[1..];
    } else {
      assert t'[1..] == t[1..][l - 1 := t[l].(alive := false)];
      KillInTower(t[1..], l - 1);
    }
  }

  /** Destroying a live cell lowers the live count by exactly one. */
  lemma {:induction false} DestroyLive(f: seq<Tower>, s: Spot)
    requires InField(f, s) && f[s.tower][s.cell].alive
    ensures LiveCells(Destroy(f, s)) == LiveCells(f) - 1
  {
    var t := f[s.tower];
    var t' := t[s.cell := t[s.cell].(alive := false)];
    var f' := Destroy(f, s);
    assert f' == f[s.tower := t'];
    if s.tower == 0 {
      KillInTower(t, s.cell);
      assert f'[1..] == f[1..];
    } else {
      assert f'[1..] == Destroy(f[1..], Spot(s.tower - 1, s.cell));
      DestroyLive(f[1..], Spot(s.tower - 1, s.cell));
    }
  }
}
