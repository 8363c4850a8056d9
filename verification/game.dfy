/** The game state and its transitions: scoring a bomb hit, the crash and
    level-win restarts, one tick of the plane, the space-bar bomb release and
    one tick of a falling bomb. Collision geometry is a parameter: a probe
    that says whether an object at (x, y) is within striking distance of a
    cell. */
module Game {
  import opened Field
  import opened Flight

  /** Points awarded for each destroyed cell. */
  const PointsPerCell: int := 10
  /** Vertical distance a bomb falls per tick, in pixels. */
  const BombStride: real := 12.0

  /** Whether an object centred at (x, y) is close enough to a cell to hit
      it. The game compares a distance with half a cell size plus a margin;
      the plane and the bomb use different margins. */
  type Probe = (int, real, Cell) -> bool

  datatype Geometry = Geometry(plane: Probe, bomb: Probe)

  /** The bomb's drop chain: no drop running, or a bomb falling at (x, y). */
  datatype Bomb = Idle | Falling(x: int, y: real)

  /** Everything the game keeps between ticks. `armed` says whether the
      space key is bound to the bomb release. */
  datatype GameState = GameState(
    score: int,
    highScore: int,
    winningScore: int,
    playing: bool,
    towers: seq<Tower>,
    plane: Plane,
    bomb: Bomb,
    armed: bool)

  datatype Outcome = Flying | Crashed | LevelWon

  /** What a plane tick did and the state it left. */
  datatype Tick = Tick(outcome: Outcome, state: GameState)

  /** The cell test a probe makes for an object at (x, y). */
  function At(probe: Probe, x: int, y: real): Cell -> bool {
    c => probe(x, y, c)
  }

  /** The state right after window setup: no score yet, high score zero, no
      field (the first restart finds no previous towers), the plane at the
      start and the space key bound. */
  function Setup(sc: Screen): (g: GameState)
    ensures g.highScore == 0
    ensures g.armed && g.bomb.Idle?
    ensures g.plane == Start(sc) && g.plane.x == LeftEdge(sc) && Altitude(sc, g.plane.row) == Top(sc) as real
    ensures g.towers == []
  {
    GameState(0, 0, 0, false, [], Start(sc), Idle, true)
  }

  // ---------------------------------------------------------------------
  // Scoring
  // ---------------------------------------------------------------------

  /** A bomb strikes the cell at `s`: that cell is destroyed, the score rises
      by one cell's worth of points and the high score follows it up. Nothing
      else changes. */
  function BombHit(g: GameState, s: Spot): (r: GameState)
    requires InField(g.towers, s)
    ensures r.score == g.score + PointsPerCell
    ensures r.highScore >= g.highScore && r.highScore >= r.score
    ensures r.highScore == g.highScore || r.highScore == r.score
    ensures r.towers == Destroy(g.towers, s)
    ensures r == g.(score := r.score, highScore := r.highScore, towers := r.towers)
  {
    var score := g.score + PointsPerCell;
    g.(score := score,
       highScore := if score > g.highScore then score else g.highScore,
       towers := Destroy(g.towers, s))
  }

  // ---------------------------------------------------------------------
  // Restart
  // ---------------------------------------------------------------------

  /** A new field drawn from `heights`, with the plane back at the start and
      the game playing. After a crash (`newLevel` false) the score restarts
      at zero and the target is the new field's full value; after a won level
      the score is kept and the new field's value is added to the target. A
      bomb still falling is moved to the start position and keeps falling. */
  function Restart(g: GameState, sc: Screen, heights: seq<int>, newLevel: bool): (r: GameState)
    requires ValidHeights(heights)
    ensures WellFormed(r.towers) && AllAlive(r.towers) && Heights(r.towers) == heights
    ensures LiveCells(r.towers) == TotalCells(r.towers) == Sum(heights)
    ensures !newLevel ==> r.score == 0 && r.winningScore == PointsPerCell * Sum(heights)
    ensures newLevel ==> r.score == g.score && r.winningScore == g.winningScore + PointsPerCell * Sum(heights)
    ensures newLevel ==> r.winningScore >= g.winningScore + PointsPerCell * NumTowers
    ensures r.highScore == g.highScore
    ensures r.playing
    ensures r.plane == Start(sc)
    ensures r.bomb.Falling? <==> g.bomb.Falling?
    ensures r.bomb.Falling? ==> r.bomb == Falling(LeftEdge(sc), Top(sc) as real)
    ensures r.armed == g.armed
  {
    var towers := GetTowers(heights);
    TotalCellsBounds(towers);
    var added := PointsPerCell * TotalCells(towers);
    GameState(
      if newLevel then g.score else 0,
      g.highScore,
      if newLevel then g.winningScore + added else added,
      true,
      towers,
      Start(sc),
      if g.bomb.Falling? then Falling(LeftEdge(sc), Top(sc) as real) else Idle,
      g.armed)
  }

  /** The state at the start of a run: setup followed by a crash-style
      restart. */
  function NewGame(sc: Screen, heights: seq<int>): (g: GameState)
    requires ValidHeights(heights)
    ensures g.score == 0 && g.highScore == 0
    ensures g.winningScore == PointsPerCell * Sum(heights)
    ensures g.playing && g.armed && g.bomb.Idle?
    ensures g.plane == Start(sc)
    ensures WellFormed(g.towers) && AllAlive(g.towers) && Heights(g.towers) == heights
  {
    Restart(Setup(sc), sc, heights, false)
  }

  // ---------------------------------------------------------------------
  // Plane tick
  // ---------------------------------------------------------------------

  /** One plane tick: the plane moves, then a collision with any cell of the
      field crashes it (the game stops and restarts with a fresh score);
      failing that, a score at the target wins the level; failing that, the
      plane flies on. `heights` is the draw a restart would use. */
  function PlaneTick(g: GameState, sc: Screen, probe: Probe, heights: seq<int>): (t: Tick)
    requires ValidHeights(heights)
    ensures var p := Flight.Step(sc, g.plane);
            t.outcome == Crashed <==> AnyTouched(g.towers, At(probe, p.x, Altitude(sc, p.row)))
    ensures var p := Flight.Step(sc, g.plane);
            t.outcome == LevelWon <==>
              !AnyTouched(g.towers, At(probe, p.x, Altitude(sc, p.row))) && g.score >= g.winningScore
    ensures t.outcome == Flying ==> t.state == g.(plane := Flight.Step(sc, g.plane))
    ensures t.outcome == Crashed ==>
              t.state.score == 0 && t.state.winningScore == PointsPerCell * Sum(heights)
    ensures t.outcome == LevelWon ==>
              t.state.score == g.score && t.state.winningScore == g.winningScore + PointsPerCell * Sum(heights)
    ensures t.outcome != Flying ==>
              t.state.plane == Start(sc) && t.state.playing &&
              WellFormed(t.state.towers) && AllAlive(t.state.towers) && Heights(t.state.towers) == heights
    ensures t.state.highScore == g.highScore
    ensures t.state.armed == g.armed
    ensures t.state.bomb.Falling? <==> g.bomb.Falling?
    ensures t.outcome != Flying && t.state.bomb.Falling? ==>
              t.state.bomb == Falling(LeftEdge(sc), Top(sc) as real)
  {
    var p := Flight.Step(sc, g.plane);
    var moved := g.(plane := p);
    if FirstHit(g.towers, At(probe, p.x, Altitude(sc, p.row))).Some? then
      Tick(Crashed, Restart(moved.(playing := false), sc, heights, false))
    else if g.score >= g.winningScore then
      Tick(LevelWon, Restart(moved, sc, heights, true))
    else
      Tick(Flying, moved)
  }

  // ---------------------------------------------------------------------
  // Bomb drop
  // ---------------------------------------------------------------------

  /** End of a drop: the bomb is gone and the space key is bound again. */
  function StopBombDrop(g: GameState): (r: GameState)
    ensures r.bomb.Idle? && r.armed
    ensures r.score == g.score && r.highScore == g.highScore && r.winningScore == g.winningScore
    ensures r.towers == g.towers && r.plane == g.plane && r.playing == g.playing
  {
    g.(bomb := Idle, armed := true)
  }

  /** One tick of a falling bomb. It drops one stride; while the game is
      playing, the first cell it now touches is destroyed and scored. The
      drop ends on a hit, below the bottom of the playfield, or when the game
      is not playing; ending it rebinds the space key. */
  function BombStep(g: GameState, sc: Screen, probe: Probe): (r: GameState)
    requires g.bomb.Falling?
    ensures var y := g.bomb.y - BombStride;
            var touches := At(probe, g.bomb.x, y);
            var hit := g.playing && AnyTouched(g.towers, touches);
            && (hit ==> r == StopBombDrop(BombHit(g, FirstHit(g.towers, touches).value)))
            && (!hit ==> r.score == g.score && r.highScore == g.highScore && r.towers == g.towers)
            && (r.bomb.Falling? <==> !hit && g.playing && y >= Bottom(sc) as real)
            && (r.bomb.Falling? ==> r == g.(bomb := Falling(g.bomb.x, y)))
    ensures r.bomb.Idle? ==> r.armed
    ensures r.winningScore == g.winningScore && r.playing == g.playing && r.plane == g.plane
  {
    var x := g.bomb.x;
    var y := g.bomb.y - BombStride;
    var hit := if g.playing then FirstHit(g.towers, At(probe, x, y)) else None;
    var g1 := if hit.Some? then BombHit(g, hit.value) else g;
    if hit.Some? || y < Bottom(sc) as real || !g.playing then StopBombDrop(g1)
    else g1.(bomb := Falling(x, y))
  }

  /** The space key. While a drop is running the key is unbound and a press
      changes nothing, so at most one bomb falls at a time. Otherwise the key
      is unbound, a bomb appears at the plane and takes its first step at
      once. */
  function PressSpace(g: GameState, sc: Screen, probe: Probe): (r: GameState)
    ensures !g.armed ==> r == g
    ensures g.armed && r.bomb.Falling? ==>
              !r.armed && r.bomb == Falling(g.plane.x, Altitude(sc, g.plane.row) - BombStride)
    ensures g.armed && r.bomb.Idle? ==> r.armed
    ensures var y := Altitude(sc, g.plane.row) - BombStride;
            var touches := At(probe, g.plane.x, y);
            var hit := g.armed && g.playing && AnyTouched(g.towers, touches);
            && (hit ==> r == StopBombDrop(BombHit(g, FirstHit(g.towers, touches).value)))
            && (!hit ==> r.score == g.score && r.highScore == g.highScore && r.towers == g.towers)
            && (g.armed ==> (r.bomb.Falling? <==> !hit && g.playing && y >= Bottom(sc) as real))
    ensures r.bomb.Falling? ==> r.score == g.score && r.towers == g.towers
    ensures r.winningScore == g.winningScore && r.playing == g.playing && r.plane == g.plane
  {
    if !g.armed then g
    else BombStep(g.(armed := false, bomb := Falling(g.plane.x, Altitude(sc, g.plane.row))), sc, probe)
  }

  /** A drop left to run on its own, with no other tick in between. It always ends, with
      the space key bound again, and destroys at most one cell: either it
      scores nothing and leaves the field alone, or it scores one cell and
      destroys exactly that cell. */
  function Drop(g: GameState, sc: Screen, probe: Probe): (r: GameState)
    requires g.bomb.Falling?
    ensures r.bomb.Idle? && r.armed
    ensures r.score == g.score || r.score == g.score + PointsPerCell
    ensures r.score == g.score ==> r.towers == g.towers && r.highScore == g.highScore
    ensures r.score != g.score ==> exists s :: InField(g.towers, s) && r.towers == Destroy(g.towers, s)
    ensures r.highScore >= g.highScore
    ensures r.winningScore == g.winningScore && r.playing == g.playing && r.plane == g.plane
    decreases (g.bomb.y - Bottom(sc) as real).Floor
  {
    var next := BombStep(g, sc, probe);
    if next.bomb.Idle? then next
    else Drop(next, sc, probe)
  }
}
