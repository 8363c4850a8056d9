/** Whole runs of the game: any interleaving of plane ticks, bomb ticks and
    space-key presses, and the invariants every such run keeps. */
module Rules {
  import opened Field
  import opened Flight
  import opened Game

  /** One thing that can happen next. A plane tick carries the heights a
      restart during that tick would draw. */
  datatype Event = PlaneMoves(heights: seq<int>) | BombFalls | SpacePressed

  predicate Ready(e: Event) {
    e.PlaneMoves? ==> ValidHeights(e.heights)
  }

  predicate AllReady(es: seq<Event>) {
    forall i :: 0 <= i < |es| ==> Ready(es[i])
  }

  /** The state after one event. A bomb tick only arrives while a drop is
      running; with no bomb falling there is nothing to tick. */
  function Next(g: GameState, sc: Screen, geo: Geometry, e: Event): GameState
    requires Ready(e)
  {
    match e
    case PlaneMoves(heights) => PlaneTick(g, sc, geo.plane, heights).state
    case BombFalls => if g.bomb.Falling? then BombStep(g, sc, geo.bomb) else g
    case SpacePressed => PressSpace(g, sc, geo.bomb)
  }

  function Run(g: GameState, sc: Screen, geo: Geometry, es: seq<Event>): GameState
    requires AllReady(es)
    decreases |es|
  {
    if |es| == 0 then g
    else Run(Next(g, sc, geo, es[0]), sc, geo, es[1..])
  }

  /** What holds of the game between ticks once it has started: the score is
      a non-negative multiple of the cell value and never above the high
      score, the space key is bound exactly when no bomb falls, the game is
      playing, and the field has its generated shape. */
  predicate Inv(g: GameState) {
    && g.score >= 0
    && g.score % PointsPerCell == 0
    && g.highScore >= g.score
    && (g.armed <==> g.bomb.Idle?)
    && g.playing
    && WellFormed(g.towers)
  }

  /** The target is the score plus the value of every cell still standing. */
  predicate Ledger(g: GameState) {
    g.score + PointsPerCell * LiveCells(g.towers) == g.winningScore
  }

  /** A probe that never reaches a destroyed cell. In the game destroyed
      cells sit at x = -1000, far outside the plane's and the bomb's range
      (x between the left edge and one stride past the right edge). The real
      distance test would reach them near x = -1000, so the probe here stands
      for that test restricted to the x a bomb can have. */
  ghost predicate SparesWreckage(probe: Probe) {
    forall x, y, c :: probe(x, y, c) ==> c.alive
  }

  lemma NewGameInv(sc: Screen, heights: seq<int>)
    requires ValidHeights(heights)
    ensures Inv(NewGame(sc, heights)) && Ledger(NewGame(sc, heights))
  {
  }

  /** Every event keeps the invariant and never lowers the high score. */
  lemma NextInv(g: GameState, sc: Screen, geo: Geometry, e: Event)
    requires Inv(g) && Ready(e)
    ensures Inv(Next(g, sc, geo, e))
    ensures Next(g, sc, geo, e).highScore >= g.highScore
  {
    match e
    case PlaneMoves(heights) =>
    case BombFalls =>
      if g.bomb.Falling? {
        BombStepInv(g, sc, geo.bomb);
      }
    case SpacePressed =>
      if g.armed {
        BombStepInv(g.(armed := false, bomb := Falling(g.plane.x, Altitude(sc, g.plane.row))), sc, geo.bomb);
      }
  }

  lemma BombStepInv(g: GameState, sc: Screen, probe: Probe)
    requires g.bomb.Falling? && !g.armed
    requires g.score >= 0 && g.score % PointsPerCell == 0 && g.highScore >= g.score
    requires g.playing && WellFormed(g.towers)
    ensures Inv(BombStep(g, sc, probe))
    ensures BombStep(g, sc, probe).highScore >= g.highScore
  {
    var y := g.bomb.y - BombStride;
    var touches := At(probe, g.bomb.x, y);
    var r := BombStep(g, sc, probe);
    if AnyTouched(g.towers, touches) {
      var s := FirstHit(g.towers, touches).value;
      DestroyKeepsShape(g.towers, s);
      var h := BombHit(g, s);
      assert r == StopBombDrop(h);
      assert h.score == g.score + PointsPerCell && h.highScore >= h.score;
      assert WellFormed(h.towers);
    } else {
      assert r.score == g.score && r.highScore == g.highScore && r.towers == g.towers;
    }
  }

  /** Every event keeps the ledger, as long as the bomb cannot strike a
      destroyed cell. */
  lemma NextLedger(g: GameState, sc: Screen, geo: Geometry, e: Event)
    requires Inv(g) && Ledger(g) && Ready(e) && SparesWreckage(geo.bomb)
    ensures Ledger(Next(g, sc, geo, e))
  {
    match e
    case PlaneMoves(heights) =>
      var t := PlaneTick(g, sc, geo.plane, heights);
      if t.outcome == LevelWon {
        LiveAtMostTotal(g.towers);
      }
    case BombFalls =>
      if g.bomb.Falling? {
        BombStepLedger(g, sc, geo.bomb);
      }
    case SpacePressed =>
      if g.armed {
        BombStepLedger(g.(armed := false, bomb := Falling(g.plane.x, Altitude(sc, g.plane.row))), sc, geo.bomb);
      }
  }

  lemma BombStepLedger(g: GameState, sc: Screen, probe: Probe)
    requires g.bomb.Falling? && g.playing && Ledger(g) && SparesWreckage(probe)
    ensures Ledger(BombStep(g, sc, probe))
  {
    var y := g.bomb.y - BombStride;
    var touches := At(probe, g.bomb.x, y);
    if AnyTouched(g.towers, touches) {
      var s := FirstHit(g.towers, touches).value;
      assert probe(g.bomb.x, y, g.towers[s.tower][s.cell]);
      DestroyLive(g.towers, s);
    }
  }

  /** Any run from a state satisfying the invariant keeps it, and the high
      score never decreases along the way. */
  lemma {:induction false} RunInv(g: GameState, sc: Screen, geo: Geometry, es: seq<Event>)
    requires Inv(g) && AllReady(es)
    ensures Inv(Run(g, sc, geo, es))
    ensures Run(g, sc, geo, es).highScore >= g.highScore
    decreases |es|
  {
    if |es| > 0 {
      assert Ready(es[0]);
      NextInv(g, sc, geo, es[0]);
      assert AllReady(es[1..]) by {
        forall i | 0 <= i < |es[1..]|
          ensures Ready(es[1..][i])
        {
          assert es[1..][i] == es[i + 1];
        }
      }
      RunInv(Next(g, sc, geo, es[0]), sc, geo, es[1..]);
    }
  }

  lemma {:induction false} RunLedger(g: GameState, sc: Screen, geo: Geometry, es: seq<Event>)
    requires Inv(g) && Ledger(g) && AllReady(es) && SparesWreckage(geo.bomb)
    ensures Ledger(Run(g, sc, geo, es))
    decreases |es|
  {
    if |es| > 0 {
      assert Ready(es[0]);
      NextInv(g, sc, geo, es[0]);
      NextLedger(g, sc, geo, es[0]);
      assert AllReady(es[1..]) by {
        forall i | 0 <= i < |es[1..]|
          ensures Ready(es[1..][i])
        {
          assert es[1..][i] == es[i + 1];
        }
      }
      RunLedger(Next(g, sc, geo, es[0]), sc, geo, es[1..]);
    }
  }

  /** Every state reached from a new game keeps the invariant and the
      ledger: the score is a non-negative multiple of ten, at most the high
      score and at most the target. */
  lemma Reachable(sc: Screen, heights: seq<int>, geo: Geometry, es: seq<Event>)
    requires ValidHeights(heights) && AllReady(es) && SparesWreckage(geo.bomb)
    ensures var g := Run(NewGame(sc, heights), sc, geo, es);
            Inv(g) && Ledger(g) && 0 <= g.score <= g.winningScore
  {
    var g0 := NewGame(sc, heights);
    NewGameInv(sc, heights);
    RunInv(g0, sc, geo, es);
    RunLedger(g0, sc, geo, es);
  }

  /** With the ledger in place, a plane tick wins the level exactly when the
      plane is clear of the field and every cell has been destroyed. */
  lemma LevelWonIffCleared(g: GameState, sc: Screen, probe: Probe, heights: seq<int>)
    requires Inv(g) && Ledger(g) && ValidHeights(heights)
    ensures var p := Flight.Step(sc, g.plane);
            PlaneTick(g, sc, probe, heights).outcome == LevelWon <==>
              && !AnyTouched(g.towers, At(probe, p.x, Altitude(sc, p.row)))
              && forall i, l :: 0 <= i < |g.towers| && 0 <= l < |g.towers[i]| ==> !g.towers[i][l].alive
  {
    ClearedIffNoLive(g.towers);
  }

  /** Bombs only score while the game is playing: otherwise a bomb tick ends
      the drop and changes nothing else. */
  lemma NoHitsUnlessPlaying(g: GameState, sc: Screen, probe: Probe)
    requires g.bomb.Falling? && !g.playing
    ensures BombStep(g, sc, probe) == g.(bomb := Idle, armed := true)
  {
  }

  /** While a bomb falls, pressing space any number of times changes
      nothing: no second drop starts and the falling bomb is not moved. */
  lemma {:induction false} PressesDuringDrop(g: GameState, sc: Screen, geo: Geometry, n: nat)
    requires Inv(g) && g.bomb.Falling?
    ensures Run(g, sc, geo, seq(n, _ => SpacePressed)) == g
  {
    if n > 0 {
      var es := seq(n, _ => SpacePressed);
      assert es[0] == SpacePressed;
      assert es[1..] == seq(n - 1, _ => SpacePressed);
      PressesDuringDrop(g, sc, geo, n - 1);
    }
  }
}
